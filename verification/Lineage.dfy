/** Causal descent between revisions: which revision was replaced by, or merged into, which. */
module Lineage {
  import opened Records

  type Edges = set<(Revision, Revision)>

  ghost predicate IsPath(l: Edges, p: seq<Revision>) {
    forall k :: 0 <= k < |p| - 1 ==> (p[k], p[k + 1]) in l
  }

  ghost predicate PathBetween(l: Edges, p: seq<Revision>, x: Revision, y: Revision) {
    |p| >= 2 && p[0] == x && p[|p| - 1] == y && IsPath(l, p)
  }

  /** `y` came, in one write or more, from `x`. */
  ghost predicate Descends(l: Edges, x: Revision, y: Revision) {
    exists p :: PathBetween(l, p, x, y)
  }

  /** Every edge goes to a strictly higher counter. */
  ghost predicate Ascending(l: Edges) {
    forall e :: e in l ==> e.0.counter < e.1.counter
  }

  lemma EdgeDescends(l: Edges, x: Revision, y: Revision)
    requires (x, y) in l
    ensures Descends(l, x, y)
  {
    assert PathBetween(l, [x, y], x, y);
  }

  lemma DescendsTransitive(l: Edges, x: Revision, y: Revision, z: Revision)
    requires Descends(l, x, y) && Descends(l, y, z)
    ensures Descends(l, x, z)
  {
    var p :| PathBetween(l, p, x, y);
    var q :| PathBetween(l, q, y, z);
    var r := p + q[1..];
    assert PathBetween(l, r, x, z);
  }

  lemma DescendsMonotone(l: Edges, l': Edges, x: Revision, y: Revision)
    requires l <= l' && Descends(l, x, y)
    ensures Descends(l', x, y)
  {
    var p :| PathBetween(l, p, x, y);
    assert PathBetween(l', p, x, y);
  }

  lemma {:induction false} PathAscends(l: Edges, p: seq<Revision>, k: nat)
    requires Ascending(l) && IsPath(l, p) && 0 < k < |p|
    ensures p[0].counter < p[k].counter
  {
    assert (p[k - 1], p[k]) in l;
    if k > 1 {
      PathAscends(l, p, k - 1);
    }
  }

  /** Descent is acyclic: it strictly raises the counter. */
  lemma DescendsAscends(l: Edges, x: Revision, y: Revision)
    requires Ascending(l) && Descends(l, x, y)
    ensures x.counter < y.counter
  {
    var p :| PathBetween(l, p, x, y);
    PathAscends(l, p, |p| - 1);
  }
}
