/** The bounded list of revisions a record descends from, and the fold that builds it. */
module Ancestors {
  import opened Wrappers
  import opened Records

  ghost predicate Descending(s: seq<Revision>) {
    forall i, j :: 0 <= i < j < |s| ==> Newer(s[i], s[j])
  }

  function Elems(s: seq<Revision>): set<Revision> {
    set r | r in s
  }

  lemma ElemsConcat(s: seq<Revision>, t: seq<Revision>)
    ensures Elems(s + t) == Elems(s) + Elems(t)
  {
  }

  lemma ElemsSplit(s: seq<Revision>)
    requires s != []
    ensures Elems(s) == {s[0]} + Elems(s[1..])
  {
    ElemsConcat([s[0]], s[1..]);
    assert [s[0]] + s[1..] == s;
  }

  lemma ElemsPush(s: seq<Revision>, i: nat)
    requires i < |s|
    ensures Elems(s[..i + 1]) == Elems(s[..i]) + {s[i]}
  {
    assert s[..i + 1] == s[..i] + [s[i]];
    ElemsConcat(s[..i], [s[i]]);
  }

  lemma {:induction false} DescendingCardinality(s: seq<Revision>)
    requires Descending(s)
    ensures |Elems(s)| == |s|
  {
    if s != [] {
      DescendingCardinality(s[1..]);
      assert Elems(s) == {s[0]} + Elems(s[1..]);
      assert forall j :: 0 < j < |s| ==> Newer(s[0], s[j]);
    }
  }

  // ---- the fold as a function ----

  /** Insert into a newest-first list, dropping a duplicate. */
  function InsertDesc(r: Revision, s: seq<Revision>): (t: seq<Revision>)
    ensures Elems(t) == {r} + Elems(s)
    ensures Descending(s) ==> Descending(t)
  {
    if s == [] then [r]
    else if r == s[0] then s
    else if Newer(r, s[0]) then
      ElemsConcat([r], s);
      [r] + s
    else
      var rest := InsertDesc(r, s[1..]);
      ElemsConcat([s[0]], rest);
      ElemsSplit(s);
      assert Descending(s) ==> Descending([s[0]] + rest) by {
        NewerIsTotal(r, s[0]);
        if Descending(s) {
          forall x | x in rest ensures Newer(s[0], x) {
            assert x in Elems(rest);
          }
        }
      }
      [s[0]] + rest
  }

  function Canonical(rs: seq<Revision>): (t: seq<Revision>)
    ensures Elems(t) == Elems(rs)
    ensures Descending(t)
  {
    if rs == [] then [] else
    assert Elems(rs) == {rs[0]} + Elems(rs[1..]);
    InsertDesc(rs[0], Canonical(rs[1..]))
  }

  function Without(s: seq<Revision>, r: Revision): (t: seq<Revision>)
    ensures Elems(t) == Elems(s) - {r}
    ensures Descending(s) ==> Descending(t)
  {
    if s == [] then [] else
    var rest := Without(s[1..], r);
    assert Elems(s) == {s[0]} + Elems(s[1..]);
    if s[0] == r then rest
    else
      assert Elems([s[0]] + rest) == {s[0]} + Elems(rest);
      assert Descending(s) ==> Descending([s[0]] + rest) by {
        if Descending(s) {
          forall x | x in rest ensures Newer(s[0], x) {
            assert x in Elems(rest);
          }
        }
      }
      [s[0]] + rest
  }

  function Truncate(s: seq<Revision>, cap: nat): seq<Revision> {
    if |s| <= cap then s else s[..cap]
  }

  /** What the stored record contributes: its own revision and its chain. */
  function Chain(current: Option<Record>): seq<Revision> {
    if current.None? then [] else [current.value.revision] + current.value.ancestors
  }

  /** The ancestor list persisted for a record whose revision is `stored`. */
  function Fold(stored: Revision, incoming: seq<Revision>, current: Option<Record>, cap: nat): seq<Revision> {
    Truncate(Without(Canonical(incoming + Chain(current)), stored), cap)
  }

  // ---- what the fold is ----

  /** `f` lists, newest first, the `cap` greatest members of `pool` (all of them if they fit). */
  ghost predicate IsGreatest(f: seq<Revision>, pool: set<Revision>, cap: nat) {
    && Descending(f)
    && |f| <= cap
    && Elems(f) <= pool
    && (forall x, y :: x in pool - Elems(f) && y in f ==> Newer(y, x))
    && (pool <= Elems(f) || |f| == cap)
  }

  ghost function Pool(stored: Revision, incoming: seq<Revision>, current: Option<Record>): set<Revision> {
    Elems(incoming) + Elems(Chain(current)) - {stored}
  }

  lemma TruncateIsGreatest(s: seq<Revision>, cap: nat)
    requires Descending(s)
    ensures IsGreatest(Truncate(s, cap), Elems(s), cap)
  {
    var f := Truncate(s, cap);
    forall x, y | x in Elems(s) - Elems(f) && y in f ensures Newer(y, x) {
      var i :| 0 <= i < |s| && s[i] == x;
      var j :| 0 <= j < |f| && f[j] == y;
      assert i < |f| ==> f[i] == x;
    }
  }

  /** Two lists of the greatest members of one pool are equal. */
  lemma GreatestUnique(f: seq<Revision>, g: seq<Revision>, pool: set<Revision>, cap: nat)
    requires IsGreatest(f, pool, cap) && IsGreatest(g, pool, cap)
    ensures f == g
  {
    GreatestSubset(f, g, pool, cap);
    GreatestSubset(g, f, pool, cap);
    SameElems(f, g);
  }

  lemma GreatestSubset(f: seq<Revision>, g: seq<Revision>, pool: set<Revision>, cap: nat)
    requires IsGreatest(f, pool, cap) && IsGreatest(g, pool, cap)
    ensures Elems(f) <= Elems(g)
  {
    DescendingCardinality(f);
    DescendingCardinality(g);
    if Elems(g) < Elems(f) {
      SubsetSize(Elems(g), Elems(f));
    } else if !(Elems(g) <= Elems(f)) {
      var y :| y in Elems(g) && y !in Elems(f);
      forall x | x in Elems(f) ensures x in Elems(g) {
        NewerIsTotal(x, y);
      }
    }
  }

  lemma SubsetSize(a: set<Revision>, b: set<Revision>)
    requires a < b
    ensures |a| < |b|
  {
    assert b == a + (b - a);
  }

  lemma {:induction false} SameElems(s: seq<Revision>, t: seq<Revision>)
    requires Descending(s) && Descending(t) && Elems(s) == Elems(t)
    ensures s == t
  {
    assert s != [] ==> s[0] in Elems(t);
    assert t != [] ==> t[0] in Elems(s);
    if s != [] {
      NewerIsTotal(s[0], t[0]);
      assert s[0] == t[0];
      assert Elems(s) == {s[0]} + Elems(s[1..]) && Elems(t) == {t[0]} + Elems(t[1..]);
      forall j | 0 < j < |s| ensures s[j] != s[0] { NewerIsTotal(s[0], s[j]); }
      forall j | 0 < j < |t| ensures t[j] != t[0] { NewerIsTotal(t[0], t[j]); }
      assert Elems(s[1..]) == Elems(s) - {s[0]};
      assert Elems(t[1..]) == Elems(t) - {t[0]};
      SameElems(s[1..], t[1..]);
    }
  }

  /** The fold is the only newest-first list of the `cap` greatest revisions gathered. */
  lemma FoldIsGreatest(stored: Revision, incoming: seq<Revision>, current: Option<Record>, cap: nat)
    ensures IsGreatest(Fold(stored, incoming, current, cap), Pool(stored, incoming, current), cap)
    ensures stored !in Fold(stored, incoming, current, cap)
    ensures forall f :: IsGreatest(f, Pool(stored, incoming, current), cap)
                    ==> f == Fold(stored, incoming, current, cap)
  {
    var all := Without(Canonical(incoming + Chain(current)), stored);
    var pool := Pool(stored, incoming, current);
    ElemsConcat(incoming, Chain(current));
    assert Elems(all) == pool;
    TruncateIsGreatest(all, cap);
    var f0 := Fold(stored, incoming, current, cap);
    assert stored !in Elems(f0);
    forall f | IsGreatest(f, pool, cap) ensures f == f0 {
      GreatestUnique(f, f0, pool, cap);
    }
  }

  /** Equal pools give equal folds, whatever the order and repetition of the inputs. */
  lemma FoldDependsOnPool(stored: Revision, in1: seq<Revision>, cur1: Option<Record>,
                          in2: seq<Revision>, cur2: Option<Record>, cap: nat)
    requires Pool(stored, in1, cur1) == Pool(stored, in2, cur2)
    ensures Fold(stored, in1, cur1, cap) == Fold(stored, in2, cur2, cap)
  {
    FoldIsGreatest(stored, in1, cur1, cap);
    FoldIsGreatest(stored, in2, cur2, cap);
  }

  /** With room for the whole pool nothing is dropped. */
  lemma FoldLossless(stored: Revision, incoming: seq<Revision>, current: Option<Record>, cap: nat)
    requires |Pool(stored, incoming, current)| <= cap
    ensures Elems(Fold(stored, incoming, current, cap)) == Pool(stored, incoming, current)
  {
    FoldIsGreatest(stored, incoming, current, cap);
    var f := Fold(stored, incoming, current, cap);
    var pool := Pool(stored, incoming, current);
    DescendingCardinality(f);
    if Elems(f) != pool {
      SubsetSize(Elems(f), pool);
    }
  }

  /** A smaller cap keeps a prefix of what a larger cap keeps. */
  lemma FoldPrefix(stored: Revision, incoming: seq<Revision>, current: Option<Record>, cap1: nat, cap2: nat)
    requires cap1 <= cap2
    ensures Fold(stored, incoming, current, cap1) <= Fold(stored, incoming, current, cap2)
  {
  }

  // ---- the fold as the loop over a buffer ----

  ghost predicate NonIncreasing(s: seq<Revision>) {
    forall i, j :: 0 <= i < j < |s| ==> !Newer(s[j], s[i])
  }

  /** The sort of the buffer: an insertion sort by counter then hash, newest first. */
  method SortNewestFirst(s: seq<Revision>) returns (t: seq<Revision>)
    ensures NonIncreasing(t)
    ensures multiset(t) == multiset(s)
  {
    t := [];
    for i := 0 to |s|
      invariant NonIncreasing(t)
      invariant multiset(t) == multiset(s[..i])
    {
      var k := 0;
      while k < |t| && !Newer(s[i], t[k])
        invariant 0 <= k <= |t|
        invariant forall m :: 0 <= m < k ==> !Newer(s[i], t[m])
      {
        k := k + 1;
      }
      assert s[..i + 1] == s[..i] + [s[i]];
      assert t == t[..k] + t[k..];
      InsertKeepsOrder(t, k, s[i]);
      t := t[..k] + [s[i]] + t[k..];
    }
    assert s[..|s|] == s;
  }

  lemma NotNewerIsTransitive(a: Revision, b: Revision, c: Revision)
    requires !Newer(b, a) && !Newer(c, b)
    ensures !Newer(c, a)
  {
  }

  lemma InsertKeepsOrder(t: seq<Revision>, k: nat, x: Revision)
    requires NonIncreasing(t) && k <= |t|
    requires forall m :: 0 <= m < k ==> !Newer(x, t[m])
    requires k < |t| ==> Newer(x, t[k])
    ensures NonIncreasing(t[..k] + [x] + t[k..])
  {
    forall m | k <= m < |t| ensures !Newer(t[m], x) {
      NewerIsTotal(x, t[k]);
      if k < m {
        NotNewerIsTransitive(x, t[k], t[m]);
      }
    }
    NonIncreasingConcat(t[..k], [x]);
    NonIncreasingConcat(t[..k] + [x], t[k..]);
  }

  lemma NonIncreasingConcat(s: seq<Revision>, t: seq<Revision>)
    requires NonIncreasing(s) && NonIncreasing(t)
    requires forall i, j :: 0 <= i < |s| && 0 <= j < |t| ==> !Newer(t[j], s[i])
    ensures NonIncreasing(s + t)
  {
  }

  /** Drop consecutive repeats of a sorted buffer. */
  method Dedup(sorted: seq<Revision>) returns (deduped: seq<Revision>)
    requires NonIncreasing(sorted)
    ensures Descending(deduped) && Elems(deduped) == Elems(sorted)
  {
    deduped := [];
    for i := 0 to |sorted|
      invariant Descending(deduped)
      invariant Elems(deduped) == Elems(sorted[..i])
      invariant deduped != [] <==> i != 0
      invariant i != 0 ==> deduped[|deduped| - 1] == sorted[i - 1]
    {
      ElemsPush(sorted, i);
      if deduped == [] || deduped[|deduped| - 1] != sorted[i] {
        if deduped != [] {
          NewerIsTotal(deduped[|deduped| - 1], sorted[i]);
        }
        ElemsConcat(deduped, [sorted[i]]);
        deduped := deduped + [sorted[i]];
      }
    }
    assert sorted[..|sorted|] == sorted;
  }

  /** Retain everything but the record's own revision. */
  method RetainOthers(deduped: seq<Revision>, stored: Revision) returns (retained: seq<Revision>)
    requires Descending(deduped)
    ensures Descending(retained) && Elems(retained) == Elems(deduped) - {stored}
  {
    retained := [];
    for i := 0 to |deduped|
      invariant Descending(retained)
      invariant Elems(retained) == Elems(deduped[..i]) - {stored}
    {
      ElemsPush(deduped, i);
      if deduped[i] != stored {
        ElemsConcat(retained, [deduped[i]]);
        forall x | x in retained ensures Newer(x, deduped[i]) {
          assert x in Elems(retained);
        }
        retained := retained + [deduped[i]];
      }
    }
    assert deduped[..|deduped|] == deduped;
  }

  /** Gather, sort, dedup, retain, truncate. */
  method FoldAncestors(stored: Revision, incoming: seq<Revision>, current: Option<Record>, cap: nat)
    returns (folded: seq<Revision>)
    ensures folded == Fold(stored, incoming, current, cap)
  {
    var gathered := incoming + Chain(current);
    var sorted := SortNewestFirst(gathered);
    SameElements(sorted, gathered);
    var deduped := Dedup(sorted);
    var retained := RetainOthers(deduped, stored);
    folded := if |retained| <= cap then retained else retained[..cap];
    TruncateIsGreatest(retained, cap);
    ElemsConcat(incoming, Chain(current));
    FoldIsGreatest(stored, incoming, current, cap);
  }

  lemma SameElements(s: seq<Revision>, t: seq<Revision>)
    requires multiset(s) == multiset(t)
    ensures Elems(s) == Elems(t)
  {
    forall r ensures r in s <==> r in t {
      assert r in s <==> r in multiset(s);
      assert r in t <==> r in multiset(t);
    }
  }
}
