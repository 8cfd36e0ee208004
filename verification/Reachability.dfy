/** Reachability in a finite graph given by its successor function: levels, distances, closure. */
module Reachability {

  function Image<N(!new)>(step: N -> set<N>, s: set<N>): set<N> {
    set n, c | n in s && c in step(n) :: c
  }

  /** The nodes within `k` steps of the seeds. */
  function Within<N(!new)>(step: N -> set<N>, seeds: set<N>, k: nat): set<N> {
    if k == 0 then seeds else Within(step, seeds, k - 1) + Image(step, Within(step, seeds, k - 1))
  }

  ghost predicate Closed<N(!new)>(step: N -> set<N>, s: set<N>) {
    Image(step, s) <= s
  }

  /** A chain of steps from a seed to `n`. */
  ghost predicate IsChain<N(!new)>(step: N -> set<N>, seeds: set<N>, p: seq<N>, n: N) {
    && p != [] && p[0] in seeds && p[|p| - 1] == n
    && forall i :: 0 <= i < |p| - 1 ==> p[i + 1] in step(p[i])
  }

  /** Levels are distances: a node is within `k` exactly when a chain of at most `k` steps leads to it. */
  lemma WithinIsDistance<N(!new)>(step: N -> set<N>, seeds: set<N>, k: nat, n: N)
    ensures n in Within(step, seeds, k) <==> exists p :: IsChain(step, seeds, p, n) && |p| <= k + 1
  {
    if n in Within(step, seeds, k) {
      var p := ChainTo(step, seeds, k, n);
    }
    forall p | IsChain(step, seeds, p, n) && |p| <= k + 1 ensures n in Within(step, seeds, k) {
      ChainStaysWithin(step, seeds, p, n, k);
    }
  }

  lemma {:induction false} ChainTo<N(!new)>(step: N -> set<N>, seeds: set<N>, k: nat, n: N) returns (p: seq<N>)
    requires n in Within(step, seeds, k)
    ensures IsChain(step, seeds, p, n) && |p| <= k + 1
  {
    if k == 0 {
      p := [n];
    } else if n in Within(step, seeds, k - 1) {
      p := ChainTo(step, seeds, k - 1, n);
    } else {
      var m :| m in Within(step, seeds, k - 1) && n in step(m);
      var q := ChainTo(step, seeds, k - 1, m);
      p := q + [n];
    }
  }

  lemma {:induction false} ChainStaysWithin<N(!new)>(step: N -> set<N>, seeds: set<N>, p: seq<N>, n: N, k: nat)
    requires IsChain(step, seeds, p, n) && |p| <= k + 1
    ensures n in Within(step, seeds, k)
    decreases |p|, k
  {
    if |p| == 1 {
      WithinGrows(step, seeds, 0, k);
    } else {
      var q := p[..|p| - 1];
      ChainStaysWithin(step, seeds, q, q[|q| - 1], k - 1);
      assert n in Image(step, Within(step, seeds, k - 1));
    }
  }

  lemma {:induction false} WithinGrows<N(!new)>(step: N -> set<N>, seeds: set<N>, j: nat, k: nat)
    requires j <= k
    ensures Within(step, seeds, j) <= Within(step, seeds, k)
  {
    if j < k {
      WithinGrows(step, seeds, j, k - 1);
    }
  }

  /** Once a level is closed, every later level is that level. */
  lemma {:induction false} ClosedIsFinal<N(!new)>(step: N -> set<N>, seeds: set<N>, d: nat, k: nat)
    requires Closed(step, Within(step, seeds, d)) && d <= k
    ensures Within(step, seeds, k) == Within(step, seeds, d)
  {
    hide Within;
    if d < k {
      ClosedIsFinal(step, seeds, d, k - 1);
      NextLevel(step, seeds, k - 1);
    }
  }

  lemma NextLevel<N(!new)>(step: N -> set<N>, seeds: set<N>, k: nat)
    ensures Within(step, seeds, k + 1) == Within(step, seeds, k) + Image(step, Within(step, seeds, k))
  {
  }

  /** A closed level holds everything reachable, at whatever distance. */
  lemma ClosedHoldsAll<N(!new)>(step: N -> set<N>, seeds: set<N>, d: nat, k: nat)
    requires Closed(step, Within(step, seeds, d))
    ensures Within(step, seeds, k) <= Within(step, seeds, d)
  {
    if k <= d {
      WithinGrows(step, seeds, k, d);
    } else {
      ClosedIsFinal(step, seeds, d, k);
    }
  }

  ghost predicate Reaches<N(!new)>(step: N -> set<N>, seeds: set<N>, n: N) {
    exists k: nat :: n in Within(step, seeds, k)
  }

  /** A map on nodes that carries steps to steps, or to the seeds, carries levels into a closed set. */
  lemma {:induction false} LevelsMapInto<N(!new), M(!new)>(
      step: N -> set<N>, seeds: set<N>, k: nat, f: N -> M, closed: set<M>)
    requires forall n :: n in seeds ==> f(n) in closed
    requires forall n, c :: f(n) in closed && c in step(n) ==> f(c) in closed
    ensures forall n :: n in Within(step, seeds, k) ==> f(n) in closed
  {
    if k > 0 {
      LevelsMapInto(step, seeds, k - 1, f, closed);
    }
  }
}
