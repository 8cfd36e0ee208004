/** Gather then scatter: syncing neighbours up a line of stores and back down converges them all. */
module Sweep {
  import opened Wrappers
  import opened Records
  import opened Ancestors
  import opened Planners
  import opened Sync
  import opened Staleness

  type Line = seq<Option<Record>>

  /** Reconcile store `i` with store `i + 1`, undisturbed. */
  function SyncPair(m: Merger, st: Line, caps: seq<nat>, i: nat): Line
    requires i + 1 < |st| == |caps|
  {
    st[i := AfterA(m, st[i], st[i + 1], caps[i])][i + 1 := AfterB(m, st[i], st[i + 1], caps[i + 1])]
  }

  /** After syncing the first `k` neighbouring pairs, in order. */
  function Gather(m: Merger, st: Line, caps: seq<nat>, k: nat): (r: Line)
    requires k < |st| == |caps|
    ensures |r| == |st|
  {
    if k == 0 then st else SyncPair(m, Gather(m, st, caps, k - 1), caps, k - 1)
  }

  /** After gathering over the whole line and then syncing back down `k` pairs. */
  function Scatter(m: Merger, st: Line, caps: seq<nat>, k: nat): (r: Line)
    requires k < |st| == |caps|
    ensures |r| == |st|
  {
    if k == 0 then Gather(m, st, caps, |st| - 1)
    else SyncPair(m, Scatter(m, st, caps, k - 1), caps, |st| - 1 - k)
  }

  /** Absent, or a live record of a kind that always merges, heading its own chain. */
  ghost predicate Mergeable(r: Option<Record>) {
    r.Some? ==>
      && !r.value.IsTombstone() && Headed(r.value)
      && (MergeClassOf(r.value.kind) == AppendOnly || MergeClassOf(r.value.kind) == Derived)
  }

  function Known(r: Option<Record>): set<Revision> {
    Elems(Chain(r))
  }

  /** What `y` holds is what `x` holds or descends from it, and says so. */
  ghost predicate Follows(x: Option<Record>, y: Option<Record>) {
    x.Some? ==> y.Some? && x.value.revision in Known(y)
  }

  lemma KnownSplits(r: Record)
    ensures Known(Some(r)) == {r.revision} + Elems(r.ancestors)
  {
    ElemsConcat([r.revision], r.ancestors);
  }

  lemma FoldKeepsAll(w: Record, current: Option<Record>, cap: nat, pool: set<Revision>)
    requires Elems(w.ancestors) <= pool && Known(current) <= pool && |pool| <= cap
    ensures var f := Fold(w.revision, w.ancestors, current, cap);
            Descending(f) && Elems(f) == Elems(w.ancestors) + Known(current) - {w.revision}
  {
    var p := Pool(w.revision, w.ancestors, current);
    assert p <= pool;
    if p != pool { SubsetSize(p, pool); }
    FoldLossless(w.revision, w.ancestors, current, cap);
    FoldIsGreatest(w.revision, w.ancestors, current, cap);
  }

  lemma LowerElemsAreHeaded(r: Record)
    requires Descending(r.ancestors)
    requires forall x :: x in Elems(r.ancestors) ==> x.counter < r.revision.counter
    ensures Headed(r)
  {
    forall x | x in r.ancestors ensures x.counter < r.revision.counter {
      assert x in Elems(r.ancestors);
    }
  }

  /** Storing `w` over `current` with room for everything drops nothing. */
  lemma StoreLosesNothing(w: Record, current: Option<Record>, cap: nat, pool: set<Revision>)
    requires Elems(w.ancestors) <= pool && Known(current) <= pool && |pool| <= cap
    requires Mergeable(Some(w))
    requires forall x :: x in Known(current) && x != w.revision ==> x.counter < w.revision.counter
    ensures var r := AfterRaw(current, w, RevisionOf(current), cap);
            && r.Some? && r.value.revision == w.revision && r.value.kind == w.kind
            && Known(r) == {w.revision} + Elems(w.ancestors) + Known(current)
            && Mergeable(r)
  {
    NamedWriteCommits(current, w, cap);
    FoldKeepsAll(w, current, cap, pool);
    var r := AfterRaw(current, w, RevisionOf(current), cap).value;
    KnownSplits(r);
    LowerElemsAreHeaded(r);
  }

  lemma HeadedKnown(r: Record)
    requires Headed(r)
    ensures forall x :: x in Known(Some(r)) ==> x == r.revision || x.counter < r.revision.counter
  {
    KnownSplits(r);
  }

  lemma DivergedDecision(m: Merger, a: Record, b: Record)
    requires Mergeable(Some(a)) && Mergeable(Some(b)) && Relate(a, b) == Diverged
    ensures var d := Decide(m, Some(a), Some(b));
            && d.WriteBoth? && d.record.kind == a.kind
            && d.record.ancestors == ReconciledAncestors(d.record.revision, a, b, LosslessCap(a, b))
            && d.record.revision.counter > a.revision.counter
            && d.record.revision.counter > b.revision.counter
  {
  }

  lemma ChainsPool(stored: Revision, a: Record, b: Record)
    requires forall x :: x in Known(Some(a)) + Known(Some(b)) ==> x.counter < stored.counter
    ensures Pool(stored, BothChains(a, b), None) == Known(Some(a)) + Known(Some(b))
  {
    assert BothChains(a, b) == Chain(Some(a)) + Chain(Some(b));
    ElemsConcat(Chain(Some(a)), Chain(Some(b)));
    assert Elems(Chain(None)) == {};
  }

  lemma ReconciledKnowsBoth(stored: Revision, a: Record, b: Record)
    requires Headed(a) && Headed(b)
    requires stored.counter > a.revision.counter && stored.counter > b.revision.counter
    ensures var l := ReconciledAncestors(stored, a, b, LosslessCap(a, b));
            && Descending(l) && Elems(l) == Known(Some(a)) + Known(Some(b))
    ensures forall x :: x in Known(Some(a)) + Known(Some(b)) ==> x.counter < stored.counter
  {
    HeadedKnown(a);
    HeadedKnown(b);
    var both := BothChains(a, b);
    ChainsPool(stored, a, b);
    BothChainsFit(stored, a, b);
    FoldLossless(stored, both, None, LosslessCap(a, b));
    FoldIsGreatest(stored, both, None, LosslessCap(a, b));
  }

  /** The merged record knows exactly what its two sides knew. */
  lemma MergedKnowsBoth(m: Merger, a: Record, b: Record)
    requires Mergeable(Some(a)) && Mergeable(Some(b)) && Relate(a, b) == Diverged
    ensures var d := Decide(m, Some(a), Some(b));
            && d.WriteBoth?
            && Elems(d.record.ancestors) == Known(Some(a)) + Known(Some(b))
            && Mergeable(Some(d.record))
            && (forall x :: x in Known(Some(a)) + Known(Some(b)) ==> x.counter < d.record.revision.counter)
  {
    DivergedDecision(m, a, b);
    var w := Decide(m, Some(a), Some(b)).record;
    ReconciledKnowsBoth(w.revision, a, b);
    LowerElemsAreHeaded(w);
  }

  /** Everything one pair's sync can know, given that `known` covered both sides. */
  function Grown(m: Merger, ra: Option<Record>, rb: Option<Record>, known: set<Revision>): set<Revision> {
    var d := Decide(m, ra, rb);
    if d.WriteBoth? then known + {d.record.revision} else known
  }

  ghost predicate PairResult(ra: Option<Record>, rb: Option<Record>, a: Option<Record>, b: Option<Record>,
                             known: set<Revision>)
  {
    && Mergeable(a) && Mergeable(b) && Known(a) <= known && Known(b) <= known
    && RevisionOf(a) == RevisionOf(b) && Follows(ra, a) && Follows(rb, b)
    && (ra.Some? ==> Known(ra) <= Known(a))
  }

  lemma DivergedPair(m: Merger, a: Record, b: Record, capA: nat, capB: nat, known: set<Revision>)
    requires Mergeable(Some(a)) && Mergeable(Some(b)) && Relate(a, b) == Diverged
    requires Known(Some(a)) <= known && Known(Some(b)) <= known && |known| <= capA && |known| <= capB
    ensures PairResult(Some(a), Some(b), AfterA(m, Some(a), Some(b), capA), AfterB(m, Some(a), Some(b), capB),
                       Grown(m, Some(a), Some(b), known))
  {
    MergedKnowsBoth(m, a, b);
    var w := Decide(m, Some(a), Some(b)).record;
    StoreLosesNothing(w, Some(a), capA, known);
    StoreLosesNothing(w, Some(b), capB, known);
    KnownSplits(a);
    KnownSplits(b);
  }

  lemma BehindPair(m: Merger, a: Record, b: Record, cap: nat, known: set<Revision>)
    requires Mergeable(Some(a)) && Mergeable(Some(b)) && a.revision in b.ancestors
    requires Known(Some(a)) <= known && Known(Some(b)) <= known && |known| <= cap
    ensures var r := AfterRaw(Some(a), b, Some(a.revision), cap);
            && r.Some? && r.value.revision == b.revision && Mergeable(r)
            && Known(r) == Known(Some(a)) + Known(Some(b))
  {
    HeadedKnown(a);
    KnownSplits(b);
    StoreLosesNothing(b, Some(a), cap, known);
  }

  lemma CopiedPair(b: Record, cap: nat, known: set<Revision>)
    requires Mergeable(Some(b)) && Known(Some(b)) <= known && |known| <= cap
    ensures var r := AfterRaw(None, b, None, cap);
            r.Some? && r.value.revision == b.revision && Mergeable(r) && Known(r) == Known(Some(b))
  {
    KnownSplits(b);
    assert Known(None) == {};
    StoreLosesNothing(b, None, cap, known);
  }

  /** One pair: both sides end on one revision that what each held is part of. */
  lemma PairSyncs(m: Merger, ra: Option<Record>, rb: Option<Record>, capA: nat, capB: nat, known: set<Revision>)
    requires Mergeable(ra) && Mergeable(rb) && Known(ra) <= known && Known(rb) <= known
    requires |known| <= capA && |known| <= capB
    ensures PairResult(ra, rb, AfterA(m, ra, rb, capA), AfterB(m, ra, rb, capB), Grown(m, ra, rb, known))
  {
    if ra.Some? { KnownSplits(ra.value); }
    if rb.Some? { KnownSplits(rb.value); }
    if ra.Some? && rb.Some? {
      match Relate(ra.value, rb.value)
      case InSync =>
      case AAhead => BehindPair(m, rb.value, ra.value, capB, known);
      case BAhead => BehindPair(m, ra.value, rb.value, capA, known);
      case Diverged => DivergedPair(m, ra.value, rb.value, capA, capB, known);
    } else if ra.Some? {
      CopiedPair(ra.value, capB, known);
    } else if rb.Some? {
      CopiedPair(rb.value, capA, known);
    }
  }

  ghost predicate Covered(st: Line, known: set<Revision>) {
    forall j :: 0 <= j < |st| ==> Mergeable(st[j]) && Known(st[j]) <= known
  }

  ghost predicate Roomy(caps: seq<nat>, n: nat) {
    forall j :: 0 <= j < |caps| ==> n <= caps[j]
  }

  /** The first `k + 1` stores are linked left to right, the last two of them on one revision. */
  ghost predicate Gathered(r: Line, k: nat)
    requires k < |r|
  {
    && (forall j :: 0 <= j < k ==> Follows(r[j], r[j + 1]))
    && (k > 0 ==> RevisionOf(r[k - 1]) == RevisionOf(r[k]))
  }

  lemma FollowsEqual(x: Option<Record>, y: Option<Record>, z: Option<Record>)
    requires RevisionOf(x) == RevisionOf(y) && Follows(y, z)
    ensures Follows(x, z)
  {
  }

  lemma EqualFollows(x: Option<Record>, y: Option<Record>)
    requires RevisionOf(x) == RevisionOf(y)
    ensures Follows(x, y)
  {
    if y.Some? { KnownSplits(y.value); }
  }

  lemma GatherStep(m: Merger, r0: Line, caps: seq<nat>, k: nat, known: set<Revision>)
    requires k + 1 < |r0| == |caps| && Covered(r0, known) && Roomy(caps, |known|) && Gathered(r0, k)
    ensures Gathered(SyncPair(m, r0, caps, k), k + 1)
    ensures Covered(SyncPair(m, r0, caps, k), Grown(m, r0[k], r0[k + 1], known))
  {
    var r := SyncPair(m, r0, caps, k);
    PairSyncs(m, r0[k], r0[k + 1], caps[k], caps[k + 1], known);
    EqualFollows(r[k], r[k + 1]);
    if k > 0 {
      FollowsEqual(r0[k - 1], r0[k], r[k]);
    }
    forall j | 0 <= j < k + 1 ensures Follows(r[j], r[j + 1]) {
      if j < k - 1 { assert Follows(r0[j], r0[j + 1]); }
    }
  }

  lemma GrownSize(m: Merger, ra: Option<Record>, rb: Option<Record>, known: set<Revision>)
    ensures |Grown(m, ra, rb, known)| <= |known| + 1
  {
  }

  /** What is known once the first `k` pairs have been synced: one revision more for each that merged. */
  function GrownBy(m: Merger, st: Line, caps: seq<nat>, k: nat, known: set<Revision>): set<Revision>
    requires k < |st| == |caps|
  {
    if k == 0 then known
    else
      var r0 := Gather(m, st, caps, k - 1);
      Grown(m, r0[k - 1], r0[k], GrownBy(m, st, caps, k - 1, known))
  }

  /** What is known grows by at most one revision a pair. */
  lemma {:induction false} GrownBySize(m: Merger, st: Line, caps: seq<nat>, k: nat, known: set<Revision>)
    requires k < |st| == |caps|
    ensures |GrownBy(m, st, caps, k, known)| <= |known| + k
  {
    hide Gather;
    if k > 0 {
      GrownBySize(m, st, caps, k - 1, known);
      var r0 := Gather(m, st, caps, k - 1);
      GrownSize(m, r0[k - 1], r0[k], GrownBy(m, st, caps, k - 1, known));
    }
  }

  lemma {:induction false} GrownByGrows(m: Merger, st: Line, caps: seq<nat>, j: nat, k: nat, known: set<Revision>)
    requires j <= k < |st| == |caps|
    ensures GrownBy(m, st, caps, j, known) <= GrownBy(m, st, caps, k, known)
    ensures |GrownBy(m, st, caps, j, known)| <= |GrownBy(m, st, caps, k, known)|
    decreases k
  {
    hide Gather, Decide;
    if j < k {
      GrownByGrows(m, st, caps, j, k - 1, known);
      SubsetCardinality(GrownBy(m, st, caps, j, known), GrownBy(m, st, caps, k, known));
    }
  }

  lemma SubsetCardinality(a: set<Revision>, b: set<Revision>)
    requires a <= b
    ensures |a| <= |b|
  {
    if a != b { SubsetSize(a, b); }
  }

  lemma {:induction false} GatherLinks(m: Merger, st: Line, caps: seq<nat>, k: nat, known: set<Revision>)
    requires k < |st| == |caps| && Covered(st, known) && Roomy(caps, |GrownBy(m, st, caps, k, known)|)
    ensures Covered(Gather(m, st, caps, k), GrownBy(m, st, caps, k, known))
    ensures Gathered(Gather(m, st, caps, k), k)
  {
    hide Covered, Gathered, SyncPair, Decide;
    if k == 0 {
      GatheredAtStart(st);
    } else {
      GrownByGrows(m, st, caps, k - 1, k, known);
      GatherLinks(m, st, caps, k - 1, known);
      GatherStep(m, Gather(m, st, caps, k - 1), caps, k - 1, GrownBy(m, st, caps, k - 1, known));
    }
  }

  lemma GatheredAtStart(st: Line)
    requires st != []
    ensures Gathered(st, 0)
  {
  }

  /** The decision of a pair that only copies or fast-forwards downwards, or does nothing. */
  ghost predicate OnlyDownwards(d: Decision) {
    d.Leave? || d.CopyToA? || d.OverwriteA?
  }

  /** What the way down does to a pair: at most a copy or a fast-forward, and nothing new is known. */
  ghost predicate GoesDown(m: Merger, ra: Option<Record>, rb: Option<Record>, capA: nat, capB: nat,
                           known: set<Revision>) {
    && OnlyDownwards(Decide(m, ra, rb))
    && AfterB(m, ra, rb, capB) == rb
    && var a := AfterA(m, ra, rb, capA);
    RevisionOf(a) == RevisionOf(rb) && Mergeable(a) && Known(a) <= known && Known(ra) <= Known(a)
  }

  /** A pair of which one is behind: the record ahead overwrites it, and the other side stays. */
  lemma BehindIsOverwritten(m: Merger, a: Record, b: Record, capA: nat, capB: nat)
    requires a.revision in b.ancestors && a.revision != b.revision && b.revision !in a.ancestors
    ensures Decide(m, Some(a), Some(b)) == OverwriteA(b)
    ensures AfterA(m, Some(a), Some(b), capA) == AfterRaw(Some(a), b, Some(a.revision), capA)
    ensures AfterB(m, Some(a), Some(b), capB) == Some(b)
  {
  }

  lemma BehindIsNotAhead(a: Record, b: Record)
    requires Headed(a) && Headed(b) && a.revision in b.ancestors
    ensures b.revision !in a.ancestors
  {
  }

  lemma BehindGoesDown(m: Merger, a: Record, b: Record, capA: nat, capB: nat, known: set<Revision>)
    requires Mergeable(Some(a)) && Mergeable(Some(b)) && a.revision in b.ancestors && a.revision != b.revision
    requires Known(Some(a)) <= known && Known(Some(b)) <= known && |known| <= capA
    ensures GoesDown(m, Some(a), Some(b), capA, capB, known)
  {
    BehindPair(m, a, b, capA, known);
    BehindIsNotAhead(a, b);
    BehindIsOverwritten(m, a, b, capA, capB);
  }

  lemma CopiedGoesDown(m: Merger, b: Record, capA: nat, capB: nat, known: set<Revision>)
    requires Mergeable(Some(b)) && Known(Some(b)) <= known && |known| <= capA
    ensures GoesDown(m, None, Some(b), capA, capB, known)
  {
    CopiedPair(b, capA, known);
  }

  lemma DownPair(m: Merger, ra: Option<Record>, rb: Option<Record>, capA: nat, capB: nat, known: set<Revision>)
    requires Mergeable(ra) && Mergeable(rb) && Follows(ra, rb)
    requires Known(ra) <= known && Known(rb) <= known && |known| <= capA
    ensures GoesDown(m, ra, rb, capA, capB, known)
  {
    if rb.Some? { KnownSplits(rb.value); }
    if ra.Some? {
      KnownSplits(ra.value);
      if ra.value.revision != rb.value.revision {
        BehindGoesDown(m, ra.value, rb.value, capA, capB, known);
      }
    } else if rb.Some? {
      CopiedGoesDown(m, rb.value, capA, capB, known);
    }
  }

  /** The last `k + 1` stores agree, and the links before them hold. */
  ghost predicate Scattered(r: Line, k: nat)
    requires k < |r|
  {
    && (forall j :: 0 <= j < |r| - 1 - k ==> Follows(r[j], r[j + 1]))
    && (forall j :: |r| - 1 - k <= j < |r| ==> RevisionOf(r[j]) == RevisionOf(r[|r| - 1]))
  }

  lemma GatheredIsScattered(r: Line)
    requires |r| > 0 && Gathered(r, |r| - 1)
    ensures Scattered(r, 0)
  {
  }

  lemma ScatterStep(m: Merger, r0: Line, caps: seq<nat>, i: nat, known: set<Revision>)
    requires i + 1 < |r0| == |caps| && Covered(r0, known) && Roomy(caps, |known|) && Scattered(r0, |r0| - 2 - i)
    ensures Scattered(SyncPair(m, r0, caps, i), |r0| - 1 - i) && Covered(SyncPair(m, r0, caps, i), known)
  {
    DownPair(m, r0[i], r0[i + 1], caps[i], caps[i + 1], known);
    DownReplaces(m, r0, caps, i, known);
    var x := AfterA(m, r0[i], r0[i + 1], caps[i]);
    ReplaceHead(r0, i, x);
    ReplaceCovered(r0, i, x, known);
  }

  lemma DownReplaces(m: Merger, r0: Line, caps: seq<nat>, i: nat, known: set<Revision>)
    requires i + 1 < |r0| == |caps| && GoesDown(m, r0[i], r0[i + 1], caps[i], caps[i + 1], known)
    ensures SyncPair(m, r0, caps, i) == r0[i := AfterA(m, r0[i], r0[i + 1], caps[i])]
  {
  }

  lemma ReplaceCovered(r0: Line, i: nat, x: Option<Record>, known: set<Revision>)
    requires i < |r0| && Covered(r0, known) && Mergeable(x) && Known(x) <= known
    ensures Covered(r0[i := x], known)
  {
  }

  /** Moving store `i` up to its neighbour's revision without losing what it knew. */
  lemma ReplaceHead(r0: Line, i: nat, x: Option<Record>)
    requires i + 1 < |r0| && Scattered(r0, |r0| - 2 - i)
    requires RevisionOf(x) == RevisionOf(r0[i + 1]) && Known(r0[i]) <= Known(x)
    ensures Scattered(r0[i := x], |r0| - 1 - i)
  {
    var r := r0[i := x];
    forall j | 0 <= j < i ensures Follows(r[j], r[j + 1]) {
      assert Follows(r0[j], r0[j + 1]);
    }
  }

  /** The `i`-th pair on the way down writes nothing upwards and merges nothing. */
  ghost predicate DownAt(m: Merger, st: Line, caps: seq<nat>, i: nat)
    requires 1 <= i < |st| == |caps|
  {
    var r := Scatter(m, st, caps, i - 1);
    OnlyDownwards(Decide(m, r[|st| - 1 - i], r[|st| - i]))
  }

  lemma {:induction false} ScatterSettles(m: Merger, st: Line, caps: seq<nat>, k: nat, known: set<Revision>)
    requires k < |st| == |caps| && Covered(st, known) && Roomy(caps, |GrownBy(m, st, caps, |st| - 1, known)|)
    ensures Covered(Scatter(m, st, caps, k), GrownBy(m, st, caps, |st| - 1, known))
    ensures Scattered(Scatter(m, st, caps, k), k)
  {
    hide Covered, Scattered, Gathered, SyncPair, GrownBy;
    if k == 0 {
      GatherLinks(m, st, caps, |st| - 1, known);
      GatheredIsScattered(Gather(m, st, caps, |st| - 1));
    } else {
      ScatterSettles(m, st, caps, k - 1, known);
      ScatterStep(m, Scatter(m, st, caps, k - 1), caps, |st| - 1 - k, GrownBy(m, st, caps, |st| - 1, known));
    }
  }

  lemma EveryPairGoesDown(m: Merger, st: Line, caps: seq<nat>, i: nat, known: set<Revision>)
    requires 1 <= i < |st| == |caps| && Covered(st, known) && Roomy(caps, |GrownBy(m, st, caps, |st| - 1, known)|)
    ensures DownAt(m, st, caps, i)
  {
    hide GrownBy, Mergeable, Follows, Known, AfterA, AfterB;
    ScatterSettles(m, st, caps, i - 1, known);
    var r, j := Scatter(m, st, caps, i - 1), |st| - 1 - i;
    DownPair(m, r[j], r[j + 1], caps[j], caps[j + 1], GrownBy(m, st, caps, |st| - 1, known));
  }

  /** A line of stores holding live append-only or derived records ends on one revision, and nothing is
      merged on the way back down, when every cap has room for the revisions known at the start
      (`known`) and those the way up merged, one for each pair that did. */
  lemma GatherThenScatterConverges(m: Merger, st: Line, caps: seq<nat>, known: set<Revision>)
    requires 0 < |st| == |caps| && Covered(st, known) && Roomy(caps, |GrownBy(m, st, caps, |st| - 1, known)|)
    ensures var r := Scatter(m, st, caps, |st| - 1);
            && (forall j :: 0 <= j < |st| ==> RevisionOf(r[j]) == RevisionOf(r[0]))
            && ((exists j :: 0 <= j < |st| && st[j].Some?) ==> r[0].Some?)
    ensures forall i :: 1 <= i < |st| ==> DownAt(m, st, caps, i)
  {
    hide GrownBy, DownAt, Covered, Scatter;
    var n := |st|;
    ScatterSettles(m, st, caps, n - 1, known);
    var r := Scatter(m, st, caps, n - 1);
    assert RevisionOf(r[0]) == RevisionOf(r[n - 1]);
    forall i | 1 <= i < n ensures DownAt(m, st, caps, i) {
      EveryPairGoesDown(m, st, caps, i, known);
    }
    forall j | 0 <= j < n && st[j].Some? ensures r[j].Some? {
      StaysPresent(m, st, caps, n - 1, j);
    }
  }

  /** So caps of one for each revision known and one for each pair always do. */
  lemma RoomForEveryPairConverges(m: Merger, st: Line, caps: seq<nat>, known: set<Revision>)
    requires 0 < |st| == |caps| && Covered(st, known) && Roomy(caps, |known| + |st| - 1)
    ensures var r := Scatter(m, st, caps, |st| - 1);
            forall j :: 0 <= j < |st| ==> RevisionOf(r[j]) == RevisionOf(r[0])
    ensures forall i :: 1 <= i < |st| ==> DownAt(m, st, caps, i)
  {
    hide GrownBy, DownAt, Covered, Scatter;
    GrownBySize(m, st, caps, |st| - 1, known);
    GatherThenScatterConverges(m, st, caps, known);
  }

  /** No sync of the sweep ever removes a record. */
  lemma {:induction false} GatherStaysPresent(m: Merger, st: Line, caps: seq<nat>, k: nat, j: nat)
    requires k < |st| == |caps| && j < |st| && st[j].Some?
    ensures Gather(m, st, caps, k)[j].Some?
  {
    if k > 0 {
      GatherStaysPresent(m, st, caps, k - 1, j);
    }
  }

  lemma {:induction false} StaysPresent(m: Merger, st: Line, caps: seq<nat>, k: nat, j: nat)
    requires k < |st| == |caps| && j < |st| && st[j].Some?
    ensures Scatter(m, st, caps, k)[j].Some?
  {
    if k == 0 {
      GatherStaysPresent(m, st, caps, |st| - 1, j);
    } else {
      StaysPresent(m, st, caps, k - 1, j);
    }
  }
}
