/** How far behind a store may fall and still be fast-forwarded: exactly the ancestor cap. */
module Staleness {
  import opened Wrappers
  import opened Records
  import opened Ancestors
  import opened Planners
  import opened Sync
  import opened Cluster

  /** One well-formed write over what a store holds. */
  datatype Edit =
    | Revise(body: Body, meta: Meta, now: int)
    | Remove(now: int, author: Option<string>)
    | Recreate(kind: RecordKind, body: Body, meta: Meta, now: int)
    | Restore(now: int, author: Option<string>)

  function Written(plan: PutPlan): Option<Record> {
    if plan.Write? then Some(plan.record) else None
  }

  /** What the store holds after the edit, or None when the edit does not apply. */
  function Edited(c: Record, e: Edit, cap: nat): Option<Record> {
    match e
    case Revise(body, meta, now) =>
      if c.IsTombstone() then None
      else Written(PlanPut(Some(c), c.Update(body, meta), Some(c.revision), now, cap))
    case Remove(now, author) =>
      var plan := PlanDelete(Some(c), Some(c.revision), now, cap, author);
      if plan.Bury? then Some(plan.tombstone) else None
    case Recreate(kind, body, meta, now) =>
      if !c.IsTombstone() then None
      else Written(PlanPut(Some(c), Create(c.key, kind, body, meta), None, now, cap))
    case Restore(now, author) =>
      if !c.IsTombstone() || c.deletedKind.None? then None
      else Written(PlanPutRaw(Some(c), RestoredFrom(c.key, c, c.deletedKind.value, now, author), Some(c.revision), cap))
  }

  function EditedAll(c: Record, edits: seq<Edit>, cap: nat): Option<Record> {
    if edits == [] then Some(c)
    else
      var before := EditedAll(c, edits[..|edits| - 1], cap);
      if before.None? then None else Edited(before.value, edits[|edits| - 1], cap)
  }

  /** The record's revision heads a newest-first chain of strictly lower counters. */
  ghost predicate Headed(c: Record) {
    Descending(c.ancestors) && forall x :: x in c.ancestors ==> x.counter < c.revision.counter
  }

  lemma EditStacks(c: Record, e: Edit, cap: nat)
    requires Headed(c) && Edited(c, e, cap).Some?
    ensures var r := Edited(c, e, cap).value;
            r.revision.counter == c.revision.counter + 1
            && r.ancestors == Truncate([c.revision] + c.ancestors, cap)
  {
    var r := Edited(c, e, cap).value;
    assert r.ancestors == Fold(r.revision, [], Some(c), cap);
    FoldStacks(c, r.revision, cap);
  }

  /** Folding the current record under a higher revision pushes its revision onto its chain. */
  lemma FoldStacks(c: Record, stored: Revision, cap: nat)
    requires Headed(c) && stored.counter > c.revision.counter
    ensures Fold(stored, [], Some(c), cap) == Truncate([c.revision] + c.ancestors, cap)
  {
    var chain := [c.revision] + c.ancestors;
    assert Descending(chain);
    assert stored !in chain;
    TruncateIsGreatest(chain, cap);
    assert Pool(stored, [], Some(c)) == Elems(chain);
    FoldIsGreatest(stored, [], Some(c), cap);
  }

  lemma StackKeepsHeaded(c: Record, r: Record, cap: nat)
    requires Headed(c) && r.revision.counter == c.revision.counter + 1
    requires r.ancestors == Truncate([c.revision] + c.ancestors, cap)
    ensures Headed(r) && |r.ancestors| <= cap
  {
  }

  /** Where the starting revision sits in the chain after `n` edits: at depth `n`, or fallen out. */
  ghost predicate AtDepth(start: Revision, r: Record, n: nat, cap: nat)
    requires n >= 1
  {
    if n <= cap then n <= |r.ancestors| && r.ancestors[n - 1] == start else start !in r.ancestors
  }

  lemma DepthGrows(start: Revision, c: Record, r: Record, n: nat, cap: nat)
    requires n >= 1 && Headed(c) && |c.ancestors| <= cap
    requires AtDepth(start, c, n, cap) && c.revision != start
    requires r.ancestors == Truncate([c.revision] + c.ancestors, cap)
    ensures AtDepth(start, r, n + 1, cap)
  {
    if n == cap {
      forall k | 0 <= k < n - 1 ensures c.ancestors[k] != start {
        NewerIsTotal(c.ancestors[k], c.ancestors[n - 1]);
      }
    }
  }

  lemma {:induction false} EditsStack(c: Record, edits: seq<Edit>, cap: nat)
    requires Headed(c) && |c.ancestors| <= cap && edits != [] && EditedAll(c, edits, cap).Some?
    ensures var r := EditedAll(c, edits, cap).value;
            && Headed(r) && |r.ancestors| <= cap
            && r.revision.counter == c.revision.counter + |edits|
            && AtDepth(c.revision, r, |edits|, cap)
  {
    var front := edits[..|edits| - 1];
    var before := EditedAll(c, front, cap).value;
    var r := EditedAll(c, edits, cap).value;
    if front == [] {
      EditStacks(c, edits[0], cap);
      StackKeepsHeaded(c, r, cap);
    } else {
      EditsStack(c, front, cap);
      EditStacks(before, edits[|edits| - 1], cap);
      StackKeepsHeaded(before, r, cap);
      DepthGrows(c.revision, before, r, |front|, cap);
    }
  }

  /** From equal revisions, A writes n times and B does not. Sync fast-forwards B to A, with no
      merge and no conflict, exactly when n is within A's cap; past it the two are diverged. */
  lemma FastForwardExactlyWithinCap(m: Merger, a: Record, b: Record, edits: seq<Edit>, cap: nat)
    requires a.revision == b.revision && Headed(a) && Headed(b) && |a.ancestors| <= cap
    requires edits != [] && EditedAll(a, edits, cap).Some?
    ensures var r := EditedAll(a, edits, cap).value;
            && (Decide(m, Some(r), Some(b)) == OverwriteB(r) <==> |edits| <= cap)
            && (Decide(m, Some(b), Some(r)) == OverwriteA(r) <==> |edits| <= cap)
            && (|edits| > cap ==> Relate(r, b) == Diverged && Relate(b, r) == Diverged)
  {
    EditsStack(a, edits, cap);
  }

  /** The hypothesis on the chain holds of every record a store in a run ever held. */
  lemma HeldRecordsAreHeaded(m: Merger, run: seq<State>, steps: seq<Step>, t: nat, i: nat, r: Record)
    requires IsRun(m, run, steps) && t < |run|
    requires i < |run[t].stores| && i < |run[t].seen| && r in run[t].seen[i]
    ensures Headed(r) && i < |run[t].caps| && |r.ancestors| <= run[t].caps[i]
  {
    Reachable(m, run, steps, t);
    forall x | x in r.ancestors ensures x.counter < r.revision.counter {
      Lineage.DescendsAscends(run[t].lineage, x, r.revision);
    }
  }
}
