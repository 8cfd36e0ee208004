/** Append-only keys: nothing committed is ever lost, over any run of any number of stores. */
module AppendRuns {
  import opened Wrappers
  import opened Records
  import opened Planners
  import opened Sync
  import opened Lines
  import opened Lineage
  import opened Cluster

  /** The body a revision was hashed from. */
  function Text(r: Revision): seq<byte> {
    r.hash.preimage
  }

  /** Clients of an append-only key create it, or add lines to what they read; nobody deletes. */
  ghost predicate AppendStep(step: Step) {
    match step
    case Put(_, base, record, _) =>
      && MergeClassOf(record.kind) == AppendOnly
      && (base.Some? ==> LeadsLines(base.value.body.Bytes(), record.body.Bytes()))
    case SyncWrite(_, _, _, _, _) => true
    case _ => false
  }

  /** Every line of the one body is still in the other, in order, byte for byte up to its final newline. */
  ghost predicate TextKept(x: Revision, y: Revision) {
    KeepsLines(Text(x), Text(y))
  }

  /** Every record is live and append-only, and no edge of the history drops a line. */
  ghost predicate AppendInv(s: State) {
    && Inv(s)
    && (forall i, r :: 0 <= i < |s.stores| && r in s.seen[i] ==> MergeClassOf(r.kind) == AppendOnly)
    && (forall e :: e in s.lineage ==> TextKept(e.0, e.1))
  }

  lemma {:induction false} PathKeepsLines(l: Edges, p: seq<Revision>, k: nat)
    requires IsPath(l, p) && 0 < k < |p|
    requires forall e :: e in l ==> TextKept(e.0, e.1)
    ensures TextKept(p[0], p[k])
  {
    var e := (p[k - 1], p[k]);
    assert e in l;
    if k > 1 {
      PathKeepsLines(l, p, k - 1);
      KeepsLinesTransitive(Text(p[0]), Text(p[k - 1]), Text(p[k]));
    }
  }

  lemma PartKeepsLines(l: Edges, x: Revision, y: Revision)
    requires PartOf(l, x, y)
    requires forall e :: e in l ==> TextKept(e.0, e.1)
    ensures TextKept(x, y)
  {
    if x == y {
      LeadingIsKept(Text(x), Text(x));
    } else {
      var p :| PathBetween(l, p, x, y);
      PathKeepsLines(l, p, |p| - 1);
    }
  }

  /** What sync writes for two diverged append-only records is the line union of their bodies. */
  lemma DivergedAppendOnlyMerge(m: Merger, a: Record, b: Record)
    requires MergeClassOf(a.kind) == MergeClassOf(b.kind) == AppendOnly
    ensures Reconcile(m, a, b)
         == WriteBoth(ReconciledRecord(a, b, Inline(AppendMerge(a.body.Bytes(), b.body.Bytes())), SYNC_AUTHOR,
                                       SYNC_ORIGIN, LosslessCap(a, b)))
  {
    hide AppendMerge, ReconciledRecord, TombstoneWinner;
  }

  lemma MergeKeepsLines(a: Revision, b: Revision, w: Revision)
    requires Text(w) == AppendMerge(Text(a), Text(b))
    ensures TextKept(a, w) && TextKept(b, w)
  {
    AppendMergeLosesNothing(Text(a), Text(b));
  }

  lemma DecidedKeepsLines(m: Merger, l: Edges, ra: Option<Record>, rb: Option<Record>, d: Decision, capA: nat,
                          capB: nat)
    requires ra.Some? ==> Sound(l, ra.value, capA) && MergeClassOf(ra.value.kind) == AppendOnly
    requires rb.Some? ==> Sound(l, rb.value, capB) && MergeClassOf(rb.value.kind) == AppendOnly
    requires Origin(m, ra, rb, d) && (WritesA(d) || WritesB(d))
    ensures MergeClassOf(d.record.kind) == AppendOnly
    ensures forall p :: p in MadeFrom(d, ra, rb) ==> TextKept(p, d.record.revision)
  {
    if d.WriteBoth? {
      DivergedAppendOnlyMerge(m, ra.value, rb.value);
      MergeKeepsLines(ra.value.revision, rb.value.revision, d.record.revision);
    }
  }

  lemma StoredKeepsAppendInv(s: State, i: nat, record: Record, parents: set<Revision>)
    requires AppendInv(s) && i < |s.stores| && Inv(Stored(s, i, record, parents))
    requires MergeClassOf(record.kind) == AppendOnly
    requires forall p :: p in parents ==> TextKept(p, record.revision)
    ensures AppendInv(Stored(s, i, record, parents))
  {
  }

  lemma AppendPutKeepsInv(m: Merger, s: State, step: Step, s': State)
    requires AppendInv(s) && Next(m, s, step, s') && AppendStep(step) && step.Put?
    ensures AppendInv(s')
  {
    StepAdvances(m, s, step, s');
    var plan := PlanPut(s.stores[step.i], step.record, RevisionOf(step.base), step.now, s.caps[step.i]);
    if plan.Write? {
      if step.base.Some? {
        LeadingIsKept(step.base.value.body.Bytes(), step.record.body.Bytes());
      }
      StoredKeepsAppendInv(s, step.i, plan.record, Parents(s.stores[step.i]));
    }
  }

  lemma AppendSyncKeepsInv(m: Merger, s: State, step: Step, s': State)
    requires AppendInv(s) && Next(m, s, step, s') && step.SyncWrite?
    ensures AppendInv(s')
  {
    StepAdvances(m, s, step, s');
    var d := Decide(m, step.ra, step.rb);
    DecisionOrigin(m, step.ra, step.rb);
    DecidedKeepsLines(m, s.lineage, step.ra, step.rb, d, s.caps[step.i], s.caps[step.j]);
    if s' != s {
      var dst := if step.onA then step.i else step.j;
      StoredKeepsAppendInv(s, dst, s'.stores[dst].value, MadeFrom(d, step.ra, step.rb));
    }
  }

  lemma {:induction false} AppendReachable(m: Merger, run: seq<State>, steps: seq<Step>, t: nat)
    requires IsRun(m, run, steps) && t < |run|
    requires forall k :: 0 <= k < |steps| ==> AppendStep(steps[k])
    ensures AppendInv(run[t])
  {
    if t > 0 {
      AppendReachable(m, run, steps, t - 1);
      if steps[t - 1].Put? {
        AppendPutKeepsInv(m, run[t - 1], steps[t - 1], run[t]);
      } else {
        AppendSyncKeepsInv(m, run[t - 1], steps[t - 1], run[t]);
      }
    }
  }

  /** Nothing appended is ever lost: whatever lines a store held at time `s`, it still holds
      them, in order and byte for byte up to a final newline, at any later time `t`. */
  lemma NothingAppendedIsLost(m: Merger, run: seq<State>, steps: seq<Step>, i: nat, s: nat, t: nat)
    requires IsRun(m, run, steps) && s <= t < |run| && i < |run[0].stores|
    requires forall k :: 0 <= k < |steps| ==> AppendStep(steps[k])
    ensures |run[s].stores| == |run[t].stores| == |run[0].stores|
    ensures run[s].stores[i].Some? ==>
              run[t].stores[i].Some?
              && KeepsLines(run[s].stores[i].value.body.Bytes(), run[t].stores[i].value.body.Bytes())
  {
    RevisionsOnlyMoveUp(m, run, steps, i, s, t);
    AppendReachable(m, run, steps, s);
    AppendReachable(m, run, steps, t);
    if run[s].stores[i].Some? {
      PartKeepsLines(run[t].lineage, run[s].stores[i].value.revision, run[t].stores[i].value.revision);
    }
  }

  /** So once the stores have converged, the one body holds every line any of them ever committed. */
  lemma ConvergedBodyHoldsEveryLine(m: Merger, run: seq<State>, steps: seq<Step>, t: nat, final: Record)
    requires IsRun(m, run, steps) && t < |run|
    requires forall k :: 0 <= k < |steps| ==> AppendStep(steps[k])
    requires forall i :: 0 <= i < |run[t].stores| ==>
               run[t].stores[i].Some? && run[t].stores[i].value.revision == final.revision
    requires exists i :: 0 <= i < |run[t].stores| && run[t].stores[i] == Some(final)
    ensures forall i, s :: 0 <= s <= t && 0 <= i < |run[s].stores| && run[s].stores[i].Some? ==>
              KeepsLines(run[s].stores[i].value.body.Bytes(), final.body.Bytes())
  {
    AppendReachable(m, run, steps, t);
    forall i, s | 0 <= s <= t && 0 <= i < |run[s].stores| && run[s].stores[i].Some?
      ensures KeepsLines(run[s].stores[i].value.body.Bytes(), final.body.Bytes())
    {
      Reachable(m, run, steps, s);
      NothingAppendedIsLost(m, run, steps, i, s, t);
    }
  }
}
