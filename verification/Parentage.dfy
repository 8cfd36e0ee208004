/** What a record names as its parent: over any run, the revision it replaced or was merged from. */
module Parentage {
  import opened Wrappers
  import opened Records
  import opened Planners
  import opened Sync
  import opened Lineage
  import opened Cluster

  /** Only a creation names no parent, and a parent named is a revision the record descends from. */
  ghost predicate ParentTrue(l: Edges, r: Record) {
    && (r.parent.None? <==> r.revision.counter == 0)
    && (r.parent.Some? ==> Descends(l, r.parent.value, r.revision))
  }

  ghost predicate ParentInv(s: State) {
    Inv(s) && forall i, r :: 0 <= i < |s.stores| && r in s.seen[i] ==> ParentTrue(s.lineage, r)
  }

  lemma ParentMonotone(l: Edges, l': Edges, r: Record)
    requires l <= l' && ParentTrue(l, r)
    ensures ParentTrue(l', r)
  {
    if r.parent.Some? {
      DescendsMonotone(l, l', r.parent.value, r.revision);
    }
  }

  lemma StoredKeepsParents(s: State, i: nat, record: Record, parents: set<Revision>)
    requires ParentInv(s) && i < |s.stores| && Inv(Stored(s, i, record, parents))
    requires ParentTrue(Stored(s, i, record, parents).lineage, record)
    ensures ParentInv(Stored(s, i, record, parents))
  {
    hide ParentTrue, Sound;
    var s' := Stored(s, i, record, parents);
    forall k, r | 0 <= k < |s'.stores| && r in s'.seen[k] ensures ParentTrue(s'.lineage, r) {
      if r in s.seen[k] {
        ParentMonotone(s.lineage, s'.lineage, r);
      }
    }
  }

  /** A write over what the store holds names that as its parent. */
  lemma WrittenOver(s: State, i: nat, record: Record)
    requires |s.stores| == |s.seen| && i < |s.stores|
    requires if s.stores[i].None? then record.parent == None && record.revision.counter == 0
             else record.parent == Some(s.stores[i].value.revision)
                  && record.revision.counter == s.stores[i].value.revision.counter + 1
    ensures ParentTrue(Stored(s, i, record, Parents(s.stores[i])).lineage, record)
  {
    if s.stores[i].Some? {
      EdgeDescends(Stored(s, i, record, Parents(s.stores[i])).lineage, s.stores[i].value.revision, record.revision);
    }
  }

  lemma PutNamesParent(s: State, step: Step)
    requires step.Put? && step.i < |s.stores| == |s.caps| && WellFormed(step.base, step.record)
    requires var plan := PlanPut(s.stores[step.i], step.record, RevisionOf(step.base), step.now, s.caps[step.i]);
             plan.Write?
    ensures var current := s.stores[step.i];
            var record := PlanPut(current, step.record, RevisionOf(step.base), step.now, s.caps[step.i]).record;
            if current.None? then record.parent == None && record.revision.counter == 0
            else record.parent == Some(current.value.revision)
                 && record.revision.counter == current.value.revision.counter + 1
  {
  }

  lemma PutKeepsParents(m: Merger, s: State, step: Step, s': State)
    requires ParentInv(s) && Next(m, s, step, s') && step.Put?
    ensures ParentInv(s')
  {
    hide ParentTrue, Sound;
    StepAdvances(m, s, step, s');
    var plan := PlanPut(s.stores[step.i], step.record, RevisionOf(step.base), step.now, s.caps[step.i]);
    if plan.Write? {
      PutNamesParent(s, step);
      WrittenOver(s, step.i, plan.record);
      StoredKeepsParents(s, step.i, plan.record, Parents(s.stores[step.i]));
    }
  }

  lemma DeleteKeepsParents(m: Merger, s: State, step: Step, s': State)
    requires ParentInv(s) && Next(m, s, step, s') && (step.Delete? || step.Undelete? || step.Purge?)
    ensures ParentInv(s')
  {
    hide ParentTrue, Sound;
    StepAdvances(m, s, step, s');
    if !step.Purge? && s' != s {
      WrittenOver(s, step.i, s'.stores[step.i].value);
      StoredKeepsParents(s, step.i, s'.stores[step.i].value, Parents(s.stores[step.i]));
    }
  }

  /** What sync decides is a record as one side holds it, or a merge that names a parent it was made from. */
  lemma DecidedNamesParent(m: Merger, l: Edges, ra: Option<Record>, rb: Option<Record>, d: Decision)
    requires Origin(m, ra, rb, d) && (WritesA(d) || WritesB(d))
    requires ra.Some? ==> ParentTrue(l, ra.value)
    requires rb.Some? ==> ParentTrue(l, rb.value)
    requires forall p :: p in MadeFrom(d, ra, rb) ==> PartOf(l, p, d.record.revision)
    ensures ParentTrue(l, d.record)
  {
    if d.WriteBoth? && !d.record.IsTombstone() {
      MergeNamesParent(m, ra.value, rb.value);
      assert d.record.parent.value in MadeFrom(d, ra, rb);
    }
  }

  lemma MergeNamesParent(m: Merger, a: Record, b: Record)
    requires Reconcile(m, a, b).WriteBoth? && !Reconcile(m, a, b).record.IsTombstone()
    ensures var w := Reconcile(m, a, b).record;
            && w.parent.Some? && w.parent.value in {a.revision, b.revision}
            && w.revision.counter == w.parent.value.counter + 1
  {
  }

  lemma SyncKeepsParents(m: Merger, s: State, step: Step, s': State)
    requires ParentInv(s) && Next(m, s, step, s') && step.SyncWrite?
    ensures ParentInv(s')
  {
    hide ParentTrue, Sound, Decide;
    StepAdvances(m, s, step, s');
    if s' != s {
      var d := Decide(m, step.ra, step.rb);
      var dst := if step.onA then step.i else step.j;
      var made := MadeFrom(d, step.ra, step.rb);
      var record := s'.stores[dst].value;
      DecisionOrigin(m, step.ra, step.rb);
      ParentsArePart(s, dst, record, made);
      if step.ra.Some? { ParentMonotone(s.lineage, s'.lineage, step.ra.value); }
      if step.rb.Some? { ParentMonotone(s.lineage, s'.lineage, step.rb.value); }
      DecidedNamesParent(m, s'.lineage, step.ra, step.rb, d);
      SameParent(s'.lineage, d.record, record);
      StoredKeepsParents(s, dst, record, made);
    }
  }

  lemma SameParent(l: Edges, r: Record, w: Record)
    requires ParentTrue(l, r) && w.parent == r.parent && w.revision == r.revision
    ensures ParentTrue(l, w)
  {
  }

  /** In every state of every run each record ever held, in whatever store it is by now, names as its parent
      a revision it descends from, and only a creation names none. */
  lemma {:induction false} ParentsAreAncestors(m: Merger, run: seq<State>, steps: seq<Step>, t: nat)
    requires IsRun(m, run, steps) && t < |run|
    ensures ParentInv(run[t])
  {
    hide ParentTrue, Sound;
    if t > 0 {
      ParentsAreAncestors(m, run, steps, t - 1);
      var s, step, s' := run[t - 1], steps[t - 1], run[t];
      assert Next(m, s, step, s');
      match step {
        case Put(_, _, _, _) => PutKeepsParents(m, s, step, s');
        case SyncWrite(_, _, _, _, _) => SyncKeepsParents(m, s, step, s');
        case _ => DeleteKeepsParents(m, s, step, s');
      }
    } else {
      Reachable(m, run, steps, 0);
    }
  }
}
