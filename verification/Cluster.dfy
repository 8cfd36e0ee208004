/** N stores holding one key, written by clients and by any number of sync passes at once.
    A pass acts through single store calls. Its reads change nothing and may be arbitrarily
    stale by the time it writes, so a read is any record that store has ever held. */
module Cluster {
  import opened Wrappers
  import opened Records
  import opened Ancestors
  import opened Planners
  import opened Sync
  import opened Lineage

  datatype State = State(
    stores: seq<Option<Record>>,
    caps: seq<nat>,
    seen: seq<set<Record>>,
    lineage: Edges)
  {
    ghost predicate Shaped() {
      |stores| == |caps| == |seen|
    }
  }

  datatype Step =
    | Put(i: nat, base: Option<Record>, record: Record, now: int)
    | Delete(i: nat, expected: Option<Revision>, now: int, author: Option<string>)
    | Undelete(i: nat, tomb: Record, now: int, author: Option<string>)
    | Purge(i: nat, revision: Revision)
    | SyncWrite(i: nat, j: nat, onA: bool, ra: Option<Record>, rb: Option<Record>)

  /** A read of store `i`: nothing, or a record it has held. */
  ghost predicate ReadAt(s: State, i: nat, r: Option<Record>) {
    s.Shaped() && i < |s.stores| && (r.Some? ==> r.value in s.seen[i])
  }

  /** A client builds its record with the builders: a creation, or the update of a live read. */
  ghost predicate WellFormed(base: Option<Record>, record: Record) {
    match base
    case None => record.kind != Tombstone
                 && record == Create(record.key, record.kind, record.body, record.meta)
    case Some(v) => !v.IsTombstone() && record == v.Update(record.body, record.meta)
  }

  /** The store's new content, remembered, with what it descends from. */
  function Stored(s: State, i: nat, record: Record, parents: set<Revision>): State
    requires |s.stores| == |s.seen| && i < |s.stores|
  {
    s.(stores := s.stores[i := Some(record)],
       seen := s.seen[i := s.seen[i] + {record}],
       lineage := s.lineage + (set p | p in parents && p != record.revision :: (p, record.revision)))
  }

  /** The revisions a decided record was made from, when sync made it rather than copied it. */
  function MadeFrom(d: Decision, ra: Option<Record>, rb: Option<Record>): set<Revision> {
    if d.WriteBoth? && ra.Some? && rb.Some? then {ra.value.revision, rb.value.revision} else {}
  }

  function Parents(current: Option<Record>): set<Revision> {
    if current.Some? then {current.value.revision} else {}
  }

  ghost predicate Next(m: Merger, s: State, step: Step, s': State) {
    && s.Shaped()
    && step.i < |s.stores|
    && var current := s.stores[step.i];
    match step
    case Put(i, base, record, now) =>
      && ReadAt(s, i, base) && WellFormed(base, record)
      && var plan := PlanPut(current, record, RevisionOf(base), now, s.caps[i]);
      s' == if plan.Write? then Stored(s, i, plan.record, Parents(current)) else s
    case Delete(i, expected, now, author) =>
      && var plan := PlanDelete(current, expected, now, s.caps[i], author);
      s' == if plan.Bury? then Stored(s, i, plan.tombstone, Parents(current)) else s
    case Undelete(i, tomb, now, author) =>
      && ReadAt(s, i, Some(tomb)) && tomb.IsTombstone() && tomb.deletedKind.Some?
      && var plan := PlanPutRaw(current, RestoredFrom(tomb.key, tomb, tomb.deletedKind.value, now, author),
          Some(tomb.revision), s.caps[i]);
      s' == if plan.Write? then Stored(s, i, plan.record, Parents(current)) else s
    case Purge(i, revision) =>
      s' == if PlanPurge(current, revision).Remove? then s.(stores := s.stores[i := None]) else s
    case SyncWrite(i, j, onA, ra, rb) =>
      && i != j && j < |s.stores| && ReadAt(s, i, ra) && ReadAt(s, j, rb)
      && var d := Decide(m, ra, rb);
      && (if onA then WritesA(d) else WritesB(d))
      && var dst := if onA then i else j;
      var plan := PlanPutRaw(s.stores[dst], d.record, RevisionOf(if onA then ra else rb), s.caps[dst]);
      s' == if plan.Write? then Stored(s, dst, plan.record, MadeFrom(d, ra, rb)) else s
  }

  ghost predicate Initial(s: State) {
    && s.Shaped() && s.lineage == {}
    && forall i :: 0 <= i < |s.stores| ==> s.stores[i] == None && s.seen[i] == {}
  }

  // ---- the invariant ----

  /** A record's ancestor list is canonical and true, and its hash is its content's. */
  ghost predicate Sound(l: Edges, r: Record, cap: nat) {
    && Descending(r.ancestors) && |r.ancestors| <= cap && r.revision !in r.ancestors
    && (forall x :: x in r.ancestors ==> Descends(l, x, r.revision))
    && r.revision.hash == (if r.IsTombstone() then TombstoneHash() else HashOf(r.body.Bytes()))
    && (r.deletedKind.Some? ==> IsManifest(r.deletedKind.value))
  }

  ghost predicate Inv(s: State) {
    && s.Shaped() && Ascending(s.lineage)
    && (forall i :: 0 <= i < |s.stores| ==> s.stores[i].Some? ==> s.stores[i].value in s.seen[i])
    && (forall i, r :: 0 <= i < |s.stores| && r in s.seen[i] ==> Sound(s.lineage, r, s.caps[i]))
  }

  /** From `old` to `new` a store moved only to something the old content was part of. */
  ghost predicate MovesUp(l: Edges, before: Option<Record>, after: Option<Record>) {
    before.Some? ==> after.Some?
                     && (before.value.revision == after.value.revision
                         || Descends(l, before.value.revision, after.value.revision))
  }

  /** Everything known of `x` is part of `y`. */
  ghost predicate PartOf(l: Edges, x: Revision, y: Revision) {
    x == y || Descends(l, x, y)
  }

  lemma PartOfTransitive(l: Edges, x: Revision, y: Revision, z: Revision)
    requires PartOf(l, x, y) && PartOf(l, y, z)
    ensures PartOf(l, x, z)
  {
    if x != y && y != z {
      DescendsTransitive(l, x, y, z);
    }
  }

  /** Folding true ancestors and a current record that is part of the new one gives true ancestors. */
  lemma FoldIsTrue(l: Edges, stored: Revision, incoming: seq<Revision>, current: Option<Record>, cap: nat)
    requires forall x :: x in incoming ==> PartOf(l, x, stored)
    requires current.Some? ==> PartOf(l, current.value.revision, stored)
    requires current.Some? ==> forall x :: x in current.value.ancestors ==> Descends(l, x, current.value.revision)
    ensures var f := Fold(stored, incoming, current, cap);
            && Descending(f) && |f| <= cap && stored !in f
            && forall x :: x in f ==> Descends(l, x, stored)
  {
    FoldIsGreatest(stored, incoming, current, cap);
    var f := Fold(stored, incoming, current, cap);
    forall x | x in f ensures Descends(l, x, stored) {
      assert x in Elems(f);
      if x !in incoming {
        assert x in Chain(current);
        if x != current.value.revision {
          PartOfTransitive(l, x, current.value.revision, stored);
        }
      }
    }
  }

  lemma SoundMonotone(l: Edges, l': Edges, r: Record, cap: nat)
    requires l <= l' && Sound(l, r, cap)
    ensures Sound(l', r, cap)
  {
    forall x | x in r.ancestors ensures Descends(l', x, r.revision) {
      DescendsMonotone(l, l', x, r.revision);
    }
  }

  /** Storing a sound record that the store's content is part of keeps the invariant. */
  lemma StoredKeepsInv(s: State, i: nat, record: Record, parents: set<Revision>)
    requires Inv(s) && i < |s.stores|
    requires forall p :: p in parents && p != record.revision ==> p.counter < record.revision.counter
    requires Sound(Stored(s, i, record, parents).lineage, record, s.caps[i])
    ensures Inv(Stored(s, i, record, parents))
  {
    var s' := Stored(s, i, record, parents);
    forall k, r | 0 <= k < |s'.stores| && r in s'.seen[k] ensures Sound(s'.lineage, r, s'.caps[k]) {
      if r in s.seen[k] {
        SoundMonotone(s.lineage, s'.lineage, r, s.caps[k]);
      }
    }
  }

  lemma ParentsArePart(s: State, i: nat, record: Record, parents: set<Revision>)
    requires |s.stores| == |s.seen| && i < |s.stores|
    ensures forall p :: p in parents ==> PartOf(Stored(s, i, record, parents).lineage, p, record.revision)
  {
    var l := Stored(s, i, record, parents).lineage;
    forall p | p in parents ensures PartOf(l, p, record.revision) {
      if p != record.revision {
        EdgeDescends(l, p, record.revision);
      }
    }
  }

  /** A write over `current` by a client, a delete or an undelete: the counter goes up by one. */
  lemma SuccessorKeepsInv(s: State, i: nat, record: Record)
    requires Inv(s) && i < |s.stores|
    requires var current := s.stores[i];
             && record.ancestors == Fold(record.revision, [], current, s.caps[i])
             && (current.Some? ==> record.revision.counter == current.value.revision.counter + 1)
    requires record.revision.hash == (if record.IsTombstone() then TombstoneHash() else HashOf(record.body.Bytes()))
    requires record.deletedKind.Some? ==> IsManifest(record.deletedKind.value)
    ensures var s' := Stored(s, i, record, Parents(s.stores[i]));
            Inv(s') && MovesUp(s'.lineage, s.stores[i], Some(record))
  {
    var current := s.stores[i];
    var s' := Stored(s, i, record, Parents(current));
    ParentsArePart(s, i, record, Parents(current));
    if current.Some? {
      SoundMonotone(s.lineage, s'.lineage, current.value, s.caps[i]);
    }
    FoldIsTrue(s'.lineage, record.revision, [], current, s.caps[i]);
    StoredKeepsInv(s, i, record, Parents(current));
  }

  /** What sync decides to write is sound in what made it: its ancestors, and both reads'
      revisions when it reconciles them, are part of it. */
  lemma DecidedIsTrue(m: Merger, l: Edges, ra: Option<Record>, rb: Option<Record>, d: Decision, capA: nat, capB: nat)
    requires ra.Some? ==> Sound(l, ra.value, capA)
    requires rb.Some? ==> Sound(l, rb.value, capB)
    requires Origin(m, ra, rb, d) && (WritesA(d) || WritesB(d))
    requires forall p :: p in MadeFrom(d, ra, rb) ==> PartOf(l, p, d.record.revision)
    ensures forall x :: x in d.record.ancestors ==> PartOf(l, x, d.record.revision)
    ensures WritesA(d) && ra.Some? ==> PartOf(l, ra.value.revision, d.record.revision)
    ensures WritesB(d) && rb.Some? ==> PartOf(l, rb.value.revision, d.record.revision)
  {
    if d.WriteBoth? {
      ReconciledCarriesBoth(m, ra.value, rb.value);
      ReconciledIsTrue(l, ra.value, rb.value, d.record, capA, capB);
    }
  }

  lemma ReconciledIsTrue(l: Edges, a: Record, b: Record, w: Record, capA: nat, capB: nat)
    requires Sound(l, a, capA) && Sound(l, b, capB)
    requires w.ancestors == ReconciledAncestors(w.revision, a, b, LosslessCap(a, b))
    requires PartOf(l, a.revision, w.revision) && PartOf(l, b.revision, w.revision)
    ensures forall x :: x in w.ancestors ==> PartOf(l, x, w.revision)
  {
    FoldIsGreatest(w.revision, BothChains(a, b), None, LosslessCap(a, b));
    forall x | x in w.ancestors ensures PartOf(l, x, w.revision) {
      assert x in Elems(w.ancestors);
      assert x in BothChains(a, b);
      if x in a.ancestors {
        PartOfTransitive(l, x, a.revision, w.revision);
      } else if x in b.ancestors {
        PartOfTransitive(l, x, b.revision, w.revision);
      }
    }
  }

  /** A reconciled record has a higher counter than whatever it was made from and is not. */
  lemma MadeFromIsLower(m: Merger, l: Edges, ra: Option<Record>, rb: Option<Record>, d: Decision, capA: nat, capB: nat)
    requires ra.Some? ==> Sound(l, ra.value, capA)
    requires rb.Some? ==> Sound(l, rb.value, capB)
    requires Origin(m, ra, rb, d)
    ensures forall p :: p in MadeFrom(d, ra, rb) && p != d.record.revision ==> p.counter < d.record.revision.counter
  {
  }

  lemma DecidedHash(m: Merger, l: Edges, ra: Option<Record>, rb: Option<Record>, d: Decision, capA: nat, capB: nat)
    requires ra.Some? ==> Sound(l, ra.value, capA)
    requires rb.Some? ==> Sound(l, rb.value, capB)
    requires Origin(m, ra, rb, d) && (WritesA(d) || WritesB(d))
    ensures d.record.revision.hash
         == (if d.record.IsTombstone() then TombstoneHash() else HashOf(d.record.body.Bytes()))
    ensures d.record.deletedKind.Some? ==> IsManifest(d.record.deletedKind.value)
  {
  }

  /** One replication write of any pass, however stale its reads. */
  lemma SyncWriteKeepsInv(m: Merger, s: State, i: nat, j: nat, onA: bool, ra: Option<Record>, rb: Option<Record>)
    requires Inv(s) && i < |s.stores| && j < |s.stores| && ReadAt(s, i, ra) && ReadAt(s, j, rb)
    requires var d := Decide(m, ra, rb); if onA then WritesA(d) else WritesB(d)
    requires RevisionOf(s.stores[if onA then i else j]) == RevisionOf(if onA then ra else rb)
    ensures var d := Decide(m, ra, rb);
            var dst := if onA then i else j;
            var r := d.record.(ancestors := Fold(d.record.revision, d.record.ancestors, s.stores[dst], s.caps[dst]));
            var s' := Stored(s, dst, r, MadeFrom(d, ra, rb));
            Inv(s') && MovesUp(s'.lineage, s.stores[dst], Some(r))
  {
    var d := Decide(m, ra, rb);
    var dst := if onA then i else j;
    var current := s.stores[dst];
    var r := d.record.(ancestors := Fold(d.record.revision, d.record.ancestors, current, s.caps[dst]));
    var made := MadeFrom(d, ra, rb);
    var l := Stored(s, dst, r, made).lineage;
    ParentsArePart(s, dst, r, made);
    if ra.Some? { SoundMonotone(s.lineage, l, ra.value, s.caps[i]); }
    if rb.Some? { SoundMonotone(s.lineage, l, rb.value, s.caps[j]); }
    if current.Some? { SoundMonotone(s.lineage, l, current.value, s.caps[dst]); }
    DecisionOrigin(m, ra, rb);
    DecidedIsTrue(m, l, ra, rb, d, s.caps[i], s.caps[j]);
    MadeFromIsLower(m, l, ra, rb, d, s.caps[i], s.caps[j]);
    DecidedHash(m, l, ra, rb, d, s.caps[i], s.caps[j]);
    FoldIsTrue(l, d.record.revision, d.record.ancestors, current, s.caps[dst]);
    StoredKeepsInv(s, dst, r, made);
  }

  /** What a step keeps: the invariant, the history, and every store's content but a purged one. */
  ghost predicate Advances(s: State, step: Step, s': State) {
    && Inv(s') && s.lineage <= s'.lineage && |s'.stores| == |s.stores|
    && forall k :: 0 <= k < |s.stores| && !(step.Purge? && step.i == k) ==>
         MovesUp(s'.lineage, s.stores[k], s'.stores[k])
  }

  lemma PutAdvances(m: Merger, s: State, step: Step, s': State)
    requires Inv(s) && Next(m, s, step, s') && step.Put?
    ensures Advances(s, step, s')
  {
    var plan := PlanPut(s.stores[step.i], step.record, RevisionOf(step.base), step.now, s.caps[step.i]);
    if plan.Write? {
      SuccessorKeepsInv(s, step.i, plan.record);
    }
  }

  lemma DeleteAdvances(m: Merger, s: State, step: Step, s': State)
    requires Inv(s) && Next(m, s, step, s') && (step.Delete? || step.Undelete? || step.Purge?)
    ensures Advances(s, step, s')
  {
    if step.Delete? && PlanDelete(s.stores[step.i], step.expected, step.now, s.caps[step.i], step.author).Bury? {
      SuccessorKeepsInv(s, step.i, s'.stores[step.i].value);
    } else if step.Undelete? && s' != s {
      SuccessorKeepsInv(s, step.i, s'.stores[step.i].value);
    }
  }

  lemma SyncWriteAdvances(m: Merger, s: State, step: Step, s': State)
    requires Inv(s) && Next(m, s, step, s') && step.SyncWrite?
    ensures Advances(s, step, s')
  {
    if s' != s {
      SyncWriteKeepsInv(m, s, step.i, step.j, step.onA, step.ra, step.rb);
    }
  }

  /** Every step keeps the invariant and the history, and moves each store up unless it purges it. */
  lemma StepAdvances(m: Merger, s: State, step: Step, s': State)
    requires Inv(s) && Next(m, s, step, s')
    ensures Advances(s, step, s')
  {
    match step
    case Put(_, _, _, _) => PutAdvances(m, s, step, s');
    case Delete(_, _, _, _) => DeleteAdvances(m, s, step, s');
    case Undelete(_, _, _, _) => DeleteAdvances(m, s, step, s');
    case Purge(_, _) => DeleteAdvances(m, s, step, s');
    case SyncWrite(_, _, _, _, _) => SyncWriteAdvances(m, s, step, s');
  }

  // ---- whole runs ----

  /** A run from any state. */
  ghost predicate IsPathOfSteps(m: Merger, run: seq<State>, steps: seq<Step>) {
    && |run| == |steps| + 1
    && forall k :: 0 <= k < |steps| ==> Next(m, run[k], steps[k], run[k + 1])
  }

  ghost predicate IsRun(m: Merger, run: seq<State>, steps: seq<Step>) {
    IsPathOfSteps(m, run, steps) && Initial(run[0])
  }

  ghost predicate NoPurgeAt(steps: seq<Step>, i: nat, s: nat, t: nat)
    requires s <= t <= |steps|
  {
    forall k :: s <= k < t ==> !(steps[k].Purge? && steps[k].i == i)
  }

  /** Every reachable state holds only canonical, true ancestor lists. */
  lemma {:induction false} Reachable(m: Merger, run: seq<State>, steps: seq<Step>, t: nat)
    requires IsRun(m, run, steps) && t < |run|
    ensures Inv(run[t]) && |run[t].stores| == |run[0].stores|
  {
    if t > 0 {
      Reachable(m, run, steps, t - 1);
      StepAdvances(m, run[t - 1], steps[t - 1], run[t]);
    }
  }

  /** Between purges of store `i`, its revision only moves up the descent order, whatever the
      clients, the other stores and any number of interleaved sync passes do. */
  lemma {:induction false} RevisionsOnlyMoveUp(m: Merger, run: seq<State>, steps: seq<Step>, i: nat, s: nat, t: nat)
    requires IsRun(m, run, steps) && s <= t < |run| && i < |run[0].stores|
    requires NoPurgeAt(steps, i, s, t)
    ensures |run[s].stores| == |run[t].stores| == |run[0].stores|
    ensures MovesUp(run[t].lineage, run[s].stores[i], run[t].stores[i])
    decreases t
  {
    Reachable(m, run, steps, s);
    Reachable(m, run, steps, t);
    if s < t {
      RevisionsOnlyMoveUp(m, run, steps, i, s, t - 1);
      Reachable(m, run, steps, t - 1);
      StepAdvances(m, run[t - 1], steps[t - 1], run[t]);
      var before, mid, after := run[s].stores[i], run[t - 1].stores[i], run[t].stores[i];
      if before.Some? {
        if before.value.revision != mid.value.revision {
          DescendsMonotone(run[t - 1].lineage, run[t].lineage, before.value.revision, mid.value.revision);
        }
        PartOfTransitive(run[t].lineage, before.value.revision, mid.value.revision, after.value.revision);
      }
    }
  }

  /** What a store has left behind never comes back: once it holds something a revision `r`
      is an ancestor of, a tombstone say, it holds `r` at no later time before a purge. */
  lemma NoResurrection(m: Merger, run: seq<State>, steps: seq<Step>, i: nat, t: nat, u: nat, r: Revision)
    requires IsRun(m, run, steps) && t <= u < |run| && i < |run[0].stores|
    requires NoPurgeAt(steps, i, t, u)
    requires |run[t].stores| == |run[0].stores| && run[t].stores[i].Some?
    requires Descends(run[t].lineage, r, run[t].stores[i].value.revision)
    ensures |run[u].stores| == |run[0].stores|
    ensures run[u].stores[i].Some? && run[u].stores[i].value.revision != r
    ensures run[u].stores[i].value.revision.counter > r.counter
  {
    RevisionsOnlyMoveUp(m, run, steps, i, t, u);
    Reachable(m, run, steps, t);
    Reachable(m, run, steps, u);
    DescendsAscends(run[t].lineage, r, run[t].stores[i].value.revision);
    if run[u].stores[i].value.revision != run[t].stores[i].value.revision {
      DescendsAscends(run[u].lineage, run[t].stores[i].value.revision, run[u].stores[i].value.revision);
    }
  }

  // ---- why the purge matters ----

  /** A copy of a peer's record into store `i`, decided when `i` was read as empty, puts that record
      there exactly when `i` still holds nothing. */
  lemma EmptiedStoreTakesBackExactly(m: Merger, s: State, s': State, i: nat, j: nat, stale: Record)
    requires i < |s.stores| && Next(m, s, SyncWrite(i, j, true, None, Some(stale)), s')
    ensures s'.stores[i] != s.stores[i] <==> s.stores[i] == None
    ensures RevisionOf(s'.stores[i]) == Some(stale.revision) <==>
              s.stores[i] == None || s.stores[i].value.revision == stale.revision
  {
  }

  /** The live record stored for a first write of `key`. */
  function FirstWrite(key: RecordKey): Record {
    Create(key, Topic, Inline([]), Meta("", "", 0, 0, map[]))
  }

  const EMPTY_PAIR := State([None, None], [1, 1], [{}, {}], {})

  /** A run in which a record comes back over its own tombstone: it is written at one store, copied to
      the other, deleted and purged at the first, and then copied back from the second. The purge is
      what lets it: without one, nothing a tombstone descends from returns. */
  lemma PurgedRecordReturns(m: Merger, key: RecordKey) returns (run: seq<State>, steps: seq<Step>, r: Revision)
    ensures IsRun(m, run, steps) && |run| == 6 && steps[3].Purge? && steps[3].i == 0
    ensures |run[3].stores| == 2 && run[3].stores[0].Some? && run[3].stores[0].value.IsTombstone()
    ensures Descends(run[3].lineage, r, run[3].stores[0].value.revision)
    ensures |run[5].stores| == 2 && run[5].stores[0].Some? && !run[5].stores[0].value.IsTombstone()
    ensures run[5].stores[0].value.revision == r
  {
    hide Fold, Next, Descends;
    var step0, s1, v := WriteFirst(m, EMPTY_PAIR, key);
    var step1, s2, copy := CopyOver(m, s1, v, false);
    var step2, s3, tomb := DeleteFirst(m, s2, v);
    var step3, s4 := PurgeFirst(m, s3, tomb);
    var step4, s5, back := CopyOver(m, s4, copy, true);
    run, steps, r := [EMPTY_PAIR, s1, s2, s3, s4, s5], [step0, step1, step2, step3, step4], v.revision;
    FiveSteps(m, run, steps);
    EdgeDescends(s3.lineage, v.revision, tomb.revision);
  }

  lemma FiveSteps(m: Merger, run: seq<State>, steps: seq<Step>)
    requires |run| == 6 && |steps| == 5 && run[0] == EMPTY_PAIR
    requires Next(m, run[0], steps[0], run[1]) && Next(m, run[1], steps[1], run[2]) && Next(m, run[2], steps[2], run[3])
    requires Next(m, run[3], steps[3], run[4]) && Next(m, run[4], steps[4], run[5])
    ensures IsRun(m, run, steps)
  {
    hide Next;
    forall k | 0 <= k < |steps| ensures Next(m, run[k], steps[k], run[k + 1]) {
      assert k == 0 || k == 1 || k == 2 || k == 3 || k == 4;
    }
  }

  lemma PurgeFirst(m: Merger, s: State, tomb: Record) returns (step: Step, s': State)
    requires s.Shaped() && |s.stores| == 2 && s.stores[0] == Some(tomb)
    ensures step == Purge(0, tomb.revision) && Next(m, s, step, s') && s'.Shaped() && |s'.stores| == 2
    ensures s'.stores == s.stores[0 := None] && s'.seen == s.seen && s'.caps == s.caps
  {
    step, s' := Purge(0, tomb.revision), s.(stores := s.stores[0 := None]);
  }

  lemma WriteFirst(m: Merger, s: State, key: RecordKey) returns (step: Step, s': State, v: Record)
    requires s == EMPTY_PAIR
    ensures step.Put? && Next(m, s, step, s') && s'.Shaped() && |s'.stores| == 2 && s'.caps == s.caps
    ensures s'.stores == [Some(v), None] && v in s'.seen[0] && s'.seen[1] == {} && !v.IsTombstone()
  {
    hide Fold;
    step := Put(0, None, FirstWrite(key), 0);
    v := PlanPut(None, FirstWrite(key), None, 0, 1).record;
    s' := Stored(s, 0, v, {});
  }

  /** Copy `v` to the side that holds nothing: to store 0 from store 1, or the other way. */
  lemma CopyOver(m: Merger, s: State, v: Record, onA: bool) returns (step: Step, s': State, copy: Record)
    requires s.Shaped() && |s.stores| == 2
    requires var dst := if onA then 0 else 1; s.stores[dst] == None && v in s.seen[1 - dst]
    ensures var dst := if onA then 0 else 1;
            && step.SyncWrite? && Next(m, s, step, s') && s'.Shaped() && |s'.stores| == 2
            && s'.stores == s.stores[dst := Some(copy)] && copy in s'.seen[dst] && s'.caps == s.caps
            && s.seen[1 - dst] <= s'.seen[1 - dst]
    ensures copy.revision == v.revision && copy.kind == v.kind
  {
    hide Fold;
    var dst := if onA then 0 else 1;
    step := SyncWrite(0, 1, onA, if onA then None else Some(v), if onA then Some(v) else None);
    copy := v.(ancestors := Fold(v.revision, v.ancestors, None, s.caps[dst]));
    s' := Stored(s, dst, copy, {});
  }

  lemma DeleteFirst(m: Merger, s: State, v: Record) returns (step: Step, s': State, tomb: Record)
    requires s.Shaped() && |s.stores| == 2 && s.stores[0] == Some(v) && !v.IsTombstone()
    ensures step.Delete? && Next(m, s, step, s') && s'.Shaped() && |s'.stores| == 2 && s'.caps == s.caps
    ensures s'.stores == s.stores[0 := Some(tomb)] && tomb.IsTombstone() && (v.revision, tomb.revision) in s'.lineage
    ensures s'.seen[1] == s.seen[1]
  {
    hide Fold;
    step := Delete(0, None, 0, None);
    tomb := TombstoneOf(v, 0, s.caps[0], None);
    s' := Stored(s, 0, tomb, Parents(Some(v)));
  }

  // ---- one key, two kinds ----

  lemma CreateAt(m: Merger, s: State, i: nat, key: RecordKey, kind: RecordKind, body: Body)
    returns (step: Step, s': State, v: Record)
    requires s.Shaped() && |s.stores| == 2 && i < 2 && s.stores[i] == None && kind != Tombstone
    ensures step.Put? && Next(m, s, step, s') && s'.Shaped() && |s'.stores| == 2
    ensures s'.stores == s.stores[i := Some(v)]
    ensures v.key == key && v.kind == kind && v.body == body && v.revision == Records.Initial(body.Bytes())
    ensures v.ancestors == []
  {
    var given := Create(key, kind, body, Meta("", "", 0, 0, map[]));
    step := Put(i, None, given, 0);
    v := PlanPut(None, given, None, 0, s.caps[i]).record;
    FoldIsGreatest(v.revision, [], None, s.caps[i]);
    NothingToFold(v.revision, s.caps[i]);
    s' := Stored(s, i, v, {});
  }

  lemma NothingToFold(r: Revision, cap: nat)
    ensures Fold(r, [], None, cap) == []
  {
    assert Elems([]) == {};
  }

  /** Two stores may create one key with different kinds. Here are two well-formed creates from empty
      stores after which the two records are diverged, and reconciling them merges when the one is
      called `a` and is a conflict when the other is. */
  lemma KindsCanDiverge(m: Merger, key: RecordKey)
    returns (run: seq<State>, steps: seq<Step>, a: Record, b: Record)
    ensures IsRun(m, run, steps) && |run| == 3 && run[2].stores == [Some(a), Some(b)]
    ensures a.key == b.key == key && a.kind == Topic && b.kind == AuditEntry && Relate(a, b) == Diverged
    ensures Decide(m, Some(a), Some(b)).WriteBoth? && Decide(m, Some(b), Some(a)).Surface?
  {
    hide Next, Decide;
    var step0, s1;
    step0, s1, a := CreateAt(m, EMPTY_PAIR, 0, key, Topic, Inline([1]));
    var step1, s2;
    step1, s2, b := CreateAt(m, s1, 1, key, AuditEntry, Inline([2]));
    run, steps := [EMPTY_PAIR, s1, s2], [step0, step1];
    forall k | 0 <= k < |steps| ensures Next(m, run[k], steps[k], run[k + 1]) {
      assert k == 0 || k == 1;
    }
    assert a.revision.hash.preimage[0] != b.revision.hash.preimage[0];
    TopicAgainstAuditEntry(m, a, b);
  }

  lemma TopicAgainstAuditEntry(m: Merger, a: Record, b: Record)
    requires a.kind == Topic && b.kind == AuditEntry && Relate(a, b) == Diverged
    ensures Decide(m, Some(a), Some(b)).WriteBoth? && Decide(m, Some(b), Some(a)).Surface?
  {
    hide Lines.AppendMerge, ReconciledRecord;
  }
}
