/** A running sync is a run of the cluster: its own writes are replication steps decided from records
    its two stores really held, so what holds over every run holds of it. */
module SyncRuns {
  import opened Records
  import opened Planners
  import opened Stores
  import opened Sync
  import opened Contention
  import opened SyncPass
  import opened SyncSafety
  import opened Lines
  import opened Lineage
  import opened Cluster
  import opened AppendRuns

  // ---- reaching ----

  /** Which steps may be taken meanwhile: every replication write, and of the others' steps those that
      a result is to allow. */
  ghost predicate AllowsSync(ok: Step -> bool) {
    forall st: Step :: st.SyncWrite? ==> ok(st)
  }

  ghost predicate AllAllowed(ok: Step -> bool, steps: seq<Step>) {
    forall k :: 0 <= k < |steps| ==> ok(steps[k])
  }

  /** A path of allowed steps of the cluster leads from `s` to `t`. */
  ghost predicate IsPathTo(m: Merger, ok: Step -> bool, run: seq<State>, steps: seq<Step>, s: State, t: State) {
    IsPathOfSteps(m, run, steps) && AllAllowed(ok, steps) && run[0] == s && run[|run| - 1] == t
  }

  ghost predicate Reaches(m: Merger, ok: Step -> bool, s: State, t: State) {
    exists run, steps :: IsPathTo(m, ok, run, steps, s, t)
  }

  lemma ReachesItself(m: Merger, ok: Step -> bool, s: State)
    ensures Reaches(m, ok, s, s)
  {
    assert IsPathTo(m, ok, [s], [], s, s);
  }

  lemma ReachesOneMore(m: Merger, ok: Step -> bool, s: State, t: State, step: Step, u: State)
    requires Reaches(m, ok, s, t) && Next(m, t, step, u) && ok(step)
    ensures Reaches(m, ok, s, u)
  {
    hide Next;
    var run, steps :| IsPathTo(m, ok, run, steps, s, t);
    var run', steps' := run + [u], steps + [step];
    forall k | 0 <= k < |steps'| ensures Next(m, run'[k], steps'[k], run'[k + 1]) {
      if k < |steps| {
        assert Next(m, run[k], steps[k], run[k + 1]);
      }
    }
    assert IsPathTo(m, ok, run', steps', s, u);
  }

  lemma ReachesComposes(m: Merger, ok: Step -> bool, s: State, t: State, u: State)
    requires Reaches(m, ok, s, t) && Reaches(m, ok, t, u)
    ensures Reaches(m, ok, s, u)
  {
    hide Next;
    var r1, s1 :| IsPathTo(m, ok, r1, s1, s, t);
    var r2, s2 :| IsPathTo(m, ok, r2, s2, t, u);
    PathsCompose(m, ok, r1, s1, r2, s2);
  }

  lemma {:induction false} PathsCompose(m: Merger, ok: Step -> bool, r1: seq<State>, s1: seq<Step>, r2: seq<State>,
                                        s2: seq<Step>)
    requires IsPathOfSteps(m, r1, s1) && IsPathOfSteps(m, r2, s2) && r1[|r1| - 1] == r2[0]
    requires AllAllowed(ok, s1) && AllAllowed(ok, s2)
    ensures Reaches(m, ok, r1[0], r2[|r2| - 1])
    decreases |s2|
  {
    hide Next, Reaches;
    if s2 == [] {
      PathReaches(m, ok, r1, s1);
    } else {
      var front, steps := r2[..|r2| - 1], s2[..|s2| - 1];
      forall k | 0 <= k < |steps| ensures Next(m, front[k], steps[k], front[k + 1]) {
        assert Next(m, r2[k], s2[k], r2[k + 1]);
      }
      PathsCompose(m, ok, r1, s1, front, steps);
      assert Next(m, r2[|s2| - 1], s2[|s2| - 1], r2[|s2|]);
      ReachesOneMore(m, ok, r1[0], front[|front| - 1], s2[|s2| - 1], r2[|r2| - 1]);
    }
  }

  lemma PathReaches(m: Merger, ok: Step -> bool, run: seq<State>, steps: seq<Step>)
    requires IsPathOfSteps(m, run, steps) && AllAllowed(ok, steps)
    ensures Reaches(m, ok, run[0], run[|run| - 1])
  {
    assert IsPathTo(m, ok, run, steps, run[0], run[|run| - 1]);
  }

  /** Later states know all that earlier ones did. */
  ghost predicate Knows(s: State, t: State) {
    && Inv(t) && t.caps == s.caps && |t.stores| == |s.stores|
    && s.Shaped() && forall i :: 0 <= i < |s.stores| ==> s.seen[i] <= t.seen[i]
  }

  lemma StepKnows(m: Merger, s: State, step: Step, t: State)
    requires Inv(s) && Next(m, s, step, t)
    ensures Knows(s, t)
  {
    hide PlanPut, PlanDelete, PlanPutRaw, PlanPurge, Decide, Sound;
    StepAdvances(m, s, step, t);
  }

  lemma {:induction false} PathKnows(m: Merger, run: seq<State>, steps: seq<Step>, k: nat)
    requires IsPathOfSteps(m, run, steps) && Inv(run[0]) && k < |run|
    ensures Knows(run[0], run[k])
    decreases k
  {
    hide Next, Sound;
    if k > 0 {
      PathKnows(m, run, steps, k - 1);
      assert Next(m, run[k - 1], steps[k - 1], run[k]);
      StepKnows(m, run[k - 1], steps[k - 1], run[k]);
    }
  }

  lemma ReachesKnows(m: Merger, ok: Step -> bool, s: State, t: State)
    requires Inv(s) && Reaches(m, ok, s, t)
    ensures Knows(s, t)
  {
    hide Next, Inv, Knows;
    var run, steps :| IsPathTo(m, ok, run, steps, s, t);
    PathKnows(m, run, steps, |run| - 1);
  }

  // ---- a trace beside a run ----

  /** The two stores of the sync among the cluster's. */
  datatype Places = Places(key: RecordKey, i: nat, j: nat) {
    function At(side: Side): nat {
      if side.OnA? then i else j
    }
  }

  /** The cluster's stores `i` and `j` hold, of the key, what the two tables hold. */
  ghost predicate Holds(p: Places, s: State, t: Tables) {
    && p.i != p.j && p.i < |s.stores| && p.j < |s.stores|
    && s.stores[p.i] == Lookup(t.a, p.key) && s.stores[p.j] == Lookup(t.b, p.key)
  }

  /** The write stores this record of the key, when it lands on it. */
  ghost predicate LandsOn(p: Places, c: Call) {
    c.op.RawWrite? && c.op.landed && c.op.record.key == p.key
  }

  /** The cluster after a call of the sync that found it at `s`: a write that lands stores what the
      store then holds, made from the two records last read. */
  ghost predicate Moves(m: Merger, w: Setting, p: Places, calls: seq<Call>, c: Call, s: State, t: State) {
    if LandsOn(p, c) then
      var ra, rb := LastRead(calls, OnA, p.key), LastRead(calls, OnB, p.key);
      var stored := Lookup(AfterCall(w, Found(w, calls), c).On(c.side), p.key);
      && stored.Some? && |s.stores| == |s.seen| && p.At(c.side) < |s.stores|
      && t == Stored(s, p.At(c.side), stored.value, MadeFrom(Decide(m, ra, rb), ra, rb))
    else t == s
  }

  /** A history of the cluster beside the calls of a sync: others take it, in steps of their own, from
      where each call left it to what the next call finds (`found`), and the call moves it on. */
  ghost predicate Beside(m: Merger, ok: Step -> bool, w: Setting, p: Places, calls: seq<Call>, left: seq<State>,
                         found: seq<State>)
  {
    && |left| == |calls| + 1 && |found| == |calls|
    && forall n :: 0 <= n < |calls| ==>
         && Reaches(m, ok, left[n], found[n]) && Holds(p, found[n], Found(w, calls[..n]))
         && Moves(m, w, p, calls[..n], calls[n], found[n], left[n + 1])
  }

  /** What was last read is something that store has held. */
  ghost predicate ReadsHeld(p: Places, calls: seq<Call>, s: State) {
    && ReadAt(s, p.i, LastRead(calls, OnA, p.key))
    && ReadAt(s, p.j, LastRead(calls, OnB, p.key))
  }

  lemma ReadsStayHeld(p: Places, calls: seq<Call>, s: State, t: State)
    requires ReadsHeld(p, calls, s) && Knows(s, t)
    ensures ReadsHeld(p, calls, t)
  {
    hide Sound, LastRead;
  }

  /** A call of the sync is a step of the cluster, or none. */
  lemma CallIsAStep(m: Merger, ok: Step -> bool, w: Setting, p: Places, calls: seq<Call>, c: Call, s: State, t: State)
    requires Inv(s) && Holds(p, s, Found(w, calls)) && ReadsHeld(p, calls, s)
    requires s.caps[p.i] == w.capA && s.caps[p.j] == w.capB
    requires Answers(w, Found(w, calls), c) && FollowsItsReads(m, calls, c) && Moves(m, w, p, calls, c, s, t)
    ensures if LandsOn(p, c) then
              Next(m, s, SyncWrite(p.i, p.j, c.side.OnA?, LastRead(calls, OnA, p.key), LastRead(calls, OnB, p.key)), t)
            else t == s
    ensures Knows(s, t) && Holds(p, t, AfterCall(w, Found(w, calls), c)) && ReadsHeld(p, calls, t)
    ensures AllowsSync(ok) ==> Reaches(m, ok, s, t)
  {
    hide Inv, Knows, Reaches, Sound, Found, LastRead, Decide, Next, Moves, ReadsHeld;
    ReachesItself(m, ok, s);
    InvIsShaped(s);
    if LandsOn(p, c) {
      var ra, rb := LastRead(calls, OnA, p.key), LastRead(calls, OnB, p.key);
      LandedIsAStep(m, w, p, Found(w, calls), calls, c, s, t);
      StepKnows(m, s, SyncWrite(p.i, p.j, c.side.OnA?, ra, rb), t);
      if AllowsSync(ok) {
        ReachesOneMore(m, ok, s, s, SyncWrite(p.i, p.j, c.side.OnA?, ra, rb), t);
      }
    } else {
      NothingLands(m, w, p, calls, c, s, t);
      ReachesKnows(m, ok, s, t);
    }
    ReadsStayHeld(p, calls, s, t);
  }

  lemma InvIsShaped(s: State)
    requires Inv(s)
    ensures s.Shaped()
  {
  }

  lemma NothingLands(m: Merger, w: Setting, p: Places, calls: seq<Call>, c: Call, s: State, t: State)
    requires Holds(p, s, Found(w, calls)) && !LandsOn(p, c)
    requires Answers(w, Found(w, calls), c) && Moves(m, w, p, calls, c, s, t)
    ensures t == s && Holds(p, t, AfterCall(w, Found(w, calls), c))
  {
    hide Found;
  }

  lemma LandedIsAStep(m: Merger, w: Setting, p: Places, found: Tables, calls: seq<Call>, c: Call, s: State, t: State)
    requires found == Found(w, calls) && LandsOn(p, c)
    requires Holds(p, s, found) && ReadsHeld(p, calls, s) && s.Shaped()
    requires s.caps[p.i] == w.capA && s.caps[p.j] == w.capB
    requires Answers(w, found, c) && FollowsItsReads(m, calls, c) && Moves(m, w, p, calls, c, s, t)
    ensures Holds(p, t, AfterCall(w, found, c))
    ensures Next(m, s, SyncWrite(p.i, p.j, c.side.OnA?, LastRead(calls, OnA, p.key), LastRead(calls, OnB, p.key)), t)
  {
    hide Found, LastRead, Decide, PlanPutRaw;
  }

  /** A read finds what the store holds, which it therefore has held. */
  lemma ReadIsHeld(w: Setting, p: Places, calls: seq<Call>, c: Call, t: State)
    requires Inv(t) && Holds(p, t, AfterCall(w, Found(w, calls), c)) && ReadsHeld(p, calls, t)
    requires Answers(w, Found(w, calls), c)
    ensures ReadsHeld(p, calls + [c], t)
  {
    hide Sound, LastRead, Found, PlanPutRaw;
    LastReadPush(calls, c, OnA, p.key);
    LastReadPush(calls, c, OnB, p.key);
  }

  /** Where the cluster stands after the calls. */
  ghost predicate Stands(m: Merger, ok: Step -> bool, w: Setting, p: Places, calls: seq<Call>, start: State,
                         now: State)
  {
    && Reaches(m, ok, start, now) && Inv(now) && Holds(p, now, Replay(w, calls)) && ReadsHeld(p, calls, now)
    && now.caps == start.caps
  }

  lemma StandsOneMore(m: Merger, ok: Step -> bool, w: Setting, p: Places, calls: seq<Call>, c: Call, start: State,
                      left: State,
                      found: State, now: State)
    requires AllowsSync(ok) && Stands(m, ok, w, p, calls, start, left) && start.Shaped()
    requires p.i < |start.stores| && p.j < |start.stores|
    requires start.caps[p.i] == w.capA && start.caps[p.j] == w.capB
    requires Reaches(m, ok, left, found) && Holds(p, found, Found(w, calls)) && Moves(m, w, p, calls, c, found, now)
    requires Answers(w, Found(w, calls), c) && FollowsItsReads(m, calls, c)
    ensures Stands(m, ok, w, p, calls + [c], start, now)
  {
    hide Inv, Reaches, Found, Moves, ReadsHeld, Replay, FollowsItsReads, Answers, AfterCall;
    ReachesKnows(m, ok, left, found);
    InvIsShaped(found);
    ReadsStayHeld(p, calls, left, found);
    CallIsAStep(m, ok, w, p, calls, c, found, now);
    ReachesComposes(m, ok, start, left, found);
    ReachesComposes(m, ok, start, found, now);
    ReadIsHeld(w, p, calls, c, now);
    OneMoreCall(w, calls, c);
  }

  /** Beside a truthful trace whose writes follow their reads, the cluster's history is a run, and
      its two stores hold of the key what the tables hold. */
  lemma {:induction false} BesideIsARun(m: Merger, ok: Step -> bool, w: Setting, p: Places, calls: seq<Call>,
                                        left: seq<State>, found: seq<State>)
    requires AllowsSync(ok) && Beside(m, ok, w, p, calls, left, found) && Truthful(w, calls) && AllFollow(m, calls)
    requires Inv(left[0]) && Holds(p, left[0], w.start)
    requires left[0].caps[p.i] == w.capA && left[0].caps[p.j] == w.capB
    ensures Stands(m, ok, w, p, calls, left[0], left[|calls|])
    decreases |calls|
  {
    hide Reaches, Found, Moves, ReadsHeld, Replay, FollowsItsReads, Answers, Stands, Inv;
    InvIsShaped(left[0]);
    if calls == [] {
      StandsAtStart(m, ok, w, p, left[0]);
    } else {
      var front, c := calls[..|calls| - 1], calls[|calls| - 1];
      assert front + [c] == calls;
      BesideFront(m, ok, w, p, calls, left, found);
      FollowFront(m, calls);
      BesideIsARun(m, ok, w, p, front, left[..|left| - 1], found[..|found| - 1]);
      assert calls[..|front|] == front;
      StandsOneMore(m, ok, w, p, front, c, left[0], left[|front|], found[|front|], left[|calls|]);
    }
  }

  lemma StandsAtStart(m: Merger, ok: Step -> bool, w: Setting, p: Places, s: State)
    requires Inv(s) && Holds(p, s, w.start)
    ensures Stands(m, ok, w, p, [], s, s)
  {
    hide Reaches, Sound;
    ReachesItself(m, ok, s);
  }

  lemma BesideFront(m: Merger, ok: Step -> bool, w: Setting, p: Places, calls: seq<Call>, left: seq<State>,
                    found: seq<State>)
    requires calls != [] && Beside(m, ok, w, p, calls, left, found)
    ensures Beside(m, ok, w, p, calls[..|calls| - 1], left[..|left| - 1], found[..|found| - 1])
  {
    hide Reaches, Found, Moves, Holds;
    var front := calls[..|calls| - 1];
    forall n | 0 <= n < |front|
      ensures Reaches(m, ok, left[n], found[n]) && Holds(p, found[n], Found(w, front[..n]))
      ensures Moves(m, w, p, front[..n], front[n], found[n], left[n + 1])
    {
      assert front[..n] == calls[..n];
    }
  }

  /** A sync over two stores of the cluster extends the run that led there to another run, by its own
      replication writes and by what others do meanwhile, all of it allowed steps. */
  lemma SyncExtendsTheRun(m: Merger, ok: Step -> bool, w: Setting, p: Places, calls: seq<Call>, left: seq<State>,
                          found: seq<State>, run: seq<State>, steps: seq<Step>)
    returns (run': seq<State>, steps': seq<Step>)
    requires AllowsSync(ok) && Truthful(w, calls) && AllFollow(m, calls) && Beside(m, ok, w, p, calls, left, found)
    requires IsRun(m, run, steps) && run[|run| - 1] == left[0] && Holds(p, left[0], w.start)
    requires p.i < |left[0].caps| && p.j < |left[0].caps|
    requires left[0].caps[p.i] == w.capA && left[0].caps[p.j] == w.capB
    ensures IsRun(m, run', steps') && run <= run' && steps <= steps' && Allowed(ok, steps', |steps|)
    ensures Holds(p, run'[|run'| - 1], Replay(w, calls))
  {
    hide Reaches, Found, Moves, Replay, Holds, Inv, Truthful, AllFollow, Next, Cluster.Initial;
    Reachable(m, run, steps, |run| - 1);
    BesideIsARun(m, ok, w, p, calls, left, found);
    run', steps' := RunExtends(m, ok, run, steps, left[|calls|]);
  }

  /** Every step from the `n`-th on is allowed. */
  ghost predicate Allowed(ok: Step -> bool, steps: seq<Step>, n: nat) {
    forall k :: n <= k < |steps| ==> ok(steps[k])
  }

  lemma RunExtends(m: Merger, ok: Step -> bool, run: seq<State>, steps: seq<Step>, t: State)
    returns (run': seq<State>, steps': seq<Step>)
    requires IsRun(m, run, steps) && Reaches(m, ok, run[|run| - 1], t)
    ensures IsRun(m, run', steps') && run <= run' && run'[|run'| - 1] == t
    ensures steps <= steps' && Allowed(ok, steps', |steps|)
  {
    hide Next, Cluster.Initial;
    var r2, s2 :| IsPathTo(m, ok, r2, s2, run[|run| - 1], t);
    run', steps' := run + r2[1..], steps + s2;
    forall k | 0 <= k < |steps'| ensures Next(m, run'[k], steps'[k], run'[k + 1]) {
      if k < |steps| {
        assert Next(m, run[k], steps[k], run[k + 1]);
      } else {
        assert Next(m, r2[k - |steps|], s2[k - |steps|], r2[k - |steps| + 1]);
        assert run'[k] == r2[k - |steps|];
      }
    }
  }

  // ---- what holds across a sync ----

  /** Everything but a purge of store `i`. */
  ghost function NoPurgeOf(i: nat): Step -> bool {
    (st: Step) => !(st.Purge? && st.i == i)
  }

  /** Nothing comes back across a sync. Whatever a store had left behind before it, the sync and all
      that others do meanwhile, short of purging that store, leave it behind: the table holds something
      else afterwards, with a higher counter. */
  lemma NoResurrectionAcrossSync(m: Merger, w: Setting, p: Places, side: Side, calls: seq<Call>,
                                 left: seq<State>, found: seq<State>, run: seq<State>, steps: seq<Step>,
                                 t: nat, r: Revision)
    requires Truthful(w, calls) && AllFollow(m, calls)
    requires Beside(m, NoPurgeOf(p.At(side)), w, p, calls, left, found)
    requires IsRun(m, run, steps) && run[|run| - 1] == left[0] && Holds(p, left[0], w.start)
    requires p.i < |left[0].caps| && p.j < |left[0].caps|
    requires left[0].caps[p.i] == w.capA && left[0].caps[p.j] == w.capB
    requires t < |run| && NoPurgeAt(steps, p.At(side), t, |steps|)
    requires p.At(side) < |run[0].stores| == |run[t].stores| && run[t].stores[p.At(side)].Some?
    requires Descends(run[t].lineage, r, run[t].stores[p.At(side)].value.revision)
    ensures var held := Lookup(Replay(w, calls).On(side), p.key);
            held.Some? && held.value.revision != r && held.value.revision.counter > r.counter
  {
    hide Reaches, Found, Moves, Replay, Inv, Truthful, AllFollow, Next, Cluster.Initial, Beside, Descends;
    var ok, i := NoPurgeOf(p.At(side)), p.At(side);
    var run', steps' := SyncExtendsTheRun(m, ok, w, p, calls, left, found, run, steps);
    StillNoPurge(i, steps, steps', t);
    assert run'[t] == run[t] && run'[0] == run[0];
    NoResurrection(m, run', steps', i, t, |run'| - 1, r);
  }

  lemma StillNoPurge(i: nat, steps: seq<Step>, steps': seq<Step>, t: nat)
    requires t <= |steps| && NoPurgeAt(steps, i, t, |steps|)
    requires steps <= steps' && Allowed(NoPurgeOf(i), steps', |steps|)
    ensures NoPurgeAt(steps', i, t, |steps'|)
  {
    forall k | t <= k < |steps'| ensures !(steps'[k].Purge? && steps'[k].i == i) {
      if k < |steps| {
        assert steps'[k] == steps[k];
      } else {
        assert NoPurgeOf(i)(steps'[k]);
      }
    }
  }

  ghost function OnlyAppends(): Step -> bool {
    (st: Step) => AppendStep(st)
  }

  /** Nothing appended is lost across a sync. On an append-only key the lines a store's table held at the
      start, and any it had ever held, are still there, in order, when the sync ends, whatever appending
      and syncing others do meanwhile. */
  lemma NothingAppendedIsLostAcrossSync(m: Merger, w: Setting, p: Places, side: Side, calls: seq<Call>,
                                        left: seq<State>, found: seq<State>, run: seq<State>, steps: seq<Step>,
                                        t: nat)
    requires Truthful(w, calls) && AllFollow(m, calls) && Beside(m, OnlyAppends(), w, p, calls, left, found)
    requires IsRun(m, run, steps) && run[|run| - 1] == left[0] && Holds(p, left[0], w.start)
    requires p.i < |left[0].caps| && p.j < |left[0].caps|
    requires left[0].caps[p.i] == w.capA && left[0].caps[p.j] == w.capB
    requires AllAllowed(OnlyAppends(), steps)
    requires t < |run| && p.At(side) < |run[0].stores| == |run[t].stores| && run[t].stores[p.At(side)].Some?
    ensures var held := Lookup(Replay(w, calls).On(side), p.key);
            && held.Some?
            && KeepsLines(run[t].stores[p.At(side)].value.body.Bytes(), held.value.body.Bytes())
  {
    hide Reaches, Found, Moves, Replay, Inv, Truthful, AllFollow, Next, Cluster.Initial, Beside, KeepsLines;
    var i := p.At(side);
    var run', steps' := SyncExtendsTheRun(m, OnlyAppends(), w, p, calls, left, found, run, steps);
    StillAppends(steps, steps');
    assert run'[t] == run[t] && run'[0] == run[0];
    NothingAppendedIsLost(m, run', steps', i, t, |run'| - 1);
  }

  lemma StillAppends(steps: seq<Step>, steps': seq<Step>)
    requires AllAllowed(OnlyAppends(), steps) && steps <= steps' && Allowed(OnlyAppends(), steps', |steps|)
    ensures forall k :: 0 <= k < |steps'| ==> AppendStep(steps'[k])
  {
    forall k | 0 <= k < |steps'| ensures AppendStep(steps'[k]) {
      if k < |steps| {
        assert OnlyAppends()(steps[k]) && steps'[k] == steps[k];
      } else {
        assert OnlyAppends()(steps'[k]);
      }
    }
  }

  // ---- nobody else acts ----

  /** The cluster's history beside a sync nobody disturbs: it moves only where the sync writes. */
  lemma {:induction false} QuietBeside(m: Merger, ok: Step -> bool, w: Setting, p: Places, calls: seq<Call>,
                                       start: State)
    returns (left: seq<State>)
    requires AllowsSync(ok) && Truthful(w, calls) && AllFollow(m, calls) && Quiet(w, 0, |calls|)
    requires Inv(start) && Holds(p, start, w.start)
    requires start.caps[p.i] == w.capA && start.caps[p.j] == w.capB
    ensures |left| == |calls| + 1 && left[0] == start && Beside(m, ok, w, p, calls, left, left[..|calls|])
    ensures Stands(m, ok, w, p, calls, start, left[|calls|])
    decreases |calls|
  {
    hide Reaches, Found, Moves, ReadsHeld, Replay, FollowsItsReads, Answers, Stands, Inv;
    InvIsShaped(start);
    if calls == [] {
      left := [start];
      StandsAtStart(m, ok, w, p, start);
    } else {
      var front, c := calls[..|calls| - 1], calls[|calls| - 1];
      assert front + [c] == calls;
      FollowFront(m, calls);
      var before := QuietBeside(m, ok, w, p, front, start);
      QuietFindsWhatWasLeft(w, front);
      var s := before[|front|];
      var t := QuietMove(m, ok, w, p, front, c, start, s);
      left := before + [t];
      ReachesItself(m, ok, s);
      StandsOneMore(m, ok, w, p, front, c, start, s, s, t);
      BesideOneMore(m, ok, w, p, front, c, before, t);
      assert left[..|calls|] == before;
    }
  }

  /** Where a call moves the cluster. */
  lemma QuietMove(m: Merger, ok: Step -> bool, w: Setting, p: Places, calls: seq<Call>, c: Call, start: State, s: State)
    returns (t: State)
    requires Stands(m, ok, w, p, calls, start, s) && Found(w, calls) == Replay(w, calls)
    requires Answers(w, Found(w, calls), c)
    ensures Holds(p, s, Found(w, calls)) && Moves(m, w, p, calls, c, s, t)
  {
    hide Reaches, Found, Replay, LastRead, Decide, Sound, ReadsHeld;
    if LandsOn(p, c) {
      var ra, rb := LastRead(calls, OnA, p.key), LastRead(calls, OnB, p.key);
      var stored := Lookup(AfterCall(w, Found(w, calls), c).On(c.side), p.key);
      t := Stored(s, p.At(c.side), stored.value, MadeFrom(Decide(m, ra, rb), ra, rb));
    } else {
      t := s;
    }
  }

  lemma BesideOneMore(m: Merger, ok: Step -> bool, w: Setting, p: Places, calls: seq<Call>, c: Call,
                      before: seq<State>, t: State)
    requires |before| == |calls| + 1 && Beside(m, ok, w, p, calls, before, before[..|calls|])
    requires Reaches(m, ok, before[|calls|], before[|calls|]) && Holds(p, before[|calls|], Found(w, calls))
    requires Moves(m, w, p, calls, c, before[|calls|], t)
    ensures Beside(m, ok, w, p, calls + [c], before + [t], before)
  {
    hide Reaches, Found, Moves, Holds;
    var more, left := calls + [c], before + [t];
    forall n | 0 <= n < |more|
      ensures Reaches(m, ok, left[n], before[n]) && Holds(p, before[n], Found(w, more[..n]))
      ensures Moves(m, w, p, more[..n], more[n], before[n], left[n + 1])
    {
      assert more[..n] == calls[..n];
      if n == |calls| {
        assert calls[..n] == calls;
      } else {
        assert before[..|calls|][n] == before[n];
      }
    }
  }

  /** So a sync that nobody disturbs never brings back what one of its stores had left behind. */
  lemma QuietSyncNeverResurrects(m: Merger, w: Setting, p: Places, side: Side, passes: seq<Pass>,
                                 run: seq<State>, steps: seq<Step>, t: nat, r: Revision)
    requires var calls := AfterPasses(m, [], passes);
             Truthful(w, calls) && Quiet(w, 0, |calls|) && WellKeyed(w)
    requires IsRun(m, run, steps) && Holds(p, run[|run| - 1], w.start)
    requires var last := run[|run| - 1];
             p.i < |last.caps| && p.j < |last.caps| && last.caps[p.i] == w.capA && last.caps[p.j] == w.capB
    requires t < |run| && NoPurgeAt(steps, p.At(side), t, |steps|)
    requires p.At(side) < |run[0].stores| == |run[t].stores| && run[t].stores[p.At(side)].Some?
    requires Descends(run[t].lineage, r, run[t].stores[p.At(side)].value.revision)
    ensures var held := Lookup(Replay(w, AfterPasses(m, [], passes)).On(side), p.key);
            held.Some? && held.value.revision != r && held.value.revision.counter > r.counter
  {
    hide Reaches, Found, Moves, Replay, Inv, Truthful, AllFollow, Next, Cluster.Initial, Beside, Descends, AfterPasses,
      WellKeyed, Stands, Holds;
    var calls := AfterPasses(m, [], passes);
    Reachable(m, run, steps, |run| - 1);
    NothingFollows(m);
    RunFollowsItsReads(m, w, [], passes);
    var left := QuietBeside(m, NoPurgeOf(p.At(side)), w, p, calls, run[|run| - 1]);
    NoResurrectionAcrossSync(m, w, p, side, calls, left, left[..|calls|], run, steps, t, r);
  }
}
