/** Two stores that others write too: every call may find that someone acted just before it. */
module Contention {
  import opened Wrappers
  import opened Records
  import opened Planners
  import opened Stores

  datatype Side = OnA | OnB

  datatype Tables = Tables(a: Table, b: Table) {
    function On(side: Side): Table {
      if side.OnA? then a else b
    }

    function With(side: Side, t: Table): Tables {
      if side.OnA? then Tables(t, b) else Tables(a, t)
    }
  }

  /** What others do to the two stores just before a call: put another table in place, or nothing. */
  datatype Interruption = Interruption(a: Option<Table>, b: Option<Table>)

  const NOBODY := Interruption(None, None)

  /** A raw store call with its answer. */
  datatype Op =
    | RawList(keys: set<RecordKey>)
    | RawRead(key: RecordKey, got: Option<Record>)
    | RawWrite(record: Record, expected: Option<Revision>, landed: bool)

  datatype Call = Call(side: Side, op: Op)

  /** Where a trace of calls starts, and what others do before each of them. */
  datatype Setting = Setting(start: Tables, others: nat -> Interruption, capA: nat, capB: nat) {
    function Cap(side: Side): nat {
      if side.OnA? then capA else capB
    }
  }

  function Interrupted(t: Tables, i: Interruption): Tables {
    Tables(if i.a.Some? then i.a.value else t.a, if i.b.Some? then i.b.value else t.b)
  }

  /** What the store decides about a write that finds these tables. */
  function PlanFor(w: Setting, found: Tables, side: Side, record: Record, expected: Option<Revision>): PutPlan {
    PlanPutRaw(Lookup(found.On(side), record.key), record, expected, w.Cap(side))
  }

  /** The tables after a call that found `found`: only a write that lands changes anything. */
  function AfterCall(w: Setting, found: Tables, c: Call): Tables {
    if c.op.RawWrite? then
      var plan := PlanFor(w, found, c.side, c.op.record, c.op.expected);
      found.With(c.side, AfterPut(found.On(c.side), c.op.record.key, plan))
    else found
  }

  /** The call's answer is what the tables it found call for. */
  predicate Answers(w: Setting, found: Tables, c: Call) {
    match c.op
    case RawList(keys) => keys == found.On(c.side).Keys
    case RawRead(key, got) => got == Lookup(found.On(c.side), key)
    case RawWrite(record, expected, landed) => landed <==> PlanFor(w, found, c.side, record, expected).Write?
  }

  /** The tables once these calls have been made. */
  function Replay(w: Setting, calls: seq<Call>): Tables {
    if calls == [] then w.start
    else
      var front := calls[..|calls| - 1];
      AfterCall(w, Interrupted(Replay(w, front), w.others(|front|)), calls[|calls| - 1])
  }

  /** The tables the call after these finds, others having acted first. */
  function Found(w: Setting, calls: seq<Call>): Tables {
    Interrupted(Replay(w, calls), w.others(|calls|))
  }

  /** Every recorded answer is what the stores gave. */
  ghost predicate Truthful(w: Setting, calls: seq<Call>) {
    calls == []
    || (Truthful(w, calls[..|calls| - 1]) && Answers(w, Found(w, calls[..|calls| - 1]), calls[|calls| - 1]))
  }

  lemma OneMoreCall(w: Setting, calls: seq<Call>, c: Call)
    ensures Truthful(w, calls + [c]) <==> Truthful(w, calls) && Answers(w, Found(w, calls), c)
    ensures Replay(w, calls + [c]) == AfterCall(w, Found(w, calls), c)
  {
    assert (calls + [c])[..|calls + [c]| - 1] == calls;
  }

  // ---- keys ----

  /** Others file every record under its own key, as every store does. */
  ghost predicate WellKeyed(w: Setting) {
    && KeyedByOwnKey(w.start.a) && KeyedByOwnKey(w.start.b)
    && (forall n :: w.others(n).a.Some? ==> KeyedByOwnKey(w.others(n).a.value))
    && (forall n :: w.others(n).b.Some? ==> KeyedByOwnKey(w.others(n).b.value))
  }

  lemma {:induction false} ReplayIsKeyed(w: Setting, calls: seq<Call>)
    requires WellKeyed(w)
    ensures KeyedByOwnKey(Replay(w, calls).a) && KeyedByOwnKey(Replay(w, calls).b)
    ensures KeyedByOwnKey(Found(w, calls).a) && KeyedByOwnKey(Found(w, calls).b)
    decreases |calls|
  {
    if calls != [] {
      ReplayIsKeyed(w, calls[..|calls| - 1]);
    }
  }

  // ---- quiet stretches ----

  /** Nobody else acts before the calls numbered `lo` up to `hi`. */
  ghost predicate Quiet(w: Setting, lo: nat, hi: nat) {
    forall n :: lo <= n < hi ==> w.others(n) == NOBODY
  }

  lemma QuietFindsWhatWasLeft(w: Setting, calls: seq<Call>)
    requires w.others(|calls|) == NOBODY
    ensures Found(w, calls) == Replay(w, calls)
  {
  }

  // ---- the stores in use ----

  class Pair {
    const a: MemStore
    const b: MemStore
    const others: nat -> Interruption
    var clock: nat
    ghost const start: Tables
    ghost var trace: seq<Call>

    ghost function World(): Setting
      reads this
    {
      Setting(start, others, a.cap, b.cap)
    }

    /** The two tables are what the recorded calls and the others' actions made of them. */
    ghost predicate Valid()
      reads this, a, b
    {
      && a != b && clock == |trace|
      && Tables(a.records, b.records) == Replay(World(), trace)
      && Truthful(World(), trace)
    }

    constructor (a: MemStore, b: MemStore, others: nat -> Interruption)
      requires a != b
      ensures Valid() && trace == []
      ensures World() == Setting(Tables(a.records, b.records), others, a.cap, b.cap)
      ensures this.a == a && this.b == b
    {
      this.a, this.b, this.others := a, b, others;
      this.clock, this.trace := 0, [];
      this.start := Tables(a.records, b.records);
    }

    /** Others act, whoever is to call next. */
    method Interrupt()
      requires Valid()
      modifies a, b
      ensures Tables(a.records, b.records) == Found(World(), trace)
    {
      var i := others(clock);
      if i.a.Some? {
        a.records := i.a.value;
      }
      if i.b.Some? {
        b.records := i.b.value;
      }
    }

    method ListRaw(side: Side) returns (keys: set<RecordKey>)
      requires Valid()
      modifies this, a, b
      ensures Valid() && trace == old(trace) + [Call(side, RawList(keys))]
    {
      Interrupt();
      var store := if side.OnA? then a else b;
      keys := store.ListRaw(KeyPrefix(None, None));
      assert keys == store.records.Keys;
      OneMoreCall(World(), trace, Call(side, RawList(keys)));
      clock, trace := clock + 1, trace + [Call(side, RawList(keys))];
    }

    method GetRaw(side: Side, key: RecordKey) returns (got: Option<Record>)
      requires Valid()
      modifies this, a, b
      ensures Valid() && trace == old(trace) + [Call(side, RawRead(key, got))]
    {
      Interrupt();
      var store := if side.OnA? then a else b;
      got := store.GetRaw(key);
      OneMoreCall(World(), trace, Call(side, RawRead(key, got)));
      clock, trace := clock + 1, trace + [Call(side, RawRead(key, got))];
    }

    /** A conditional replication write; a conflict or a missing key means the race was lost. */
    method PutRaw(side: Side, record: Record, expected: Option<Revision>) returns (landed: bool)
      requires Valid()
      modifies this, a, b
      ensures Valid() && trace == old(trace) + [Call(side, RawWrite(record, expected, landed))]
    {
      hide PlanPutRaw, Replay, Truthful;
      Interrupt();
      var store := if side.OnA? then a else b;
      var r := store.PutRaw(record, expected);
      landed := r.Ok? && r.value.Committed?;
      OneMoreCall(World(), trace, Call(side, RawWrite(record, expected, landed)));
      clock, trace := clock + 1, trace + [Call(side, RawWrite(record, expected, landed))];
    }
  }
}
