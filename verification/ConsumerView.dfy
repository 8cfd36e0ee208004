/** What a consumer sees of a store: a plain optimistic-concurrency map of live records. */
module ConsumerView {
  import opened Wrappers
  import opened Records
  import opened Planners
  import opened Stores

  datatype Call =
    | GetCall(key: RecordKey)
    | ListCall(prefix: KeyPrefix)
    | PutCall(record: Record, expected: Option<Revision>, now: int)
    | DeleteCall(key: RecordKey, expected: Option<Revision>, now: int, author: Option<string>)

  datatype Answer =
    | Got(found: Option<Record>)
    | Keys(keys: set<RecordKey>)
    | PutDone(put: Result<PutResult>)
    | DeleteDone(deletion: DeleteResult)

  /** The store's own step: what its methods do and answer. */
  function AfterCall(t: Table, call: Call, cap: nat): Table {
    match call
    case GetCall(_) | ListCall(_) => t
    case PutCall(record, expected, now) =>
      AfterPut(t, record.key, PlanPut(Lookup(t, record.key), record, expected, now, cap))
    case DeleteCall(key, expected, now, author) =>
      AfterDelete(t, key, PlanDelete(Lookup(t, key), expected, now, cap, author))
  }

  function AnswerTo(t: Table, call: Call, cap: nat): Answer {
    match call
    case GetCall(key) => Got(Lookup(View(t), key))
    case ListCall(prefix) => Keys(set k | k in View(t) && prefix.Matches(k))
    case PutCall(record, expected, now) => PutDone(PutAnswer(PlanPut(Lookup(t, record.key), record, expected, now,
        cap)))
    case DeleteCall(key, expected, now, author) =>
      DeleteDone(DeleteAnswer(PlanDelete(Lookup(t, key), expected, now, cap, author)))
  }

  /** The consumer's content is stored as given, stamped with the time of the write. */
  predicate StoredAsGiven(stored: Record, given: Record, created: int, now: int) {
    && stored.key == given.key && stored.kind == given.kind && stored.body == given.body
    && stored.meta == given.meta.(created := created, updated := now) && stored.links == given.links
  }

  /** What a plain map of live records allows: conditional writes and deletes decided by the
      revision it holds, nothing else moving. A create may be stamped with another revision, or
      be refused; every other answer is determined. */
  ghost predicate PlainAllows(v: Table, call: Call, v': Table, answer: Answer) {
    match call
    case GetCall(key) => v' == v && answer == Got(Lookup(v, key))
    case ListCall(prefix) => v' == v && answer == Keys(set k | k in v && prefix.Matches(k))
    case DeleteCall(key, expected, _, _) =>
      if key !in v then v' == v && answer == DeleteDone(Deleted)
      else if expected == None || expected == Some(v[key].revision) then v' == v - {key}
        && answer == DeleteDone(Deleted)
      else v' == v && answer == DeleteDone(Conflicted(Conflict(expected, v[key])))
    case PutCall(record, expected, now) =>
      var key := record.key;
      if record.IsTombstone() then v' == v && answer == PutDone(Err(Invalid))
      else if key in v then
        if expected == Some(v[key].revision) then
          && key in v' && v' == v[key := v'[key]] && answer == PutDone(Ok(Committed(record.revision)))
          && StoredAsGiven(v'[key], record, v[key].meta.created, now) && v'[key].revision == record.revision
        else v' == v && answer == PutDone(Ok(PutConflict(Conflict(expected, v[key]))))
      else if expected.Some? then v' == v && answer == PutDone(Err(NotFound))
      else
        || (v' == v && answer == PutDone(Err(Invalid)))
        || (key in v' && v' == v[key := v'[key]] && answer == PutDone(Ok(Committed(v'[key].revision)))
            && StoredAsGiven(v'[key], record, now, now))
  }

  lemma PutRefines(t: Table, record: Record, expected: Option<Revision>, now: int, cap: nat)
    ensures var call := PutCall(record, expected, now);
            PlainAllows(View(t), call, View(AfterCall(t, call, cap)), AnswerTo(t, call, cap))
  {
    var plan := PlanPut(Lookup(t, record.key), record, expected, now, cap);
    if plan.Write? {
      assert View(t[record.key := plan.record]) == View(t)[record.key := plan.record];
    }
  }

  lemma DeleteRefines(t: Table, key: RecordKey, expected: Option<Revision>, now: int, author: Option<string>, cap: nat)
    ensures var call := DeleteCall(key, expected, now, author);
            PlainAllows(View(t), call, View(AfterCall(t, call, cap)), AnswerTo(t, call, cap))
  {
    var plan := PlanDelete(Lookup(t, key), expected, now, cap, author);
    if plan.Bury? {
      assert View(t[key := plan.tombstone]) == View(t) - {key};
    }
  }

  /** Where the plain map leaves a choice, the store's is determined by the tombstone hidden
      there: a create is refused exactly over a restore window, and it keeps its revision unless
      a tombstone has to be continued, by one counter; the record then names the tombstone as its
      parent and carries nothing of the delete. */
  lemma CreateOverHiddenTombstone(t: Table, record: Record, now: int, cap: nat)
    requires !record.IsTombstone() && record.key !in View(t)
    ensures var answer := AnswerTo(t, PutCall(record, None, now), cap).put;
            var hidden := Lookup(t, record.key);
            && (answer == Err(Invalid) <==> hidden.Some? && IsRestoreWindow(hidden.value))
            && (answer != Err(Invalid) ==> answer == Ok(Committed(
                  if hidden.None? then record.revision
                  else Revision(hidden.value.revision.counter + 1, HashOf(record.body.Bytes())))))
            && (hidden.Some? && answer != Err(Invalid) ==>
                  var stored := AfterCall(t, PutCall(record, None, now), cap)[record.key];
                  && stored.parent == Some(hidden.value.revision)
                  && stored.deletedAt == None && stored.deletedBlob == None && stored.deletedKind == None)
  {
  }

  // ---- whole sessions ----

  function AfterCalls(t: Table, calls: seq<Call>, cap: nat): Table
    decreases calls
  {
    if calls == [] then t else AfterCalls(AfterCall(t, calls[0], cap), calls[1..], cap)
  }

  function Answers(t: Table, calls: seq<Call>, cap: nat): (r: seq<Answer>)
    ensures |r| == |calls|
    decreases calls
  {
    if calls == [] then [] else [AnswerTo(t, calls[0], cap)] + Answers(AfterCall(t, calls[0], cap), calls[1..], cap)
  }

  /** `views` is a session of the plain map that gives these answers to these calls. */
  ghost predicate PlainSession(views: seq<Table>, calls: seq<Call>, answers: seq<Answer>) {
    && |views| == |calls| + 1 && |answers| == |calls|
    && forall i :: 0 <= i < |calls| ==> PlainAllows(views[i], calls[i], views[i + 1], answers[i])
  }

  /** Hiding tombstones, every sequence of consumer calls is a session of the plain map. */
  lemma {:induction false} SessionRefines(t: Table, calls: seq<Call>, cap: nat) returns (views: seq<Table>)
    ensures PlainSession(views, calls, Answers(t, calls, cap))
    ensures views[0] == View(t) && views[|calls|] == View(AfterCalls(t, calls, cap))
    decreases calls
  {
    if calls == [] {
      views := [View(t)];
    } else {
      match calls[0] {
        case GetCall(_) =>
        case ListCall(_) =>
        case PutCall(record, expected, now) => PutRefines(t, record, expected, now, cap);
        case DeleteCall(key, expected, now, author) => DeleteRefines(t, key, expected, now, author, cap);
      }
      var rest := SessionRefines(AfterCall(t, calls[0], cap), calls[1..], cap);
      views := [View(t)] + rest;
      var answers := Answers(t, calls, cap);
      forall i | 0 <= i < |calls| ensures PlainAllows(views[i], calls[i], views[i + 1], answers[i]) {
        if i > 0 {
          assert PlainAllows(rest[i - 1], calls[1..][i - 1], rest[i], answers[1..][i - 1]);
        }
      }
    }
  }
}
