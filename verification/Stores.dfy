/** The reference in-memory store, and the plain map a consumer believes it is using. */
module Stores {
  import opened Wrappers
  import opened Records
  import opened Planners

  type Table = map<RecordKey, Record>

  datatype PutResult = Committed(revision: Revision) | PutConflict(conflict: Conflict)

  datatype DeleteResult = Deleted | Conflicted(conflict: Conflict)

  datatype KeyPrefix = KeyPrefix(ns: Option<seq<byte>>, collection: Option<seq<byte>>) {
    predicate Matches(key: RecordKey) {
      (ns.Some? ==> ns.value == key.ns) && (collection.Some? ==> collection.value == key.collection)
    }
  }

  function Lookup(t: Table, key: RecordKey): Option<Record> {
    if key in t then Some(t[key]) else None
  }

  // ---- one store call as a function of the table ----

  function AfterPut(t: Table, key: RecordKey, plan: PutPlan): Table {
    if plan.Write? then t[key := plan.record] else t
  }

  function PutAnswer(plan: PutPlan): Result<PutResult> {
    match plan
    case Write(record) => Ok(Committed(record.revision))
    case Refuse(conflict) => Ok(PutConflict(conflict))
    case Missing => Err(NotFound)
    case Rejected => Err(Invalid)
  }

  function AfterDelete(t: Table, key: RecordKey, plan: DeletePlan): Table {
    if plan.Bury? then t[key := plan.tombstone] else t
  }

  function DeleteAnswer(plan: DeletePlan): DeleteResult {
    if plan.DeleteConflict? then Conflicted(plan.conflict) else Deleted
  }

  function AfterPurge(t: Table, key: RecordKey, plan: PurgePlan): Table {
    if plan.Remove? then t - {key} else t
  }

  function PurgeAnswer(plan: PurgePlan): DeleteResult {
    if plan.PurgeConflict? then Conflicted(plan.conflict) else Deleted
  }

  /** The keys a consumer sees: tombstones are hidden. */
  function View(t: Table): Table {
    map k | k in t && !t[k].IsTombstone() :: t[k]
  }

  /** Every record is filed under its own key. */
  ghost predicate KeyedByOwnKey(t: Table) {
    forall k :: k in t ==> t[k].key == k
  }

  /** A consumer read and a raw read differ at tombstones and nowhere else: there the consumer sees
      nothing, which is why replication must read raw. */
  lemma ReadsDifferExactly(t: Table, key: RecordKey)
    ensures Lookup(View(t), key) != Lookup(t, key) <==> key in t && t[key].IsTombstone()
    ensures Lookup(View(t), key) == None || Lookup(View(t), key) == Lookup(t, key)
    ensures Lookup(View(t), key).Some? ==> !Lookup(View(t), key).value.IsTombstone()
  {
  }

  /** What a raw listing adds to a consumer's is exactly the tombstones under the prefix. */
  lemma ListingsDifferExactly(t: Table, prefix: KeyPrefix)
    ensures var raw, seen := set k | k in t && prefix.Matches(k), set k | k in View(t) && prefix.Matches(k);
            seen <= raw && forall k :: k in raw && k !in seen <==> k in t && t[k].IsTombstone() && prefix.Matches(k)
  {
  }

  /** The record's hash is its content's: a tombstone's is the shared one, a live record's its body's. */
  predicate HashIsTrue(r: Record) {
    r.revision.hash == if r.IsTombstone() then TombstoneHash() else HashOf(r.body.Bytes())
  }

  class MemStore {
    var records: Table
    const cap: nat

    constructor (cap: nat)
      requires cap >= 1
      ensures records == map[] && this.cap == cap
    {
      this.records := map[];
      this.cap := cap;
    }

    method Get(key: RecordKey) returns (r: Option<Record>)
      ensures r == Lookup(View(records), key)
    {
      r := Lookup(records, key);
      if r.Some? && r.value.IsTombstone() {
        r := None;
      }
    }

    method GetRaw(key: RecordKey) returns (r: Option<Record>)
      ensures r == Lookup(records, key)
    {
      r := Lookup(records, key);
    }

    method List(prefix: KeyPrefix) returns (keys: set<RecordKey>)
      requires KeyedByOwnKey(records)
      ensures keys == set k | k in View(records) && prefix.Matches(k)
    {
      keys := set k | k in records && !records[k].IsTombstone() && prefix.Matches(records[k].key) :: records[k].key;
      forall k ensures k in keys <==> k in View(records) && prefix.Matches(k) {
        if k in records { assert records[k].key == k; }
      }
    }

    method ListRaw(prefix: KeyPrefix) returns (keys: set<RecordKey>)
      ensures keys == set k | k in records && prefix.Matches(k)
    {
      keys := set k | k in records && prefix.Matches(k);
    }

    method Put(record: Record, expected: Option<Revision>, now: int) returns (r: Result<PutResult>)
      modifies this
      ensures var plan := PlanPut(Lookup(old(records), record.key), record, expected, now, cap);
              records == AfterPut(old(records), record.key, plan) && r == PutAnswer(plan)
    {
      r := Apply(record.key, PlanPut(Lookup(records, record.key), record, expected, now, cap));
    }

    method PutRaw(record: Record, expected: Option<Revision>) returns (r: Result<PutResult>)
      modifies this
      ensures var plan := PlanPutRaw(Lookup(old(records), record.key), record, expected, cap);
              records == AfterPut(old(records), record.key, plan) && r == PutAnswer(plan)
    {
      r := Apply(record.key, PlanPutRaw(Lookup(records, record.key), record, expected, cap));
    }

    /** The shared write path: carry out a planner's decision. */
    method Apply(key: RecordKey, plan: PutPlan) returns (r: Result<PutResult>)
      modifies this
      ensures records == AfterPut(old(records), key, plan) && r == PutAnswer(plan)
    {
      match plan
      case Write(stored) =>
        records := records[key := stored];
        r := Ok(Committed(stored.revision));
      case Refuse(conflict) => r := Ok(PutConflict(conflict));
      case Missing => r := Err(NotFound);
      case Rejected => r := Err(Invalid);
    }

    method DeleteAs(key: RecordKey, expected: Option<Revision>, author: Option<string>, now: int)
      returns (r: DeleteResult)
      modifies this
      ensures var plan := PlanDelete(Lookup(old(records), key), expected, now, cap, author);
              records == AfterDelete(old(records), key, plan) && r == DeleteAnswer(plan)
    {
      match PlanDelete(Lookup(records, key), expected, now, cap, author)
      case Bury(tombstone) =>
        records := records[key := tombstone];
        r := Deleted;
      case NothingToDelete => r := Deleted;
      case DeleteConflict(conflict) => r := Conflicted(conflict);
    }

    method Purge(key: RecordKey, expected: Revision) returns (r: DeleteResult)
      modifies this
      ensures var plan := PlanPurge(Lookup(old(records), key), expected);
              records == AfterPurge(old(records), key, plan) && r == PurgeAnswer(plan)
    {
      match PlanPurge(Lookup(records, key), expected)
      case Remove =>
        records := records - {key};
        r := Deleted;
      case NothingToPurge => r := Deleted;
      case PurgeConflict(conflict) => r := Conflicted(conflict);
    }
  }
}
