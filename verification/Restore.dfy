/** Collecting old tombstones, restoring deleted manifests, and the window in which that works. */
module Restore {
  import opened Wrappers
  import opened Records
  import opened Ancestors
  import opened Planners
  import opened Stores
  import opened Gc

  // ---- collection ----

  /** A stamped tombstone at least `horizon` old. */
  predicate Collectable(r: Record, horizon: nat, now: int) {
    r.IsTombstone() && r.deletedAt.Some? && now - r.deletedAt.value >= horizon
  }

  function AfterCollect(t: Table, prefix: KeyPrefix, horizon: nat, now: int): Table {
    map k | k in t && !(prefix.Matches(k) && Collectable(t[k], horizon, now)) :: t[k]
  }

  datatype CollectReport = CollectReport(purged: set<RecordKey>, unstamped: nat, conflicts: set<RecordKey>)

  const EMPTY_REPORT := CollectReport({}, 0, {})

  /** Others act: they may put another table in place. */
  function Arrived(t: Table, arriving: Option<Table>): Table {
    if arriving.Some? then arriving.value else t
  }

  /** A collection under way: the table, how many store calls it has made, and its report so far. */
  datatype Collection = Collection(t: Table, clock: nat, report: CollectReport)

  /** One key: read it, and purge the revision read when it is a stamped tombstone that is old enough.
      Others act before either call. */
  function CollectOne(others: nat -> Option<Table>, horizon: nat, now: int, key: RecordKey, s: Collection): Collection {
    var t := Arrived(s.t, others(s.clock));
    var read := Lookup(t, key);
    if read.None? || !read.value.IsTombstone() then Collection(t, s.clock + 1, s.report)
    else if read.value.deletedAt.None? then
      Collection(t, s.clock + 1, s.report.(unstamped := s.report.unstamped + 1))
    else if !Collectable(read.value, horizon, now) then Collection(t, s.clock + 1, s.report)
    else
      var t' := Arrived(t, others(s.clock + 1));
      var plan := PlanPurge(Lookup(t', key), read.value.revision);
      Collection(AfterPurge(t', key, plan), s.clock + 2,
                 if plan.PurgeConflict? then s.report.(conflicts := s.report.conflicts + {key})
                 else s.report.(purged := s.report.purged + {key}))
  }

  function CollectAll(others: nat -> Option<Table>, horizon: nat, now: int, keys: seq<RecordKey>,
                      s: Collection): Collection
  {
    if keys == [] then s
    else CollectOne(others, horizon, now, keys[|keys| - 1],
                    CollectAll(others, horizon, now, keys[..|keys| - 1], s))
  }

  method OthersAct(store: MemStore, arriving: Option<Table>)
    modifies store
    ensures store.records == Arrived(old(store.records), arriving)
  {
    if arriving.Some? {
      store.records := arriving.value;
    }
  }

  method CollectKey(store: MemStore, key: RecordKey, horizon: nat, now: int, others: nat -> Option<Table>,
                    clock0: nat, report0: CollectReport)
    returns (clock: nat, report: CollectReport)
    modifies store
    ensures Collection(store.records, clock, report)
         == CollectOne(others, horizon, now, key, Collection(old(store.records), clock0, report0))
  {
    clock, report := clock0 + 1, report0;
    OthersAct(store, others(clock0));
    var record := store.GetRaw(key);
    if record.None? || !record.value.IsTombstone() {
      return;
    }
    if record.value.deletedAt.None? {
      report := report.(unstamped := report.unstamped + 1);
      return;
    }
    if now - record.value.deletedAt.value < horizon {
      return;
    }
    OthersAct(store, others(clock));
    clock := clock + 1;
    var r := store.Purge(key, record.value.revision);
    if r.Deleted? {
      report := report.(purged := report.purged + {key});
    } else {
      report := report.(conflicts := report.conflicts + {key});
    }
  }

  lemma CollectOneMore(others: nat -> Option<Table>, horizon: nat, now: int, keys: seq<RecordKey>, key: RecordKey,
                       s: Collection)
    ensures CollectAll(others, horizon, now, keys + [key], s)
         == CollectOne(others, horizon, now, key, CollectAll(others, horizon, now, keys, s))
  {
    assert (keys + [key])[..|keys + [key]| - 1] == keys;
  }

  /** Collect the old tombstones under `prefix`, key by key in some order. */
  method Collect(store: MemStore, prefix: KeyPrefix, horizon: nat, now: int, others: nat -> Option<Table>)
    returns (report: CollectReport, ghost order: seq<RecordKey>)
    modifies store
    ensures var listed := Arrived(old(store.records), others(0));
            var s := CollectAll(others, horizon, now, order, Collection(listed, 1, EMPTY_REPORT));
            && Orders(order, set k | k in listed && prefix.Matches(k))
            && store.records == s.t && report == s.report
  {
    hide CollectOne;
    OthersAct(store, others(0));
    ghost var listed := store.records;
    var keys := store.ListRaw(prefix);
    var clock := 1;
    report, order := EMPTY_REPORT, [];
    var todo := keys;
    while todo != {}
      invariant todo <= keys && Orders(order, keys - todo)
      invariant Collection(store.records, clock, report)
             == CollectAll(others, horizon, now, order, Collection(listed, 1, EMPTY_REPORT))
      decreases |todo|
    {
      var key :| key in todo;
      CollectOneMore(others, horizon, now, order, key, Collection(listed, 1, EMPTY_REPORT));
      clock, report := CollectKey(store, key, horizon, now, others, clock, report);
      todo, order := todo - {key}, order + [key];
    }
    assert keys - {} == keys;
  }

  // ---- what a collection may remove ----

  /** What one key's visit found: on reading, and under the purge when there was one. */
  function ReadAt(others: nat -> Option<Table>, key: RecordKey, s: Collection): Option<Record> {
    Lookup(Arrived(s.t, others(s.clock)), key)
  }

  function TableUnderPurge(others: nat -> Option<Table>, s: Collection): Table {
    Arrived(Arrived(s.t, others(s.clock)), others(s.clock + 1))
  }

  /** A visit purges exactly if it read a stamped tombstone old enough; the purge removes exactly the
      revision that was read, is contested exactly if the key then holds another, and nothing else in
      the table is touched. */
  lemma CollectOneExactly(others: nat -> Option<Table>, horizon: nat, now: int, key: RecordKey, s: Collection)
    ensures var read, left := ReadAt(others, key, s), CollectOne(others, horizon, now, key, s);
            var purges := read.Some? && Collectable(read.value, horizon, now);
            var found := if purges then TableUnderPurge(others, s) else Arrived(s.t, others(s.clock));
            var held := Lookup(found, key);
            var same := held.Some? && purges && held.value.revision == read.value.revision;
            && (forall k :: k != key ==> Lookup(left.t, k) == Lookup(found, k))
            && Lookup(left.t, key) == (if same then None else held)
            && left.report.purged == s.report.purged + (if purges && (held.None? || same) then {key} else {})
            && left.report.conflicts == s.report.conflicts + (if purges && held.Some? && !same then {key} else {})
            && left.report.unstamped
               == s.report.unstamped + if read.Some? && read.value.IsTombstone()
                 && read.value.deletedAt.None? then 1 else 0
  {
  }

  /** A live record is never collected, however others interleave: one that took the tombstone's place
      under the purge survives it, its bytes not being the tombstone domain. */
  lemma LiveRecordSurvives(others: nat -> Option<Table>, horizon: nat, now: int, key: RecordKey, s: Collection,
                           tomb: Record, r: Record)
    requires ReadAt(others, key, s) == Some(tomb) && Collectable(tomb, horizon, now)
    requires tomb.revision.hash == TombstoneHash()
    requires Lookup(TableUnderPurge(others, s), key) == Some(r)
    requires !r.IsTombstone() && HashIsTrue(r) && r.body.Bytes() != TOMBSTONE_DOMAIN
    ensures Lookup(CollectOne(others, horizon, now, key, s).t, key) == Some(r)
    ensures key in CollectOne(others, horizon, now, key, s).report.conflicts
  {
    CollectOneExactly(others, horizon, now, key, s);
  }

  /** Every hash is its content's, and no live body is the tombstone domain. */
  ghost predicate TrulyHashed(t: Table) {
    forall k :: k in t ==> HashIsTrue(t[k]) && (!t[k].IsTombstone() ==> t[k].body.Bytes() != TOMBSTONE_DOMAIN)
  }

  ghost predicate OthersHash(others: nat -> Option<Table>) {
    forall n :: others(n).Some? ==> TrulyHashed(others(n).value)
  }

  /** The table the last call of a key's visit found. */
  function FoundLast(others: nat -> Option<Table>, horizon: nat, now: int, key: RecordKey, s: Collection): Table {
    var read := ReadAt(others, key, s);
    if read.Some? && Collectable(read.value, horizon, now) then TableUnderPurge(others, s)
    else Arrived(s.t, others(s.clock))
  }

  /** The visit to `key` takes nothing from the table but a stamped old tombstone it read there, at the
      very revision it read. */
  ghost predicate TakesOnlyWhatItRead(others: nat -> Option<Table>, horizon: nat, now: int, key: RecordKey,
                                      s: Collection)
  {
    var read := ReadAt(others, key, s);
    var found := FoundLast(others, horizon, now, key, s);
    var left := CollectOne(others, horizon, now, key, s).t;
    forall k :: Lookup(left, k) != Lookup(found, k) ==>
      && k == key && k !in left && k in found && found[k].IsTombstone()
      && read.Some? && Collectable(read.value, horizon, now) && found[k].revision == read.value.revision
  }

  lemma VisitTakesOnlyWhatItRead(others: nat -> Option<Table>, horizon: nat, now: int, key: RecordKey, s: Collection)
    requires TrulyHashed(s.t) && OthersHash(others)
    ensures TakesOnlyWhatItRead(others, horizon, now, key, s)
    ensures TrulyHashed(CollectOne(others, horizon, now, key, s).t)
  {
    hide CollectOne, Collectable;
    CollectOneExactly(others, horizon, now, key, s);
    OnlyTombstonesAreCollectable(horizon, now);
    var read, found := ReadAt(others, key, s), FoundLast(others, horizon, now, key, s);
    assert TrulyHashed(found) && TrulyHashed(Arrived(s.t, others(s.clock)));
    var left := CollectOne(others, horizon, now, key, s).t;
    forall k | k in left ensures k in found && left[k] == found[k] {
      assert Lookup(left, k) == Some(left[k]);
    }
  }

  /** Over a whole collection, others acting before every call, each visit takes only a stamped old
      tombstone, at the revision it read: no live record is ever removed. */
  lemma {:induction false} CollectionNeverTakesLive(others: nat -> Option<Table>, horizon: nat, now: int,
                                                    keys: seq<RecordKey>, s: Collection)
    requires TrulyHashed(s.t) && OthersHash(others)
    ensures forall j :: 0 <= j < |keys| ==>
              TakesOnlyWhatItRead(others, horizon, now, keys[j], CollectAll(others, horizon, now, keys[..j], s))
    ensures TrulyHashed(CollectAll(others, horizon, now, keys, s).t)
    decreases |keys|
  {
    hide CollectOne, TakesOnlyWhatItRead, TrulyHashed;
    if keys != [] {
      var front, key := keys[..|keys| - 1], keys[|keys| - 1];
      CollectionNeverTakesLive(others, horizon, now, front, s);
      VisitTakesOnlyWhatItRead(others, horizon, now, key, CollectAll(others, horizon, now, front, s));
      forall j | 0 <= j < |keys|
        ensures TakesOnlyWhatItRead(others, horizon, now, keys[j], CollectAll(others, horizon, now, keys[..j], s))
      {
        if j < |front| {
          assert front[..j] == keys[..j] && front[j] == keys[j];
        } else {
          assert keys[..j] == front;
        }
      }
    }
  }

  // ---- a collection nobody disturbs ----

  /** The table once the keys in `done` have been looked at, and what is reported of them. */
  ghost predicate CollectedOf(t: Table, done: seq<RecordKey>, horizon: nat, now: int, s: Collection) {
    && (forall k :: Lookup(s.t, k) == if k in done && k in t
      && Collectable(t[k], horizon, now) then None else Lookup(t, k))
    && s.report == ReportOf(t, done, horizon, now)
  }

  function Gone(t: Table, done: seq<RecordKey>, horizon: nat, now: int): set<RecordKey> {
    set k | k in done && k in t && Collectable(t[k], horizon, now)
  }

  /** The tombstones a collection keeps because they carry no stamp. */
  function Unstamped(t: Table, done: seq<RecordKey>): set<RecordKey> {
    set k | k in done && k in t && t[k].IsTombstone() && t[k].deletedAt.None?
  }

  function ReportOf(t: Table, done: seq<RecordKey>, horizon: nat, now: int): CollectReport {
    CollectReport(Gone(t, done, horizon, now), |Unstamped(t, done)|, {})
  }

  lemma MemberPush(done: seq<RecordKey>, key: RecordKey, k: RecordKey)
    ensures k in done + [key] <==> k in done || k == key
  {
  }

  lemma GoneOneMore(t: Table, done: seq<RecordKey>, key: RecordKey, horizon: nat, now: int)
    ensures Gone(t, done + [key], horizon, now)
         == Gone(t, done, horizon, now) + if key in t && Collectable(t[key], horizon, now) then {key} else {}
  {
    hide Collectable;
    forall k ensures k in done + [key] <==> k in done || k == key {
      MemberPush(done, key, k);
    }
  }

  lemma UnstampedOneMore(t: Table, done: seq<RecordKey>, key: RecordKey)
    requires key !in done
    ensures |Unstamped(t, done + [key])|
         == |Unstamped(t, done)| + if key in t && t[key].IsTombstone() && t[key].deletedAt.None? then 1 else 0
  {
    forall k ensures k in done + [key] <==> k in done || k == key {
      MemberPush(done, key, k);
    }
    assert Unstamped(t, done + [key])
        == Unstamped(t, done) + if key in t && t[key].IsTombstone() && t[key].deletedAt.None? then {key} else {};
  }

  lemma CollectedOneMore(others: nat -> Option<Table>, horizon: nat, now: int, t: Table, done: seq<RecordKey>,
                         key: RecordKey, s: Collection)
    requires CollectedOf(t, done, horizon, now, s) && key !in done && forall n :: others(n) == None
    ensures CollectedOf(t, done + [key], horizon, now, CollectOne(others, horizon, now, key, s))
  {
    hide CollectOne, Collectable, Gone, Unstamped;
    CollectOneExactly(others, horizon, now, key, s);
    GoneOneMore(t, done, key, horizon, now);
    UnstampedOneMore(t, done, key);
    assert Lookup(s.t, key) == Lookup(t, key);
    forall k ensures k in done + [key] <==> k in done || k == key {
      MemberPush(done, key, k);
    }
    OnlyTombstonesAreCollectable(horizon, now);
  }

  lemma CollectableExactly(horizon: nat, now: int)
    ensures forall r :: Collectable(r, horizon, now) <==>
              r.IsTombstone() && r.deletedAt.Some? && r.deletedAt.value + horizon <= now
  {
  }

  lemma OnlyTombstonesAreCollectable(horizon: nat, now: int)
    ensures forall r :: Collectable(r, horizon, now) ==> r.IsTombstone() && r.deletedAt.Some?
  {
  }

  lemma {:induction false} QuietCollection(others: nat -> Option<Table>, horizon: nat, now: int, keys: seq<RecordKey>,
                                           t: Table)
    requires Distinct(keys) && forall n :: others(n) == None
    ensures CollectedOf(t, keys, horizon, now, CollectAll(others, horizon, now, keys, Collection(t, 1, EMPTY_REPORT)))
    decreases |keys|
  {
    hide CollectOne, Collectable, CollectedOf;
    if keys == [] {
      NothingCollected(t, horizon, now);
    } else {
      var front, key := keys[..|keys| - 1], keys[|keys| - 1];
      assert keys == front + [key];
      QuietCollection(others, horizon, now, front, t);
      CollectedOneMore(others, horizon, now, t, front, key,
                       CollectAll(others, horizon, now, front, Collection(t, 1, EMPTY_REPORT)));
    }
  }

  lemma NothingCollected(t: Table, horizon: nat, now: int)
    ensures CollectedOf(t, [], horizon, now, Collection(t, 1, EMPTY_REPORT))
  {
    assert Gone(t, [], horizon, now) == {} && Unstamped(t, []) == {};
  }

  /** With nobody else about, a collection removes exactly the stamped tombstones under the prefix that
      are old enough, reports exactly those, and contests none. */
  lemma QuietCollectionIsExact(others: nat -> Option<Table>, prefix: KeyPrefix, horizon: nat, now: int,
                               order: seq<RecordKey>, t: Table)
    requires forall n :: others(n) == None
    requires Orders(order, set k | k in t && prefix.Matches(k))
    ensures var s := CollectAll(others, horizon, now, order, Collection(t, 1, EMPTY_REPORT));
            && s.t == AfterCollect(t, prefix, horizon, now)
            && s.report.purged == t.Keys - s.t.Keys && s.report.conflicts == {}
            && (forall k :: k in t && k !in s.t <==>
                  && k in t && prefix.Matches(k) && t[k].IsTombstone()
                  && t[k].deletedAt.Some? && t[k].deletedAt.value + horizon <= now)
            && (forall k :: k in s.t ==> k in t && s.t[k] == t[k])
  {
    CollectableExactly(horizon, now);
    hide CollectAll, Collectable;
    QuietCollection(others, horizon, now, order, t);
    var s := CollectAll(others, horizon, now, order, Collection(t, 1, EMPTY_REPORT));
    var want := AfterCollect(t, prefix, horizon, now);
    forall k ensures (k in s.t <==> k in want) && (k in s.t ==> s.t[k] == want[k]) {
      assert Lookup(s.t, k) == if k in order && k in t && Collectable(t[k], horizon, now) then None else Lookup(t, k);
    }
  }

  // ---- what a delete keeps ----

  /** A delete releases no blob: the tombstone points at exactly what the live record pointed at. */
  lemma DeleteReleasesNothing(rd: Reader, r: Record, expected: Option<Revision>, now: int, cap: nat,
                              author: Option<string>, h: ContentHash)
    requires !r.IsTombstone() && r.deletedBlob.None?
    requires PlanDelete(Some(r), expected, now, cap, author).Bury?
    ensures PointsAt(rd, PlanDelete(Some(r), expected, now, cap, author).tombstone, h) <==> PointsAt(rd, r, h)
  {
  }

  /** So no delete, whatever its answer, frees anything for the next sweep. */
  lemma NothingIsFreedByDelete(rd: Reader, t: Table, key: RecordKey, expected: Option<Revision>, now: int, cap: nat,
                               author: Option<string>, h: ContentHash)
    requires forall k :: k in t && !t[k].IsTombstone() ==> t[k].deletedBlob.None?
    requires Held(rd, t, h)
    ensures Held(rd, AfterDelete(t, key, PlanDelete(Lookup(t, key), expected, now, cap, author)), h)
  {
    hide PointsAt;
    var plan := PlanDelete(Lookup(t, key), expected, now, cap, author);
    var left := AfterDelete(t, key, plan);
    var k :| k in t && PointsAt(rd, t[k], h);
    if k == key && plan.Bury? {
      DeleteReleasesNothing(rd, t[k], expected, now, cap, author, h);
    }
    assert k in left && PointsAt(rd, left[k], h);
  }

  // ---- undelete ----

  /** Why an undelete refuses, or None when it may write. */
  function Refusal(rd: Reader, current: Option<Record>, present: set<ContentHash>): Option<Error> {
    if current.None? then Some(NotFound)
    else if !current.value.IsTombstone() || current.value.deletedKind.None? then Some(Invalid)
    else
      var named := rd.Named(current.value.deletedKind.value, current.value.body);
      if named.None? then Some(Unparseable)
      else if named.value - present != {} then Some(Invalid)
      else None
  }

  /** An undelete is not refused exactly when the key holds a tombstone that keeps a readable manifest and
      every blob the manifest names is stored. */
  lemma RefusedExactly(rd: Reader, current: Option<Record>, present: set<ContentHash>)
    ensures Refusal(rd, current, present).None? <==>
              && current.Some? && current.value.IsTombstone() && current.value.deletedKind.Some?
              && !Garbled(rd, current.value.deletedKind.value, current.value.body.Bytes())
              && forall h :: Names(rd, current.value.deletedKind.value, current.value.body.Bytes(), h) ==> h in present
  {
    if current.Some? && current.value.deletedKind.Some? {
      var named := rd.Named(current.value.deletedKind.value, current.value.body);
      NamedExactly(rd, current.value.deletedKind.value, current.value.body);
      if named.Some? && forall h :: h in named.value ==> h in present {
        assert named.value - present == {};
      }
      assert named.Some? ==> forall h :: h in named.value && h !in present ==> h in named.value - present;
    }
  }

  method MissingBlobs(table: BlobTable, named: set<ContentHash>) returns (missing: set<ContentHash>)
    ensures missing == named - table.blobs.Keys
  {
    missing := {};
    var todo := named;
    while todo != {}
      invariant todo <= named
      invariant missing == (named - todo) - table.blobs.Keys
      decreases |todo|
    {
      var h :| h in todo;
      var present := table.HasBlob(h);
      if !present {
        missing := missing + {h};
      }
      todo := todo - {h};
    }
  }

  /** Restore a deleted manifest. Others may act between the read and the write (`arriving`): the
      restored record is stored exactly if nothing speaks against it and the key still holds the
      tombstone's revision; otherwise nothing is written. */
  method Undelete(rd: Reader, store: MemStore, table: BlobTable, key: RecordKey, now: int, author: Option<string>,
                  arriving: Option<Table>)
    returns (r: Result<Revision>)
    modifies store
    ensures var current := Lookup(old(store.records), key);
            var refusal := Refusal(rd, current, table.blobs.Keys);
            if refusal.Some? then r == Err(refusal.value) && store.records == old(store.records)
            else
              var t := Arrived(old(store.records), arriving);
              var held := Lookup(t, key);
              if held.Some? && held.value.revision == current.value.revision then
                var w := RestoredFrom(key, current.value, current.value.deletedKind.value, now, author);
                r == Ok(w.revision)
                && store.records == t[key := w.(ancestors := Fold(w.revision, [], held, store.cap))]
              else r == Err(if held.None? then NotFound else Invalid) && store.records == t
    ensures var current := Lookup(old(store.records), key);
            current.Some? && current.value.IsTombstone() && current.value.deletedKind.Some?
            && (exists h :: Names(rd, current.value.deletedKind.value, current.value.body.Bytes(), h)
                            && h !in table.blobs) ==>
              r.Err? && store.records == old(store.records)
  {
    RefusedExactly(rd, Lookup(store.records, key), table.blobs.Keys);
    var tomb := store.GetRaw(key);
    if tomb.None? {
      return Err(NotFound);
    }
    if !tomb.value.IsTombstone() || tomb.value.deletedKind.None? {
      return Err(Invalid);
    }
    var kind := tomb.value.deletedKind.value;
    var named := rd.Named(kind, tomb.value.body);
    if named.None? {
      return Err(Unparseable);
    }
    var missing := MissingBlobs(table, named.value);
    if missing != {} {
      return Err(Invalid);
    }
    OthersAct(store, arriving);
    var written := store.PutRaw(RestoredFrom(key, tomb.value, kind, now, author), Some(tomb.value.revision));
    match written {
      case Ok(Committed(revision)) => r := Ok(revision);
      case Ok(PutConflict(_)) => r := Err(Invalid);
      case Err(error) => r := Err(error);
    }
  }

  // ---- the restore window ----

  /** One store's records and the blobs beside them. */
  datatype World = World(records: Table, blobs: map<ContentHash, int>)

  datatype Op =
    | PutOp(record: Record, expected: Option<Revision>, now: int)
    | DeleteOp(key: RecordKey, expected: Option<Revision>, now: int, author: Option<string>)
    | UploadOp(hash: ContentHash, now: int)
    | GcOp(policy: SweepPolicy)
    | CollectOp(prefix: KeyPrefix, horizon: nat, now: int)

  ghost function Apply(rd: Reader, w: World, op: Op, cap: nat): World {
    match op
    case PutOp(record, expected, now) =>
      w.(records := AfterPut(w.records, record.key, PlanPut(Lookup(w.records, record.key), record, expected, now, cap)))
    case DeleteOp(key, expected, now, author) =>
      w.(records := AfterDelete(w.records, key, PlanDelete(Lookup(w.records, key), expected, now, cap, author)))
    case UploadOp(hash, now) =>
      w.(blobs := Uploaded(w.blobs, hash, now))
    case GcOp(policy) => w.(blobs := AfterGc(rd, w.records, w.blobs, w.blobs, policy))
    case CollectOp(prefix, horizon, now) => w.(records := AfterCollect(w.records, prefix, horizon, now))
  }

  ghost function ApplyAll(rd: Reader, w: World, ops: seq<Op>, cap: nat): World {
    if ops == [] then w else Apply(rd, ApplyAll(rd, w, ops[..|ops| - 1], cap), ops[|ops| - 1], cap)
  }

  /** Every collection runs before a tombstone stamped `deleted` reaches its horizon. */
  ghost predicate BeforeHorizon(ops: seq<Op>, deleted: int) {
    forall i :: 0 <= i < |ops| && ops[i].CollectOp? ==> ops[i].now - deleted < ops[i].horizon
  }

  /** The window is open: this manifest tombstone is in place and every blob it names is stored. */
  ghost predicate WindowOpen(rd: Reader, w: World, key: RecordKey, tomb: Record) {
    && key in w.records && w.records[key] == tomb
    && tomb.IsTombstone() && IsRestoreWindow(tomb) && tomb.deletedAt.Some?
    && !Garbled(rd, tomb.deletedKind.value, tomb.body.Bytes())
    && forall h :: Names(rd, tomb.deletedKind.value, tomb.body.Bytes(), h) ==> h in w.blobs
  }

  lemma OpKeepsWindow(rd: Reader, w: World, op: Op, cap: nat, key: RecordKey, tomb: Record)
    requires WindowOpen(rd, w, key, tomb)
    requires op.CollectOp? ==> op.now - tomb.deletedAt.value < op.horizon
    ensures WindowOpen(rd, Apply(rd, w, op, cap), key, tomb)
  {
    if op.GcOp? {
      forall h | Names(rd, tomb.deletedKind.value, tomb.body.Bytes(), h) ensures h in Apply(rd, w, op, cap).blobs {
        ReferencedBlobsSurvive(rd, w.records, w.blobs, w.blobs, op.policy, key, h);
      }
    }
  }

  lemma {:induction false} OpsKeepWindow(rd: Reader, w: World, ops: seq<Op>, cap: nat, key: RecordKey, tomb: Record)
    requires WindowOpen(rd, w, key, tomb) && BeforeHorizon(ops, tomb.deletedAt.value)
    ensures WindowOpen(rd, ApplyAll(rd, w, ops, cap), key, tomb)
  {
    if ops != [] {
      var front := ops[..|ops| - 1];
      assert BeforeHorizon(front, tomb.deletedAt.value);
      OpsKeepWindow(rd, w, front, cap, key, tomb);
      OpKeepsWindow(rd, ApplyAll(rd, w, front, cap), ops[|ops| - 1], cap, key, tomb);
    }
  }

  /** A deleted manifest can be restored as it was. After the delete, any puts and deletes of this
      or any other key, uploads, blob collections and tombstone collections before the horizon
      leave the tombstone and its blobs in place, so undelete does not refuse and writes back the
      same body, kind and creation time, two counters on. */
  lemma RestoreWindow(rd: Reader, w: World, key: RecordKey, deleted: int, deleter: Option<string>,
                      ops: seq<Op>, cap: nat, now: int, author: Option<string>)
    requires key in w.records && IsManifest(w.records[key].kind) && w.records[key].key == key
    requires !Garbled(rd, w.records[key].kind, w.records[key].body.Bytes())
    requires forall h :: Names(rd, w.records[key].kind, w.records[key].body.Bytes(), h) ==> h in w.blobs
    requires BeforeHorizon(ops, deleted)
    ensures var lost := w.records[key];
            var after := ApplyAll(rd, Apply(rd, w, DeleteOp(key, None, deleted, deleter), cap), ops, cap);
            && Refusal(rd, Lookup(after.records, key), after.blobs.Keys) == None
            && key in after.records && after.records[key].deletedKind.Some?
            && var back := RestoredFrom(key, after.records[key], after.records[key].deletedKind.value, now, author);
            && back.body == lost.body && back.kind == lost.kind && back.meta.created == lost.meta.created
            && back.revision == Revision(lost.revision.counter + 2, HashOf(lost.body.Bytes()))
            && !back.IsTombstone() && back.key == key
  {
    var start := Apply(rd, w, DeleteOp(key, None, deleted, deleter), cap);
    var tomb := TombstoneOf(w.records[key], deleted, cap, deleter);
    assert WindowOpen(rd, start, key, tomb);
    OpsKeepWindow(rd, start, ops, cap, key, tomb);
    RefusedExactly(rd, Some(tomb), ApplyAll(rd, start, ops, cap).blobs.Keys);
  }

  /** The horizon is what closes it: a collection at or past the horizon purges the tombstone,
      and undelete then refuses. */
  lemma WindowClosesAtHorizon(rd: Reader, w: World, key: RecordKey, tomb: Record, cap: nat,
                              prefix: KeyPrefix, horizon: nat, now: int)
    requires WindowOpen(rd, w, key, tomb) && prefix.Matches(key)
    ensures var after := Apply(rd, w, CollectOp(prefix, horizon, now), cap);
            Refusal(rd, Lookup(after.records, key), after.blobs.Keys).Some? <==> now - tomb.deletedAt.value >= horizon
  {
    RefusedExactly(rd, Some(tomb), w.blobs.Keys);
  }
}
