/** Blob collection as it runs: raw reads, a listing and deletes, with others free to act before each. */
module GcRun {
  import opened Wrappers
  import opened Records
  import opened Stores
  import opened Gc

  /** The records and the blobs, and how many calls have been made. */
  datatype Scene = Scene(records: Table, blobs: map<ContentHash, int>, clock: nat)

  /** What others do just before a call: put other records or other blobs in place, or nothing. */
  datatype Act = Act(records: Option<Table>, blobs: Option<map<ContentHash, int>>)

  const IDLE := Act(None, None)

  /** What the next call finds. */
  function Found(others: nat -> Act, s: Scene): Scene {
    var act := others(s.clock);
    Scene(if act.records.Some? then act.records.value else s.records,
          if act.blobs.Some? then act.blobs.value else s.blobs,
          s.clock + 1)
  }

  function AfterReads(others: nat -> Act, keys: seq<RecordKey>, s: Scene): Scene {
    if keys == [] then s else Found(others, AfterReads(others, keys[..|keys| - 1], s))
  }

  /** The records the mark reads: a key that is gone when its turn comes is passed over. */
  function RecordsRead(others: nat -> Act, keys: seq<RecordKey>, s: Scene): seq<Record> {
    if keys == [] then []
    else
      var key := keys[|keys| - 1];
      var found := AfterReads(others, keys, s).records;
      RecordsRead(others, keys[..|keys| - 1], s) + if key in found then [found[key]] else []
  }

  function AfterDeletes(others: nat -> Act, hs: seq<ContentHash>, s: Scene): Scene {
    if hs == [] then s
    else
      var found := Found(others, AfterDeletes(others, hs[..|hs| - 1], s));
      found.(blobs := found.blobs - {hs[|hs| - 1]})
  }

  /** What the listing finds, once the keys in `order` have been read. */
  function Listing(others: nat -> Act, order: seq<RecordKey>, s: Scene): Scene {
    Found(others, AfterReads(others, order, Found(others, s)))
  }

  /** The records the mark is made of. */
  function MarkedRecords(others: nat -> Act, order: seq<RecordKey>, s: Scene): seq<Record> {
    RecordsRead(others, order, Found(others, s))
  }

  lemma OrdersOneMore<T(!new)>(order: seq<T>, members: set<T>, x: T)
    requires Orders(order, members) && x !in members
    ensures Orders(order + [x], members + {x})
  {
  }

  lemma ReadOneMore(others: nat -> Act, keys: seq<RecordKey>, key: RecordKey, s: Scene)
    ensures AfterReads(others, keys + [key], s) == Found(others, AfterReads(others, keys, s))
    ensures var found := AfterReads(others, keys + [key], s).records;
            var more := if key in found then [found[key]] else [];
            RecordsRead(others, keys + [key], s) == RecordsRead(others, keys, s) + more
  {
    assert (keys + [key])[..|keys + [key]| - 1] == keys;
  }

  lemma NothingRead(others: nat -> Act, s: Scene)
    ensures AfterReads(others, [], s) == s && RecordsRead(others, [], s) == [] && Orders<RecordKey>([], {})
  {
  }

  lemma NothingDeleted(others: nat -> Act, s: Scene)
    ensures AfterDeletes(others, [], s) == s && Orders<ContentHash>([], {})
  {
  }

  lemma DeleteOneMore(others: nat -> Act, hs: seq<ContentHash>, h: ContentHash, s: Scene)
    ensures var found := Found(others, AfterDeletes(others, hs, s));
            AfterDeletes(others, hs + [h], s) == found.(blobs := found.blobs - {h})
  {
    assert (hs + [h])[..|hs + [h]| - 1] == hs;
  }

  // ---- the run ----

  /** Others act before the call numbered `clock`. */
  method OthersAct(others: nat -> Act, store: MemStore, table: BlobTable, clock0: nat) returns (clock: nat)
    modifies store, table
    ensures Scene(store.records, table.blobs, clock)
         == Found(others, Scene(old(store.records), old(table.blobs), clock0))
  {
    var act := others(clock0);
    if act.records.Some? {
      store.records := act.records.value;
    }
    if act.blobs.Some? {
      table.blobs := act.blobs.value;
    }
    clock := clock0 + 1;
  }

  /** Read every raw record, one by one. */
  method ReadAll(others: nat -> Act, store: MemStore, table: BlobTable)
    returns (records: seq<Record>, clock: nat, ghost order: seq<RecordKey>)
    modifies store, table
    ensures var s := Found(others, Scene(old(store.records), old(table.blobs), 0));
            && Orders(order, s.records.Keys)
            && Scene(store.records, table.blobs, clock) == AfterReads(others, order, s)
            && records == RecordsRead(others, order, s)
  {
    hide Found, Orders, AfterReads, RecordsRead;
    clock := OthersAct(others, store, table, 0);
    ghost var s := Scene(store.records, table.blobs, clock);
    NothingRead(others, s);
    var keys := store.ListRaw(KeyPrefix(None, None));
    assert keys == store.records.Keys;
    records, order := [], [];
    var todo := keys;
    ghost var done: set<RecordKey> := {};
    while todo != {}
      invariant todo + done == keys && todo !! done && Orders(order, done)
      invariant Scene(store.records, table.blobs, clock) == AfterReads(others, order, s)
      invariant records == RecordsRead(others, order, s)
      decreases |todo|
    {
      var key :| key in todo;
      ReadOneMore(others, order, key, s);
      OrdersOneMore(order, done, key);
      clock := OthersAct(others, store, table, clock);
      var record := store.GetRaw(key);
      if record.Some? {
        records := records + [record.value];
      }
      todo, done, order := todo - {key}, done + {key}, order + [key];
    }
    assert done == keys;
  }

  /** Delete the freed blobs, one by one. */
  method DeleteAll(others: nat -> Act, store: MemStore, table: BlobTable, freed: set<ContentHash>, clock0: nat)
    returns (ghost deleted: seq<ContentHash>)
    modifies store, table
    ensures Orders(deleted, freed)
    ensures var s := AfterDeletes(others, deleted, Scene(old(store.records), old(table.blobs), clock0));
            store.records == s.records && table.blobs == s.blobs
  {
    hide Found, Orders, AfterDeletes;
    ghost var s := Scene(store.records, table.blobs, clock0);
    var clock := clock0;
    NothingDeleted(others, s);
    deleted := [];
    var todo := freed;
    ghost var done: set<ContentHash> := {};
    while todo != {}
      invariant todo + done == freed && todo !! done && Orders(deleted, done)
      invariant Scene(store.records, table.blobs, clock) == AfterDeletes(others, deleted, s)
      decreases |todo|
    {
      var h :| h in todo;
      DeleteOneMore(others, deleted, h, s);
      OrdersOneMore(deleted, done, h);
      clock := OthersAct(others, store, table, clock);
      table.DeleteBlob(h);
      todo, done, deleted := todo - {h}, done + {h}, deleted + [h];
    }
    assert done == freed;
  }

  /** Mark from the raw records, then sweep the listing. Others may act before every call; nothing is
      deleted when some manifest that was read cannot be parsed. */
  method GcBlobs(rd: Reader, store: MemStore, table: BlobTable, policy: SweepPolicy, others: nat -> Act)
    returns (r: Result<GcReport>, ghost order: seq<RecordKey>, ghost deleted: seq<ContentHash>)
    modifies store, table
    ensures var s := Scene(old(store.records), old(table.blobs), 0);
            && Orders(order, Found(others, s).records.Keys)
            && var live := Live(rd, MarkedRecords(others, order, s));
            var listing := Listing(others, order, s);
            if live.Err? then
              && r == Err(live.error)
              && Scene(store.records, table.blobs, listing.clock - 1) == AfterReads(others, order, Found(others, s))
            else
              && r.Ok? && r.value.freed == Freed(listing.blobs, live.value, policy)
              && r.value.retained == |listing.blobs.Keys * live.value|
              && |r.value.freed| + r.value.retained + r.value.deferred == |listing.blobs|
              && Orders(deleted, r.value.freed)
              && store.records == AfterDeletes(others, deleted, listing).records
              && table.blobs == AfterDeletes(others, deleted, listing).blobs
  {
    hide RecordsRead, AfterReads, AfterDeletes, Freed;
    var records, clock;
    deleted := [];
    records, clock, order := ReadAll(others, store, table);
    var live := LiveBlobHashes(rd, records);
    if live.Err? {
      r := Err(live.error);
      return;
    }
    clock := OthersAct(others, store, table, clock);
    var entries := table.List();
    assert Listed(entries) == table.blobs.Keys;
    assert |table.blobs| == |table.blobs.Keys|;
    var report := ChooseFreed(entries, live.value, policy);
    deleted := DeleteAll(others, store, table, report.freed, clock);
    r := Ok(report);
  }

  // ---- what may be freed ----

  /** A blob is freed exactly if it was listed, no record the mark read points at it, and it was old
      enough when listed. */
  lemma FreedExactly(rd: Reader, marked: seq<Record>, listed: map<ContentHash, int>, policy: SweepPolicy,
                     h: ContentHash)
    requires Live(rd, marked).Ok?
    ensures h in Freed(listed, Live(rd, marked).value, policy) <==>
              && h in listed && OldEnough(policy, listed[h])
              && !exists r :: r in marked && PointsAt(rd, r, h)
  {
    hide OldEnough;
    LiveIsUnion(rd, marked);
  }

  /** A blob written within the minimum age of the sweep is not freed, referenced or not: whoever
      uploads a blob has that long to commit the record naming it. */
  lemma YoungBlobIsKept(rd: Reader, marked: seq<Record>, listed: map<ContentHash, int>, policy: SweepPolicy,
                        h: ContentHash)
    requires Live(rd, marked).Ok? && h in listed && I64_MIN <= listed[h] <= I64_MAX
    requires (if policy.now < -I64_MAX then -I64_MAX else policy.now) - listed[h] < policy.minAge
    ensures h !in Freed(listed, Live(rd, marked).value, policy)
  {
    OldEnoughExactly(policy, listed[h]);
  }

  /** A collection takes nothing but what it frees: any other blob stays for as long as others leave it. */
  lemma {:induction false} OnlyFreedAreDeleted(others: nat -> Act, hs: seq<ContentHash>, s: Scene, h: ContentHash)
    requires h in s.blobs && h !in hs
    requires forall n :: others(n).blobs.Some? ==> h in others(n).blobs.value
    ensures h in AfterDeletes(others, hs, s).blobs
    decreases |hs|
  {
    if hs != [] {
      OnlyFreedAreDeleted(others, hs[..|hs| - 1], s, h);
    }
  }

  /** Nobody takes the record `r` away from under `key`. */
  ghost predicate Keeps(others: nat -> Act, key: RecordKey, r: Record) {
    forall n :: others(n).records.Some? ==> key in others(n).records.value && others(n).records.value[key] == r
  }

  lemma {:induction false} KeptIsRead(others: nat -> Act, keys: seq<RecordKey>, s: Scene, key: RecordKey, r: Record)
    requires Keeps(others, key, r) && key in s.records && s.records[key] == r
    ensures key in AfterReads(others, keys, s).records && AfterReads(others, keys, s).records[key] == r
    ensures key in keys ==> r in RecordsRead(others, keys, s)
    decreases |keys|
  {
    if keys != [] {
      var front := keys[..|keys| - 1];
      KeptIsRead(others, front, s, key, r);
      if key in keys && key != keys[|keys| - 1] {
        assert key in front;
      }
    }
  }

  /** A blob that a record references survives the whole collection, however old it is and whatever
      else others do, as long as they leave that record and that blob in place. */
  lemma ReferencedBlobSurvives(rd: Reader, others: nat -> Act, policy: SweepPolicy, s: Scene, order: seq<RecordKey>,
                               deleted: seq<ContentHash>, key: RecordKey, h: ContentHash)
    requires key in s.records && Keeps(others, key, s.records[key])
    requires PointsAt(rd, s.records[key], h)
    requires h in s.blobs && forall n :: others(n).blobs.Some? ==> h in others(n).blobs.value
    requires Orders(order, Found(others, s).records.Keys) && Live(rd, MarkedRecords(others, order, s)).Ok?
    requires var live := Live(rd, MarkedRecords(others, order, s)).value;
             Orders(deleted, Freed(Listing(others, order, s).blobs, live, policy))
    ensures h in AfterDeletes(others, deleted, Listing(others, order, s)).blobs
  {
    hide PointsAt, AfterDeletes, Live;
    var first, listing := Found(others, s), Listing(others, order, s);
    assert key in first.records && first.records[key] == s.records[key];
    KeptIsRead(others, order, first, key, s.records[key]);
    FreedExactly(rd, MarkedRecords(others, order, s), listing.blobs, policy, h);
    BlobStaysRead(others, order, first, h);
    OnlyFreedAreDeleted(others, deleted, listing, h);
  }

  lemma {:induction false} BlobStaysRead(others: nat -> Act, keys: seq<RecordKey>, s: Scene, h: ContentHash)
    requires h in s.blobs && forall n :: others(n).blobs.Some? ==> h in others(n).blobs.value
    ensures h in AfterReads(others, keys, s).blobs
    decreases |keys|
  {
    if keys != [] {
      BlobStaysRead(others, keys[..|keys| - 1], s, h);
    }
  }

  /** What the age rule does not cover: an old blob nothing references is named again once the mark is
      made, by content that was already stored and so keeps its old time. Its record commits and the
      blob goes. */
  lemma LateReferenceIsLost(rd: Reader, policy: SweepPolicy, key: RecordKey, r: Record, h: ContentHash, modified: int)
    requires OldEnough(policy, modified) && PointsAt(rd, r, h)
    ensures var others := (n: nat) => if n == 1 then Act(Some(map[key := r]), None) else IDLE;
            var s := Scene(map[], map[h := modified], 0);
            var live := Live(rd, MarkedRecords(others, [], s));
            var listing := Listing(others, [], s);
            && Orders([], Found(others, s).records.Keys) && live.Ok?
            && Freed(listing.blobs, live.value, policy) == {h} && Orders([h], {h})
            && var left := AfterDeletes(others, [h], listing);
            left.records == map[key := r] && h !in left.blobs
  {
    hide OldEnough, PointsAt;
    var others := (n: nat) => if n == 1 then Act(Some(map[key := r]), None) else IDLE;
    var s := Scene(map[], map[h := modified], 0);
    var listing := Listing(others, [], s);
    assert MarkedRecords(others, [], s) == [];
    assert listing == Scene(map[key := r], map[h := modified], 2);
    assert Freed(listing.blobs, {}, policy) == {h};
    assert AfterDeletes(others, [h], listing).blobs == map[h := modified] - {h} by {
      DeleteOneMore(others, [], h, listing);
      assert [] + [h] == [h];
    }
    assert AfterDeletes(others, [h], listing).records == map[key := r] by {
      DeleteOneMore(others, [], h, listing);
      assert [] + [h] == [h];
    }
  }

  // ---- a collection nobody disturbs ----

  lemma {:induction false} QuietReads(others: nat -> Act, keys: seq<RecordKey>, s: Scene)
    requires forall n :: others(n) == IDLE
    ensures AfterReads(others, keys, s).records == s.records && AfterReads(others, keys, s).blobs == s.blobs
    ensures forall r :: r in RecordsRead(others, keys, s) <==>
              exists k :: k in keys && k in s.records && s.records[k] == r
    decreases |keys|
  {
    if keys != [] {
      var front, key := keys[..|keys| - 1], keys[|keys| - 1];
      QuietReads(others, front, s);
      assert keys == front + [key];
    }
  }

  lemma {:induction false} QuietDeletes(others: nat -> Act, hs: seq<ContentHash>, s: Scene)
    requires forall n :: others(n) == IDLE
    ensures AfterDeletes(others, hs, s).records == s.records
    ensures AfterDeletes(others, hs, s).blobs == s.blobs - set h | h in hs
    decreases |hs|
  {
    if hs != [] {
      var front, h := hs[..|hs| - 1], hs[|hs| - 1];
      QuietDeletes(others, front, s);
      assert hs == front + [h];
      assert (set x | x in hs) == (set x | x in front) + {h};
    }
  }

  /** With nobody else about, a collection marks from all records and leaves exactly what it should. */
  lemma QuietCollection(rd: Reader, others: nat -> Act, policy: SweepPolicy, s: Scene, order: seq<RecordKey>,
                        deleted: seq<ContentHash>)
    requires s.clock == 0 && forall n :: others(n) == IDLE
    requires Orders(order, s.records.Keys)
    ensures Live(rd, MarkedRecords(others, order, s)).Ok? <==> Readable(rd, s.records)
    ensures Readable(rd, s.records) ==>
              Orders(deleted, Freed(s.blobs, Live(rd, MarkedRecords(others, order, s)).value, policy)) ==>
                var left := AfterDeletes(others, deleted, Listing(others, order, s)).blobs;
                left == AfterGc(rd, s.records, s.blobs, s.blobs, policy)
  {
    hide Unreadable, PointsAt, AfterDeletes, Live;
    var first := Found(others, s);
    QuietReads(others, order, first);
    var marked := MarkedRecords(others, order, s);
    assert forall r :: r in marked <==> exists k :: k in s.records && s.records[k] == r;
    ReadableRecords(rd, s.records, marked);
    if Readable(rd, s.records) && Orders(deleted, Freed(s.blobs, Live(rd, marked).value, policy)) {
      QuietDeletes(others, deleted, Listing(others, order, s));
      assert (set h | h in deleted) == Freed(s.blobs, Live(rd, marked).value, policy);
    }
  }
}
