/** A whole index run: build the desired view, commit its manifest, then advance the persistent graph. */
module IndexRun {
  import opened Wrappers
  import opened Records
  import opened Planners
  import opened Stores
  import opened Walk
  import opened Index
  import opened Drivers

  /** The changes between two manifests, and the one that replaces the other. */
  datatype Reconciliation = Reconciliation(added: seq<Path>, modified: seq<Path>, deleted: seq<Path>, manifest: Entries)

  /** Filtering one more element of `todo` into the list. */
  lemma ListsOneMore(paths: seq<Path>, members: set<Path>, todo: set<Path>, p: Path)
    requires Orders(paths, members - todo) && p in todo
    ensures Orders(if p in members then paths + [p] else paths, members - (todo - {p}))
  {
  }

  function AddedBy(current: Entries, desired: Entries): set<Path> {
    set p | p in desired && p !in current
  }

  function ModifiedBy(current: Entries, desired: Entries): set<Path> {
    set p | p in desired && p in current && current[p] != desired[p]
  }

  /** The three change sets are the exact difference, each path once, and the new manifest is `desired`. */
  ghost predicate ExactChange(current: Entries, desired: Entries, r: Reconciliation) {
    && r.manifest == desired
    && Orders(r.added, AddedBy(current, desired))
    && Orders(r.modified, ModifiedBy(current, desired))
    && Orders(r.deleted, AddedBy(desired, current))
  }

  method Reconcile(current: Entries, desired: Entries) returns (r: Reconciliation)
    ensures ExactChange(current, desired, r)
  {
    var added: seq<Path>, modified: seq<Path> := [], [];
    var todo := desired.Keys;
    while todo != {}
      invariant todo <= desired.Keys
      invariant Orders(added, AddedBy(current, desired) - todo)
      invariant Orders(modified, ModifiedBy(current, desired) - todo)
      decreases |todo|
    {
      var p :| p in todo;
      ListsOneMore(added, AddedBy(current, desired), todo, p);
      ListsOneMore(modified, ModifiedBy(current, desired), todo, p);
      todo := todo - {p};
      if p !in current {
        added := added + [p];
      } else if current[p] != desired[p] {
        modified := modified + [p];
      }
    }
    var deleted := Absent(current, desired);
    r := Reconciliation(added, modified, deleted, desired);
  }

  method Absent(current: Entries, desired: Entries) returns (deleted: seq<Path>)
    ensures Orders(deleted, AddedBy(desired, current))
  {
    deleted := [];
    var todo := current.Keys;
    while todo != {}
      invariant todo <= current.Keys
      invariant Orders(deleted, AddedBy(desired, current) - todo)
      decreases |todo|
    {
      var p :| p in todo;
      ListsOneMore(deleted, AddedBy(desired, current), todo, p);
      todo := todo - {p};
      if p !in desired {
        deleted := deleted + [p];
      }
    }
  }

  /** What is staged once the deletions of the reconciliation are pushed behind the driver's own. */
  function PushedBehind<G>(st: Staging<G>, deleted: seq<Path>): Staging<G> {
    st.(removes := st.removes + deleted)
  }

  // ---- what the drivers stage accounts for the change ----

  /** The full driver accounts for the change and never removes what it wants. */
  lemma FullAccounts<G(!new)>(sl: Slicing<G>, src: Source, current: Entries, desired: Entries, st: Staging<G>,
                              r: Reconciliation)
    requires FullSoFar(sl, src, src.listed, desired, st) && ExactChange(current, desired, r)
    ensures Accounts(sl, src, PushedBehind(st, r.deleted), current, desired)
    ensures forall p :: p in PushedBehind(st, r.deleted).removes ==> p !in desired
  {
    var full := PushedBehind(st, r.deleted);
    assert Inserted(full) == Inserted(st);
    forall p | p in desired ensures Parsed(sl, src, p).Some? && desired[p] == sl.Hash(Parsed(sl, src, p).value) {
      assert At(desired, p) == FullAt(sl, src, p);
    }
  }

  /** The incremental driver accounts for the change too, and removes something it wants exactly when
      an entry of the old manifest is ignored by git and yet indexed again. */
  lemma IncrementalAccounts<G(!new)>(sl: Slicing<G>, src: Source, current: Entries, changed: Changed, desired: Entries,
                                     st: Staging<G>, r: Reconciliation)
    requires IncrementalBuilt(sl, src, current, changed, desired, st) && ExactChange(current, desired, r)
    ensures Accounts(sl, src, PushedBehind(st, r.deleted), current, desired)
    ensures (forall p :: p in PushedBehind(st, r.deleted).removes ==> p !in desired)
            <==> forall p :: p in current ==> !IgnoredReindexed(sl, src, changed, p)
  {
    var full := PushedBehind(st, r.deleted);
    assert Inserted(full) == Inserted(st);
    forall p | p in desired
      ensures if p in Inserted(full) then Parsed(sl, src, p).Some? && desired[p] == sl.Hash(Parsed(sl, src, p).value)
              else p in current && desired[p] == current[p]
    {
      assert At(desired, p) == IncrementalAt(sl, src, current, changed, p);
    }
    forall p | p in current
      ensures p in desired && p in full.removes <==> IgnoredReindexed(sl, src, changed, p)
    {
      assert At(desired, p) == IncrementalAt(sl, src, current, changed, p);
    }
    if p :| p in full.removes && p in desired {
      assert p in current;
    }
  }

  // ---- repairing slices that a sweep took ----

  /** The slice this run staged for `p`, if any: the first one. */
  method FindStaged<G(!new)>(st: Staging<G>, p: Path) returns (g: Option<G>)
    ensures g.None? <==> p !in Inserted(st)
    ensures g.Some? ==> (p, g.value) in st.inserts
  {
    for i := 0 to |st.inserts|
      invariant forall k :: 0 <= k < i ==> st.inserts[k].0 != p
    {
      if st.inserts[i].0 == p {
        assert st.inserts[i] == (p, st.inserts[i].1);
        return Some(st.inserts[i].1);
      }
    }
    g := None;
  }

  /** This run staged, for `p`, the slice the manifest names. */
  ghost predicate Restorable<G(!new)>(sl: Slicing<G>, st: Staging<G>, desired: Entries, p: Path) {
    && p in desired && p in Inserted(st)
    && forall i :: 0 <= i < |st.inserts| && st.inserts[i].0 == p ==> sl.Hash(st.inserts[i].1) == desired[p]
  }

  ghost predicate AllRestorable<G(!new)>(sl: Slicing<G>, st: Staging<G>, desired: Entries, paths: seq<Path>) {
    forall p :: p in paths ==> Restorable(sl, st, desired, p)
  }

  function NamedBy(desired: Entries, paths: seq<Path>): set<ContentHash> {
    set p | p in paths && p in desired :: desired[p]
  }

  /** Every slice named by a path of `done` is stored again, and counted once if it was missing. */
  ghost predicate Repaired(before: set<ContentHash>, desired: Entries, done: seq<Path>, blobs: Blobs,
                           restored: nat)
  {
    && Addressed(blobs)
    && blobs.Keys == before + NamedBy(desired, done)
    && restored == |NamedBy(desired, done) - before|
  }

  /** Check one slice, uploading it again if it is gone. */
  method EnsurePresent<G(!new)>(sl: Slicing<G>, desired: Entries, p: Path, st: Staging<G>, slices: SliceStore)
    returns (ok: bool, restored: nat)
    requires p in desired && Addressed(slices.blobs)
    modifies slices
    ensures Addressed(slices.blobs)
    ensures Restorable(sl, st, desired, p) ==> ok
    ensures ok ==> slices.blobs.Keys == old(slices.blobs).Keys + {desired[p]}
    ensures ok ==> restored == if desired[p] in old(slices.blobs) then 0 else 1
  {
    var hash := desired[p];
    ok, restored := true, 0;
    var present := slices.HasBlob(hash);
    if !present {
      var slice := FindStaged(st, p);
      if slice.None? {
        return false, 0;
      }
      var h := slices.PutBlob(sl.encode(slice.value));
      ok, restored := h == hash, 1;
    }
  }

  method EnsureSlicesPresent<G(!new)>(sl: Slicing<G>, wanted: seq<Path>, desired: Entries, st: Staging<G>,
                                      slices: SliceStore)
    returns (ok: bool, restored: nat)
    requires (forall p :: p in wanted ==> p in desired) && Addressed(slices.blobs)
    modifies slices
    ensures Addressed(slices.blobs)
    ensures AllRestorable(sl, st, desired, wanted) ==> ok
    ensures ok ==> Repaired(old(slices.blobs).Keys, desired, wanted, slices.blobs, restored)
  {
    hide Repaired, Restorable;
    ok, restored := true, 0;
    ghost var before := slices.blobs.Keys;
    RepairedAtStart(desired, slices.blobs);
    for i := 0 to |wanted|
      invariant Addressed(slices.blobs)
      invariant Repaired(before, desired, wanted[..i], slices.blobs, restored)
    {
      ghost var was := slices.blobs;
      var one: nat;
      ok, one := EnsurePresent(sl, desired, wanted[i], st, slices);
      if !ok {
        return;
      }
      RepairedPrefix(before, desired, wanted, i, was, restored, slices.blobs, one);
      restored := restored + one;
    }
    assert wanted[..|wanted|] == wanted;
  }

  lemma RepairedAtStart(desired: Entries, blobs: Blobs)
    requires Addressed(blobs)
    ensures Repaired(blobs.Keys, desired, [], blobs, 0)
  {
    assert NamedBy(desired, []) == {};
  }

  lemma RepairedPrefix(before: set<ContentHash>, desired: Entries, wanted: seq<Path>, i: nat, was: Blobs,
                       restored: nat, blobs: Blobs, one: nat)
    requires i < |wanted| && wanted[i] in desired
    requires Repaired(before, desired, wanted[..i], was, restored) && Addressed(blobs)
    requires blobs.Keys == was.Keys + {desired[wanted[i]]} && one == if desired[wanted[i]] in was then 0 else 1
    ensures Repaired(before, desired, wanted[..i + 1], blobs, restored + one)
  {
    hide Repaired;
    assert wanted[..i + 1] == wanted[..i] + [wanted[i]];
    RepairedOneMore(before, desired, wanted[..i], wanted[i], was, restored, blobs, one);
  }

  lemma RepairedOneMore(before: set<ContentHash>, desired: Entries, done: seq<Path>, p: Path, was: Blobs,
                        restored: nat, blobs: Blobs, one: nat)
    requires p in desired && Repaired(before, desired, done, was, restored) && Addressed(blobs)
    requires blobs.Keys == was.Keys + {desired[p]} && one == if desired[p] in was then 0 else 1
    ensures Repaired(before, desired, done + [p], blobs, restored + one)
  {
    NamedOneMore(desired, done, p, before);
  }

  lemma NamedOneMore(desired: Entries, paths: seq<Path>, p: Path, before: set<ContentHash>)
    requires p in desired
    ensures NamedBy(desired, paths + [p]) == NamedBy(desired, paths) + {desired[p]}
    ensures |NamedBy(desired, paths + [p]) - before|
         == |NamedBy(desired, paths) - before| + if desired[p] in before + NamedBy(desired, paths) then 0 else 1
  {
    var was, now := NamedBy(desired, paths), NamedBy(desired, paths + [p]);
    assert now == was + {desired[p]};
    if desired[p] in before + was {
      assert now - before == was - before;
    } else {
      assert now - before == (was - before) + {desired[p]};
    }
  }

  /** Whatever the manifest newly names, this run staged: a sweep during the run is always repaired. */
  lemma NewlyNamedIsRestorable<G(!new)>(sl: Slicing<G>, src: Source, current: Entries, desired: Entries,
                                        st: Staging<G>, p: Path)
    requires Accounts(sl, src, st, current, desired) && StagedTruly(sl, src, st)
    requires p in desired && (p !in current || current[p] != desired[p])
    ensures Restorable(sl, st, desired, p)
  {
    assert p in Inserted(st);
  }

  lemma NewlyNamedIsRestored<G(!new)>(sl: Slicing<G>, src: Source, current: Entries, r: Reconciliation, st: Staging<G>)
    requires ExactChange(current, r.manifest, r)
    requires Accounts(sl, src, st, current, r.manifest) && StagedTruly(sl, src, st)
    ensures AllRestorable(sl, st, r.manifest, r.added + r.modified)
  {
    forall p | p in r.added + r.modified ensures Restorable(sl, st, r.manifest, p) {
      NewlyNamedIsRestorable(sl, src, current, r.manifest, st, p);
    }
  }

  // ---- the whole run ----

  /** How a manifest is written into a record body and read back. */
  datatype Codec = Codec(encode: Entries -> seq<byte>, decode: seq<byte> -> Option<Entries>)

  ghost predicate Reads(codec: Codec) {
    forall m :: codec.decode(codec.encode(m)) == Some(m)
  }

  /** How a run ended; only the first advances the graph. */
  datatype Outcome = Indexed(manifest: Entries) | Unreadable | BadManifest | Raced | Refused

  /** The persistent graph of one view. */
  class GraphStore<G(!new)> {
    var slices: Graph<G>

    constructor ()
      ensures slices == map[]
    {
      slices := map[];
    }

    /** Advance to what was staged. */
    method Advance(sl: Slicing<G>, src: Source, st: Staging<G>, ghost current: Entries, ghost desired: Entries)
      requires StagedTruly(sl, src, st) && Accounts(sl, src, st, current, desired)
      modifies this
      ensures Mirrors(sl, old(slices), current) ==>
                (Mirrors(sl, slices, desired) <==> forall p :: p in st.removes ==> p !in desired)
    {
      ghost var before := slices;
      slices := ApplyStaging(sl, src, st, slices);
      if Mirrors(sl, before, current) {
        AppliedMirrorsExactly(sl, src, st, current, desired, before, slices);
      }
    }
  }

  /** The manifest a view's record holds now; none is an empty one. */
  function CurrentManifest(codec: Codec, existing: Option<Record>): Option<Entries> {
    if existing.None? then Some(map[]) else codec.decode(existing.value.body.Bytes())
  }

  /** What the live record under the key says the manifest is; without one it is empty. */
  ghost predicate ManifestIs(codec: Codec, t: Table, key: RecordKey, m: Entries) {
    if key in t && !t[key].IsTombstone() then codec.decode(t[key].body.Bytes()) == Some(m) else m == map[]
  }

  /** A live record under the key whose body is no manifest. */
  predicate ManifestIsBad(codec: Codec, t: Table, key: RecordKey) {
    key in t && !t[key].IsTombstone() && codec.decode(t[key].body.Bytes()).None?
  }

  lemma CurrentManifestExactly(codec: Codec, t: Table, key: RecordKey)
    ensures var read := CurrentManifest(codec, Lookup(View(t), key));
            && (read.None? <==> ManifestIsBad(codec, t, key))
            && forall m :: read == Some(m) <==> ManifestIs(codec, t, key, m)
  {
  }

  function ManifestRecord(key: RecordKey, existing: Option<Record>, body: seq<byte>): Record {
    Record(key, GraphManifest,
           if existing.Some? then existing.value.revision.Next(body) else Initial(body),
           if existing.Some? then Some(existing.value.revision) else None,
           Inline(body), Meta("gonzalo-index", "gonzalo-index", 0, 0, map[]), [], [], None, None, None)
  }

  /** What the chosen driver makes of every path: an incremental pass when a readable diff is at hand. */
  ghost predicate DriverGives<G(!new)>(sl: Slicing<G>, src: Source, current: Entries, changed: Option<Changed>,
                                       desired: Entries) {
    forall p :: At(desired, p)
             == if changed.Some? then IncrementalAt(sl, src, current, changed.value, p) else FullAt(sl, src, p)
  }

  /** Nothing in the old manifest is a changed file that git ignores and the incremental pass reindexes. */
  ghost predicate NothingIgnored<G(!new)>(sl: Slicing<G>, src: Source, current: Entries, changed: Option<Changed>) {
    changed.Some? ==> forall p :: p in current ==> !IgnoredReindexed(sl, src, changed.value, p)
  }

  /** The view the chosen driver wants, reconciled and staged in full. */
  ghost predicate Planned<G(!new)>(sl: Slicing<G>, src: Source, current: Entries, changed: Option<Changed>,
                                   r: Reconciliation, st: Staging<G>)
  {
    && DriverGives(sl, src, current, changed, r.manifest) && ExactChange(current, r.manifest, r)
    && StagedTruly(sl, src, st) && Accounts(sl, src, st, current, r.manifest)
    && ((forall p :: p in st.removes ==> p !in r.manifest) <==> NothingIgnored(sl, src, current, changed))
  }

  /** The whole tree is walked only when there is no diff to go by; then every file listed must be readable. */
  predicate Readable(src: Source, changed: Option<Changed>) {
    changed.Some? || src.listed <= src.files.Keys
  }

  method Plan<G(!new)>(sl: Slicing<G>, src: Source, current: Entries, changed: Option<Changed>, slices: SliceStore)
    returns (readable: bool, r: Reconciliation, st: Staging<G>)
    requires Addressed(slices.blobs)
    modifies slices
    ensures Addressed(slices.blobs)
    ensures readable <==> Readable(src, changed)
    ensures readable ==> Planned(sl, src, current, changed, r, st)
  {
    var desired;
    if changed.Some? {
      desired, st := BuildDesiredIncremental(sl, src, current, changed.value, slices);
      readable := true;
    } else {
      readable, desired, st := BuildDesiredFull(sl, src, slices);
    }
    r := Reconcile(current, desired);
    if readable {
      if changed.Some? {
        IncrementalAccounts(sl, src, current, changed.value, desired, st, r);
      } else {
        FullAccounts(sl, src, current, desired, st, r);
      }
      st := PushedBehind(st, r.deleted);
    }
  }

  /** What others do while a run is under way: before the manifest is committed they may put other
      records and other slices in place, and a collection may take slices right after it. */
  datatype Meanwhile = Meanwhile(records: Option<Table>, slices: Option<Blobs>, swept: set<ContentHash>) {
    /** The records the commit finds. */
    function Found(t: Table): Table {
      if records.Some? then records.value else t
    }
  }

  method OthersAct(w: Meanwhile, store: MemStore, slices: SliceStore)
    requires Addressed(slices.blobs) && (w.slices.Some? ==> Addressed(w.slices.value))
    modifies store, slices
    ensures Addressed(slices.blobs) && store.records == w.Found(old(store.records))
  {
    if w.records.Some? {
      store.records := w.records.value;
    }
    if w.slices.Some? {
      slices.blobs := w.slices.value;
    }
  }

  method Sweep(w: Meanwhile, slices: SliceStore)
    requires Addressed(slices.blobs)
    modifies slices
    ensures Addressed(slices.blobs)
  {
    slices.blobs := slices.blobs - w.swept;
  }

  /** The record under the key is still the one that was read, or the key is still free. */
  predicate Unmoved(existing: Option<Record>, held: Option<Record>) {
    if existing.Some? then held.Some? && !held.value.IsTombstone() && held.value.revision == existing.value.revision
    else held.None? || (held.value.IsTombstone() && !IsRestoreWindow(held.value))
  }

  /** A live record is in the way. */
  predicate Moved(existing: Option<Record>, held: Option<Record>) {
    && held.Some? && !held.value.IsTombstone()
    && (existing.None? || held.value.revision != existing.value.revision)
  }

  /** The view's record is live and holds this manifest. */
  ghost predicate Stored(codec: Codec, t: Table, key: RecordKey, m: Entries) {
    key in t && !t[key].IsTombstone() && codec.decode(t[key].body.Bytes()) == Some(m)
  }

  /** The record an index run puts is the one a client's builders make: a creation, or an update of the
      record that was read, less its links. */
  lemma ManifestRecordIsBuilt(key: RecordKey, existing: Option<Record>, body: seq<byte>)
    requires existing.Some? ==> existing.value.key == key && existing.value.kind == GraphManifest
    ensures var record := ManifestRecord(key, existing, body);
            record == if existing.None? then Create(key, GraphManifest, Inline(body), record.meta)
                      else existing.value.Update(Inline(body), record.meta).(links := [])
  {
  }

  function RevisionUnder(held: Option<Record>): Option<Revision> {
    if held.None? then None else Some(held.value.revision)
  }

  /** Commit the manifest under the revision that was read: exactly when the key has not moved. */
  method CommitManifest(codec: Codec, key: RecordKey, existing: Option<Record>, desired: Entries, now: int,
                        store: MemStore)
    returns (r: Result<PutResult>)
    requires Reads(codec)
    modifies store
    ensures var held := Lookup(old(store.records), key);
            && (r.Ok? && r.value.Committed? <==> Unmoved(existing, held))
            && (r.Ok? && r.value.PutConflict? <==> Moved(existing, held))
    ensures r.Ok? && r.value.Committed? ==>
              && key in store.records && store.records[key].body == Inline(codec.encode(desired))
              && store.records[key].kind == GraphManifest && Stored(codec, store.records, key, desired)
              && (forall k :: k != key ==> Lookup(store.records, k) == Lookup(old(store.records), k))
    ensures r.Ok? && r.value.Committed? && existing.Some? ==>
              && store.records[key].revision == existing.value.revision.Next(codec.encode(desired))
              && store.records[key].parent == Some(existing.value.revision)
    ensures r.Ok? && r.value.Committed? && existing.None? ==>
              var held := Lookup(old(store.records), key);
              && store.records[key].parent == RevisionUnder(held)
              && store.records[key].revision.hash == HashOf(codec.encode(desired))
              && store.records[key].revision.counter == if held.None? then 0 else held.value.revision.counter + 1
    ensures !(r.Ok? && r.value.Committed?) ==> store.records == old(store.records)
  {
    var record := ManifestRecord(key, existing, codec.encode(desired));
    r := store.Put(record, if existing.Some? then Some(existing.value.revision) else None, now);
  }

  /** Exactly when a run ends how, from the table it began with and what the commit found. */
  ghost predicate EndsSo(codec: Codec, src: Source, t: Table, key: RecordKey, changed: Option<Changed>,
                         held: Option<Record>, o: Outcome)
  {
    var existing, goes := Lookup(View(t), key), !ManifestIsBad(codec, t, key) && Readable(src, changed);
    && (o.BadManifest? <==> ManifestIsBad(codec, t, key))
    && (o.Unreadable? <==> !ManifestIsBad(codec, t, key) && !Readable(src, changed))
    && (o.Indexed? <==> goes && Unmoved(existing, held))
    && (o.Raced? <==> goes && Moved(existing, held))
    && (o.Refused? <==> goes && !Unmoved(existing, held) && !Moved(existing, held))
  }

  /** What a run that ends well leaves behind. */
  ghost predicate IndexedWell<G(!new)>(sl: Slicing<G>, codec: Codec, src: Source, key: RecordKey, current: Entries,
                                       changed: Option<Changed>, m: Entries, records: Table, blobs: Blobs,
                                       graph0: Graph<G>, graph: Graph<G>)
  {
    && DriverGives(sl, src, current, changed, m) && Stored(codec, records, key, m) && Addressed(blobs)
    && (forall p :: p in m && At(current, p) != Some(m[p]) ==> m[p] in blobs)
    && (Mirrors(sl, graph0, current) ==> (Mirrors(sl, graph, m) <==> NothingIgnored(sl, src, current, changed)))
  }

  /** From the plan on: others act, the manifest is committed, swept slices are repaired and the graph
      advances. */
  method FinishRun<G(!new)>(sl: Slicing<G>, codec: Codec, src: Source, key: RecordKey, existing: Option<Record>,
                            ghost current: Entries, ghost changed: Option<Changed>, r: Reconciliation, st: Staging<G>,
                            now: int, meanwhile: Meanwhile, store: MemStore, slices: SliceStore, graph: GraphStore<G>)
    returns (o: Outcome)
    requires Addressed(slices.blobs) && Reads(codec) && Planned(sl, src, current, changed, r, st)
    requires meanwhile.slices.Some? ==> Addressed(meanwhile.slices.value)
    modifies store, slices, graph
    ensures var held := Lookup(meanwhile.Found(old(store.records)), key);
            && (o.Indexed? <==> Unmoved(existing, held)) && (o.Raced? <==> Moved(existing, held))
            && (o.Indexed? || o.Raced? || o.Refused?)
    ensures Addressed(slices.blobs)
    ensures !o.Indexed? ==> graph.slices == old(graph.slices) && store.records == meanwhile.Found(old(store.records))
    ensures o.Indexed? ==>
              IndexedWell(sl, codec, src, key, current, changed, o.manifest, store.records, slices.blobs,
                          old(graph.slices), graph.slices)
  {
    hide DriverGives, NothingIgnored, Mirrors, Unmoved, Moved, Addressed, Stored, Reads, Accounts, ExactChange,
        StagedTruly;
    OthersAct(meanwhile, store, slices);
    ApartFromEachOther(existing, Lookup(store.records, key));
    var put := CommitManifest(codec, key, existing, r.manifest, now, store);
    if put.Err? {
      return Refused;
    }
    if put.value.PutConflict? {
      return Raced;
    }
    Sweep(meanwhile, slices);
    var restored := RepairSlices(sl, src, current, changed, r, st, slices);
    AdvanceGraph(sl, src, current, changed, r, st, graph);
    o := Indexed(r.manifest);
  }

  lemma ApartFromEachOther(existing: Option<Record>, held: Option<Record>)
    ensures !(Unmoved(existing, held) && Moved(existing, held))
  {
  }

  /** The repair of a planned run never fails. */
  method RepairSlices<G(!new)>(sl: Slicing<G>, src: Source, ghost current: Entries, ghost changed: Option<Changed>,
                               r: Reconciliation, st: Staging<G>, slices: SliceStore)
    returns (restored: nat)
    requires Addressed(slices.blobs) && Planned(sl, src, current, changed, r, st)
    modifies slices
    ensures Addressed(slices.blobs)
    ensures forall p :: p in r.manifest && At(current, p) != Some(r.manifest[p]) ==> r.manifest[p] in slices.blobs
  {
    NewlyNamedIsRestored(sl, src, current, r, st);
    var ok;
    ok, restored := EnsureSlicesPresent(sl, r.added + r.modified, r.manifest, st, slices);
    NewlyNamedIsStored(current, r, slices.blobs);
  }

  lemma NewlyNamedIsStored(current: Entries, r: Reconciliation, blobs: Blobs)
    requires ExactChange(current, r.manifest, r) && NamedBy(r.manifest, r.added + r.modified) <= blobs.Keys
    ensures forall p :: p in r.manifest && At(current, p) != Some(r.manifest[p]) ==> r.manifest[p] in blobs
  {
    forall p | p in r.manifest && At(current, p) != Some(r.manifest[p]) ensures r.manifest[p] in blobs {
      assert p in AddedBy(current, r.manifest) || p in ModifiedBy(current, r.manifest);
      assert p in r.added + r.modified;
      assert r.manifest[p] in NamedBy(r.manifest, r.added + r.modified);
    }
  }

  method AdvanceGraph<G(!new)>(sl: Slicing<G>, src: Source, ghost current: Entries, ghost changed: Option<Changed>,
                               r: Reconciliation, st: Staging<G>, graph: GraphStore<G>)
    requires Planned(sl, src, current, changed, r, st)
    modifies graph
    ensures Mirrors(sl, old(graph.slices), current) ==>
              (Mirrors(sl, graph.slices, r.manifest) <==> NothingIgnored(sl, src, current, changed))
  {
    graph.Advance(sl, src, st, current, r.manifest);
  }

  /** One run over one view, others acting around its commit. How it ends is decided by what could be
      read and by what the commit found under the key. A run that does not succeed leaves the graph
      alone; one that does starts from the manifest the key's record held, stores what its driver wants,
      with every newly named slice present, and leaves a graph that mirrored the old manifest mirroring
      the new one exactly when nothing in it was ignored by git and reindexed all the same. */
  method IndexWithWorker<G(!new)>(sl: Slicing<G>, codec: Codec, src: Source, key: RecordKey, changed: Option<Changed>,
                                  now: int, meanwhile: Meanwhile,
                                  store: MemStore, slices: SliceStore, graph: GraphStore<G>)
    returns (o: Outcome)
    requires Addressed(slices.blobs) && Reads(codec)
    requires meanwhile.slices.Some? ==> Addressed(meanwhile.slices.value)
    modifies store, slices, graph
    ensures Addressed(slices.blobs)
    ensures EndsSo(codec, src, old(store.records), key, changed, Lookup(meanwhile.Found(old(store.records)), key), o)
    ensures !o.Indexed? ==> graph.slices == old(graph.slices)
    ensures !o.Indexed? ==> store.records == old(store.records) || store.records == meanwhile.Found(old(store.records))
    ensures o.Indexed? ==> exists m :: ManifestIs(codec, old(store.records), key, m)
    ensures o.Indexed? ==> forall m :: ManifestIs(codec, old(store.records), key, m) ==>
              IndexedWell(sl, codec, src, key, m, changed, o.manifest, store.records, slices.blobs, old(graph.slices),
                          graph.slices)
  {
    CurrentManifestExactly(codec, store.records, key);
    hide Planned, CurrentManifest, ManifestIs, ManifestIsBad, Readable, IndexedWell, Unmoved, Moved, Addressed, Reads;
    ApartFromEachOther(Lookup(View(store.records), key), Lookup(meanwhile.Found(store.records), key));
    var existing := store.Get(key);
    var read := CurrentManifest(codec, existing);
    if read.None? {
      return BadManifest;
    }
    var current := read.value;
    var readable, r, st := Plan(sl, src, current, changed, slices);
    if !readable {
      return Unreadable;
    }
    o := FinishRun(sl, codec, src, key, existing, current, changed, r, st, now, meanwhile, store, slices, graph);
  }

  /** Such a run leaves the persistent graph equal to the assembly of the manifest it stored, provided
      the slices it carried forward are still stored. */
  lemma IndexedGraphIsAssembled<G(!new)>(sl: Slicing<G>, codec: Codec, src: Source, key: RecordKey, current: Entries,
                                         changed: Option<Changed>, m: Entries, records: Table, blobs: Blobs,
                                         graph0: Graph<G>, graph: Graph<G>)
    requires IndexedWell(sl, codec, src, key, current, changed, m, records, blobs, graph0, graph)
    requires RoundTrips(sl) && Mirrors(sl, graph0, current) && NothingIgnored(sl, src, current, changed)
    requires forall p :: p in m && At(current, p) == Some(m[p]) ==> m[p] in blobs
    ensures IsAssembly(sl, m, blobs, graph)
  {
    MirrorIsAssembly(sl, graph, m, blobs);
  }

  /** A file that is tracked and modified although git's rules ignore it: the run's plan names it in
      the new manifest and removes it from the graph after inserting it, so a graph that mirrored the
      old manifest does not mirror the new one. */
  lemma TrackedIgnoredFile<G(!new)>(sl: Slicing<G>, src: Source, g: G, before: ContentHash)
    returns (r: Reconciliation, st: Staging<G>)
    requires src.files == map[["a"] := [1]] && sl.parse(["a"], [1]) == Some(g) && sl.Hash(g) != before
    requires src.rules.filter == IndexFilter([]) && src.rules.ignored(["a"]) && src.rules.language(["a"])
    ensures Planned(sl, src, map[["a"] := before], Some(Changed([], [["a"]], [])), r, st)
    ensures r.manifest == map[["a"] := sl.Hash(g)]
    ensures forall graph0, graph ::
              Mirrors(sl, graph0, map[["a"] := before]) && IsApplied(sl, src, st, graph0, graph) ==>
                graph == map[] && !Mirrors(sl, graph, r.manifest)
  {
    var rel: Path := ["a"];
    var current, changed := map[rel := before], Changed([], [rel], []);
    r := Reconciliation([], [rel], [], map[rel := sl.Hash(g)]);
    st := Staging([(rel, g)], [rel]);
    TrackedIgnoredPlan(sl, src, g, before, current, changed, r, st);
    forall graph0, graph | Mirrors(sl, graph0, current) && IsApplied(sl, src, st, graph0, graph)
      ensures graph == map[] && !Mirrors(sl, graph, r.manifest)
    {
      assert Inserted(st) == {rel};
      assert rel in r.manifest && rel !in graph;
      assert forall p :: p !in graph;
    }
  }

  lemma TrackedIgnoredPlan<G(!new)>(sl: Slicing<G>, src: Source, g: G, before: ContentHash, current: Entries,
                                    changed: Changed, r: Reconciliation, st: Staging<G>)
    requires src.files == map[["a"] := [1]] && sl.parse(["a"], [1]) == Some(g) && sl.Hash(g) != before
    requires src.rules.filter == IndexFilter([]) && src.rules.ignored(["a"]) && src.rules.language(["a"])
    requires current == map[["a"] := before] && changed == Changed([], [["a"]], [])
    requires r == Reconciliation([], [["a"]], [], map[["a"] := sl.Hash(g)]) && st == Staging([(["a"], g)], [["a"]])
    ensures Planned(sl, src, current, Some(changed), r, st)
  {
    hide HasSkippedSuffix, IsSkippedPart;
    var rel: Path := ["a"];
    PlainNameIsIndexable("a");
    InsertedPush(Staging([], [rel]), rel, g);
    assert Parsed(sl, src, rel) == Some(g);
    assert changed.added + changed.modified == [rel];
    assert IgnoredReindexed(sl, src, changed, rel);
    forall p ensures At(r.manifest, p) == IncrementalAt(sl, src, current, changed, p) {
    }
    assert AddedBy(current, r.manifest) == {} && AddedBy(r.manifest, current) == {};
    assert ModifiedBy(current, r.manifest) == {rel};
  }
}
