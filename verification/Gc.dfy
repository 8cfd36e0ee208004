/** Mark-sweep collection of blobs: what still references a blob, and which others are old enough. */
module Gc {
  import opened Wrappers
  import opened Records
  import opened Stores

  /** How manifest bodies are read; None when the bytes are not a manifest. */
  datatype Reader = Reader(
    graph: seq<byte> -> Option<set<ContentHash>>,
    vector: seq<byte> -> Option<set<ContentHash>>)
  {
    /** The blobs a body of this kind names. */
    function Named(kind: RecordKind, body: Body): Option<set<ContentHash>> {
      match kind
      case GraphManifest => graph(body.Bytes())
      case VectorManifest => vector(body.Bytes())
      case _ => Some({})
    }
  }

  /** The kind whose reader applies to a record's body: its own, or the one its tombstone keeps. */
  function BodyKind(r: Record): RecordKind {
    if r.kind == Tombstone && r.deletedKind.Some? then r.deletedKind.value else r.kind
  }

  function BodyBlob(r: Record): set<ContentHash> {
    if r.body.Blob? then {r.body.hash} else {}
  }

  function PinnedBlob(r: Record): set<ContentHash> {
    if r.deletedBlob.Some? then {r.deletedBlob.value} else {}
  }

  /** Every blob a record still needs, or None when its manifest body cannot be read. */
  function References(rd: Reader, r: Record): Option<set<ContentHash>> {
    var named := rd.Named(BodyKind(r), r.body);
    if named.None? then None else Some(BodyBlob(r) + PinnedBlob(r) + named.value)
  }

  function Live(rd: Reader, records: seq<Record>): Result<set<ContentHash>> {
    if records == [] then Ok({})
    else
      var front := Live(rd, records[..|records| - 1]);
      var last := References(rd, records[|records| - 1]);
      if front.Err? then front
      else if last.None? then Err(Unparseable)
      else Ok(front.value + last.value)
  }

  // ---- what points at a blob ----

  /** A manifest of this kind and content names the blob. */
  predicate Names(rd: Reader, kind: RecordKind, content: seq<byte>, h: ContentHash) {
    || (kind == GraphManifest && rd.graph(content).Some? && h in rd.graph(content).value)
    || (kind == VectorManifest && rd.vector(content).Some? && h in rd.vector(content).value)
  }

  /** A manifest of either kind whose content is not one. */
  predicate Garbled(rd: Reader, kind: RecordKind, content: seq<byte>) {
    (kind == GraphManifest && rd.graph(content).None?) || (kind == VectorManifest && rd.vector(content).None?)
  }

  /** The five ways a record points at a blob: as its body, as the body its delete took away, as a slice of
      its graph manifest, as a shard of its vector manifest, and through the manifest its tombstone keeps. */
  predicate PointsAt(rd: Reader, r: Record, h: ContentHash) {
    || (r.body.Blob? && r.body.hash == h)
    || r.deletedBlob == Some(h)
    || Names(rd, r.kind, r.body.Bytes(), h)
    || (r.kind == Tombstone && r.deletedKind.Some? && Names(rd, r.deletedKind.value, r.body.Bytes(), h))
  }

  /** A manifest, live or kept by its tombstone, that cannot be read. */
  predicate Unreadable(rd: Reader, r: Record) {
    || Garbled(rd, r.kind, r.body.Bytes())
    || (r.kind == Tombstone && r.deletedKind.Some? && Garbled(rd, r.deletedKind.value, r.body.Bytes()))
  }

  lemma NamedExactly(rd: Reader, kind: RecordKind, body: Body)
    ensures rd.Named(kind, body).None? <==> Garbled(rd, kind, body.Bytes())
    ensures rd.Named(kind, body).Some? ==>
              forall h :: h in rd.Named(kind, body).value <==> Names(rd, kind, body.Bytes(), h)
  {
  }

  lemma ReferencesExactly(rd: Reader, r: Record)
    ensures References(rd, r).None? <==> Unreadable(rd, r)
    ensures References(rd, r).Some? ==> forall h :: h in References(rd, r).value <==> PointsAt(rd, r, h)
  {
    NamedExactly(rd, BodyKind(r), r.body);
  }

  /** The mark set is exactly what the records point at, and marking fails exactly when some manifest
      cannot be read. */
  lemma {:induction false} LiveIsUnion(rd: Reader, records: seq<Record>)
    ensures Live(rd, records).Err? <==> exists r :: r in records && Unreadable(rd, r)
    ensures Live(rd, records).Ok? ==>
              forall h :: h in Live(rd, records).value <==> exists r :: r in records && PointsAt(rd, r, h)
  {
    hide References, Unreadable, PointsAt;
    if records != [] {
      var front, last := records[..|records| - 1], records[|records| - 1];
      LiveIsUnion(rd, front);
      ReferencesExactly(rd, last);
      assert forall r :: r in records <==> r in front || r == last;
    }
  }

  /** The mark phase: five kinds of reference gathered into one growing set. */
  method LiveBlobHashes(rd: Reader, records: seq<Record>) returns (r: Result<set<ContentHash>>)
    ensures r == Live(rd, records)
  {
    var live: set<ContentHash> := {};
    for i := 0 to |records|
      invariant Live(rd, records[..i]) == Ok(live)
    {
      var record := records[i];
      assert records[..i + 1][..i] == records[..i];
      var found: set<ContentHash> := {};
      if record.body.Blob? {
        found := found + {record.body.hash};
      }
      if record.deletedBlob.Some? {
        found := found + {record.deletedBlob.value};
      }
      assert found == BodyBlob(record) + PinnedBlob(record);
      var retained := record.kind == Tombstone && record.deletedKind.Some?;
      var kind := if retained then record.deletedKind.value else record.kind;
      if kind == GraphManifest || kind == VectorManifest {
        var named := rd.Named(kind, record.body);
        if named.None? {
          LiveErrIsFinal(rd, records, i + 1);
          return Err(Unparseable);
        }
        found := found + named.value;
      }
      live := live + found;
      assert References(rd, record).Some? && References(rd, record).value == found;
    }
    assert records[..|records|] == records;
    r := Ok(live);
  }

  lemma {:induction false} LiveErrIsFinal(rd: Reader, records: seq<Record>, n: nat)
    requires n <= |records| && Live(rd, records[..n]).Err?
    ensures Live(rd, records) == Live(rd, records[..n])
    decreases |records|
  {
    if n == |records| {
      assert records[..n] == records;
    } else {
      var front := records[..|records| - 1];
      assert front[..n] == records[..n];
      LiveErrIsFinal(rd, front, n);
    }
  }

  // ---- ages ----

  const I64_MAX: int := 0x7FFF_FFFF_FFFF_FFFF
  const I64_MIN: int := -0x8000_0000_0000_0000

  /** A clock reading as signed milliseconds, saturated the way a 64-bit conversion saturates. */
  function Saturated(ms: int): int {
    if ms > I64_MAX then I64_MAX else if ms < -I64_MAX then -I64_MAX else ms
  }

  datatype BlobEntry = BlobEntry(hash: ContentHash, modified: int)

  /** How old a blob is, or None when the checked subtraction overflows or it is dated ahead. */
  function Age(modified: int, now: int): Option<nat> {
    var age := Saturated(now) - modified;
    if age < I64_MIN || age > I64_MAX || age < 0 then None else Some(age)
  }

  datatype SweepPolicy = SweepPolicy(minAge: nat, now: int)

  predicate OldEnough(policy: SweepPolicy, modified: int) {
    var age := Age(modified, policy.now);
    age.Some? && age.value >= policy.minAge
  }

  /** A clock reading outside 64 bits stops at the ends of their range; from there a blob is old enough
      exactly if it is not dated ahead, its age fits 64 bits, and the age has reached the minimum. */
  lemma OldEnoughExactly(policy: SweepPolicy, modified: int)
    requires I64_MIN <= modified <= I64_MAX
    ensures -I64_MAX <= policy.now <= I64_MAX ==>
              (OldEnough(policy, modified) <==> policy.minAge <= policy.now - modified <= I64_MAX)
    ensures policy.now > I64_MAX ==> (OldEnough(policy, modified) <==> policy.minAge <= I64_MAX - modified <= I64_MAX)
    ensures policy.now < -I64_MAX ==> (OldEnough(policy, modified) <==> policy.minAge <= -I64_MAX - modified)
  {
  }

  // ---- the sweep ----

  function Listed(entries: seq<BlobEntry>): set<ContentHash> {
    set e | e in entries :: e.hash
  }

  /** `newest` holds for each listed hash the greatest of its listed times. */
  ghost predicate IsNewest(newest: map<ContentHash, int>, entries: seq<BlobEntry>) {
    && newest.Keys == Listed(entries)
    && (forall e :: e in entries ==> e.modified <= newest[e.hash])
    && (forall h :: h in newest ==> BlobEntry(h, newest[h]) in entries)
  }

  method CollapseListing(entries: seq<BlobEntry>) returns (newest: map<ContentHash, int>)
    ensures IsNewest(newest, entries)
  {
    newest := map[];
    for i := 0 to |entries|
      invariant IsNewest(newest, entries[..i])
    {
      var e := entries[i];
      ghost var seen := entries[..i];
      assert entries[..i + 1] == seen + [e];
      assert Listed(seen + [e]) == Listed(seen) + {e.hash};
      if e.hash !in newest || newest[e.hash] < e.modified {
        newest := newest[e.hash := e.modified];
      }
    }
    assert entries[..|entries|] == entries;
  }

  /** The blobs a sweep frees: listed, unreferenced, and old by their newest listed time. */
  ghost function Freed(newest: map<ContentHash, int>, live: set<ContentHash>, policy: SweepPolicy): set<ContentHash> {
    set h | h in newest && h !in live && OldEnough(policy, newest[h])
  }

  /** How the listed hashes in `done` have been sorted. */
  ghost predicate Sorted(newest: map<ContentHash, int>, live: set<ContentHash>, policy: SweepPolicy,
                         done: set<ContentHash>,
                         freed: set<ContentHash>, retained: nat, deferred: nat)
  {
    && (forall h :: h in freed <==> h in done && h in newest && h !in live && OldEnough(policy, newest[h]))
    && retained == |done * live| && |freed| + retained + deferred == |done|
  }

  lemma SortOne(newest: map<ContentHash, int>, live: set<ContentHash>, policy: SweepPolicy, done: set<ContentHash>,
                freed: set<ContentHash>, retained: nat, deferred: nat, h: ContentHash)
    requires Sorted(newest, live, policy, done, freed, retained, deferred) && h in newest && h !in done
    ensures if h in live then Sorted(newest, live, policy, done + {h}, freed, retained + 1, deferred)
            else if OldEnough(policy, newest[h]) then Sorted(newest, live, policy, done + {h}, freed
              + {h}, retained, deferred)
            else Sorted(newest, live, policy, done + {h}, freed, retained, deferred + 1)
  {
    if h in live {
      assert (done + {h}) * live == done * live + {h};
    } else {
      assert (done + {h}) * live == done * live;
    }
  }

  /** The sweep's loop over the collapsed listing: count what is kept, gather what is freed. */
  method Classify(newest: map<ContentHash, int>, live: set<ContentHash>, policy: SweepPolicy)
    returns (freed: set<ContentHash>, retained: nat, deferred: nat)
    ensures freed == Freed(newest, live, policy)
    ensures retained == |newest.Keys * live|
    ensures |freed| + retained + deferred == |newest|
  {
    hide Sorted, OldEnough;
    freed, retained, deferred := {}, 0, 0;
    var todo := newest.Keys;
    ghost var done: set<ContentHash> := {};
    SortedAtStart(newest, live, policy);
    while todo != {}
      invariant done + todo == newest.Keys && done !! todo
      invariant Sorted(newest, live, policy, done, freed, retained, deferred)
      decreases |todo|
    {
      var h :| h in todo;
      SortOne(newest, live, policy, done, freed, retained, deferred, h);
      if h in live {
        retained := retained + 1;
      } else if OldEnough(policy, newest[h]) {
        freed := freed + {h};
      } else {
        deferred := deferred + 1;
      }
      todo := todo - {h};
      done := done + {h};
    }
    assert done == newest.Keys;
    SortedAtEnd(newest, live, policy, freed, retained, deferred);
  }

  lemma SortedAtStart(newest: map<ContentHash, int>, live: set<ContentHash>, policy: SweepPolicy)
    ensures Sorted(newest, live, policy, {}, {}, 0, 0)
  {
    assert {} * live == {};
  }

  lemma SortedAtEnd(newest: map<ContentHash, int>, live: set<ContentHash>, policy: SweepPolicy,
                    freed: set<ContentHash>, retained: nat, deferred: nat)
    requires Sorted(newest, live, policy, newest.Keys, freed, retained, deferred)
    ensures freed == Freed(newest, live, policy) && retained == |newest.Keys * live|
    ensures |freed| + retained + deferred == |newest|
  {
    assert |newest| == |newest.Keys|;
  }

  datatype GcReport = GcReport(freed: set<ContentHash>, retained: nat, deferred: nat)

  /** Content that is already there keeps its time. */
  function Uploaded(blobs: map<ContentHash, int>, h: ContentHash, now: int): map<ContentHash, int> {
    blobs[h := if h in blobs then blobs[h] else now]
  }

  /** An upload protects its blob from the next sweep exactly if the blob was not stored yet and is young,
      or is young already: uploading what is there does not renew it. */
  lemma UploadProtectsExactly(blobs: map<ContentHash, int>, h: ContentHash, at: int, live: set<ContentHash>,
                              policy: SweepPolicy)
    ensures h in Uploaded(blobs, h, at)
    ensures h in Freed(Uploaded(blobs, h, at), live, policy) <==>
              h !in live && if h in blobs then OldEnough(policy, blobs[h]) else OldEnough(policy, at)
    ensures forall g :: g != h ==>
              (g in Uploaded(blobs, h, at) <==> g in blobs)
              && (g in Freed(Uploaded(blobs, h, at), live, policy) <==> g in Freed(blobs, live, policy))
  {
    hide OldEnough;
  }

  /** Blobs with the time each was last written. */
  class BlobTable {
    var blobs: map<ContentHash, int>

    method List() returns (entries: seq<BlobEntry>)
      ensures IsNewest(blobs, entries)
    {
      entries := [];
      var todo := blobs.Keys;
      while todo != {}
        invariant todo <= blobs.Keys
        invariant forall e :: e in entries <==> e.hash in blobs && e.hash !in todo && e.modified == blobs[e.hash]
        decreases |todo|
      {
        var h :| h in todo;
        entries := entries + [BlobEntry(h, blobs[h])];
        todo := todo - {h};
      }
      assert forall h :: h in blobs ==> BlobEntry(h, blobs[h]) in entries;
    }

    method HasBlob(h: ContentHash) returns (present: bool)
      ensures present <==> h in blobs
    {
      present := h in blobs;
    }

    method DeleteBlob(h: ContentHash)
      modifies this
      ensures blobs == old(blobs) - {h}
    {
      blobs := blobs - {h};
    }
  }

  /** What a sweep frees and counts, given a listing that may repeat hashes: every listed blob outside
      `live` that is old enough by its newest listed time. */
  method ChooseFreed(entries: seq<BlobEntry>, live: set<ContentHash>, policy: SweepPolicy) returns (report: GcReport)
    ensures forall newest :: IsNewest(newest, entries) ==> report.freed == Freed(newest, live, policy)
    ensures report.retained == |Listed(entries) * live|
    ensures |report.freed| + report.retained + report.deferred == |Listed(entries)|
  {
    var newest := CollapseListing(entries);
    var freed, retained, deferred := Classify(newest, live, policy);
    forall other | IsNewest(other, entries) ensures freed == Freed(other, live, policy) {
      NewestUnique(newest, other, entries);
    }
    report := GcReport(freed, retained, deferred);
  }

  lemma NewestUnique(m: map<ContentHash, int>, n: map<ContentHash, int>, entries: seq<BlobEntry>)
    requires IsNewest(m, entries) && IsNewest(n, entries)
    ensures m == n
  {
    forall h | h in m ensures m[h] == n[h] {
      assert BlobEntry(h, m[h]) in entries && BlobEntry(h, n[h]) in entries;
    }
  }

  // ---- a whole collection ----

  /** What a collection nobody disturbs leaves: unreadable manifests stop it before anything is deleted. */
  ghost function AfterGc(rd: Reader, records: Table, blobs: map<ContentHash, int>, newest: map<ContentHash, int>,
                         policy: SweepPolicy): map<ContentHash, int>
  {
    if Readable(rd, records) then
      map h | h in blobs && !(h in newest && !Held(rd, records, h) && OldEnough(policy, newest[h])) :: blobs[h]
    else blobs
  }

  ghost predicate Readable(rd: Reader, records: Table) {
    forall k :: k in records ==> !Unreadable(rd, records[k])
  }

  /** Some record points at the blob. */
  ghost predicate Held(rd: Reader, records: Table, h: ContentHash) {
    exists k :: k in records && PointsAt(rd, records[k], h)
  }

  lemma ReadableRecords(rd: Reader, t: Table, records: seq<Record>)
    requires forall r :: r in records <==> exists k :: k in t && t[k] == r
    ensures Live(rd, records).Ok? <==> Readable(rd, t)
    ensures Readable(rd, t) ==> forall h :: h in Live(rd, records).value <==> Held(rd, t, h)
  {
    hide PointsAt, Unreadable;
    LiveIsUnion(rd, records);
    forall k | k in t ensures t[k] in records {
    }
  }

  /** A referenced blob survives a collection, whatever its age and whatever the listing said. */
  lemma ReferencedBlobsSurvive(rd: Reader, records: Table, blobs: map<ContentHash, int>,
                               newest: map<ContentHash, int>, policy: SweepPolicy, k: RecordKey, h: ContentHash)
    requires k in records && PointsAt(rd, records[k], h) && h in blobs
    ensures h in AfterGc(rd, records, blobs, newest, policy)
  {
  }
}
