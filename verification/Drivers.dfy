/** The two indexing drivers as they run: loops that upload slices and stage graph changes. */
module Drivers {
  import opened Wrappers
  import opened Records
  import opened Walk
  import opened Index

  /** Content-addressed slices; storing content that is already there changes nothing. */
  class SliceStore {
    var blobs: Blobs

    method PutBlob(content: seq<byte>) returns (h: ContentHash)
      requires Addressed(blobs)
      modifies this
      ensures h == HashOf(content) && Addressed(blobs)
      ensures blobs == old(blobs)[h := content]
    {
      h := HashOf(content);
      if h !in blobs {
        blobs := blobs[h := content];
      } else {
        assert blobs[h] == content;
        assert blobs == blobs[h := content];
      }
    }

    method HasBlob(h: ContentHash) returns (present: bool)
      ensures present <==> h in blobs
    {
      present := h in blobs;
    }
  }

  // ---- the full driver ----

  /** What the full driver has built once the files in `done` have been read. */
  ghost predicate FullSoFar<G(!new)>(sl: Slicing<G>, src: Source, done: set<Path>, desired: Entries, st: Staging<G>) {
    && (forall p :: At(desired, p) == if p in done then FullAt(sl, src, p) else None)
    && StagedTruly(sl, src, st) && Inserted(st) == desired.Keys && st.removes == []
  }

  /** The staged slices are uploaded. */
  ghost predicate Uploaded<G(!new)>(sl: Slicing<G>, st: Staging<G>, blobs: Blobs) {
    forall i :: 0 <= i < |st.inserts| ==> sl.Hash(st.inserts[i].1) in blobs
  }

  lemma FullOneMore<G(!new)>(sl: Slicing<G>, src: Source, done: set<Path>, desired: Entries, st: Staging<G>, p: Path)
    requires FullSoFar(sl, src, done, desired, st) && p in src.listed && p in src.files
    ensures var g := Parsed(sl, src, p);
            if g.None? then FullSoFar(sl, src, done + {p}, desired, st)
            else FullSoFar(sl, src, done + {p}, desired[p := sl.Hash(g.value)], st.(inserts := st.inserts
              + [(p, g.value)]))
  {
    var g := Parsed(sl, src, p);
    if g.Some? {
      InsertedPush(st, p, g.value);
    }
  }

  lemma InsertedPush<G>(st: Staging<G>, p: Path, g: G)
    ensures Inserted(st.(inserts := st.inserts + [(p, g)])) == Inserted(st) + {p}
  {
    var more := st.(inserts := st.inserts + [(p, g)]);
    forall q ensures q in Inserted(more) <==> q in Inserted(st) + {p} {
      if q in Inserted(st) {
        var i :| 0 <= i < |st.inserts| && st.inserts[i].0 == q;
        assert more.inserts[i].0 == q;
      }
      assert more.inserts[|st.inserts|].0 == p;
    }
  }

  method BuildDesiredFull<G(!new)>(sl: Slicing<G>, src: Source, slices: SliceStore)
    returns (readable: bool, desired: Entries, st: Staging<G>)
    requires Addressed(slices.blobs)
    modifies slices
    ensures Addressed(slices.blobs) && old(slices.blobs).Keys <= slices.blobs.Keys
    ensures readable <==> src.listed <= src.files.Keys
    ensures readable ==> FullSoFar(sl, src, src.listed, desired, st) && Uploaded(sl, st, slices.blobs)
  {
    hide FullSoFar, Uploaded, Addressed;
    desired, st := map[], Staging([], []);
    ghost var done: set<Path> := {};
    var todo := src.listed;
    FullStarts(sl, src, slices.blobs);
    while todo != {}
      invariant todo + done == src.listed && todo !! done && done <= src.files.Keys
      invariant Addressed(slices.blobs) && old(slices.blobs).Keys <= slices.blobs.Keys
      invariant FullSoFar(sl, src, done, desired, st) && Uploaded(sl, st, slices.blobs)
      decreases |todo|
    {
      var p :| p in todo;
      if p !in src.files {
        return false, desired, st;
      }
      FullOneMore(sl, src, done, desired, st, p);
      todo, done := todo - {p}, done + {p};
      var slice := sl.parse(p, src.files[p]);
      if slice.Some? {
        ghost var before := slices.blobs;
        var h := slices.PutBlob(sl.encode(slice.value));
        UploadedOneMore(sl, st, before, p, slice.value);
        st := st.(inserts := st.inserts + [(p, slice.value)]);
        desired := desired[p := h];
      }
    }
    readable := true;
    assert done == src.listed;
  }

  lemma FullStarts<G(!new)>(sl: Slicing<G>, src: Source, blobs: Blobs)
    ensures FullSoFar(sl, src, {}, map[], Staging([], [])) && Uploaded(sl, Staging([], []), blobs)
  {
  }

  lemma UploadedOneMore<G(!new)>(sl: Slicing<G>, st: Staging<G>, blobs: Blobs, p: Path, g: G)
    requires Uploaded(sl, st, blobs)
    ensures Uploaded(sl, st.(inserts := st.inserts + [(p, g)]), blobs[sl.Hash(g) := sl.encode(g)])
  {
  }

  // ---- the incremental driver ----

  /** A path dropped because it changed: no longer indexable, or gone when it was to be read. */
  predicate DroppedByChange(src: Source, p: Path) {
    !src.rules.filter.IsIndexable(p) || (src.rules.language(p) && p !in src.files)
  }

  /** What the incremental driver has built after the changes in `seen`. */
  ghost predicate ChangedSoFar<G(!new)>(sl: Slicing<G>, src: Source, current: Entries, seen: seq<Path>,
                                        desired: Entries, st: Staging<G>)
  {
    && (forall p :: At(desired, p) == if p in seen then ChangedTo(sl, src, p, CarriedAt(src, current, p))
                                      else CarriedAt(src, current, p))
    && StagedTruly(sl, src, st)
    && (forall p :: p in Inserted(st) <==> p in seen && src.rules.filter.IsIndexable(p) && src.rules.language(p)
                                           && Parsed(sl, src, p).Some?)
    && (forall p :: p in current && Stale(src, p) ==> p in st.removes)
    && (forall p :: p in st.removes ==> (p in current && Stale(src, p)) || (p in seen && DroppedByChange(src, p)))
  }

  function Dropped<G>(desired: Entries, st: Staging<G>, p: Path): (Entries, Staging<G>) {
    if p in desired then (desired - {p}, st.(removes := st.removes + [p])) else (desired, st)
  }

  /** Processing one changed path. */
  function Processed<G>(sl: Slicing<G>, src: Source, p: Path, desired: Entries, st: Staging<G>): (Entries, Staging<G>) {
    if DroppedByChange(src, p) then Dropped(desired, st, p)
    else if src.rules.language(p) && Parsed(sl, src, p).Some? then
      var g := Parsed(sl, src, p).value;
      (desired[p := sl.Hash(g)], st.(inserts := st.inserts + [(p, g)]))
    else (desired, st)
  }

  lemma ChangedOneMore<G(!new)>(sl: Slicing<G>, src: Source, current: Entries, seen: seq<Path>,
                                desired: Entries, st: Staging<G>, p: Path)
    requires ChangedSoFar(sl, src, current, seen, desired, st)
    ensures var (d, s) := Processed(sl, src, p, desired, st);
            ChangedSoFar(sl, src, current, seen + [p], d, s)
  {
    if Parsed(sl, src, p).Some? {
      InsertedPush(st, p, Parsed(sl, src, p).value);
    }
  }

  /** The manifest the incremental driver wants, and how it stages the way there. */
  ghost predicate IncrementalBuilt<G(!new)>(sl: Slicing<G>, src: Source, current: Entries, changed: Changed,
                                            desired: Entries, st: Staging<G>)
  {
    && (forall p :: At(desired, p) == IncrementalAt(sl, src, current, changed, p))
    && StagedTruly(sl, src, st)
    && (forall p :: p in Inserted(st) <==> Reindexed(sl, src, changed, p))
    && (forall p :: p in current && Stale(src, p) ==> p in st.removes)
    && (forall p :: p in Inserted(st) && p !in desired ==> p in st.removes)
    && (forall p :: p in st.removes && p in desired ==> p in current && Stale(src, p))
  }

  /** The deletions of the report applied to what the changes built. */
  ghost predicate DeletedSoFar<G(!new)>(sl: Slicing<G>, src: Source, current: Entries, seen: seq<Path>, gone: seq<Path>,
                                        desired: Entries, st: Staging<G>)
  {
    && (forall p :: At(desired, p) == if p in gone then None
                                      else if p in seen then ChangedTo(sl, src, p, CarriedAt(src, current, p))
                                      else CarriedAt(src, current, p))
    && StagedTruly(sl, src, st)
    && (forall p :: p in Inserted(st) <==> p in seen && src.rules.filter.IsIndexable(p) && src.rules.language(p)
                                           && Parsed(sl, src, p).Some?)
    && (forall p :: p in current && Stale(src, p) ==> p in st.removes)
    && (forall p :: p in Inserted(st) && p in gone ==> p in st.removes)
    && (forall p :: p in st.removes ==>
          (p in current && Stale(src, p)) || (p in seen && DroppedByChange(src, p)) || p in gone)
  }

  lemma DeletedOneMore<G(!new)>(sl: Slicing<G>, src: Source, current: Entries, seen: seq<Path>, gone: seq<Path>,
                                desired: Entries, st: Staging<G>, p: Path)
    requires DeletedSoFar(sl, src, current, seen, gone, desired, st)
    ensures var (d, s) := Dropped(desired, st, p);
            DeletedSoFar(sl, src, current, seen, gone + [p], d, s)
  {
  }

  /** The deletions of the report, applied last. */
  method DropDeleted<G(!new)>(sl: Slicing<G>, src: Source, current: Entries, changed: Changed, built: Entries,
                              staged: Staging<G>)
    returns (desired: Entries, st: Staging<G>)
    requires ChangedSoFar(sl, src, current, changed.added + changed.modified, built, staged)
    ensures IncrementalBuilt(sl, src, current, changed, desired, st) && st.inserts == staged.inserts
  {
    desired, st := built, staged;
    ghost var seen := changed.added + changed.modified;
    for i := 0 to |changed.deleted|
      invariant DeletedSoFar(sl, src, current, seen, changed.deleted[..i], desired, st)
      invariant st.inserts == staged.inserts
    {
      DeletedOneMore(sl, src, current, seen, changed.deleted[..i], desired, st, changed.deleted[i]);
      assert changed.deleted[..i + 1] == changed.deleted[..i] + [changed.deleted[i]];
      var p := changed.deleted[i];
      if p in desired {
        desired, st := desired - {p}, st.(removes := st.removes + [p]);
      }
    }
    assert changed.deleted[..|changed.deleted|] == changed.deleted;
    AllDeleted(sl, src, current, changed, desired, st);
  }

  lemma AllDeleted<G(!new)>(sl: Slicing<G>, src: Source, current: Entries, changed: Changed, desired: Entries,
                            st: Staging<G>)
    requires DeletedSoFar(sl, src, current, changed.added + changed.modified, changed.deleted, desired, st)
    ensures IncrementalBuilt(sl, src, current, changed, desired, st)
  {
  }

  /** Entries the rules in force no longer admit are dropped from what is carried forward. */
  method DropStale<G(!new)>(sl: Slicing<G>, src: Source, current: Entries) returns (desired: Entries, st: Staging<G>)
    ensures ChangedSoFar(sl, src, current, [], desired, st) && st.inserts == []
  {
    desired, st := current, Staging([], []);
    var todo := set p | p in current && !src.rules.Admits(p);
    while todo != {}
      invariant forall p :: p in todo ==> p in current && Stale(src, p)
      invariant forall p :: p in desired <==> p in current && (Stale(src, p) ==> p in todo)
      invariant forall p :: p in desired ==> desired[p] == current[p]
      invariant forall p :: p in st.removes <==> p in current && Stale(src, p) && p !in todo
      invariant st.inserts == []
      decreases |todo|
    {
      var p :| p in todo;
      todo := todo - {p};
      desired, st := desired - {p}, st.(removes := st.removes + [p]);
    }
  }

  /** One path git reports as added or modified. */
  method ProcessChanged<G(!new)>(sl: Slicing<G>, src: Source, p: Path, before: Entries, staged: Staging<G>,
                                 slices: SliceStore)
    returns (desired: Entries, st: Staging<G>)
    requires Addressed(slices.blobs) && Uploaded(sl, staged, slices.blobs)
    modifies slices
    ensures (desired, st) == Processed(sl, src, p, before, staged)
    ensures Addressed(slices.blobs) && old(slices.blobs).Keys <= slices.blobs.Keys && Uploaded(sl, st, slices.blobs)
  {
    desired, st := before, staged;
    if !src.rules.filter.IsIndexable(p) {
      if p in desired {
        desired, st := desired - {p}, st.(removes := st.removes + [p]);
      }
      return;
    }
    if !src.rules.language(p) {
      return;
    }
    if p !in src.files {
      if p in desired {
        desired, st := desired - {p}, st.(removes := st.removes + [p]);
      }
      return;
    }
    var slice := sl.parse(p, src.files[p]);
    if slice.Some? {
      var h := slices.PutBlob(sl.encode(slice.value));
      st := st.(inserts := st.inserts + [(p, slice.value)]);
      desired := desired[p := h];
    }
  }

  method BuildDesiredIncremental<G(!new)>(sl: Slicing<G>, src: Source, current: Entries, changed: Changed,
                                          slices: SliceStore)
    returns (desired: Entries, st: Staging<G>)
    requires Addressed(slices.blobs)
    modifies slices
    ensures Addressed(slices.blobs) && old(slices.blobs).Keys <= slices.blobs.Keys
    ensures IncrementalBuilt(sl, src, current, changed, desired, st) && Uploaded(sl, st, slices.blobs)
  {
    desired, st := DropStale(sl, src, current);
    var reported := changed.added + changed.modified;
    for i := 0 to |reported|
      invariant Addressed(slices.blobs) && old(slices.blobs).Keys <= slices.blobs.Keys
      invariant ChangedSoFar(sl, src, current, reported[..i], desired, st) && Uploaded(sl, st, slices.blobs)
    {
      ChangedOneMore(sl, src, current, reported[..i], desired, st, reported[i]);
      assert reported[..i + 1] == reported[..i] + [reported[i]];
      desired, st := ProcessChanged(sl, src, reported[i], desired, st, slices);
    }
    assert reported[..|reported|] == reported;
    desired, st := DropDeleted(sl, src, current, changed, desired, st);
  }
}
