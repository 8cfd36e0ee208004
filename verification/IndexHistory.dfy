/** One view over any sequence of index runs: what its manifest holds, and when the incremental driver
    starts again from a full view. */
module IndexHistory {
  import opened Wrappers
  import opened Records
  import opened Stores
  import opened Walk
  import opened Index
  import opened Drivers
  import opened IndexRun

  /** A run that committed: the tree it read, the diff it was given (none is a full walk), and the tree
      of the commit it recorded for the next diff. That commit is HEAD, whatever the tree held. */
  datatype Run = Run(src: Source, changed: Option<Changed>, recorded: Source)

  /** The manifest a run starts from. */
  function Before(ms: seq<Entries>, k: nat): Entries
    requires k <= |ms|
  {
    if k == 0 then map[] else ms[k - 1]
  }

  /** The manifests a view goes through. Nothing is recorded before the first run, so it is a full walk. */
  ghost predicate IsHistory<G(!new)>(sl: Slicing<G>, runs: seq<Run>, ms: seq<Entries>) {
    && |ms| == |runs| && (runs != [] ==> runs[0].changed.None?)
    && forall k :: 0 <= k < |runs| ==> DriverGives(sl, runs[k].src, Before(ms, k), runs[k].changed, ms[k])
  }

  // ---- runs one after another ----

  /** One turn of the watch loop: the tree as it is then, the diff git would give, the commit that would be
      recorded, the time, and what others do meanwhile. */
  datatype Turn = Turn(src: Source, changed: Option<Changed>, recorded: Source, now: int, meanwhile: Meanwhile)

  /** Others leave the record under `key` alone. */
  function Sparing(w: Meanwhile, key: RecordKey, t: Table): Meanwhile {
    w.(records := if w.records.None? then None
                  else if key in t then Some(w.records.value[key := t[key]])
                  else Some(w.records.value - {key}))
  }

  lemma SparedKey(w: Meanwhile, key: RecordKey, t: Table)
    ensures Lookup(Sparing(w, key, t).Found(t), key) == Lookup(t, key)
    ensures Sparing(w, key, t).slices == w.slices
  {
  }

  lemma SparedManifest(codec: Codec, t: Table, u: Table, key: RecordKey, m: Entries)
    requires ManifestIs(codec, t, key, m) && Lookup(u, key) == Lookup(t, key)
    ensures ManifestIs(codec, u, key, m)
  {
  }

  lemma StoredIsManifest(codec: Codec, t: Table, key: RecordKey, m: Entries)
    requires Stored(codec, t, key, m)
    ensures ManifestIs(codec, t, key, m)
  {
  }

  lemma OneMoreRun<G(!new)>(sl: Slicing<G>, runs: seq<Run>, ms: seq<Entries>, r: Run, m: Entries)
    requires IsHistory(sl, runs, ms) && (runs == [] ==> r.changed.None?)
    requires DriverGives(sl, r.src, Before(ms, |ms|), r.changed, m)
    ensures IsHistory(sl, runs + [r], ms + [m])
  {
    hide DriverGives;
    var more, manifests := runs + [r], ms + [m];
    forall k | 0 <= k < |more|
      ensures DriverGives(sl, more[k].src, Before(manifests, k), more[k].changed, manifests[k])
    {
      if k < |runs| {
        assert Before(manifests, k) == Before(ms, k);
      } else {
        assert Before(manifests, k) == Before(ms, |ms|);
      }
    }
  }

  /** No run met an old entry that git ignores and the incremental driver reindexes. */
  ghost predicate NoneIgnored<G(!new)>(sl: Slicing<G>, runs: seq<Run>, ms: seq<Entries>)
    requires |ms| == |runs|
  {
    forall k :: 0 <= k < |runs| ==> NothingIgnored(sl, runs[k].src, Before(ms, k), runs[k].changed)
  }

  /** The graph mirrors the last manifest, if no run met such an entry. */
  ghost predicate InStep<G(!new)>(sl: Slicing<G>, runs: seq<Run>, ms: seq<Entries>, graph: Graph<G>)
    requires |ms| == |runs|
  {
    NoneIgnored(sl, runs, ms) ==> Mirrors(sl, graph, Before(ms, |ms|))
  }

  lemma StepTogether<G(!new)>(sl: Slicing<G>, runs: seq<Run>, ms: seq<Entries>, r: Run, m: Entries, graph0: Graph<G>,
                              graph: Graph<G>)
    requires |ms| == |runs| && InStep(sl, runs, ms, graph0)
    requires Mirrors(sl, graph0, Before(ms, |ms|)) ==>
               (Mirrors(sl, graph, m) <==> NothingIgnored(sl, r.src, Before(ms, |ms|), r.changed))
    ensures InStep(sl, runs + [r], ms + [m], graph)
  {
    hide Mirrors, NothingIgnored;
    var more, manifests := runs + [r], ms + [m];
    if NoneIgnored(sl, more, manifests) {
      forall k | 0 <= k < |runs| ensures NothingIgnored(sl, runs[k].src, Before(ms, k), runs[k].changed) {
        assert more[k] == runs[k] && Before(manifests, k) == Before(ms, k);
      }
      assert Before(manifests, |ms|) == Before(ms, |ms|) && more[|ms|] == r;
    }
  }

  /** The watch loop over a new view: run after run, a failed one being passed over, the first that
      commits without a diff. The runs that committed are a history, each starting from the manifest the one
      before stored; the key's record holds the last of them, and the graph keeps in step. */
  method Watch<G(!new)>(sl: Slicing<G>, codec: Codec, key: RecordKey, turns: seq<Turn>, store: MemStore,
                        slices: SliceStore, graph: GraphStore<G>)
    returns (ghost runs: seq<Run>, ghost ms: seq<Entries>)
    requires Addressed(slices.blobs) && Reads(codec) && ManifestIs(codec, store.records, key, map[])
    requires graph.slices == map[]
    requires forall i :: 0 <= i < |turns| && turns[i].meanwhile.slices.Some? ==>
               Addressed(turns[i].meanwhile.slices.value)
    modifies store, slices, graph
    ensures IsHistory(sl, runs, ms) && ManifestIs(codec, store.records, key, Before(ms, |ms|))
    ensures InStep(sl, runs, ms, graph.slices)
  {
    hide DriverGives, Addressed, Reads, ManifestIs, EndsSo, InStep, IsHistory, Stored, NothingIgnored, Mirrors,
        WalkSeesAll;
    runs, ms := [], [];
    var recorded := false;
    NothingRunYet(sl, graph.slices);
    for i := 0 to |turns|
      invariant Addressed(slices.blobs) && |ms| == |runs| && recorded == (runs != [])
      invariant IsHistory(sl, runs, ms) && InStep(sl, runs, ms, graph.slices)
      invariant ManifestIs(codec, store.records, key, Before(ms, |ms|))
    {
      var turn := turns[i];
      var changed := if recorded then turn.changed else None;
      var meanwhile := Sparing(turn.meanwhile, key, store.records);
      ghost var found := store.records;
      ghost var graph0 := graph.slices;
      SparedKey(turn.meanwhile, key, found);
      var o := IndexWithWorker(sl, codec, turn.src, key, changed, turn.now, meanwhile, store, slices, graph);
      if o.Indexed? {
        ghost var r := Run(turn.src, changed, turn.recorded);
        WellRun(sl, codec, r, key, Before(ms, |ms|), o.manifest, store.records, slices.blobs, graph0, graph.slices);
        OneMoreRun(sl, runs, ms, r, o.manifest);
        StepTogether(sl, runs, ms, r, o.manifest, graph0, graph.slices);
        runs, ms, recorded := runs + [r], ms + [o.manifest], true;
      } else {
        SparedManifest(codec, found, store.records, key, Before(ms, |ms|));
      }
    }
  }

  lemma NothingRunYet<G(!new)>(sl: Slicing<G>, graph: Graph<G>)
    requires graph == map[]
    ensures IsHistory(sl, [], []) && InStep(sl, [], [], graph)
  {
  }

  lemma WellRun<G(!new)>(sl: Slicing<G>, codec: Codec, r: Run, key: RecordKey, current: Entries, m: Entries,
                         records: Table, blobs: Blobs, graph0: Graph<G>, graph: Graph<G>)
    requires IndexedWell(sl, codec, r.src, key, current, r.changed, m, records, blobs, graph0, graph)
    ensures DriverGives(sl, r.src, current, r.changed, m) && ManifestIs(codec, records, key, m)
    ensures Mirrors(sl, graph0, current) ==> (Mirrors(sl, graph, m) <==> NothingIgnored(sl, r.src, current, r.changed))
  {
    StoredIsManifest(codec, records, key, m);
  }

  // ---- what a manifest holds after any runs ----

  /** The run leaves the entry of this path as it found it. */
  predicate Carries<G>(sl: Slicing<G>, r: Run, p: Path) {
    && r.changed.Some? && !Stale(r.src, p) && p !in r.changed.value.deleted
    && (p in r.changed.value.added + r.changed.value.modified ==>
          !r.src.rules.language(p) || (p in r.src.files && Parsed(sl, r.src, p).None?))
  }

  /** What a run that does not carry a path makes of it, from the tree it read alone. */
  function DecidedAt<G>(sl: Slicing<G>, r: Run, p: Path): Option<ContentHash> {
    if r.changed.None? then FullAt(sl, r.src, p)
    else if p !in r.changed.value.deleted && Reindexed(sl, r.src, r.changed.value, p) then
      Some(sl.Hash(Parsed(sl, r.src, p).value))
    else None
  }

  /** The last run up to `k` that did not carry the path. */
  function LastDecided<G>(sl: Slicing<G>, runs: seq<Run>, p: Path, k: nat): (j: nat)
    requires k < |runs| && runs[0].changed.None?
    ensures j <= k && !Carries(sl, runs[j], p)
    ensures forall i :: j < i <= k ==> Carries(sl, runs[i], p)
  {
    if Carries(sl, runs[k], p) then LastDecided(sl, runs, p, k - 1) else k
  }

  /** After any runs, an entry is what the last run that did not carry it read in the tree of that time,
      whatever the trees, the diffs and the recorded commits were. */
  lemma {:induction false} ViewIsTheLastDecision<G(!new)>(sl: Slicing<G>, runs: seq<Run>, ms: seq<Entries>, p: Path,
                                                          k: nat)
    requires IsHistory(sl, runs, ms) && k < |runs|
    ensures At(ms[k], p) == DecidedAt(sl, runs[LastDecided(sl, runs, p, k)], p)
  {
    assert DriverGives(sl, runs[k].src, Before(ms, k), runs[k].changed, ms[k]);
    if Carries(sl, runs[k], p) {
      ViewIsTheLastDecision(sl, runs, ms, p, k - 1);
    }
  }

  // ---- when the next run starts from a full view again ----

  /** Every diff is the exact one against the commit recorded by the run before, where git looks. */
  ghost predicate ExactlyDiffed(runs: seq<Run>, p: Path) {
    && (forall k :: 0 <= k < |runs| ==> WalkSeesAll(runs[k].src) && WalkSeesAll(runs[k].recorded))
    && forall k :: 0 < k < |runs| && runs[k].changed.Some? ==>
         && runs[k - 1].recorded.rules.language(p) == runs[k].src.rules.language(p)
         && (!runs[k].src.rules.ignored(p) ==>
               ExactDiffAt(runs[k - 1].recorded, runs[k].src, runs[k].changed.value, p))
  }

  /** The path is one of the three exceptions of the incremental driver in this run. */
  predicate Excepted<G>(sl: Slicing<G>, runs: seq<Run>, k: nat, p: Path)
    requires 0 < k < |runs|
  {
    && runs[k].changed.Some?
    && (IgnoredReindexed(sl, runs[k].src, runs[k].changed.value, p)
        || ParseLost(sl, runs[k - 1].recorded, runs[k].src, p)
        || NewlyAdmitted(sl, runs[k - 1].recorded, runs[k].src, p))
  }

  /** The path is no exception in this run, and what the view shows of it the recorded commit shows too:
      no uncommitted edit was indexed. */
  predicate Uneventful<G>(sl: Slicing<G>, runs: seq<Run>, k: nat, p: Path)
    requires k < |runs|
  {
    && FullAt(sl, runs[k].src, p) == FullAt(sl, runs[k].recorded, p)
    && (k > 0 ==> !Excepted(sl, runs, k, p))
  }

  /** The manifest is, at this path, the full view of the tree read and of the commit recorded. */
  predicate FullTwice<G>(sl: Slicing<G>, runs: seq<Run>, ms: seq<Entries>, k: nat, p: Path)
    requires k < |runs| == |ms|
  {
    At(ms[k], p) == FullAt(sl, runs[k].src, p) == FullAt(sl, runs[k].recorded, p)
  }

  /** From a full view of what was recorded, a run ends in one exactly when it is uneventful. */
  lemma FullAgainExactly<G(!new)>(sl: Slicing<G>, runs: seq<Run>, ms: seq<Entries>, p: Path, k: nat)
    requires IsHistory(sl, runs, ms) && ExactlyDiffed(runs, p) && k < |runs|
    requires k > 0 ==> At(ms[k - 1], p) == FullAt(sl, runs[k - 1].recorded, p)
    ensures FullTwice(sl, runs, ms, k, p) <==> Uneventful(sl, runs, k, p)
  {
    assert DriverGives(sl, runs[k].src, Before(ms, k), runs[k].changed, ms[k]);
    if k > 0 && runs[k].changed.Some? {
      DriversAgreeExactly(sl, runs[k - 1].recorded, runs[k].src, ms[k - 1], runs[k].changed.value, p);
    }
  }

  ghost predicate AlwaysFull<G>(sl: Slicing<G>, runs: seq<Run>, ms: seq<Entries>, n: nat, p: Path)
    requires n <= |runs| == |ms|
  {
    forall k :: 0 <= k < n ==> FullTwice(sl, runs, ms, k, p)
  }

  ghost predicate AlwaysUneventful<G>(sl: Slicing<G>, runs: seq<Run>, n: nat, p: Path)
    requires n <= |runs|
  {
    forall k :: 0 <= k < n ==> Uneventful(sl, runs, k, p)
  }

  /** So every manifest is a full view, and every run starts from a full view of its base, exactly when
      every run was uneventful. */
  lemma {:induction false} StaysFullExactly<G(!new)>(sl: Slicing<G>, runs: seq<Run>, ms: seq<Entries>, n: nat, p: Path)
    requires IsHistory(sl, runs, ms) && ExactlyDiffed(runs, p) && n <= |runs|
    ensures AlwaysFull(sl, runs, ms, n, p) <==> AlwaysUneventful(sl, runs, n, p)
  {
    assert |ms| == |runs|;
    hide IsHistory, ExactlyDiffed, FullTwice, Uneventful, AlwaysUneventful;
    if n > 0 {
      StaysFullExactly(sl, runs, ms, n - 1, p);
      OneRunMore(sl, runs, ms, n - 1, p);
      if AlwaysFull(sl, runs, ms, n - 1, p) {
        FullAfterFull(sl, runs, ms, p, n - 1);
      }
    }
  }

  lemma OneRunMore<G>(sl: Slicing<G>, runs: seq<Run>, ms: seq<Entries>, n: nat, p: Path)
    requires n < |runs| == |ms|
    ensures AlwaysFull(sl, runs, ms, n + 1, p) <==> AlwaysFull(sl, runs, ms, n, p) && FullTwice(sl, runs, ms, n, p)
    ensures AlwaysUneventful(sl, runs, n + 1, p) <==>
              AlwaysUneventful(sl, runs, n, p) && Uneventful(sl, runs, n, p)
  {
    hide FullTwice, Uneventful;
  }

  lemma FullAfterFull<G(!new)>(sl: Slicing<G>, runs: seq<Run>, ms: seq<Entries>, p: Path, k: nat)
    requires IsHistory(sl, runs, ms) && ExactlyDiffed(runs, p) && k < |runs|
    requires k > 0 ==> FullTwice(sl, runs, ms, k - 1, p)
    ensures FullTwice(sl, runs, ms, k, p) <==> Uneventful(sl, runs, k, p)
  {
    hide ExactlyDiffed, Uneventful;
    FullAgainExactly(sl, runs, ms, p, k);
  }

  /** A run over an edit that is then reverted: the diff no longer reports the path, so it is carried,
      and the view is right exactly if the edit never showed in it. */
  lemma RevertedEditExactly<G(!new)>(sl: Slicing<G>, runs: seq<Run>, ms: seq<Entries>, p: Path, k: nat)
    requires IsHistory(sl, runs, ms) && ExactlyDiffed(runs, p) && 0 < k < |runs| && runs[k].changed.Some?
    requires At(ms[k - 1], p) == FullAt(sl, runs[k - 1].src, p)
    requires p in runs[k].src.files && runs[k].src.rules.Admits(p)
    requires p in runs[k - 1].recorded.files && runs[k - 1].recorded.files[p] == runs[k].src.files[p]
    ensures At(ms[k], p) == FullAt(sl, runs[k].src, p) <==>
              FullAt(sl, runs[k - 1].src, p) == FullAt(sl, runs[k].src, p)
  {
    assert DriverGives(sl, runs[k].src, Before(ms, k), runs[k].changed, ms[k]);
    assert ExactDiffAt(runs[k - 1].recorded, runs[k].src, runs[k].changed.value, p);
  }

  /** A tree with one file, under the plain rules. */
  function OneFile(content: seq<byte>): Source {
    Source(map[["a"] := content], PlainRules(), {["a"]})
  }

  /** One run over an edited file, then any number over the file as committed. */
  function EditThenRevert(n: nat): (runs: seq<Run>)
    ensures |runs| == n + 1
  {
    [Run(OneFile([2]), None, OneFile([1]))] + seq(n, _ => Run(OneFile([1]), Some(Changed([], [], [])), OneFile([1])))
  }

  /** However many runs follow, the view keeps the slice of the edit that was reverted. */
  lemma {:induction false} RevertedEditIsKept<G(!new)>(sl: Slicing<G>, was: G, edited: G, ms: seq<Entries>, n: nat)
    requires sl.parse(["a"], [1]) == Some(was) && sl.parse(["a"], [2]) == Some(edited)
    requires sl.Hash(was) != sl.Hash(edited)
    requires n > 0 && IsHistory(sl, EditThenRevert(n), ms)
    ensures ExactlyDiffed(EditThenRevert(n), ["a"])
    ensures At(ms[n], ["a"]) == Some(sl.Hash(edited))
    ensures FullAt(sl, EditThenRevert(n)[n].src, ["a"]) == Some(sl.Hash(was))
  {
    var runs, rel: Path := EditThenRevert(n), ["a"];
    OneFileIsSeen([1]);
    OneFileIsSeen([2]);
    forall k | 0 < k <= n ensures Carries(sl, runs[k], rel) && runs[k].src == runs[k].recorded == OneFile([1]) {
    }
    ViewIsTheLastDecision(sl, runs, ms, rel, n);
    assert LastDecided(sl, runs, rel, n) == 0;
  }

  /** Such runs are a history: the one in which the slice of the edit never leaves the manifest. */
  lemma RevertedEditHappens<G(!new)>(sl: Slicing<G>, edited: G, n: nat)
    requires sl.parse(["a"], [2]) == Some(edited)
    ensures IsHistory(sl, EditThenRevert(n), seq(n + 1, _ => map[["a"] := sl.Hash(edited)]))
  {
    var runs, ms := EditThenRevert(n), seq(n + 1, _ => map[["a"] := sl.Hash(edited)]);
    OneFileIsSeen([1]);
    forall k | 0 <= k < |runs| ensures DriverGives(sl, runs[k].src, Before(ms, k), runs[k].changed, ms[k]) {
      if k == 0 {
        assert runs[0].src == OneFile([2]) && runs[0].changed.None?;
      } else {
        assert runs[k].src == OneFile([1]) && runs[k].changed == Some(Changed([], [], []));
      }
    }
  }

  lemma OneFileIsSeen(content: seq<byte>)
    ensures WalkSeesAll(OneFile(content)) && !Stale(OneFile(content), ["a"])
  {
    PlainNameIsAdmitted("a");
  }
}
