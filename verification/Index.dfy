/** The two drivers that decide what a view should hold, and how they relate. */
module Index {
  import opened Wrappers
  import opened Records
  import opened Walk

  type Entries = map<Path, ContentHash>

  /** Extraction and slice serialization, as seen from the indexer. */
  datatype Slicing<!G> = Slicing(
    parse: (Path, seq<byte>) -> Option<G>,
    encode: G -> seq<byte>,
    decode: seq<byte> -> Option<G>)
  {
    function Hash(g: G): ContentHash {
      HashOf(encode(g))
    }
  }

  /** A working tree: its readable files, the rules in force, and what the full walk lists. */
  datatype Source = Source(files: map<Path, seq<byte>>, rules: Rules, listed: set<Path>)

  /** What git reports between the recorded base and the working tree. */
  datatype Changed = Changed(added: seq<Path>, modified: seq<Path>, deleted: seq<Path>)

  /** Graph mutations collected before the manifest commits. */
  datatype Staging<G> = Staging(inserts: seq<(Path, G)>, removes: seq<Path>)

  function Parsed<G>(sl: Slicing<G>, src: Source, p: Path): Option<G> {
    if p in src.files then sl.parse(p, src.files[p]) else None
  }

  function At(entries: Entries, p: Path): Option<ContentHash> {
    if p in entries then Some(entries[p]) else None
  }

  predicate Stale(src: Source, p: Path) {
    !src.rules.Admits(p)
  }

  /** A changed path that the incremental driver parses into the view again. */
  predicate Reindexed<G>(sl: Slicing<G>, src: Source, changed: Changed, p: Path) {
    && p in changed.added + changed.modified
    && src.rules.filter.IsIndexable(p) && src.rules.language(p) && Parsed(sl, src, p).Some?
  }

  // ---- what each driver makes of one path ----

  /** The full walk: a listed file that parses. */
  function FullAt<G>(sl: Slicing<G>, src: Source, p: Path): Option<ContentHash> {
    if p in src.listed && Parsed(sl, src, p).Some? then Some(sl.Hash(Parsed(sl, src, p).value)) else None
  }

  /** What survives of the current entry once stale entries are dropped. */
  function CarriedAt(src: Source, current: Entries, p: Path): Option<ContentHash> {
    if Stale(src, p) then None else At(current, p)
  }

  /** One changed path, given what the view holds for it so far. */
  function ChangedTo<G>(sl: Slicing<G>, src: Source, p: Path, held: Option<ContentHash>): Option<ContentHash> {
    if !src.rules.filter.IsIndexable(p) then None
    else if !src.rules.language(p) then held
    else if p !in src.files then None
    else if Parsed(sl, src, p).None? then held
    else Some(sl.Hash(Parsed(sl, src, p).value))
  }

  /** The incremental driver: carry forward, re-parse what changed, drop what was deleted. */
  function IncrementalAt<G>(sl: Slicing<G>, src: Source, current: Entries, changed: Changed,
                            p: Path): Option<ContentHash> {
    if p in changed.deleted then None
    else if p in changed.added + changed.modified then ChangedTo(sl, src, p, CarriedAt(src, current, p))
    else CarriedAt(src, current, p)
  }

  // ---- when the drivers agree ----

  /** The report is the exact difference between `base` and `src` at a path git does not ignore. */
  ghost predicate ExactDiffAt(base: Source, src: Source, changed: Changed, p: Path) {
    && (p in changed.added <==> p in src.files && p !in base.files)
    && (p in changed.modified <==> p in src.files && p in base.files && src.files[p] != base.files[p])
    && (p in changed.deleted <==> p !in src.files && p in base.files)
  }

  /** The walk lists what is admitted: no oddly named directory hides a file. */
  ghost predicate WalkSeesAll(src: Source) {
    forall p :: p in src.listed <==> p in src.files && src.rules.language(p) && src.rules.Admits(p)
  }

  /** A changed file git ignores that the incremental driver indexes all the same. */
  predicate IgnoredReindexed<G>(sl: Slicing<G>, src: Source, changed: Changed, p: Path) {
    src.rules.ignored(p) && Reindexed(sl, src, changed, p) && p !in changed.deleted
  }

  /** A file modified into something that no longer parses while its old slice is still carried. */
  predicate ParseLost<G>(sl: Slicing<G>, base: Source, src: Source, p: Path) {
    && p in src.listed && p in base.listed
    && p in src.files && p in base.files && src.files[p] != base.files[p]
    && Parsed(sl, src, p).None? && Parsed(sl, base, p).Some?
  }

  /** An unchanged file the rules now admit and did not when the base was indexed. */
  predicate NewlyAdmitted<G>(sl: Slicing<G>, base: Source, src: Source, p: Path) {
    && p in src.listed && p !in base.listed
    && p in src.files && p in base.files && src.files[p] == base.files[p]
    && Parsed(sl, src, p).Some?
  }

  /** From a manifest that is the full view of the base, the incremental driver gives a path what a
      full walk would give it, except for exactly three kinds of path. */
  lemma DriversAgreeExactly<G>(sl: Slicing<G>, base: Source, src: Source, current: Entries, changed: Changed, p: Path)
    requires WalkSeesAll(base) && WalkSeesAll(src)
    requires At(current, p) == FullAt(sl, base, p)
    requires base.rules.language(p) == src.rules.language(p)
    requires !src.rules.ignored(p) ==> ExactDiffAt(base, src, changed, p)
    ensures IncrementalAt(sl, src, current, changed, p) == FullAt(sl, src, p) <==>
              !IgnoredReindexed(sl, src, changed, p)
              && !ParseLost(sl, base, src, p)
              && !NewlyAdmitted(sl, base, src, p)
  {
  }

  /** So the two drivers build the same view exactly when no path is an exception. */
  lemma DriversBuildOneViewExactly<G(!new)>(sl: Slicing<G>, base: Source, src: Source, current: Entries,
                                            changed: Changed, full: Entries, incremental: Entries)
    requires WalkSeesAll(base) && WalkSeesAll(src)
    requires base.rules.language == src.rules.language
    requires forall p :: At(current, p) == FullAt(sl, base, p)
    requires forall p :: !src.rules.ignored(p) ==> ExactDiffAt(base, src, changed, p)
    requires forall p :: At(full, p) == FullAt(sl, src, p)
    requires forall p :: At(incremental, p) == IncrementalAt(sl, src, current, changed, p)
    ensures full == incremental <==>
              forall p :: !IgnoredReindexed(sl, src, changed, p)
                          && !ParseLost(sl, base, src, p) && !NewlyAdmitted(sl, base, src, p)
  {
    forall p
      ensures At(full, p) == At(incremental, p) <==>
                !IgnoredReindexed(sl, src, changed, p)
                && !ParseLost(sl, base, src, p) && !NewlyAdmitted(sl, base, src, p)
    {
      DriversAgreeExactly(sl, base, src, current, changed, p);
    }
    EqualPathByPath(full, incremental);
  }

  /** A file edited into something that does not parse: the full walk drops it, the incremental driver
      keeps the slice of the last version that parsed. */
  lemma BrokenFileIsCarried<G>(sl: Slicing<G>, g: G)
    requires sl.parse(["a"], [1]) == Some(g) && sl.parse(["a"], [2]) == None
    ensures var p: Path, changed := ["a"], Changed([], [["a"]], []);
            var base := Source(map[p := [1]], PlainRules(), {p});
            var src := Source(map[p := [2]], PlainRules(), {p});
            && WalkSeesAll(base) && WalkSeesAll(src) && ExactDiffAt(base, src, changed, p)
            && ParseLost(sl, base, src, p) && FullAt(sl, src, p) == None
            && FullAt(sl, base, p) == IncrementalAt(sl, src, map[p := sl.Hash(g)], changed, p) == Some(sl.Hash(g))
  {
    PlainNameIsAdmitted("a");
  }

  /** A file under a dependency directory that an include now re-admits: it has not changed, so only the
      full walk takes it in. */
  lemma NewIncludeIsNotSeen<G>(sl: Slicing<G>, g: G)
    requires sl.parse(["vendor", "a"], [1]) == Some(g)
    ensures var p: Path, changed := ["vendor", "a"], Changed([], [], []);
            var base := Source(map[p := [1]], PlainRules(), {});
            var src := Source(map[p := [1]], PlainRules().(filter := IndexFilter([["vendor"]])), {p});
            && WalkSeesAll(base) && WalkSeesAll(src) && ExactDiffAt(base, src, changed, p)
            && NewlyAdmitted(sl, base, src, p) && FullAt(sl, src, p) == Some(sl.Hash(g))
            && FullAt(sl, base, p) == IncrementalAt(sl, src, map[], changed, p) == None
  {
    var p: Path := ["vendor", "a"];
    assert p[0] in SKIP_DIRS && HasSkippedPart(p);
    var vendor: Path := ["vendor"];
    assert vendor <= p && vendor in [vendor];
    assert IndexFilter([vendor]).IsIncluded(p);
  }

  lemma EqualPathByPath(e: Entries, f: Entries)
    ensures e == f <==> forall p :: At(e, p) == At(f, p)
  {
    if forall p :: At(e, p) == At(f, p) {
      forall p ensures (p in e <==> p in f) && (p in e ==> e[p] == f[p]) {
        assert At(e, p) == At(f, p);
      }
    }
  }

  /** A source as the walk finds it: the files of a tree, and those the pruned walk lists. */
  ghost predicate WalkedFrom(src: Source, root: Entry<seq<byte>>) {
    && (forall p :: p in src.files <==> FileAt(root, p).Some?)
    && (forall p :: p in src.listed <==> Listed(src.rules, root, [], p))
  }

  /** The walk of a tree sees all it admits exactly when no admitted file lies under an oddly named
      directory. */
  lemma WalkSeesAllExactly(src: Source, root: Entry<seq<byte>>)
    requires WalkedFrom(src, root) && IgnoresBelow(src.rules)
    ensures WalkSeesAll(src) <==>
              forall p :: p in src.files && src.rules.language(p) && src.rules.Admits(p) ==>
                NoOddDirectory(src.rules, p)
  {
    forall p ensures p in src.listed ==> p in src.files && src.rules.language(p) && src.rules.Admits(p) {
      ListedExactly(src.rules, root, [], p);
      assert [] + p == p;
    }
    forall p | p in src.files && src.rules.language(p) && src.rules.Admits(p)
      ensures p in src.listed <==> NoOddDirectory(src.rules, p)
    {
      ListedExactlyWhenAdmitted(src.rules, root, p);
    }
  }

  // ---- the persistent graph ----

  type Graph<G> = map<Path, G>

  /** The graph holds, under each path of the manifest, the slice the manifest names, and no more. */
  ghost predicate Mirrors<G>(sl: Slicing<G>, graph: Graph<G>, entries: Entries) {
    && graph.Keys == entries.Keys
    && forall p :: p in graph ==> sl.Hash(graph[p]) == entries[p]
  }

  type Blobs = map<ContentHash, seq<byte>>

  /** The graph holds, under each path whose slice is stored, what that slice decodes to. */
  ghost predicate IsAssembly<G>(sl: Slicing<G>, entries: Entries, blobs: Blobs, graph: Graph<G>) {
    && (forall p :: p in graph <==> p in entries && entries[p] in blobs)
    && (forall p :: p in graph ==> sl.decode(blobs[entries[p]]) == Some(graph[p]))
  }

  /** Fetch each named slice and insert it under its path; a missing blob is skipped, a blob that is
      not a slice is an error. */
  method Assemble<G(!new)>(sl: Slicing<G>, entries: Entries, blobs: Blobs) returns (r: Result<Graph<G>>)
    ensures r.Err? <==> exists p :: p in entries && entries[p] in blobs && sl.decode(blobs[entries[p]]).None?
    ensures r.Ok? ==> IsAssembly(sl, entries, blobs, r.value)
  {
    var graph: Graph<G> := map[];
    var todo := entries.Keys;
    while todo != {}
      invariant todo <= entries.Keys
      invariant forall p :: p in graph <==> p in entries && p !in todo && entries[p] in blobs
      invariant forall p :: p in graph ==> sl.decode(blobs[entries[p]]) == Some(graph[p])
      decreases |todo|
    {
      var p :| p in todo;
      todo := todo - {p};
      if entries[p] in blobs {
        var slice := sl.decode(blobs[entries[p]]);
        if slice.None? {
          return Err(Unparseable);
        }
        graph := graph[p := slice.value];
      }
    }
    r := Ok(graph);
  }

  /** Content addressing: what is stored under a hash has that hash. */
  ghost predicate Addressed(blobs: Blobs) {
    forall h :: h in blobs ==> HashOf(blobs[h]) == h
  }

  ghost predicate RoundTrips<G(!new)>(sl: Slicing<G>) {
    forall g :: sl.decode(sl.encode(g)) == Some(g)
  }

  /** With every named slice stored and one of these graphs' own, mirroring the manifest is being
      what assembly gives. */
  lemma MirrorsIsAssembled<G(!new)>(sl: Slicing<G>, graph: Graph<G>, entries: Entries, blobs: Blobs)
    requires RoundTrips(sl) && Addressed(blobs)
    requires forall p :: p in entries ==> entries[p] in blobs && exists g :: sl.encode(g) == blobs[entries[p]]
    ensures Mirrors(sl, graph, entries) <==> IsAssembly(sl, entries, blobs, graph)
  {
    forall p | p in entries && p in graph
      ensures sl.Hash(graph[p]) == entries[p] <==> sl.decode(blobs[entries[p]]) == Some(graph[p])
    {
      var g :| sl.encode(g) == blobs[entries[p]];
      assert sl.decode(sl.encode(g)) == Some(g);
      assert sl.decode(sl.encode(graph[p])) == Some(graph[p]);
    }
  }

  /** A graph that mirrors a manifest whose slices are all stored is its assembly. */
  lemma MirrorIsAssembly<G(!new)>(sl: Slicing<G>, graph: Graph<G>, entries: Entries, blobs: Blobs)
    requires RoundTrips(sl) && Addressed(blobs) && Mirrors(sl, graph, entries)
    requires forall p :: p in entries ==> entries[p] in blobs
    ensures IsAssembly(sl, entries, blobs, graph)
  {
    forall p | p in entries ensures sl.encode(graph[p]) == blobs[entries[p]] {
      assert sl.Hash(graph[p]) == entries[p];
    }
    MirrorsIsAssembled(sl, graph, entries, blobs);
  }

  /** The paths staged for insertion. */
  function Inserted<G>(st: Staging<G>): set<Path> {
    set i | 0 <= i < |st.inserts| :: st.inserts[i].0
  }

  /** Everything staged for insertion is what its file parses to now. */
  ghost predicate StagedTruly<G(!new)>(sl: Slicing<G>, src: Source, st: Staging<G>) {
    forall i :: 0 <= i < |st.inserts| ==> Parsed(sl, src, st.inserts[i].0) == Some(st.inserts[i].1)
  }

  /** The graph once everything staged has been inserted and then everything staged removed. */
  ghost predicate IsApplied<G>(sl: Slicing<G>, src: Source, st: Staging<G>, graph0: Graph<G>, graph: Graph<G>) {
    && (forall p :: p in graph <==> p !in st.removes && (p in Inserted(st) || p in graph0))
    && (forall p :: p in graph ==>
          if p in Inserted(st) then Parsed(sl, src, p) == Some(graph[p]) else p in graph0 && graph[p] == graph0[p])
  }

  /** Insert everything staged, then remove everything staged. */
  method ApplyStaging<G(!new)>(sl: Slicing<G>, src: Source, st: Staging<G>, graph0: Graph<G>) returns (graph: Graph<G>)
    requires StagedTruly(sl, src, st)
    ensures IsApplied(sl, src, st, graph0, graph)
  {
    graph := graph0;
    for i := 0 to |st.inserts|
      invariant forall p :: p in graph <==> (exists k :: 0 <= k < i && st.inserts[k].0 == p) || p in graph0
      invariant forall p :: p in graph ==>
                  if exists k :: 0 <= k < i && st.inserts[k].0 == p then Parsed(sl, src, p) == Some(graph[p])
                  else p in graph0 && graph[p] == graph0[p]
    {
      graph := graph[st.inserts[i].0 := st.inserts[i].1];
    }
    ghost var full := graph;
    assert forall p :: p in Inserted(st) <==> exists k :: 0 <= k < |st.inserts| && st.inserts[k].0 == p;
    for i := 0 to |st.removes|
      invariant forall p :: p in graph <==> p in full && p !in st.removes[..i]
      invariant forall p :: p in graph ==> graph[p] == full[p]
    {
      assert st.removes[..i + 1] == st.removes[..i] + [st.removes[i]];
      graph := graph - {st.removes[i]};
    }
    assert st.removes[..|st.removes|] == st.removes;
  }

  /** How staging accounts for the move from `current` to `desired`. */
  ghost predicate Accounts<G>(sl: Slicing<G>, src: Source, st: Staging<G>, current: Entries, desired: Entries) {
    && (forall p :: p in Inserted(st) ==> Parsed(sl, src, p).Some?)
    && (forall p :: p in desired ==>
          if p in Inserted(st) then desired[p] == sl.Hash(Parsed(sl, src, p).value)
          else p in current && desired[p] == current[p])
    && (forall p :: p !in desired && (p in current || p in Inserted(st)) ==> p in st.removes)
  }

  /** Applying such a staging to a graph that mirrors the old manifest mirrors the new one exactly
      when nothing staged for removal is still wanted. */
  lemma AppliedMirrorsExactly<G(!new)>(sl: Slicing<G>, src: Source, st: Staging<G>, current: Entries, desired: Entries,
                                       graph0: Graph<G>, graph: Graph<G>)
    requires Mirrors(sl, graph0, current) && Accounts(sl, src, st, current, desired)
    requires IsApplied(sl, src, st, graph0, graph)
    ensures Mirrors(sl, graph, desired) <==> forall p :: p in st.removes ==> p !in desired
  {
    if forall p :: p in st.removes ==> p !in desired {
      forall p ensures p in graph <==> p in desired {
      }
      assert graph.Keys == desired.Keys;
    } else {
      var p :| p in st.removes && p in desired;
      assert p !in graph;
    }
  }
}
