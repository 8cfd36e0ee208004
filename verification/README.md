# Gonzalo, verified

Gonzalo keeps versioned records in several stores that accept writes independently and are brought
back together by `sync`. This project models the decisions that make that safe and proves what they
promise. All of it is Dafny 4.11; `dafny verify dfyconfig.toml` checks it.

The modules, from the bottom up:

- `Records`, `Ancestors`, `Links`, `Planners` - revisions, the bounded ancestor list, the union of links
  and labels, and the side-effect-free planners that decide every write. `Ancestors.FoldAncestors` is the
  sort/dedup/retain/truncate over a buffer; `Ancestors.Fold` is the function it computes.
- `Stores`, `ConsumerView` - the in-memory store as a class over a key-to-record table, and the plain
  optimistic-concurrency map its consumers believe they are using.
- `Lines`, `Json` - the two automatic merges, as functions with their laws and as the loops that
  compute them. What they promise is stated of bytes (`Lines.KeepsLines`) and of values (`Json.Takes`).
- `Sync`, `Contention`, `SyncPass`, `SyncSafety` - what one pass decides for one key; two stores that
  others write too, what others do before each call being an input; a pass and the retry loop as they run
  over them, pinned down as the trace of raw calls they leave behind; and what such a trace guarantees.
- `Lineage`, `Cluster`, `Parentage`, `AppendRuns`, `Staleness`, `Lives`, `Sweep` - runs of N stores: a
  transition system whose steps are consumer puts, deletes, undeletes, purges and single replication
  writes decided from arbitrarily stale reads. `lineage` is the ghost record of which revision was replaced
  by, or merged into, which. `Staleness` and `Lives` follow one record through any sequence of edits.
- `SyncRuns` - a running sync extends any run of that system by replication writes and what others do, so
  what is proved of runs is proved across it.
- `Gc`, `GcRun`, `Restore` - the mark set and the sweep's age rule, a whole blob collection with others
  acting before each of its calls, tombstone collection and undelete.
- `ModulePaths`, `Resolve`, `Reachability`, `Tallies`, `Frontiers`, `Impact` - paths as modules, reference
  resolution and the two impact walks. `Frontiers` holds both worklists once, over any graph; `Impact` runs
  them on the two graphs of a view.
- `Walk`, `Index`, `Drivers`, `IndexRun`, `IndexHistory` - the pruned source walk, the full and the
  incremental indexing drivers, a whole index run with its manifest commit and its persistent graph, and
  what a view holds after any sequence of runs.
- `Paths` - record keys as object keys.

Modelling choices that hold everywhere:

- A content hash is ideal: `ContentHash` carries the bytes it was taken of, so equal hashes mean equal
  content, and hashes are ordered by an injective rank. The bytes of a blob body are the hexadecimal text
  of its hash, not the content, as in the code. All tombstones share one hash, as in the
  code; convergence is therefore stated of revisions, and of bodies where a pass wrote them.
- Times are milliseconds as integers and arrive as parameters. Counters are natural numbers.
- A store call is one atomic step. JSON reading and writing, manifest reading and writing, parsing of
  source files, git's ignore rules and the known extensions are function parameters; nothing is assumed
  of them except, where a member says so, that what was written reads back.
- Clients of the transition system build records with `Create` and `Update`, as the planners require
  of them; their reads may be stale.

Results a caller might not expect, each proved with exactly when it happens, or with a run or an input in
which it does:

- A qualifier can turn an answer into ambiguity (`Resolve.QualifierLosesAnswerExactly`), although the
  comment at `crates/gonzalo-graph/src/resolve.rs:101-102` says it only narrows. The model follows the code.
- A file that is tracked although git's rules ignore it, and is modified, ends up in the new manifest
  but not in the persistent graph: its stale entry is staged for removal, and removals are applied after
  insertions (`IndexRun.IndexWithWorker` says exactly when, `IndexRun.TrackedIgnoredFile` gives such a file). The comment at
  `crates/gonzalo-cli/src/lib.rs:838-839` says no ignored path reaches that loop.
- From a manifest that is the full view of the recorded base commit, the incremental driver differs from
  the full walk on exactly three kinds of path: such ignored files, files that stopped parsing
  (`Index.BrokenFileIsCarried`), and unchanged files the rules have newly admitted
  (`Index.NewIncludeIsNotSeen`); see `Index.DriversAgreeExactly`.
- A run need not leave such a manifest: it records HEAD even after indexing uncommitted edits. Once an edit
  is reverted the diff is empty, and its old slice is carried by every later run until the path is reported
  again or a full walk is made (`IndexHistory.RevertedEditIsKept`). Over any runs an entry is what the last
  run that did not carry it read (`IndexHistory.ViewIsTheLastDecision`), and every run starts from a full
  view exactly when none indexed an edit its recorded commit does not show and none met an exception
  (`IndexHistory.StaysFullExactly`).
- The minimum age keeps a fresh upload, but not an old blob that content stored before names again after
  the mark: its record commits and the blob goes (`GcRun.LateReferenceIsLost`). The index run repairs this
  for its own slices.
- The pruned walk misses an admitted file exactly when a directory above it is named like a generated
  file and no include reaches it (`Walk.ListedExactlyWhenAdmitted`, `Walk.FileUnderOddDirectory`).
- Merging an append-only merge back into the other side repeats lines unless one side's lines lead the
  other's (`Lines.AppendMergeBackIntoTheirs`, `Lines.MergeBackRepeats`); the other direction is stable
  (`Lines.AppendMergeAbsorbs`).
- A tombstone purged while a peer still holds the record lets the record return: a run in which it does is
  `Cluster.PurgedRecordReturns`, and a copy brings it back exactly if the store is still empty
  (`Cluster.EmptiedStoreTakesBackExactly`). That is why `Cluster.NoResurrection` speaks of the time between
  purges.
- Given the merged body, a reconciliation depends on which side is called first in four ways, no more: the
  kind when the two differ, the parent on a counter tie, colliding labels, and the order of links
  (`Planners.ReconciledSymmetricExactly`). The body of an append-only merge depends on it unless one side's
  lines lead the other's (`Lines.AppendMergeSymmetricExactly`).
- Two stores may create one key with different kinds. The side called first then picks the merge class, so
  one order can merge where the other reports a conflict: `Cluster.KindsCanDiverge` reaches such a pair from
  empty stores, and `Sync.ConflictDependsOnSideExactly` says when it happens.

## Model

| member | source | states |
|---|---|---|
| Records.RankInjective | crates/gonzalo-core/src/tombstone.rs:65 | Ordering by hash never ties two different hashes. |
| Records.NewerIsTotal | crates/gonzalo-core/src/tombstone.rs:65 | The (counter, hash) order of ancestor lists is total and asymmetric. |
| Records.HexTextInjective | crates/gonzalo-core/src/revision.rs:7-13 | Two digests never share their text, so two blob bodies have one revision only if they are one blob. |
| Ancestors.FoldIsGreatest | crates/gonzalo-core/src/tombstone.rs:51-69 | A folded list is the one and only newest-first list of the cap greatest revisions gathered, without the record's own. |
| Ancestors.GreatestUnique | crates/gonzalo-core/src/tombstone.rs:51-69 | A pool and a cap determine such a list: ancestor lists are canonical. |
| Ancestors.FoldDependsOnPool | crates/gonzalo-core/src/tombstone.rs:51-69 | The fold depends only on the set gathered, not on order, repetition or which input a revision came from. |
| Ancestors.FoldLossless | crates/gonzalo-core/src/sync.rs:160-166 | A cap that the gathered set fits in drops nothing. |
| Ancestors.FoldPrefix | crates/gonzalo-core/src/tombstone.rs:67 | A smaller cap keeps a prefix of what a larger one keeps. |
| Ancestors.SortNewestFirst | crates/gonzalo-core/src/tombstone.rs:65 | The buffer sorted newest first is a non-increasing permutation of what was gathered. |
| Ancestors.Dedup | crates/gonzalo-core/src/tombstone.rs:66 | Dropping adjacent repeats of the sorted buffer leaves each revision once, strictly descending. |
| Ancestors.FoldAncestors | crates/gonzalo-core/src/tombstone.rs:51-69 | Gather, sort, dedup, retain, truncate computes the fold. |
| Planners.LosslessThenCap | crates/gonzalo-core/src/sync.rs:160-166 | Folding losslessly in sync and truncating on the destination's write equals folding both chains directly to its cap. |
| Planners.ReconciledListsArePrefixes | crates/gonzalo-core/src/tombstone.rs:1126-1147 | After a reconciliation is written to both stores, the smaller-cap store's list is a prefix of the other's and the revisions are equal. |
| Planners.TombstoneWinnerSymmetric | crates/gonzalo-core/src/tombstone.rs:1150-1165 | The winning tombstone does not depend on which side is called a, once revisions differ. |
| Planners.TombstoneWinnerIsGreatest | crates/gonzalo-core/src/tombstone.rs:1150-1165 | The winner is one of the two tombstones in all but its chain, and neither outranks it. |
| Planners.ReconciledOutranksBoth | crates/gonzalo-core/src/tombstone.rs:1167-1220 | A reconciled record is newer than both sides, its parent is the higher-counter side, and without truncation its chain holds both. |
| Planners.ReconciledSymmetricExactly | crates/gonzalo-core/src/tombstone.rs:1167-1220 | For any two records of whatever kinds, the reconciled record is the same from either side if and only if key and kind are the same, the counters differ or the revisions are equal, no label collides with another value, and one side's links only add to the other's. |
| Planners.ReconciledKeepsProvenance | crates/gonzalo-core/src/tombstone.rs:1183-1211 | A reconciliation drops no link and no label, b winning a collision, and its times span both sides. |
| Links.LinkUnionExact | crates/gonzalo-core/src/tombstone.rs:1185-1190 | The union of links is ours untouched, then theirs once each, and holds exactly both. |
| Links.LinkUnionSymmetricExactly | crates/gonzalo-core/src/tombstone.rs:1185-1190 | The order of the sides shows in the links unless one list only adds new links to the other. |
| Links.LabelUnionSymmetricExactly | crates/gonzalo-core/src/tombstone.rs:1183-1184 | It shows in the labels exactly when a label collides with another value. |
| Links.UniteLinks | crates/gonzalo-core/src/tombstone.rs:1185-1190 | The loop that pushes missing links computes the union. |
| Records.TombstoneDomainIsSpelt | crates/gonzalo-core/src/tombstone.rs:15-18 | The domain string all tombstones are hashed from, byte for byte. |
| Planners.TombstoneIsNoEdit | crates/gonzalo-core/src/tombstone.rs:15-23 | A tombstone's revision equals that of an edit of the same record exactly when the edit's bytes are the tombstone domain; never for an empty body. |
| Stores.MemStore.Get | crates/gonzalo-core/src/memstore.rs:90-98 | A consumer read sees the live record under the key, never a tombstone. |
| Stores.ReadsDifferExactly | crates/gonzalo-core/src/memstore.rs:90-135 | A consumer read and a raw read of a key differ exactly at a tombstone, where the consumer sees nothing. |
| Stores.MemStore.List | crates/gonzalo-core/src/memstore.rs:104-113 | A consumer listing is exactly the live keys the prefix matches. |
| Stores.ListingsDifferExactly | crates/gonzalo-core/src/memstore.rs:104-146 | What a raw listing adds to a consumer's is exactly the tombstones under the prefix. |
| Stores.MemStore.Put | crates/gonzalo-core/src/memstore.rs:67-102 | A put leaves the table and gives the answer its planner decided from the record held at that moment. |
| Stores.MemStore.PutRaw | crates/gonzalo-core/src/memstore.rs:148-150 | The same for a replication write. |
| Stores.MemStore.DeleteAs | crates/gonzalo-core/src/memstore.rs:115-131 | A delete buries the live record it was conditional on, or changes nothing. |
| Stores.MemStore.Purge | crates/gonzalo-core/src/memstore.rs:152-162 | A purge removes the exact revision named, or changes nothing. |
| ConsumerView.PutRefines | crates/gonzalo-core/src/tombstone.rs:187-267 | With tombstones hidden, every put is a step the plain optimistic map of live records allows. |
| ConsumerView.DeleteRefines | crates/gonzalo-core/src/tombstone.rs:322-341 | The same for every conditional delete. |
| ConsumerView.CreateOverHiddenTombstone | crates/gonzalo-core/src/tombstone.rs:207-250 | A create is refused exactly over a restore window, and is restamped exactly when a tombstone must be continued, one counter on. |
| ConsumerView.SessionRefines | crates/gonzalo-core/src/memstore.rs:88-162 | Every sequence of consumer calls is a session of the plain map, answers included. |
| Lines.FlattenSplit | crates/gonzalo-core/src/merge.rs:189-205 | Splitting into lines loses no byte. |
| Lines.SplitLinesExactly | crates/gonzalo-core/src/merge.rs:189-205 | A body falls into lines in one way only: bytes end to end, only the last byte of each a newline, all but the last closed. |
| Lines.StripExactly | crates/gonzalo-core/src/merge.rs:184-187 | A stripped line is the line, or the line is it and one newline; lines strip to the same bytes exactly when they are equal up to one final newline. |
| Lines.AppendMergeOnBytes | crates/gonzalo-core/src/merge.rs:146-182 | The merge is our bytes, closed if anything follows, and the bytes of theirs from the first line on that is not, up to its final newline, our line at the same place. |
| Lines.AppendMergeExact | crates/gonzalo-core/src/merge.rs:146-182 | Our bytes lead the merge untouched, and its stripped lines are ours followed by theirs past their longest common line prefix, for all byte strings. |
| Lines.AppendMergeAbsorbs | crates/gonzalo-core/src/merge.rs:146-182 | Merging the result back into ours changes no byte. |
| Lines.AppendMergeBackIntoTheirs | crates/gonzalo-core/src/merge.rs:146-182 | Merging the result back into theirs is stable if and only if the lines of one side lead the lines of the other. |
| Lines.MergeBackRepeats | crates/gonzalo-core/src/merge.rs:146-182 | Two one-line bodies for which it repeats a line. |
| Lines.AppendMergeSymmetricExactly | crates/gonzalo-core/src/merge.rs:146-182 | Both orders of the sides merge to the same lines if and only if the lines of one side lead the lines of the other. |
| Lines.AppendMergeLosesNothing | crates/gonzalo-core/src/merge.rs:146-182 | Every line of either side is in the result, in order and byte for byte up to its final newline. |
| Lines.ComputeSplitLines | crates/gonzalo-core/src/merge.rs:192-205 | The scanning loop computes the split. |
| Lines.CountShared | crates/gonzalo-core/src/merge.rs:161-169 | The counting loop finds the longest common prefix of stripped lines, which is that of lines equal up to a final newline. |
| Lines.ComputeAppendMerge | crates/gonzalo-core/src/merge.rs:158-182 | The buffer built from split, count and extend is the merge. |
| Json.ObjectMergeIsFieldwise | crates/gonzalo-core/src/merge.rs:72-117 | An object merge yields an object exactly when that object is the field-by-field merge, whichever shortcut was taken. |
| Json.MergeToBase | crates/gonzalo-core/src/merge.rs:72-117 | A merge ends at the base only if neither side changed anything. |
| Json.MergeAbsorbs | crates/gonzalo-core/src/merge.rs:72-144 | Merging the result back in from either side yields it again, for all JSON trees. |
| Json.MergeCommutes | crates/gonzalo-core/src/merge.rs:72-144 | The merge is commutative, conflicts included. |
| Json.OneSidedChangeWins | crates/gonzalo-core/src/merge.rs:119-144 | A key only one side changed takes that side's value, or its deletion. |
| Json.UnlessAllObjects | crates/gonzalo-core/src/merge.rs:77-116 | Two sides that agree or of which one changed nothing never conflict; three different values of which one is no object always do. |
| Json.ObjectsConflictExactly | crates/gonzalo-core/src/merge.rs:119-144 | Objects conflict if and only if at some key the three are pairwise different and either one side lacks the key or the values themselves do not merge. |
| Json.MergesExactly | crates/gonzalo-core/src/merge.rs:72-144 | For all JSON trees the merge is a value if and only if that value holds at every key, at every depth, the change made there, a deletion included. |
| Json.ComputeMergeValue | crates/gonzalo-core/src/merge.rs:72-117 | The recursion that fills a map in a loop computes the merge, and terminates. |
| Json.ComputeMergeField | crates/gonzalo-core/src/merge.rs:119-144 | Its per-field step, mutually recursive with it, computes the field merge. |
| Sync.QuietPassConverges | crates/gonzalo-core/src/sync.rs:187-273 | Undisturbed, a pass leaves a key on one revision in both stores, with one body and kind if it wrote; a conflict leaves both sides untouched and apart. |
| Sync.QuietPassIsFixpoint | crates/gonzalo-core/src/sync.rs:187-273 | A second undisturbed pass writes nothing and finds exactly the same conflicts. |
| Sync.ConflictExactly | crates/gonzalo-core/src/sync.rs:205-269 | A key is a conflict if and only if both sides hold it, neither chain holds the other's revision, and it is delete against edit or a merge that needs the caller. |
| Sync.ConflictDependsOnSideExactly | crates/gonzalo-core/src/sync.rs:242-262 | Two diverged live records are a conflict in one order of the sides and not in the other if and only if one's merge class needs the caller and the other's does not. |
| Sync.StructuredEditsMergeExactly | crates/gonzalo-core/src/merge.rs:50-66 | Two diverged edits of a structured record are merged if and only if the shared parent's retained body, or nothing, and both bodies are JSON and some value takes both changes; the body written reads as that value. Otherwise they are a conflict. |
| Sync.BaseExactly | crates/gonzalo-core/src/sync.rs:120-132 | The base is the retained body of a parent both sides name, and empty otherwise. |
| Sync.AppendOnlyEditsMerge | crates/gonzalo-core/src/merge.rs:33-40 | Diverged topics, sessions and ticket events never conflict; our bytes come first and no line of either is lost. |
| Sync.DerivedEditsTakeOurs | crates/gonzalo-core/src/merge.rs:33-40 | Diverged graph manifests never conflict; the body of the side called a is written. |
| Sync.OpaqueEditsConflict | crates/gonzalo-core/src/merge.rs:33-40 | Diverged checkpoints, link tokens, audit entries and vector manifests are always a conflict. |
| Sync.BothHoldTheMerge | crates/gonzalo-core/src/sync.rs:242-262 | After an undisturbed merge both stores hold the body decided, under one revision above both that is hashed from it. |
| Contention.Pair.PutRaw | crates/gonzalo-core/src/sync.rs:277-300 | A conditional write after others acted as the script says: the trace records it with whether it landed, and the two tables stay what trace and script make of them. |
| Contention.ReplayIsKeyed | crates/gonzalo-core/src/memstore.rs:67-85 | Replaying any calls keeps every record under its own key, if others do. |
| SyncPass.WriteSide | crates/gonzalo-core/src/sync.rs:277-300 | Exactly one write is made on a side when the decision calls for one, a copy expecting absence and an overwrite the revision read, and none otherwise. |
| SyncPass.SyncKey | crates/gonzalo-core/src/sync.rs:187-273 | One key's calls are exactly two reads and the writes they call for, and its outcome is raced exactly if one of them did not land. |
| SyncPass.OutcomeExactly | crates/gonzalo-core/src/sync.rs:190-272 | Which list of the report a key lands in follows from what was read: absence, whose chain holds the other's revision, or neither. |
| SyncPass.OutcomeShows | crates/gonzalo-core/src/sync.rs:190-272 | And an undisturbed pass shows it: a copy or a fast-forward puts one side's revision on the other and leaves that side alone, a merge gives both one, the rest changes neither. |
| SyncPass.ReportIsExact | crates/gonzalo-core/src/sync.rs:190-272 | The report lists a key under the outcome it came to and nowhere else; the raced keys are exactly the others. |
| SyncPass.ReconcileKeys | crates/gonzalo-core/src/sync.rs:187-273 | Each key of the union is reconciled once, and report and raced keys are those of the calls made. |
| SyncPass.RunPass | crates/gonzalo-core/src/sync.rs:173-275 | A pass makes exactly the calls of its two listings and of each key of their union, and reports them. |
| SyncPass.RunSync | crates/gonzalo-core/src/sync.rs:101-118 | The run's calls are exactly those of its passes, sixteen at most; every pass but the last was raced, fewer than sixteen means the last was not, and the report is the last pass's with its raced keys unconverged. |
| SyncPass.AtMostSixteenPasses | crates/gonzalo-core/src/sync.rs:101-118 | Sixteen passes at most, and fewer only when the last left nothing unconverged. |
| SyncSafety.RunReplacesOnlyWhatItRead | crates/gonzalo-core/src/sync.rs:205-300 | Over a whole run, whatever others do, every write lands exactly if its key still holds what this pass read there, stores what the two reads call for, and changes that key alone; otherwise it changes nothing. |
| SyncSafety.RunFollowsItsReads | crates/gonzalo-core/src/sync.rs:187-273 | Every write of a run is what the latest reads of its key call for and expects what the latest read on its side found. |
| SyncSafety.RacedExactly | crates/gonzalo-core/src/sync.rs:223-262 | A key is raced if and only if one of its writes found something other than was read. |
| SyncSafety.UnconvergedExactly | crates/gonzalo-core/src/sync.rs:107-117 | The keys reported unconverged are exactly those others moved under a write of the last pass. |
| SyncSafety.QuietPass | crates/gonzalo-core/src/sync.rs:173-275 | A pass nobody disturbs races nothing, reads what both stores held at its start and leaves every key of both tables reconciled. |
| SyncSafety.QuietRunConverges | crates/gonzalo-core/src/sync.rs:101-118 | Whatever happened before, after an undisturbed last pass nothing is unconverged and both stores agree on every key but the conflicts reported, which both still hold. |
| SyncSafety.ConflictsOfQuietPass | crates/gonzalo-core/src/sync.rs:236-269 | An undisturbed pass reports a conflict exactly for the keys whose two records call for one. |
| SyncSafety.SecondPassIsIdle | crates/gonzalo-core/src/sync.rs:173-275 | After an undisturbed pass a second one makes no write, leaves both tables as they are, and reports exactly the same conflicts. |
| SyncSafety.SyncKeepsHashes | crates/gonzalo-core/src/sync.rs:173-300 | If stores and others hold records whose hashes are their contents', so do both stores after any calls of a sync, and everything it reads. |
| SyncSafety.SyncedBodiesAgree | crates/gonzalo-core/src/revision.rs:15-38 | Then, after any sync and whatever others did, live records that agree on a revision agree on the body, two blob bodies on the blob, and only an edit to the tombstone domain string can share a revision with a tombstone. |
| SyncSafety.SyncStores | crates/gonzalo-core/src/sync.rs:91-118 | The whole sync over two stores and any behaviour of others, tied to its trace, with bodies agreeing wherever revisions do; with nobody else about, one pass is enough and both stores end converged. |
| SyncRuns.CallIsAStep | crates/gonzalo-core/src/sync.rs:277-300 | A landed write of a running sync is one replication step of the cluster, decided from records its two stores really held; a write that does not land and a read change nothing. |
| SyncRuns.BesideIsARun | crates/gonzalo-core/src/sync.rs:173-300 | Beside the trace of a sync the cluster makes a path of allowed steps, others' and the sync's own replication writes, and holds of the key what the tables hold. |
| SyncRuns.SyncExtendsTheRun | crates/gonzalo-core/src/sync.rs:173-300 | A sync extends the run that led to it, step for step: the steps before stay, and every step added is a replication write or one others were allowed. |
| SyncRuns.NoResurrectionAcrossSync | crates/gonzalo-core/src/sync.rs:181-185 | If others purge nothing meanwhile, a store that held something a revision is an ancestor of does not hold that revision after the sync, but a later one. |
| SyncRuns.NothingAppendedIsLostAcrossSync | crates/gonzalo-core/src/sync.rs:242-262 | If others only append meanwhile, every line either of the two stores ever held is in what it holds after the sync, in order and byte for byte up to a final newline. |
| SyncRuns.QuietBeside | crates/gonzalo-core/src/sync.rs:173-300 | For a sync nobody disturbs the cluster states beside its calls exist: the hypothesis of these is met. |
| SyncRuns.QuietSyncNeverResurrects | crates/gonzalo-core/src/sync.rs:181-185 | So such a sync never brings back what one of its stores had left behind. |
| Lineage.DescendsTransitive | crates/gonzalo-core/src/sync.rs:148-158 | Descent through replacements and merges composes. |
| Lineage.DescendsAscends | crates/gonzalo-core/src/revision.rs:33-38 | Descent strictly raises the counter, so it is acyclic. |
| Cluster.Reachable | crates/gonzalo-core/src/tombstone.rs:51-69 | In every reachable state of N stores each record ever held has a canonical ancestor list within its cap, all of it true ancestors with lower counters. |
| Cluster.StepAdvances | crates/gonzalo-core/src/tombstone.rs:187-303 | Every step keeps that invariant, only adds history, and moves every store up the descent order unless it purges it. |
| Cluster.SyncWriteKeepsInv | crates/gonzalo-core/src/sync.rs:205-269 | So does any single replication write, however stale its two reads. |
| Cluster.RevisionsOnlyMoveUp | crates/gonzalo-core/src/sync.rs:148-158 | Over any run with any interleaving, between purges a store's revision only moves up the acyclic descent order. |
| Cluster.NoResurrection | crates/gonzalo-core/src/sync.rs:181-185 | Once a store holds something a revision is an ancestor of, a tombstone for instance, it never holds that revision again before a purge. |
| Parentage.ParentsAreAncestors | crates/gonzalo-core/src/tombstone.rs:78-341 | In every state of every run each record ever held names as its parent a revision it descends from, and only a creation names none. |
| Cluster.EmptiedStoreTakesBackExactly | crates/gonzalo-core/src/sync.rs:194-201 | A copy decided when the store was read empty puts the peer's record there exactly if the store is still empty. |
| Cluster.PurgedRecordReturns | crates/gonzalo-core/src/sync.rs:178-201 | A run from empty stores in which a record comes back over its own tombstone, once that is purged. |
| Cluster.KindsCanDiverge | crates/gonzalo-core/src/tombstone.rs:1197-1200 | Two creates from empty stores after which one key has a topic and an audit entry, diverged, that merge in one order of the sides and conflict in the other. |
| AppendRuns.AppendReachable | crates/gonzalo-core/src/sync.rs:242-262 | Along append-only runs no edge of the history drops a line. |
| AppendRuns.NothingAppendedIsLost | crates/gonzalo-core/src/sync.rs:173-275 | Over any run of N stores with appending clients and interleaved syncs, every line a store held is in what it holds at any later time, in order and byte for byte up to a final newline. |
| AppendRuns.ConvergedBodyHoldsEveryLine | crates/gonzalo-core/src/merge.rs:146-182 | A converged body holds every line any store ever committed, in order and byte for byte up to a final newline. |
| Staleness.EditsStack | crates/gonzalo-core/src/tombstone.rs:187-267 | After n updates, deletes, recreations and undeletes the starting revision sits at depth n of the chain, if the cap reaches that far. |
| Staleness.FastForwardExactlyWithinCap | crates/gonzalo-core/src/sync.rs:148-158 | From equal revisions, n writes on one side are fast-forwarded without merge or conflict if and only if n is within its cap; past it the two count as diverged. |
| Staleness.HeldRecordsAreHeaded | crates/gonzalo-core/src/tombstone.rs:51-69 | The hypothesis on chains holds of every record held in any run. |
| Lives.LifeShows | crates/gonzalo-core/src/tombstone.rs:78-341 | Whatever was done to a record, its last edit times and signs it and alone decides the delete stamp; its creation time outlives all but a recreation, and its links all but a delete. |
| Lives.DeleteKeepsOnlyManifests | crates/gonzalo-core/src/tombstone.rs:74-115 | A delete keeps the body exactly of a manifest, and then says which kind it was. |
| Lives.RestorableExactly | crates/gonzalo-core/src/undelete.rs:30-58 | What was deleted can be restored if and only if it was a manifest. |
| Lives.DeletedAndRestored | crates/gonzalo-core/src/undelete.rs:30-102 | However often a manifest is deleted and restored, body, kind, labels, origin and creation time come back, one counter on each time. |
| Sweep.GatherLinks | crates/gonzalo-core/src/sync.rs:187-273 | Syncing neighbours up the line links each store to the next, the last two on one revision. |
| Sweep.ScatterSettles | crates/gonzalo-core/src/sync.rs:187-273 | Syncing back down settles one more store per pair. |
| Sweep.EveryPairGoesDown | crates/gonzalo-core/src/sync.rs:207-220 | Every pair on the way down only copies or fast-forwards. |
| Sweep.GatherThenScatterConverges | crates/gonzalo-core/src/sync.rs:187-273 | For any N, up and back down leaves all stores on one revision for a live append-only or derived key, with caps of at least the distinct revisions known: those at the start and one for each pair that merged. |
| Sweep.RoomForEveryPairConverges | crates/gonzalo-core/src/sync.rs:187-273 | Caps of the revisions known at the start plus one a pair always suffice. |
| Gc.ReferencesExactly | crates/gonzalo-core/src/gc.rs:30-99 | What one record contributes to the mark is exactly what it points at in one of five ways, live manifests and the manifests tombstones keep included; it fails exactly when such a manifest cannot be read. |
| Gc.LiveIsUnion | crates/gonzalo-core/src/gc.rs:55-99 | The mark set is exactly what records and tombstones point at in those ways; marking fails exactly when some manifest of either kind cannot be read. |
| Gc.LiveBlobHashes | crates/gonzalo-core/src/gc.rs:55-99 | The marking loop computes that set. |
| Gc.OldEnoughExactly | crates/gonzalo-core/src/store.rs:161-175 | With clock readings stopped at the ends of 64 bits, a blob passes the age rule exactly when it is not dated ahead, its age fits 64 bits, and it has reached the minimum. |
| Gc.UploadProtectsExactly | crates/gonzalo-core/src/store.rs:161-175 | An upload protects its blob from the next sweep exactly if the blob was not stored before, or is still young; it renews nothing and touches no other blob. |
| Gc.CollapseListing | crates/gonzalo-core/src/gc.rs:152-161 | A listing that repeats hashes collapses to the newest time of each. |
| Gc.Classify | crates/gonzalo-core/src/gc.rs:163-182 | Freed is exactly listed, unreferenced and old; freed, retained and deferred partition the distinct hashes. |
| Gc.ChooseFreed | crates/gonzalo-core/src/gc.rs:152-182 | From a listing that may repeat hashes, exactly the unreferenced ones old enough by their newest time are chosen, and the report accounts for every distinct hash. |
| GcRun.GcBlobs | crates/gonzalo-core/src/gc.rs:209-224 | Others acting before every call, a collection reads each raw key once, lists, and deletes each chosen blob once; it deletes nothing when a manifest it read cannot be parsed. |
| GcRun.FreedExactly | crates/gonzalo-core/src/gc.rs:163-182 | A blob is freed if and only if it was listed, no record the mark read points at it, and it was old enough when listed. |
| GcRun.YoungBlobIsKept | crates/gonzalo-core/src/gc.rs:100-106 | A blob listed as younger than the minimum age is never freed, whatever the mark missed: an uploader has that long to commit. |
| GcRun.OnlyFreedAreDeleted | crates/gonzalo-core/src/gc.rs:184-186 | No blob but the freed ones goes missing while deletes and others' acts interleave, unless others take it. |
| GcRun.ReferencedBlobSurvives | crates/gonzalo-core/src/gc.rs:209-224 | A blob a record points at in any of the five ways survives the whole collection whatever its age and whatever else others do, if they leave that record and that blob in place. |
| GcRun.LateReferenceIsLost | crates/gonzalo-cli/src/lib.rs:744-751 | What the age rule does not cover: a run in which an old blob is named again right after the mark, and its record stays while the blob goes. |
| GcRun.QuietCollection | crates/gonzalo-core/src/gc.rs:209-224 | With nobody else about, a collection can mark exactly if every manifest stored can be read, and then leaves exactly the referenced and the young blobs. |
| Gc.ReferencedBlobsSurvive | crates/gonzalo-core/src/gc.rs:55-99 | A blob any stored record or tombstone points at survives, whatever its age. |
| Restore.CollectKey | crates/gonzalo-core/src/collect.rs:48-70 | One key of a collection, others acting before each of its calls. |
| Restore.Collect | crates/gonzalo-core/src/collect.rs:40-73 | The loop visits each raw key under the prefix once, with the table and the report it leaves. |
| Restore.CollectOneExactly | crates/gonzalo-core/src/collect.rs:52-70 | A visit purges exactly if it read a stamped tombstone at or past the horizon; the purge removes exactly the revision read, is contested exactly if the key then holds another, and nothing else is touched. |
| Restore.CollectionNeverTakesLive | crates/gonzalo-core/src/collect.rs:26-34 | Over a whole collection, others acting before every call, each visit removes at most the stamped old tombstone it read, at that revision, and never a live record. |
| Restore.LiveRecordSurvives | crates/gonzalo-core/src/collect.rs:26-34 | A live record that took a tombstone's place under the purge survives and is reported as contested. |
| Restore.QuietCollectionIsExact | crates/gonzalo-core/src/collect.rs:40-73 | With nobody else about, exactly the tombstones under the prefix stamped at least the horizon ago are removed and reported, of whatever kind; the rest stays as it was and none is contested. |
| Restore.NothingIsFreedByDelete | crates/gonzalo-core/src/tombstone.rs:74-115 | No delete, whatever its answer, releases a blob: whatever was pointed at still is. |
| Restore.DeleteReleasesNothing | crates/gonzalo-core/src/tombstone.rs:74-115 | The tombstone points at exactly what the live record pointed at. |
| Restore.RefusedExactly | crates/gonzalo-core/src/undelete.rs:30-75 | Nothing speaks against an undelete exactly when the key holds a tombstone that keeps a readable manifest whose every blob is stored. |
| Restore.MissingBlobs | crates/gonzalo-core/src/undelete.rs:55-69 | The loop over named blobs finds exactly those that are gone. |
| Restore.Undelete | crates/gonzalo-core/src/undelete.rs:30-102 | An undelete refuses for each of its reasons, a missing blob among them, and otherwise stores the restored record exactly if the key still holds the tombstone it read when it writes; else it writes nothing. |
| Restore.OpKeepsWindow | crates/gonzalo-core/src/gc.rs:55-99 | Any put, delete, upload, blob collection or early tombstone collection keeps an open restore window open. |
| Restore.RestoreWindow | crates/gonzalo-core/src/undelete.rs:30-102 | After deleting a manifest whose blobs are present, any such operations later undelete restores the same body, kind and creation time at counter plus two. |
| Restore.WindowClosesAtHorizon | crates/gonzalo-core/src/collect.rs:62-64 | A collection closes the window if and only if the horizon has passed. |
| ModulePaths.SplitOnExactly | crates/gonzalo-graph/src/resolve.rs:281-288 | Splitting a path is the one way to undo joining parts that hold no separator. |
| ModulePaths.StemExactly | crates/gonzalo-graph/src/resolve.rs:259-263 | A stem is what stands before the last dot. |
| ModulePaths.SameSegmentExactly | crates/gonzalo-graph/src/resolve.rs:327-334 | Segments are the same exactly when dashes and underscores are not told apart. |
| ModulePaths.SharedPrefixExactly | crates/gonzalo-graph/src/resolve.rs:281-288 | Closeness is the number of leading components in common. |
| ModulePaths.PathUnderExactly | crates/gonzalo-graph/src/resolve.rs:258-273 | Exactly which files lie at or under a package, `__init__` standing for its directory. |
| ModulePaths.ModulePathExactly | crates/gonzalo-graph/src/resolve.rs:297-319 | A file stands for its directories but `src`, and its stem unless that names its container. |
| ModulePaths.PathEndsWithModuleExactly | crates/gonzalo-graph/src/resolve.rs:297-325 | A path ends with a module exactly when the module, segment by segment, is the end of what the file stands for. |
| ModulePaths.RelativeAnchorExactly | crates/gonzalo-graph/src/resolve.rs:242-256 | One dot is the file's own package, each further one a level up, and too many are no anchor. |
| Resolve.NearestIsStrict | crates/gonzalo-graph/src/resolve.rs:275-296 | A nearest candidate is chosen if and only if it shares something and is strictly closer than every other. |
| Resolve.ImportedExactly | crates/gonzalo-graph/src/resolve.rs:165-240 | An import settles on a candidate if and only if it is the only one that fits the import, or the strictly nearest of those that do. |
| Resolve.ResolvesExactly | crates/gonzalo-graph/src/resolve.rs:74-156 | Each resolution is given exactly in its case, in terms of which files have a symbol of the name and the owner, and its target is the file meant. |
| Resolve.ImportsInFileExactly | crates/gonzalo-graph/src/resolve.rs:82-95 | The imports consulted are those of the referencing file. |
| Resolve.TargetDefinesName | crates/gonzalo-graph/src/resolve.rs:74-156 | A target is always a file that defines the name, and exists exactly for the four resolutions that claim one. |
| Resolve.ImportedIsCandidate | crates/gonzalo-graph/src/resolve.rs:165-240 | An import only ever picks one of the candidates. |
| Resolve.QualifierLosesAnswerExactly | crates/gonzalo-graph/src/resolve.rs:93-122 | A qualifier loses an answer if and only if several files own the name under it. |
| Resolve.QualifierCanLoseAnswer | crates/gonzalo-graph/src/resolve.rs:93-122 | A concrete view where it does. |
| Reachability.WithinIsDistance | crates/gonzalo-graph/src/resolve.rs:434-471 | What level k holds is what a chain of at most k edges reaches. |
| Frontiers.ExpandNode | crates/gonzalo-graph/src/resolve.rs:442-470 | Looking at one node counts what is counted and queues each new caller once. |
| Frontiers.RunLevels | crates/gonzalo-graph/src/resolve.rs:429-472 | The level loop terminates and stands where the level definition says, with its counts accounted for. |
| Frontiers.Walk | crates/gonzalo-graph/src/resolve.rs:415-479 | Bounded by k the walk reaches exactly the nodes within distance k less the seeds; not truncated means the full closure; truncated exactly when the last permitted level still grew; counts are totals over the nodes expanded. |
| Frontiers.QueueClosure | crates/gonzalo-graph/src/store.rs:85-102 | The queue loop reaches exactly everything reachable less its seed. |
| Impact.SeedsAreDefiners | crates/gonzalo-graph/src/resolve.rs:415-427 | A walk starts from exactly the files with a symbol of the name. |
| Impact.EdgesAreResolvedCalls | crates/gonzalo-graph/src/resolve.rs:442-470 | A caller is an edge into a node if and only if it encloses a call, not a value use, that resolves to the node's own path. |
| Impact.CountsExactly | crates/gonzalo-graph/src/resolve.rs:442-458 | A node adds to the counts exactly the value uses of its name, and of the other references the ambiguous ones and those with an unknown receiver. |
| Impact.ResolvedImpact | crates/gonzalo-graph/src/resolve.rs:415-479 | The walk's exactness, on the resolution-gated graph of a view. |
| Impact.NameMatchedImpact | crates/gonzalo-graph/src/store.rs:85-102 | The name-matched impact is exactly the transitive callers less the seed. |
| Impact.CallersExactly | crates/gonzalo-graph/src/store.rs:85-102 | The callers of a name are exactly the functions in which some reference of it stands that is not a value use. |
| Impact.ResolvedWithinNameMatched | crates/gonzalo-graph/src/resolve.rs:391-398 | Every name the resolved walk reaches, at any depth, is the seed's or in the name-matched closure. |
| Walk.LeftOutExactly | crates/gonzalo-cli/src/walk.rs:83-97 | Without includes a file is left out if and only if a part of its path is hidden or one of seven directories, or its name ends like one of four kinds of generated file. |
| Walk.IncludeAdmitsExactly | crates/gonzalo-cli/src/walk.rs:60-108 | An include admits exactly the paths it leads and opens exactly the directories on the way to them and below. |
| Walk.AncestorsAreEntered | crates/gonzalo-cli/src/walk.rs:83-108 | A directory above an indexable file is entered unless it is named like a generated file and no include reaches it. |
| Walk.ListedExactly | crates/gonzalo-cli/src/walk.rs:225-272 | The walk lists a file if and only if it is admitted, of a known language, and every directory above it is entered. |
| Walk.ListedOnlyBelowOpenDirs | crates/gonzalo-cli/src/walk.rs:225-272 | In full: a file is listed if and only if it exists, is of a known language, passes the filter, is not ignored, and no directory above it is ignored or closed to the walk. |
| Walk.ListedExactlyWhenAdmitted | crates/gonzalo-cli/src/walk.rs:225-272 | An admitted file is missed if and only if an oddly named directory is above it. |
| Walk.FileUnderOddDirectory | crates/gonzalo-cli/src/walk.rs:83-108 | Such a file: under a directory named like a minified script, admitted by the plain rules and not listed. |
| Walk.SourceFiles | crates/gonzalo-cli/src/walk.rs:225-272 | The recursive walk collects exactly the listed files. |
| Index.DriversAgreeExactly | crates/gonzalo-cli/src/lib.rs:781-914 | From a full view of the base and an exact diff, the incremental driver gives a path what the full walk would, if and only if it is none of three exceptions. |
| Index.DriversBuildOneViewExactly | crates/gonzalo-cli/src/lib.rs:781-914 | So, from such a manifest, the two drivers build the same path-to-hash map if and only if no path is such an exception. |
| Index.BrokenFileIsCarried | crates/gonzalo-cli/src/lib.rs:889-892 | A file edited into something that does not parse: the full walk drops it, the incremental driver keeps its old slice. |
| Index.NewIncludeIsNotSeen | crates/gonzalo-cli/src/lib.rs:826-855 | An unchanged file a new include re-admits: the full walk takes it in, the incremental driver does not. |
| Index.WalkSeesAllExactly | crates/gonzalo-cli/src/walk.rs:225-272 | That the walk sees all it admits, which both rely on, holds of a tree exactly when no admitted file lies under an oddly named directory. |
| Index.Assemble | crates/gonzalo-graph/src/assembly.rs:18-31 | Assembly holds exactly the entries whose slice is stored, and fails exactly when a stored one is not a slice. |
| Index.MirrorsIsAssembled | crates/gonzalo-graph/src/assembly.rs:18-31 | With every named slice stored, mirroring a manifest is being what assembly gives. |
| Index.ApplyStaging | crates/gonzalo-cli/src/lib.rs:715-722 | Applying the staging inserts everything, then removes: what each path holds afterwards. |
| Index.AppliedMirrorsExactly | crates/gonzalo-cli/src/lib.rs:703-723 | A graph that mirrored the old manifest mirrors the new one if and only if nothing staged for removal is still wanted. |
| Drivers.BuildDesiredFull | crates/gonzalo-cli/src/lib.rs:781-824 | The full driver's loop builds what the full walk gives every path, stages it all and uploads it. |
| Drivers.DropStale | crates/gonzalo-cli/src/lib.rs:842-855 | Entries the rules no longer admit are dropped from what is carried, and staged for removal. |
| Drivers.ProcessChanged | crates/gonzalo-cli/src/lib.rs:857-898 | One added or modified path: dropped, kept or re-parsed. |
| Drivers.BuildDesiredIncremental | crates/gonzalo-cli/src/lib.rs:826-914 | The incremental driver's three loops give each path what carrying, changing and deleting says, and stage exactly the way there. |
| IndexRun.Reconcile | crates/gonzalo-core/src/manifest.rs:84-110 | The change lists are the exact difference of the two manifests, each path once, and the new manifest is the desired one. |
| IndexRun.FullAccounts | crates/gonzalo-cli/src/lib.rs:781-824 | The full driver's staging accounts for the change and removes nothing it wants. |
| IndexRun.IncrementalAccounts | crates/gonzalo-cli/src/lib.rs:826-914 | The incremental driver's staging accounts for the change, and removes something it wants exactly when an old entry is ignored and reindexed. |
| IndexRun.EnsureSlicesPresent | crates/gonzalo-cli/src/lib.rs:752-779 | Every newly named slice is stored afterwards, and the count is the number of distinct ones that were gone. |
| IndexRun.NewlyNamedIsRestored | crates/gonzalo-cli/src/lib.rs:647-663 | Whatever the manifest newly names this run staged, so that repair cannot fail. |
| IndexRun.CommitManifest | crates/gonzalo-cli/src/lib.rs:607-645 | The manifest commits exactly if the key still holds the record that was read, or is still free; a live record of another revision is a conflict; it changes that key alone, and what it stores continues the record or the tombstone it replaced. |
| IndexRun.ManifestRecordIsBuilt | crates/gonzalo-cli/src/lib.rs:607-633 | What an index run puts is what a client's builders make, less links. |
| IndexRun.CurrentManifestExactly | crates/gonzalo-cli/src/lib.rs:541-547 | The manifest a run starts from is the one the live record under the key holds, empty without one, and unreadable exactly if that record's body is no manifest. |
| IndexRun.GraphStore.Advance | crates/gonzalo-cli/src/lib.rs:665-666 | The persistent graph moves from mirroring the old manifest to mirroring the new, exactly when no wanted path is removed. |
| IndexRun.IndexWithWorker | crates/gonzalo-cli/src/lib.rs:500-666 | How a run ends is decided exactly by the record the key held, by what could be read and by what the commit found under the key, others having acted; one that does not succeed leaves the graph alone; one that does starts from the manifest that record held, stores its driver's, with every new slice present, and keeps the graph equal to it exactly when no old entry is ignored and reindexed. |
| IndexRun.IndexedGraphIsAssembled | crates/gonzalo-graph/src/assembly.rs:18-31 | Such a run leaves the persistent graph equal to the assembly of the manifest it stored, given that slices carried forward are still stored. |
| IndexRun.TrackedIgnoredFile | crates/gonzalo-cli/src/lib.rs:838-898 | A concrete tracked, ignored and modified file, its plan, and that applying the plan to a graph that mirrored the old manifest leaves one that does not mirror the new. |
| IndexHistory.Watch | crates/gonzalo-cli/src/watch.rs:51-142 | Over a new view the watch loop's runs that commit are a history, each starting from the manifest the one before stored; failed ones change nothing, the key holds the last manifest, and the graph stays equal to it unless an old entry was ignored and reindexed. |
| IndexHistory.ViewIsTheLastDecision | crates/gonzalo-cli/src/lib.rs:826-914 | After any sequence of runs, whatever the trees, the diffs and the commits recorded, an entry is what the last run that did not carry it made of the tree it read. |
| IndexHistory.FullAgainExactly | crates/gonzalo-cli/src/lib.rs:668-675 | From a full view of its base a run ends in a full view both of the tree it read and of the commit it records, if and only if the path is no exception and the commit shows of it what the tree did. |
| IndexHistory.StaysFullExactly | crates/gonzalo-cli/src/lib.rs:668-675 | Over any runs, every run ends, and so the next one starts, in such a full view if and only if all of them were of that kind. |
| IndexHistory.RevertedEditExactly | crates/gonzalo-cli/src/lib.rs:565-575 | A run over an edit that is reverted before the next leaves the view right if and only if the edit never showed in it. |
| IndexHistory.RevertedEditIsKept | crates/gonzalo-cli/src/lib.rs:668-675 | A one-file tree whose uncommitted edit is indexed and then reverted: however many runs follow, the view keeps the slice of the edit. |
| IndexHistory.RevertedEditHappens | crates/gonzalo-cli/src/lib.rs:668-675 | Those runs, with the manifest each one stores. |
| Paths.RoundTrip | crates/gonzalo-core/src/paths.rs:36-57 | Decoding undoes encoding for every byte string. |
| Paths.SegmentIsSafe | crates/gonzalo-core/src/paths.rs:9-20 | An encoded segment holds only unreserved bytes and percent signs, so neither a slash nor a dot. |
| Paths.SegmentIsIdentityExactly | crates/gonzalo-core/src/paths.rs:19-20 | Exactly the well-formed components encode to themselves. |
| Paths.PlainKeysAreReadable | crates/gonzalo-core/src/paths.rs:9-83 | A key whose parts are letters, digits, underscores and dashes is stored under its own text; a dot becomes an uppercase escape. |
| Paths.ObjectKeyInjective | crates/gonzalo-core/src/paths.rs:71-83 | Two record keys never share an object key. |
| Paths.ListPrefixExactly | crates/gonzalo-store-s3/src/lib.rs:165-199 | Listing by the encoded prefix finds every key the record prefix matches and, unless only a collection is given, no other. |
| Paths.ComputeSegment | crates/gonzalo-core/src/paths.rs:21-34 | The byte loop computes the encoding. |
| Paths.ComputeDecodeSegment | crates/gonzalo-core/src/paths.rs:40-57 | The index loop computes the decoding, stray percent signs passed through. |

## Left out

- Hash collisions: hashes are ideal, so a collision of the real digest is not modelled; neither is the byte order of hex digests, only that it is a total order.
- 64-bit overflow of revision counters, and durations below a millisecond.
- The order of keys inside a sync, collection or garbage-collection report, of a listing, and of directory entries.
- Planners mutating their own copy of a record field by field: they are functions on values, which loses nothing a caller can see.
- IndexRun.Reconcile: the three lists hold each path once, in any order; the source's are sorted.
- IndexHistory.Watch: a new view, others leaving its record alone as a single-writer view requires; debouncing, and the sweep after each run.
- SyncRuns.BesideIsARun: one key at a time, and what others do is given as steps of the cluster.
- Lines.AppendMergeBackIntoTheirs: speaks of lines, not bytes, because a missing last newline may be added.
- Cluster.RevisionsOnlyMoveUp: one key at a time; keys never interact, since every call names one.
- Staleness.FastForwardExactlyWithinCap: once the revision has left the chain the two are shown diverged; what the merge then does is stated by the Sync and Json members.
- Sweep.GatherThenScatterConverges: assumes no other writer during the sweep, as its claim does; interference is the subject of SyncSafety and Cluster.
- The JSON reader and writer behind a structured merge: parameters, so arrays and numbers are opaque leaves.
- Paths.RoundTrip: on bytes; the final lossy UTF-8 conversion is the identity on what a valid string encodes to and is not modelled.
- Walk.SourceFiles: symbolic links and the counts of ignored and unindexed files; unreadable directories.
- Drivers.BuildDesiredFull: the list of skipped paths and the counts of the summary.
- Drivers.BuildDesiredIncremental: the per-run file, skip and ignored counts of the summary.
- IndexHistory.ViewIsTheLastDecision: one view; a run that fails stores nothing and is not in the history, and a crash between the commit and recording the base counts as recording the old one.
- IndexHistory.RevertedEditExactly: a commit is a tree of files; submodules, renames (reported as a delete and an add) and unreadable paths of a diff are not modelled.
- IndexRun.IndexWithWorker: the choice of driver (extraction version, recorded base), the worker pool, and two runs over one graph file at once; the persistent graph is a map with replace and remove instead of SQL tables.
- Extraction from source text, the vector index, and every filesystem, git, S3, gRPC and HTTP substrate: outside code.
- Async scheduling inside one store call, and the locks that make it atomic.
- `resolved_callers_of`, graph diff, overview, top, list and unreferenced: they would add only easy members.
