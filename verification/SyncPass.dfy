/** Sync as it runs: raw store calls one at a time, with others free to act before each of them.
    What a run does is pinned down as the trace of calls it leaves behind. */
module SyncPass {
  import opened Wrappers
  import opened Records
  import opened Sync
  import opened Contention

  const MAX_SYNC_PASSES: nat := 16

  datatype SyncConflict = SyncConflict(key: RecordKey, a: Record, b: Record)

  /** What happened to one key in one pass. */
  datatype Outcome =
    | Untouched
    | CopiedToA | CopiedToB
    | FastForwardedA | FastForwardedB
    | Merged
    | Conflicting(a: Record, b: Record)
    | Raced

  datatype Report = Report(
    copiedToA: seq<RecordKey>,
    copiedToB: seq<RecordKey>,
    fastForwardedToA: seq<RecordKey>,
    fastForwardedToB: seq<RecordKey>,
    merged: seq<RecordKey>,
    conflicts: seq<SyncConflict>,
    unconverged: seq<RecordKey>)

  const EMPTY_REPORT := Report([], [], [], [], [], [], [])

  /** The outcome of a pass over one key whose writes land. */
  function OutcomeOf(m: Merger, ra: Option<Record>, rb: Option<Record>): Outcome {
    match Decide(m, ra, rb)
    case Leave => Untouched
    case CopyToA(_) => CopiedToA
    case CopyToB(_) => CopiedToB
    case OverwriteA(_) => FastForwardedA
    case OverwriteB(_) => FastForwardedB
    case WriteBoth(_) => Merged
    case Surface => if ra.Some? && rb.Some? then Conflicting(ra.value, rb.value) else Untouched
  }

  /** Which list a key lands in, from what was read alone. A side without the record is copied to; a side
      whose revision the other's chain holds is fast-forwarded; and two that know nothing of each other
      are merged, or are a conflict when nothing is written. */
  lemma OutcomeExactly(m: Merger, ra: Option<Record>, rb: Option<Record>)
    ensures var o := OutcomeOf(m, ra, rb);
            && (o.CopiedToA? <==> ra.None? && rb.Some?)
            && (o.CopiedToB? <==> rb.None? && ra.Some?)
            && (o.FastForwardedB? <==> ra.Some? && rb.Some? && ra.value.revision != rb.value.revision
                                       && rb.value.revision in ra.value.ancestors)
            && (o.FastForwardedA? <==> ra.Some? && rb.Some? && ra.value.revision != rb.value.revision
                                       && ra.value.revision in rb.value.ancestors
                                       && rb.value.revision !in ra.value.ancestors)
            && (o.Merged? || o.Conflicting? <==> ra.Some? && rb.Some? && Apart(ra.value, rb.value))
            && (o.Conflicting? ==> ra == Some(o.a) && rb == Some(o.b))
            && (o.Untouched? <==> RevisionOf(ra) == RevisionOf(rb))
            && !o.Raced?
  {
    hide Reconcile;
    if ra.Some? && rb.Some? && Apart(ra.value, rb.value) {
      ReconciledOrSurfaced(m, ra.value, rb.value);
    }
  }

  lemma ReconciledOrSurfaced(m: Merger, a: Record, b: Record)
    ensures Reconcile(m, a, b).WriteBoth? || Reconcile(m, a, b).Surface?
  {
  }

  /** And what an undisturbed pass changed of the key: a copy and a fast-forward put one side's revision on
      the other and leave that side alone, a merge changes both, and the rest changes neither. */
  lemma OutcomeShows(m: Merger, ra: Option<Record>, rb: Option<Record>, capA: nat, capB: nat)
    ensures var o := OutcomeOf(m, ra, rb);
            var a, b := AfterA(m, ra, rb, capA), AfterB(m, ra, rb, capB);
            && (o.CopiedToA? || o.FastForwardedA? ==> b == rb && RevisionOf(a) == RevisionOf(rb) != RevisionOf(ra))
            && (o.CopiedToB? || o.FastForwardedB? ==> a == ra && RevisionOf(b) == RevisionOf(ra) != RevisionOf(rb))
            && (o.Merged? ==> RevisionOf(a) == RevisionOf(b))
            && (o.Conflicting? || o.Untouched? ==> a == ra && b == rb)
  {
    hide Reconcile;
    QuietPassConverges(m, ra, rb, capA, capB);
  }

  // ---- one key ----

  /** One key of one pass: what was read on each side, and whether each write it called for landed. */
  datatype Block = Block(key: RecordKey, ra: Option<Record>, rb: Option<Record>, landedA: bool, landedB: bool) {
    function ReadOn(side: Side): Option<Record> {
      if side.OnA? then ra else rb
    }

    predicate LandedOn(side: Side) {
      if side.OnA? then landedA else landedB
    }
  }

  predicate Writes(m: Merger, ra: Option<Record>, rb: Option<Record>, side: Side) {
    var d := Decide(m, ra, rb);
    if side.OnA? then WritesA(d) else WritesB(d)
  }

  /** A write the decision called for lost its race. */
  predicate LostRace(m: Merger, b: Block) {
    || (Writes(m, b.ra, b.rb, OnA) && !b.landedA)
    || (Writes(m, b.ra, b.rb, OnB) && !b.landedB)
  }

  function OutcomeIn(m: Merger, b: Block): Outcome {
    if LostRace(m, b) then Raced else OutcomeOf(m, b.ra, b.rb)
  }

  // ---- the calls a run makes, behind those made before it ----

  function AfterReads(before: seq<Call>, b: Block): seq<Call> {
    before + [Call(OnA, RawRead(b.key, b.ra))] + [Call(OnB, RawRead(b.key, b.rb))]
  }

  /** One side's write, when the decision calls for one: a copy expects the key absent, an
      overwrite the revision read. */
  function AfterWrite(m: Merger, before: seq<Call>, b: Block, side: Side): seq<Call> {
    if Writes(m, b.ra, b.rb, side) then
      before + [Call(side, RawWrite(Decide(m, b.ra, b.rb).record, RevisionOf(b.ReadOn(side)), b.LandedOn(side)))]
    else before
  }

  /** The calls made when `side` is about to be written. */
  function BeforeWrite(m: Merger, before: seq<Call>, b: Block, side: Side): seq<Call> {
    if side.OnA? then AfterReads(before, b) else AfterWrite(m, AfterReads(before, b), b, OnA)
  }

  function AfterBlock(m: Merger, before: seq<Call>, b: Block): seq<Call> {
    AfterWrite(m, BeforeWrite(m, before, b, OnB), b, OnB)
  }

  function AfterBlocks(m: Merger, before: seq<Call>, blocks: seq<Block>): seq<Call> {
    if blocks == [] then before
    else AfterBlock(m, AfterBlocks(m, before, blocks[..|blocks| - 1]), blocks[|blocks| - 1])
  }

  /** One pass: the raw keys of both sides, then each key of their union once. */
  datatype Pass = Pass(keysA: set<RecordKey>, keysB: set<RecordKey>, blocks: seq<Block>)

  ghost predicate Covers(blocks: seq<Block>, keys: set<RecordKey>) {
    && (forall k :: k in keys <==> exists i :: 0 <= i < |blocks| && blocks[i].key == k)
    && (forall i, j :: 0 <= i < j < |blocks| ==> blocks[i].key != blocks[j].key)
  }

  function AfterLists(before: seq<Call>, p: Pass): seq<Call> {
    before + [Call(OnA, RawList(p.keysA))] + [Call(OnB, RawList(p.keysB))]
  }

  function AfterPass(m: Merger, before: seq<Call>, p: Pass): seq<Call> {
    AfterBlocks(m, AfterLists(before, p), p.blocks)
  }

  function AfterPasses(m: Merger, before: seq<Call>, passes: seq<Pass>): seq<Call> {
    if passes == [] then before
    else AfterPass(m, AfterPasses(m, before, passes[..|passes| - 1]), passes[|passes| - 1])
  }

  // ---- the report ----

  /** File one key's outcome under the report's lists; a raced key is kept apart. */
  function Filed(report: Report, key: RecordKey, outcome: Outcome): Report {
    match outcome
    case Untouched | Raced => report
    case CopiedToA => report.(copiedToA := report.copiedToA + [key])
    case CopiedToB => report.(copiedToB := report.copiedToB + [key])
    case FastForwardedA => report.(fastForwardedToA := report.fastForwardedToA + [key])
    case FastForwardedB => report.(fastForwardedToB := report.fastForwardedToB + [key])
    case Merged => report.(merged := report.merged + [key])
    case Conflicting(a, b) => report.(conflicts := report.conflicts + [SyncConflict(key, a, b)])
  }

  function ReportOn(m: Merger, blocks: seq<Block>): Report {
    if blocks == [] then EMPTY_REPORT
    else
      var last := blocks[|blocks| - 1];
      Filed(ReportOn(m, blocks[..|blocks| - 1]), last.key, OutcomeIn(m, last))
  }

  function RacedIn(m: Merger, blocks: seq<Block>): seq<RecordKey> {
    if blocks == [] then []
    else
      var last := blocks[|blocks| - 1];
      RacedIn(m, blocks[..|blocks| - 1]) + if OutcomeIn(m, last) == Raced then [last.key] else []
  }

  predicate Listed(report: Report, key: RecordKey, outcome: Outcome) {
    match outcome
    case Untouched | Raced => false
    case CopiedToA => key in report.copiedToA
    case CopiedToB => key in report.copiedToB
    case FastForwardedA => key in report.fastForwardedToA
    case FastForwardedB => key in report.fastForwardedToB
    case Merged => key in report.merged
    case Conflicting(a, b) => SyncConflict(key, a, b) in report.conflicts
  }

  lemma FiledLists(report: Report, key: RecordKey, outcome: Outcome, k: RecordKey, o: Outcome)
    ensures Listed(Filed(report, key, outcome), k, o) <==>
              Listed(report, k, o) || (k == key && o == outcome && o != Untouched && o != Raced)
  {
  }

  ghost predicate Came(m: Merger, blocks: seq<Block>, k: RecordKey, o: Outcome) {
    exists i :: 0 <= i < |blocks| && blocks[i].key == k && OutcomeIn(m, blocks[i]) == o
  }

  lemma CameSplits(m: Merger, blocks: seq<Block>, k: RecordKey, o: Outcome)
    requires blocks != []
    ensures var last := blocks[|blocks| - 1];
            Came(m, blocks, k, o) <==>
              Came(m, blocks[..|blocks| - 1], k, o) || (last.key == k && OutcomeIn(m, last) == o)
  {
    hide OutcomeIn;
    var front, last := blocks[..|blocks| - 1], blocks[|blocks| - 1];
    if Came(m, front, k, o) {
      var i :| 0 <= i < |front| && front[i].key == k && OutcomeIn(m, front[i]) == o;
      assert blocks[i] == front[i];
    }
    if Came(m, blocks, k, o) && !(last.key == k && OutcomeIn(m, last) == o) {
      var i :| 0 <= i < |blocks| && blocks[i].key == k && OutcomeIn(m, blocks[i]) == o;
      assert front[i] == blocks[i];
    }
  }

  /** The report lists each key under the outcome it came to and nowhere else, and the raced keys
      are kept apart from it. */
  lemma {:induction false} ReportIsExact(m: Merger, blocks: seq<Block>, k: RecordKey, o: Outcome)
    ensures Listed(ReportOn(m, blocks), k, o) <==> Came(m, blocks, k, o) && o != Untouched && o != Raced
    ensures k in RacedIn(m, blocks) <==> Came(m, blocks, k, Raced)
    decreases |blocks|
  {
    hide OutcomeIn, Came;
    if blocks == [] {
      NothingCame(m, k, o);
      NothingCame(m, k, Raced);
    } else {
      var front, last := blocks[..|blocks| - 1], blocks[|blocks| - 1];
      ReportIsExact(m, front, k, o);
      CameSplits(m, blocks, k, o);
      CameSplits(m, blocks, k, Raced);
      FiledLists(ReportOn(m, front), last.key, OutcomeIn(m, last), k, o);
    }
  }

  lemma NothingCame(m: Merger, k: RecordKey, o: Outcome)
    ensures !Came(m, [], k, o)
  {
  }

  // ---- the run ----

  method WriteSide(p: Pair, m: Merger, key: RecordKey, ra: Option<Record>, rb: Option<Record>, side: Side,
                   ghost block: Block)
    returns (landed: bool)
    requires p.Valid()
    requires block.key == key && block.ra == ra && block.rb == rb
    modifies p, p.a, p.b
    ensures p.Valid()
    ensures !Writes(m, ra, rb, side) ==> landed
    ensures var done := if side.OnA? then block.(landedA := landed) else block.(landedB := landed);
            p.trace == AfterWrite(m, old(p.trace), done, side)
  {
    hide Decide, Replay, Truthful;
    landed := true;
    if Writes(m, ra, rb, side) {
      landed := p.PutRaw(side, Decide(m, ra, rb).record, RevisionOf(if side.OnA? then ra else rb));
    }
  }

  /** One key: two reads, then the writes they call for. */
  method SyncKey(p: Pair, m: Merger, key: RecordKey) returns (outcome: Outcome, ghost block: Block)
    requires p.Valid()
    modifies p, p.a, p.b
    ensures p.Valid()
    ensures block.key == key && p.trace == AfterBlock(m, old(p.trace), block)
    ensures outcome == OutcomeIn(m, block)
  {
    hide Decide, Replay, Truthful, OutcomeOf;
    var ra := p.GetRaw(OnA, key);
    var rb := p.GetRaw(OnB, key);
    block := Block(key, ra, rb, true, true);
    var landedA := WriteSide(p, m, key, ra, rb, OnA, block);
    block := block.(landedA := landedA);
    var landedB := WriteSide(p, m, key, ra, rb, OnB, block);
    block := block.(landedB := landedB);
    outcome := if landedA && landedB then OutcomeOf(m, ra, rb) else Raced;
  }

  lemma CoversOneMore(blocks: seq<Block>, keys: set<RecordKey>, b: Block)
    requires Covers(blocks, keys) && b.key !in keys
    ensures Covers(blocks + [b], keys + {b.key})
  {
    var more := blocks + [b];
    forall k ensures k in keys + {b.key} <==> exists i :: 0 <= i < |more| && more[i].key == k {
      assert more[|blocks|] == b;
      if k in keys {
        var i :| 0 <= i < |blocks| && blocks[i].key == k;
        assert more[i].key == k;
      }
    }
  }

  lemma BlocksOneMore(m: Merger, before: seq<Call>, blocks: seq<Block>, b: Block)
    ensures AfterBlocks(m, before, blocks + [b]) == AfterBlock(m, AfterBlocks(m, before, blocks), b)
    ensures ReportOn(m, blocks + [b]) == Filed(ReportOn(m, blocks), b.key, OutcomeIn(m, b))
    ensures RacedIn(m, blocks + [b]) == RacedIn(m, blocks) + if OutcomeIn(m, b) == Raced then [b.key] else []
  {
    hide AfterBlock, OutcomeIn, Filed;
    assert (blocks + [b])[..|blocks + [b]| - 1] == blocks;
  }

  method ReconcileKeys(p: Pair, m: Merger, keys: set<RecordKey>)
    returns (report: Report, raced: seq<RecordKey>, ghost blocks: seq<Block>)
    requires p.Valid()
    modifies p, p.a, p.b
    ensures p.Valid() && p.trace == AfterBlocks(m, old(p.trace), blocks) && Covers(blocks, keys)
    ensures report == ReportOn(m, blocks) && raced == RacedIn(m, blocks)
  {
    hide AfterBlock, OutcomeIn, Filed, Covers, Replay, Truthful;
    report, raced, blocks := EMPTY_REPORT, [], [];
    ghost var done: set<RecordKey> := {};
    var todo := keys;
    NothingCovered();
    while todo != {}
      invariant p.Valid() && p.trace == AfterBlocks(m, old(p.trace), blocks)
      invariant todo + done == keys && todo !! done && Covers(blocks, done)
      invariant report == ReportOn(m, blocks) && raced == RacedIn(m, blocks)
      decreases |todo|
    {
      var key :| key in todo;
      var outcome;
      ghost var block;
      outcome, block := SyncKey(p, m, key);
      BlocksOneMore(m, old(p.trace), blocks, block);
      CoversOneMore(blocks, done, block);
      report := Filed(report, key, outcome);
      raced := if outcome == Raced then raced + [key] else raced;
      blocks, done := blocks + [block], done + {key};
      todo := todo - {key};
    }
    assert done == keys;
  }

  lemma NothingCovered()
    ensures Covers([], {})
  {
  }

  /** One pass over the union of raw keys. */
  method RunPass(p: Pair, m: Merger) returns (report: Report, raced: seq<RecordKey>, ghost pass: Pass)
    requires p.Valid()
    modifies p, p.a, p.b
    ensures p.Valid()
    ensures p.trace == AfterPass(m, old(p.trace), pass) && Covers(pass.blocks, pass.keysA + pass.keysB)
    ensures report == ReportOn(m, pass.blocks) && raced == RacedIn(m, pass.blocks)
  {
    hide Replay, Truthful, Covers;
    var keysA := p.ListRaw(OnA);
    var keysB := p.ListRaw(OnB);
    ghost var blocks;
    report, raced, blocks := ReconcileKeys(p, m, keysA + keysB);
    pass := Pass(keysA, keysB, blocks);
  }

  /** The passes of a whole run: at most sixteen, every one but the last raced, and only the
      sixteenth may be the last and raced. */
  ghost predicate Retried(m: Merger, passes: seq<Pass>) {
    && 1 <= |passes| <= MAX_SYNC_PASSES
    && (forall i :: 0 <= i < |passes| ==> Covers(passes[i].blocks, passes[i].keysA + passes[i].keysB))
    && (forall i :: 0 <= i < |passes| - 1 ==> RacedIn(m, passes[i].blocks) != [])
    && (|passes| < MAX_SYNC_PASSES ==> RacedIn(m, passes[|passes| - 1].blocks) == [])
  }

  /** Passes so far, all of them raced. */
  ghost predicate Retrying(m: Merger, passes: seq<Pass>) {
    && |passes| <= MAX_SYNC_PASSES
    && (forall i :: 0 <= i < |passes| ==> Covers(passes[i].blocks, passes[i].keysA + passes[i].keysB))
    && (forall i :: 0 <= i < |passes| ==> RacedIn(m, passes[i].blocks) != [])
  }

  lemma OneMorePass(m: Merger, before: seq<Call>, passes: seq<Pass>, pass: Pass)
    requires Retrying(m, passes) && |passes| < MAX_SYNC_PASSES
    requires Covers(pass.blocks, pass.keysA + pass.keysB)
    ensures AfterPasses(m, before, passes + [pass]) == AfterPass(m, AfterPasses(m, before, passes), pass)
    ensures if RacedIn(m, pass.blocks) == [] then Retried(m, passes + [pass]) else Retrying(m, passes + [pass])
  {
    hide AfterPass, Covers, RacedIn;
    assert (passes + [pass])[..|passes + [pass]| - 1] == passes;
  }

  /** The report of the last pass, with the keys it raced as unconverged. */
  function FinalReport(m: Merger, last: Pass): Report {
    ReportOn(m, last.blocks).(unconverged := RacedIn(m, last.blocks))
  }

  lemma UnracedReport(m: Merger, blocks: seq<Block>)
    ensures ReportOn(m, blocks).unconverged == []
  {
    if blocks != [] {
      UnracedReport(m, blocks[..|blocks| - 1]);
    }
  }

  /** A run makes sixteen passes at most, and fewer only when the last left nothing unconverged. */
  lemma AtMostSixteenPasses(m: Merger, passes: seq<Pass>)
    requires Retried(m, passes)
    ensures |passes| <= 16 && (|passes| < 16 ==> FinalReport(m, passes[|passes| - 1]).unconverged == [])
  {
    hide RacedIn, ReportOn, Covers;
  }

  lemma NothingTried(m: Merger)
    ensures Retrying(m, [])
  {
  }

  lemma SixteenAreEnough(m: Merger, passes: seq<Pass>)
    requires |passes| == MAX_SYNC_PASSES && (Retrying(m, passes) || Retried(m, passes))
    ensures Retried(m, passes)
  {
  }

  lemma FinalReportIs(m: Merger, last: Pass)
    ensures FinalReport(m, last) == ReportOn(m, last.blocks).(unconverged := RacedIn(m, last.blocks))
  {
  }

  /** The retry loop: pass after pass until one is not raced, sixteen at most. The calls it leaves
      behind are exactly those of its passes, and it reports the last of them. */
  method RunSync(p: Pair, m: Merger) returns (report: Report, ghost passes: seq<Pass>)
    requires p.Valid()
    modifies p, p.a, p.b
    ensures p.Valid() && p.trace == AfterPasses(m, old(p.trace), passes)
    ensures Retried(m, passes) && report == FinalReport(m, passes[|passes| - 1])
  {
    hide AfterPass, Covers, RacedIn, ReportOn, Replay, Truthful, Retrying, Retried, FinalReport;
    report, passes := EMPTY_REPORT, [];
    var n := 0;
    NothingTried(m);
    while n < MAX_SYNC_PASSES
      invariant n == |passes| <= MAX_SYNC_PASSES
      invariant p.Valid() && p.trace == AfterPasses(m, old(p.trace), passes)
      invariant Retrying(m, passes)
      invariant n > 0 ==> report == FinalReport(m, passes[n - 1])
    {
      var raced;
      ghost var pass;
      report, raced, pass := RunPass(p, m);
      OneMorePass(m, old(p.trace), passes, pass);
      UnracedReport(m, pass.blocks);
      FinalReportIs(m, pass);
      passes, n := passes + [pass], n + 1;
      if raced == [] {
        break;
      }
      report := report.(unconverged := raced);
    }
    if n == MAX_SYNC_PASSES {
      SixteenAreEnough(m, passes);
    }
  }
}
