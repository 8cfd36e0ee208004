/** What the trace of a running sync guarantees, whatever others did between its calls, and what it
    comes to when they did nothing. */
module SyncSafety {
  import opened Wrappers
  import opened Records
  import opened Planners
  import opened Stores
  import opened Sync
  import opened Contention
  import opened SyncPass

  // ---- one key ----

  lemma BeforeAWrite(m: Merger, w: Setting, before: seq<Call>, b: Block, side: Side)
    requires Truthful(w, AfterWrite(m, before, b, side))
    ensures Truthful(w, before)
    ensures |before| <= |AfterWrite(m, before, b, side)| <= |before| + 1
  {
    hide Replay, Decide, Answers;
    if Writes(m, b.ra, b.rb, side) {
      OneMoreCall(w, before, AfterWrite(m, before, b, side)[|before|]);
    }
  }

  /** The calls of one key, one after another, and what its two reads saw. */
  lemma BlockIsTruthful(m: Merger, w: Setting, before: seq<Call>, b: Block)
    requires Truthful(w, AfterBlock(m, before, b))
    ensures Truthful(w, before)
    ensures Truthful(w, AfterWrite(m, BeforeWrite(m, before, b, OnA), b, OnA))
    ensures Truthful(w, AfterWrite(m, BeforeWrite(m, before, b, OnB), b, OnB))
    ensures |AfterBlock(m, before, b)| >= |BeforeWrite(m, before, b, OnB)| >= |before| + 2
    ensures b.ra == Lookup(Found(w, before).a, b.key)
    ensures b.rb == Lookup(Found(w, before + [Call(OnA, RawRead(b.key, b.ra))]).b, b.key)
    ensures Replay(w, AfterReads(before, b)) == Found(w, before + [Call(OnA, RawRead(b.key, b.ra))])
    ensures Replay(w, before + [Call(OnA, RawRead(b.key, b.ra))]) == Found(w, before)
  {
    hide Replay, Decide, Truthful;
    BeforeAWrite(m, w, BeforeWrite(m, before, b, OnB), b, OnB);
    BeforeAWrite(m, w, AfterReads(before, b), b, OnA);
    var first := before + [Call(OnA, RawRead(b.key, b.ra))];
    OneMoreCall(w, first, Call(OnB, RawRead(b.key, b.rb)));
    OneMoreCall(w, before, Call(OnA, RawRead(b.key, b.ra)));
  }

  lemma ReadsKeepTheirKey(m: Merger, w: Setting, before: seq<Call>, b: Block)
    requires Truthful(w, AfterBlock(m, before, b)) && WellKeyed(w)
    ensures b.ra.Some? ==> b.ra.value.key == b.key
    ensures b.rb.Some? ==> b.rb.value.key == b.key
  {
    hide Replay, Decide, Truthful, WellKeyed, AfterBlock;
    BlockIsTruthful(m, w, before, b);
    ReplayIsKeyed(w, before);
    ReplayIsKeyed(w, before + [Call(OnA, RawRead(b.key, b.ra))]);
  }

  /** A decided record keeps the key of what it was decided from. */
  lemma DecisionKeepsKey(m: Merger, ra: Option<Record>, rb: Option<Record>, key: RecordKey)
    requires ra.Some? ==> ra.value.key == key
    requires rb.Some? ==> rb.value.key == key
    ensures var d := Decide(m, ra, rb); WritesA(d) || WritesB(d) ==> d.record.key == key
  {
  }

  /** `after` is `before` with `key` set to `r`. */
  ghost predicate SetAt(before: Table, after: Table, key: RecordKey, r: Option<Record>) {
    Lookup(after, key) == r && forall k :: k != key ==> Lookup(after, k) == Lookup(before, k)
  }

  function Other(side: Side): Side {
    if side.OnA? then OnB else OnA
  }

  /** What a key's write on one side did to the tables it found: it landed exactly if the key still
      held the revision, or the absence, this pass read there, and then it stored what the two reads
      call for; otherwise it changed nothing. */
  ghost predicate ReplacedItsRead(m: Merger, w: Setting, before: seq<Call>, b: Block, side: Side)
    requires Writes(m, b.ra, b.rb, side)
  {
    var at := BeforeWrite(m, before, b, side);
    var found, left := Found(w, at), Replay(w, AfterWrite(m, at, b, side));
    var held := Lookup(found.On(side), b.key);
    && (b.LandedOn(side) <==> RevisionOf(held) == RevisionOf(b.ReadOn(side)))
    && left.On(Other(side)) == found.On(Other(side))
    && (if b.LandedOn(side) then
          SetAt(found.On(side), left.On(side), b.key,
                AfterRaw(held, Decide(m, b.ra, b.rb).record, RevisionOf(held), w.Cap(side)))
        else left.On(side) == found.On(side))
  }

  lemma WriteReplacesItsRead(m: Merger, w: Setting, before: seq<Call>, b: Block, side: Side)
    requires Truthful(w, AfterBlock(m, before, b)) && WellKeyed(w) && Writes(m, b.ra, b.rb, side)
    ensures ReplacedItsRead(m, w, before, b, side)
  {
    hide Replay, Decide, Truthful, WellKeyed, AfterBlock, BeforeWrite, ReplacedItsRead;
    BlockIsTruthful(m, w, before, b);
    ReadsKeepTheirKey(m, w, before, b);
    DecisionKeepsKey(m, b.ra, b.rb, b.key);
    OneWrite(m, w, before, b, side);
  }

  lemma OneWrite(m: Merger, w: Setting, before: seq<Call>, b: Block, side: Side)
    requires Truthful(w, AfterWrite(m, BeforeWrite(m, before, b, side), b, side))
    requires Writes(m, b.ra, b.rb, side) && Decide(m, b.ra, b.rb).record.key == b.key
    ensures ReplacedItsRead(m, w, before, b, side)
  {
    hide Replay, Decide, Truthful, BeforeWrite;
    var at := BeforeWrite(m, before, b, side);
    var c := AfterWrite(m, at, b, side)[|at|];
    OneMoreCall(w, at, c);
    ConditionalWrite(w, Found(w, at), side, Decide(m, b.ra, b.rb).record, RevisionOf(b.ReadOn(side)));
  }

  /** A conditional write on any tables. */
  lemma ConditionalWrite(w: Setting, found: Tables, side: Side, record: Record, expected: Option<Revision>)
    ensures var held := Lookup(found.On(side), record.key);
            PlanFor(w, found, side, record, expected).Write? <==> RevisionOf(held) == expected
    ensures forall landed ::
              var left := AfterCall(w, found, Call(side, RawWrite(record, expected, landed)));
              var held := Lookup(found.On(side), record.key);
              && left.On(Other(side)) == found.On(Other(side))
              && (if RevisionOf(held) == expected then
                    SetAt(found.On(side), left.On(side), record.key, AfterRaw(held, record, expected, w.Cap(side)))
                  else left.On(side) == found.On(side))
  {
  }

  // ---- which keys are raced ----

  /** A write the key called for found something other than was read. */
  ghost predicate FoundMoved(m: Merger, w: Setting, before: seq<Call>, b: Block, side: Side) {
    && Writes(m, b.ra, b.rb, side)
    && RevisionOf(Lookup(Found(w, BeforeWrite(m, before, b, side)).On(side), b.key)) != RevisionOf(b.ReadOn(side))
  }

  /** A key is raced exactly when one of its writes found something other than was read. */
  lemma RacedExactly(m: Merger, w: Setting, before: seq<Call>, b: Block)
    requires Truthful(w, AfterBlock(m, before, b)) && WellKeyed(w)
    ensures OutcomeIn(m, b) == Raced <==> FoundMoved(m, w, before, b, OnA) || FoundMoved(m, w, before, b, OnB)
  {
    hide Replay, Truthful, WellKeyed, AfterBlock, BeforeWrite, Writes, OutcomeOf;
    NeverRacedUndisturbed(m, b.ra, b.rb);
    if Writes(m, b.ra, b.rb, OnA) {
      WriteReplacesItsRead(m, w, before, b, OnA);
    }
    if Writes(m, b.ra, b.rb, OnB) {
      WriteReplacesItsRead(m, w, before, b, OnB);
    }
  }

  lemma NeverRacedUndisturbed(m: Merger, ra: Option<Record>, rb: Option<Record>)
    ensures OutcomeOf(m, ra, rb) != Raced
  {
  }

  // ---- whole runs ----

  lemma {:induction false} BlocksAreTruthful(m: Merger, w: Setting, before: seq<Call>, blocks: seq<Block>, j: nat)
    requires Truthful(w, AfterBlocks(m, before, blocks)) && j <= |blocks|
    ensures Truthful(w, AfterBlocks(m, before, blocks[..j]))
    ensures |before| <= |AfterBlocks(m, before, blocks[..j])| <= |AfterBlocks(m, before, blocks)|
    decreases |blocks|
  {
    hide Replay, Truthful, AfterBlock;
    if blocks == [] {
      assert blocks[..j] == [];
    } else {
      var front := blocks[..|blocks| - 1];
      BlockIsTruthful(m, w, AfterBlocks(m, before, front), blocks[|blocks| - 1]);
      if j == |blocks| {
        assert blocks[..j] == blocks;
        BlocksAreTruthful(m, w, before, front, |front|);
      } else {
        assert front[..j] == blocks[..j];
        BlocksAreTruthful(m, w, before, front, j);
      }
    }
  }

  lemma PassIsTruthful(m: Merger, w: Setting, before: seq<Call>, p: Pass)
    requires Truthful(w, AfterPass(m, before, p))
    ensures Truthful(w, before) && Truthful(w, AfterLists(before, p))
    ensures |AfterLists(before, p)| == |before| + 2 <= |AfterPass(m, before, p)|
    ensures p.keysA == Found(w, before).a.Keys
    ensures Replay(w, before + [Call(OnA, RawList(p.keysA))]) == Found(w, before)
    ensures p.keysB == Found(w, before + [Call(OnA, RawList(p.keysA))]).b.Keys
    ensures Replay(w, AfterLists(before, p)) == Found(w, before + [Call(OnA, RawList(p.keysA))])
  {
    hide Replay, Truthful;
    BlocksAreTruthful(m, w, AfterLists(before, p), p.blocks, 0);
    var first := before + [Call(OnA, RawList(p.keysA))];
    OneMoreCall(w, first, Call(OnB, RawList(p.keysB)));
    OneMoreCall(w, before, Call(OnA, RawList(p.keysA)));
  }

  lemma {:induction false} PassesAreTruthful(m: Merger, w: Setting, before: seq<Call>, passes: seq<Pass>, i: nat)
    requires Truthful(w, AfterPasses(m, before, passes)) && i <= |passes|
    ensures Truthful(w, AfterPasses(m, before, passes[..i]))
    ensures |before| <= |AfterPasses(m, before, passes[..i])|
    decreases |passes|
  {
    hide Replay, Truthful, AfterPass;
    if passes == [] {
      assert passes[..i] == [];
    } else {
      var front := passes[..|passes| - 1];
      PassIsTruthful(m, w, AfterPasses(m, before, front), passes[|passes| - 1]);
      if i == |passes| {
        assert passes[..i] == passes && front[..|front|] == front;
        PassesAreTruthful(m, w, before, front, |front|);
      } else {
        assert front[..i] == passes[..i];
        PassesAreTruthful(m, w, before, front, i);
      }
    }
  }

  /** The calls made when pass `i` starts, and when it comes to its `j`-th key. */
  function CallsBefore(m: Merger, before: seq<Call>, passes: seq<Pass>, i: nat): seq<Call>
    requires i <= |passes|
  {
    AfterPasses(m, before, passes[..i])
  }

  function CallsUpTo(m: Merger, before: seq<Call>, passes: seq<Pass>, i: nat, j: nat): seq<Call>
    requires i < |passes| && j <= |passes[i].blocks|
  {
    AfterBlocks(m, AfterLists(CallsBefore(m, before, passes, i), passes[i]), passes[i].blocks[..j])
  }

  lemma PassOfRunIsTruthful(m: Merger, w: Setting, before: seq<Call>, passes: seq<Pass>, i: nat)
    requires Truthful(w, AfterPasses(m, before, passes)) && i < |passes|
    ensures Truthful(w, AfterPass(m, CallsBefore(m, before, passes, i), passes[i]))
  {
    hide Replay, Truthful, AfterPass;
    PassesAreTruthful(m, w, before, passes, i + 1);
    assert passes[..i + 1][..i] == passes[..i];
  }

  lemma BlockOfRunIsTruthful(m: Merger, w: Setting, before: seq<Call>, passes: seq<Pass>, i: nat, j: nat)
    requires Truthful(w, AfterPasses(m, before, passes)) && i < |passes| && j < |passes[i].blocks|
    ensures Truthful(w, AfterBlock(m, CallsUpTo(m, before, passes, i, j), passes[i].blocks[j]))
  {
    hide Replay, Truthful, AfterBlock;
    PassOfRunIsTruthful(m, w, before, passes, i);
    var blocks := passes[i].blocks;
    BlocksAreTruthful(m, w, AfterLists(CallsBefore(m, before, passes, i), passes[i]), blocks, j + 1);
    assert blocks[..j + 1][..j] == blocks[..j];
  }

  /** Sync never overwrites what it has not read: over a whole run, whatever others do, every write
      lands exactly if its key still holds what this pass read there, and changes that key alone. */
  lemma RunReplacesOnlyWhatItRead(m: Merger, w: Setting, before: seq<Call>, passes: seq<Pass>, i: nat, j: nat,
                                  side: Side)
    requires Truthful(w, AfterPasses(m, before, passes)) && WellKeyed(w)
    requires i < |passes| && j < |passes[i].blocks|
    requires var b := passes[i].blocks[j]; Writes(m, b.ra, b.rb, side)
    ensures ReplacedItsRead(m, w, CallsUpTo(m, before, passes, i, j), passes[i].blocks[j], side)
  {
    hide Replay, Truthful, AfterBlock, ReplacedItsRead, Writes, WellKeyed;
    BlockOfRunIsTruthful(m, w, before, passes, i, j);
    WriteReplacesItsRead(m, w, CallsUpTo(m, before, passes, i, j), passes[i].blocks[j], side);
  }

  /** The key of the last pass's `j`-th block was moved by others under one of its writes. */
  ghost predicate MovedInLast(m: Merger, w: Setting, before: seq<Call>, passes: seq<Pass>, j: nat)
    requires passes != [] && j < |passes[|passes| - 1].blocks|
  {
    var at := CallsUpTo(m, before, passes, |passes| - 1, j);
    var b := passes[|passes| - 1].blocks[j];
    FoundMoved(m, w, at, b, OnA) || FoundMoved(m, w, at, b, OnB)
  }

  /** The keys reported unconverged are exactly those that others moved under a write of the last pass. */
  lemma UnconvergedExactly(m: Merger, w: Setting, before: seq<Call>, passes: seq<Pass>, k: RecordKey)
    requires Truthful(w, AfterPasses(m, before, passes)) && WellKeyed(w) && Retried(m, passes)
    ensures var last := passes[|passes| - 1];
            k in FinalReport(m, last).unconverged <==>
              exists j :: 0 <= j < |last.blocks| && last.blocks[j].key == k && MovedInLast(m, w, before, passes, j)
  {
    hide Replay, Truthful, WellKeyed, AfterPasses, FoundMoved, CallsUpTo, OutcomeIn, Covers;
    var n := |passes| - 1;
    var last := passes[n];
    ReportIsExact(m, last.blocks, k, Raced);
    forall j | 0 <= j < |last.blocks|
      ensures OutcomeIn(m, last.blocks[j]) == Raced <==> MovedInLast(m, w, before, passes, j)
    {
      BlockOfRunIsTruthful(m, w, before, passes, n, j);
      RacedExactly(m, w, CallsUpTo(m, before, passes, n, j), last.blocks[j]);
    }
  }

  // ---- nobody else acts ----

  /** One key with nobody else about: both writes land on what was read. */
  lemma QuietBlock(m: Merger, w: Setting, before: seq<Call>, b: Block)
    requires Truthful(w, AfterBlock(m, before, b)) && WellKeyed(w)
    requires Quiet(w, |before|, |AfterBlock(m, before, b)|)
    ensures var t, left := Replay(w, before), Replay(w, AfterBlock(m, before, b));
            && b.ra == Lookup(t.a, b.key) && b.rb == Lookup(t.b, b.key) && !LostRace(m, b)
            && SetAt(t.a, left.a, b.key, AfterA(m, b.ra, b.rb, w.capA))
            && SetAt(t.b, left.b, b.key, AfterB(m, b.ra, b.rb, w.capB))
  {
    hide Replay, Truthful, WellKeyed, Decide, AfterWrite;
    BlockIsTruthful(m, w, before, b);
    var first := before + [Call(OnA, RawRead(b.key, b.ra))];
    QuietFindsWhatWasLeft(w, before);
    QuietFindsWhatWasLeft(w, first);
    QuietWrite(m, w, before, b, OnA);
    QuietWrite(m, w, before, b, OnB);
  }

  /** One side's write, or none, with nobody acting before it. */
  lemma QuietWrite(m: Merger, w: Setting, before: seq<Call>, b: Block, side: Side)
    requires Truthful(w, AfterBlock(m, before, b)) && WellKeyed(w)
    requires Quiet(w, |before|, |AfterBlock(m, before, b)|)
    ensures var t := Replay(w, BeforeWrite(m, before, b, side));
            var left := Replay(w, AfterWrite(m, BeforeWrite(m, before, b, side), b, side));
            && left.On(Other(side)) == t.On(Other(side))
            && (Lookup(t.On(side), b.key) == b.ReadOn(side) ==>
                  && (Writes(m, b.ra, b.rb, side) ==> b.LandedOn(side))
                  && SetAt(t.On(side), left.On(side), b.key,
                           if Writes(m, b.ra, b.rb, side) then
                             AfterRaw(b.ReadOn(side), Decide(m, b.ra, b.rb).record, RevisionOf(b.ReadOn(side)),
                                 w.Cap(side))
                           else b.ReadOn(side)))
  {
    hide Replay, Truthful, WellKeyed, Decide;
    if Writes(m, b.ra, b.rb, side) {
      BlockIsTruthful(m, w, before, b);
      BeforeAWrite(m, w, BeforeWrite(m, before, b, OnA), b, OnA);
      WriteReplacesItsRead(m, w, before, b, side);
      QuietFindsWhatWasLeft(w, BeforeWrite(m, before, b, side));
    }
  }

  ghost predicate Has(blocks: seq<Block>, k: RecordKey) {
    exists i :: 0 <= i < |blocks| && blocks[i].key == k
  }

  ghost predicate Once(blocks: seq<Block>) {
    forall i, j :: 0 <= i < j < |blocks| ==> blocks[i].key != blocks[j].key
  }

  /** The keys of these blocks have been reconciled from `t0`, the others are as they were; each
      block read what `t0` held and won its races. */
  ghost predicate PassedOver(m: Merger, w: Setting, t0: Tables, t: Tables, blocks: seq<Block>) {
    && (forall k :: Lookup(t.a, k) == if Has(blocks, k) then AfterA(m, Lookup(t0.a, k), Lookup(t0.b, k), w.capA)
                                      else Lookup(t0.a, k))
    && (forall k :: Lookup(t.b, k) == if Has(blocks, k) then AfterB(m, Lookup(t0.a, k), Lookup(t0.b, k), w.capB)
                                      else Lookup(t0.b, k))
    && (forall i :: 0 <= i < |blocks| ==> ReadUndisturbed(m, t0, blocks[i]))
  }

  ghost predicate ReadUndisturbed(m: Merger, t0: Tables, b: Block) {
    b.ra == Lookup(t0.a, b.key) && b.rb == Lookup(t0.b, b.key) && !LostRace(m, b)
  }

  lemma HasSplits(blocks: seq<Block>, k: RecordKey)
    requires blocks != []
    ensures Has(blocks, k) <==> Has(blocks[..|blocks| - 1], k) || blocks[|blocks| - 1].key == k
  {
    var front := blocks[..|blocks| - 1];
    if Has(blocks, k) && blocks[|blocks| - 1].key != k {
      var i :| 0 <= i < |blocks| && blocks[i].key == k;
      assert front[i].key == k;
    }
    if Has(front, k) {
      var i :| 0 <= i < |front| && front[i].key == k;
      assert blocks[i].key == k;
    }
  }

  lemma PassOverOne(m: Merger, w: Setting, t0: Tables, t: Tables, left: Tables, blocks: seq<Block>)
    requires blocks != [] && Once(blocks)
    requires PassedOver(m, w, t0, t, blocks[..|blocks| - 1])
    requires var b := blocks[|blocks| - 1];
             && b.ra == Lookup(t.a, b.key) && b.rb == Lookup(t.b, b.key) && !LostRace(m, b)
             && SetAt(t.a, left.a, b.key, AfterA(m, b.ra, b.rb, w.capA))
             && SetAt(t.b, left.b, b.key, AfterB(m, b.ra, b.rb, w.capB))
    ensures PassedOver(m, w, t0, left, blocks)
  {
    hide AfterA, AfterB, LostRace, Has;
    var front, b := blocks[..|blocks| - 1], blocks[|blocks| - 1];
    forall k ensures Has(blocks, k) <==> Has(front, k) || b.key == k {
      HasSplits(blocks, k);
    }
    NotYet(blocks);
    forall i | 0 <= i < |blocks| ensures ReadUndisturbed(m, t0, blocks[i]) {
      if i < |front| {
        assert ReadUndisturbed(m, t0, front[i]);
      }
    }
  }

  lemma NotYet(blocks: seq<Block>)
    requires blocks != [] && Once(blocks)
    ensures !Has(blocks[..|blocks| - 1], blocks[|blocks| - 1].key)
  {
  }

  lemma {:induction false} QuietBlocks(m: Merger, w: Setting, before: seq<Call>, blocks: seq<Block>)
    requires Truthful(w, AfterBlocks(m, before, blocks)) && WellKeyed(w) && Once(blocks)
    requires Quiet(w, |before|, |AfterBlocks(m, before, blocks)|)
    ensures PassedOver(m, w, Replay(w, before), Replay(w, AfterBlocks(m, before, blocks)), blocks)
    decreases |blocks|
  {
    hide Replay, Truthful, WellKeyed, AfterBlock, PassedOver, LostRace, AfterA, AfterB, SetAt;
    if blocks == [] {
      NothingPassedOver(m, w, Replay(w, before));
    } else {
      var front := blocks[..|blocks| - 1];
      var at := AfterBlocks(m, before, front);
      BlockIsTruthful(m, w, at, blocks[|blocks| - 1]);
      BlocksAreTruthful(m, w, before, front, 0);
      assert front[..0] == [];
      QuietBlocks(m, w, before, front);
      QuietBlock(m, w, at, blocks[|blocks| - 1]);
      PassOverOne(m, w, Replay(w, before), Replay(w, at), Replay(w, AfterBlocks(m, before, blocks)), blocks);
    }
  }

  lemma NothingPassedOver(m: Merger, w: Setting, t: Tables)
    ensures PassedOver(m, w, t, t, [])
  {
  }

  /** What both stores hold after an undisturbed pass, key by key. */
  ghost predicate Settled(m: Merger, w: Setting, t0: Tables, t: Tables) {
    && (forall k :: Lookup(t.a, k) == AfterA(m, Lookup(t0.a, k), Lookup(t0.b, k), w.capA))
    && (forall k :: Lookup(t.b, k) == AfterB(m, Lookup(t0.a, k), Lookup(t0.b, k), w.capB))
  }

  /** A pass during which nobody else acts races nothing, reads what both stores held at its start,
      and leaves every key reconciled. */
  lemma QuietPass(m: Merger, w: Setting, before: seq<Call>, p: Pass)
    requires Truthful(w, AfterPass(m, before, p)) && WellKeyed(w) && Covers(p.blocks, p.keysA + p.keysB)
    requires Quiet(w, |before|, |AfterPass(m, before, p)|)
    ensures var t0 := Replay(w, before);
            && Settled(m, w, t0, Replay(w, AfterPass(m, before, p)))
            && p.keysA == t0.a.Keys && p.keysB == t0.b.Keys
            && forall i :: 0 <= i < |p.blocks| ==> ReadUndisturbed(m, t0, p.blocks[i])
    ensures RacedIn(m, p.blocks) == []
  {
    hide Replay, Truthful, WellKeyed, AfterBlocks, PassedOver, AfterA, AfterB, RacedIn, LostRace;
    PassIsTruthful(m, w, before, p);
    QuietFindsWhatWasLeft(w, before);
    QuietFindsWhatWasLeft(w, before + [Call(OnA, RawList(p.keysA))]);
    QuietBlocks(m, w, AfterLists(before, p), p.blocks);
    AllPassedOver(m, w, Replay(w, before), Replay(w, AfterPass(m, before, p)), p);
    NoneRaced(m, Replay(w, before), p.blocks);
  }

  lemma AllPassedOver(m: Merger, w: Setting, t0: Tables, t: Tables, p: Pass)
    requires PassedOver(m, w, t0, t, p.blocks) && Covers(p.blocks, p.keysA + p.keysB)
    requires p.keysA == t0.a.Keys && p.keysB == t0.b.Keys
    ensures Settled(m, w, t0, t)
    ensures forall i :: 0 <= i < |p.blocks| ==> ReadUndisturbed(m, t0, p.blocks[i])
  {
    hide LostRace, AfterA, AfterB, Has, Covers;
    AbsentStaysAbsent(m, w);
    forall k ensures Has(p.blocks, k) <==> k in t0.a || k in t0.b {
      CoveredKeys(p.blocks, p.keysA + p.keysB, k);
    }
  }

  lemma CoveredKeys(blocks: seq<Block>, keys: set<RecordKey>, k: RecordKey)
    requires Covers(blocks, keys)
    ensures Has(blocks, k) <==> k in keys
  {
  }

  lemma AbsentStaysAbsent(m: Merger, w: Setting)
    ensures AfterA(m, None, None, w.capA) == None && AfterB(m, None, None, w.capB) == None
  {
  }

  lemma {:induction false} NoneRaced(m: Merger, t0: Tables, blocks: seq<Block>)
    requires forall i :: 0 <= i < |blocks| ==> ReadUndisturbed(m, t0, blocks[i])
    ensures RacedIn(m, blocks) == []
    decreases |blocks|
  {
    hide LostRace, OutcomeOf;
    if blocks != [] {
      var front, last := blocks[..|blocks| - 1], blocks[|blocks| - 1];
      forall i | 0 <= i < |front| ensures ReadUndisturbed(m, t0, front[i]) {
        assert front[i] == blocks[i];
      }
      NoneRaced(m, t0, front);
      assert ReadUndisturbed(m, t0, last);
      NeverRacedUndisturbed(m, last.ra, last.rb);
    }
  }

  // ---- convergence ----

  /** Both stores agree on every key's revision, but for the conflicts reported, which both sides
      still hold as reported. */
  ghost predicate Converged(t: Tables, report: Report) {
    forall k :: ConvergedAt(t, report, k)
  }

  ghost predicate ConvergedAt(t: Tables, report: Report, k: RecordKey) {
    RevisionOf(Lookup(t.a, k)) == RevisionOf(Lookup(t.b, k))
    || exists c :: c in report.conflicts && c.key == k && Lookup(t.a, k) == Some(c.a) && Lookup(t.b, k) == Some(c.b)
  }

  /** Whatever happened before, a run whose last pass nobody disturbed leaves nothing unconverged
      and both stores converged. */
  lemma QuietRunConverges(m: Merger, w: Setting, before: seq<Call>, passes: seq<Pass>)
    requires Truthful(w, AfterPasses(m, before, passes)) && WellKeyed(w) && Retried(m, passes)
    requires Quiet(w, |CallsBefore(m, before, passes, |passes| - 1)|, |AfterPasses(m, before, passes)|)
    ensures var report := FinalReport(m, passes[|passes| - 1]);
            report.unconverged == [] && Converged(Replay(w, AfterPasses(m, before, passes)), report)
  {
    hide Replay, Truthful, WellKeyed, AfterPass, Settled, Converged, RacedIn, ReportOn, Covers;
    var n := |passes| - 1;
    var at := CallsBefore(m, before, passes, n);
    PassOfRunIsTruthful(m, w, before, passes, n);
    QuietPass(m, w, at, passes[n]);
    SettledIsConverged(m, w, Replay(w, at), Replay(w, AfterPass(m, at, passes[n])), passes[n]);
  }

  lemma SettledIsConverged(m: Merger, w: Setting, t0: Tables, t: Tables, p: Pass)
    requires Settled(m, w, t0, t) && Covers(p.blocks, p.keysA + p.keysB)
    requires p.keysA == t0.a.Keys && p.keysB == t0.b.Keys
    requires forall i :: 0 <= i < |p.blocks| ==> ReadUndisturbed(m, t0, p.blocks[i])
    ensures Converged(t, FinalReport(m, p))
  {
    hide AfterA, AfterB, Decide, LostRace, ReportOn, Filed, RacedIn, ConvergedAt;
    forall k ensures ConvergedAt(t, FinalReport(m, p), k) {
      KeyConverges(m, w, t0, t, p, k);
    }
  }

  lemma ConflictingExactly(m: Merger, ra: Option<Record>, rb: Option<Record>, a: Record, b: Record)
    ensures OutcomeOf(m, ra, rb) == Conflicting(a, b) <==>
              ra == Some(a) && rb == Some(b) && Decide(m, Some(a), Some(b)).Surface?
  {
    hide Reconcile;
  }

  /** A conflict is reported by an undisturbed pass exactly when the key's two records call for one. */
  lemma ConflictsOfQuietPass(m: Merger, t0: Tables, p: Pass, c: SyncConflict)
    requires Covers(p.blocks, p.keysA + p.keysB) && p.keysA == t0.a.Keys && p.keysB == t0.b.Keys
    requires forall i :: 0 <= i < |p.blocks| ==> ReadUndisturbed(m, t0, p.blocks[i])
    ensures c in ReportOn(m, p.blocks).conflicts <==>
              Lookup(t0.a, c.key) == Some(c.a) && Lookup(t0.b, c.key) == Some(c.b)
                && Decide(m, Some(c.a), Some(c.b)).Surface?
  {
    hide LostRace, ReportOn, RacedIn, Decide, OutcomeOf;
    var ra, rb := Lookup(t0.a, c.key), Lookup(t0.b, c.key);
    ReportIsExact(m, p.blocks, c.key, Conflicting(c.a, c.b));
    ConflictingExactly(m, ra, rb, c.a, c.b);
    assert c in ReportOn(m, p.blocks).conflicts <==> Listed(ReportOn(m, p.blocks), c.key, Conflicting(c.a, c.b));
    forall i | 0 <= i < |p.blocks| && p.blocks[i].key == c.key ensures OutcomeIn(m, p.blocks[i])
      == OutcomeOf(m, ra, rb) {
      assert ReadUndisturbed(m, t0, p.blocks[i]);
    }
    if ra == Some(c.a) {
      var i :| 0 <= i < |p.blocks| && p.blocks[i].key == c.key;
      assert OutcomeIn(m, p.blocks[i]) == OutcomeOf(m, ra, rb);
    }
  }

  lemma KeyConverges(m: Merger, w: Setting, t0: Tables, t: Tables, p: Pass, k: RecordKey)
    requires Settled(m, w, t0, t) && Covers(p.blocks, p.keysA + p.keysB)
    requires p.keysA == t0.a.Keys && p.keysB == t0.b.Keys
    requires forall i :: 0 <= i < |p.blocks| ==> ReadUndisturbed(m, t0, p.blocks[i])
    ensures ConvergedAt(t, FinalReport(m, p), k)
  {
    hide AfterA, AfterB, LostRace, ReportOn, RacedIn, Covers, ReadUndisturbed, Decide;
    var ra, rb := Lookup(t0.a, k), Lookup(t0.b, k);
    QuietPassConverges(m, ra, rb, w.capA, w.capB);
    ConflictExactly(m, ra, rb);
    if Decide(m, ra, rb).Surface? {
      var c := SyncConflict(k, ra.value, rb.value);
      ConflictsOfQuietPass(m, t0, p, c);
      assert c in FinalReport(m, p).conflicts;
    }
  }

  /** After an undisturbed pass, a second one writes nothing, leaves both tables as they are, and
      reports exactly the conflicts the first one reported. */
  lemma SecondPassIsIdle(m: Merger, w: Setting, before: seq<Call>, p: Pass, q: Pass)
    requires Covers(p.blocks, p.keysA + p.keysB) && Covers(q.blocks, q.keysA + q.keysB) && WellKeyed(w)
    requires var between := AfterPass(m, before, p);
             && Truthful(w, between) && Truthful(w, AfterPass(m, between, q))
             && Quiet(w, |before|, |AfterPass(m, between, q)|) && |between| <= |AfterPass(m, between, q)|
    ensures forall j, side: Side :: 0 <= j < |q.blocks| ==> !Writes(m, q.blocks[j].ra, q.blocks[j].rb, side)
    ensures var between := AfterPass(m, before, p);
            forall k :: Lookup(Replay(w, AfterPass(m, between, q)).a, k) == Lookup(Replay(w, between).a, k)
                     && Lookup(Replay(w, AfterPass(m, between, q)).b, k) == Lookup(Replay(w, between).b, k)
    ensures forall c :: c in ReportOn(m, p.blocks).conflicts <==> c in ReportOn(m, q.blocks).conflicts
  {
    hide Replay, Truthful, WellKeyed, AfterPass, Writes, ReportOn, AfterA, AfterB, Covers, RacedIn, LostRace;
    var between := AfterPass(m, before, p);
    PassIsLonger(m, w, before, p);
    QuietPass(m, w, before, p);
    QuietPass(m, w, between, q);
    var t0, t, u := Replay(w, before), Replay(w, between), Replay(w, AfterPass(m, between, q));
    forall k ensures Lookup(u.a, k) == Lookup(t.a, k) && Lookup(u.b, k) == Lookup(t.b, k) {
      QuietPassIsFixpoint(m, Lookup(t0.a, k), Lookup(t0.b, k), w.capA, w.capB);
    }
    forall j, side: Side | 0 <= j < |q.blocks| ensures !Writes(m, q.blocks[j].ra, q.blocks[j].rb, side) {
      assert ReadUndisturbed(m, t, q.blocks[j]);
      SettledKeyIsIdle(m, w, t0, t, q.blocks[j], side);
    }
    forall c ensures c in ReportOn(m, p.blocks).conflicts <==> c in ReportOn(m, q.blocks).conflicts {
      SameConflicts(m, w, t0, t, p, q, c);
    }
  }

  lemma PassIsLonger(m: Merger, w: Setting, before: seq<Call>, p: Pass)
    requires Truthful(w, AfterPass(m, before, p))
    ensures |before| <= |AfterPass(m, before, p)|
  {
    hide AfterPass, Truthful;
    PassIsTruthful(m, w, before, p);
  }

  lemma SettledKeyIsIdle(m: Merger, w: Setting, t0: Tables, t: Tables, b: Block, side: Side)
    requires Settled(m, w, t0, t) && ReadUndisturbed(m, t, b)
    ensures !Writes(m, b.ra, b.rb, side)
  {
    hide AfterA, AfterB, LostRace, Reconcile, Decide;
    QuietPassIsFixpoint(m, Lookup(t0.a, b.key), Lookup(t0.b, b.key), w.capA, w.capB);
  }

  lemma SameConflicts(m: Merger, w: Setting, t0: Tables, t: Tables, p: Pass, q: Pass, c: SyncConflict)
    requires Settled(m, w, t0, t)
    requires Covers(p.blocks, p.keysA + p.keysB) && p.keysA == t0.a.Keys && p.keysB == t0.b.Keys
    requires forall i :: 0 <= i < |p.blocks| ==> ReadUndisturbed(m, t0, p.blocks[i])
    requires Covers(q.blocks, q.keysA + q.keysB) && q.keysA == t.a.Keys && q.keysB == t.b.Keys
    requires forall i :: 0 <= i < |q.blocks| ==> ReadUndisturbed(m, t, q.blocks[i])
    ensures c in ReportOn(m, p.blocks).conflicts <==> c in ReportOn(m, q.blocks).conflicts
  {
    hide LostRace, ReportOn, Covers, ReadUndisturbed, AfterA, AfterB, Decide;
    ConflictsOfQuietPass(m, t0, p, c);
    ConflictsOfQuietPass(m, t, q, c);
    var ra, rb := Lookup(t0.a, c.key), Lookup(t0.b, c.key);
    QuietPassIsFixpoint(m, ra, rb, w.capA, w.capB);
    QuietPassConverges(m, ra, rb, w.capA, w.capB);
  }

  // ---- what a write follows from ----

  /** The latest read of `key` on `side`; None when there was none, or it found the key absent. */
  function LastRead(calls: seq<Call>, side: Side, key: RecordKey): Option<Record> {
    if calls == [] then None
    else
      var c := calls[|calls| - 1];
      if c.side == side && c.op.RawRead? && c.op.key == key then c.op.got
      else LastRead(calls[..|calls| - 1], side, key)
  }

  /** This write, made after `calls`, is what the latest two reads of its key call for, and expects
      the revision, or the absence, the latest read on its own side found. */
  ghost predicate FollowsItsReads(m: Merger, calls: seq<Call>, c: Call) {
    c.op.RawWrite? ==>
      var ra, rb := LastRead(calls, OnA, c.op.record.key), LastRead(calls, OnB, c.op.record.key);
      && Writes(m, ra, rb, c.side)
      && c.op.record == Decide(m, ra, rb).record
      && c.op.expected == RevisionOf(if c.side.OnA? then ra else rb)
  }

  ghost predicate AllFollow(m: Merger, calls: seq<Call>) {
    forall n :: 0 <= n < |calls| ==> FollowsItsReads(m, calls[..n], calls[n])
  }

  lemma FollowsOneMore(m: Merger, calls: seq<Call>, c: Call)
    requires AllFollow(m, calls) && FollowsItsReads(m, calls, c)
    ensures AllFollow(m, calls + [c])
  {
    hide FollowsItsReads;
    var more := calls + [c];
    forall n | 0 <= n < |more| ensures FollowsItsReads(m, more[..n], more[n]) {
      assert more[..n] == calls[..n];
      if n == |calls| {
        assert calls[..n] == calls;
      }
    }
  }

  lemma LastReadPush(calls: seq<Call>, c: Call, side: Side, key: RecordKey)
    ensures LastRead(calls + [c], side, key)
         == if c.side == side && c.op.RawRead? && c.op.key == key then c.op.got else LastRead(calls, side, key)
  {
    assert (calls + [c])[..|calls + [c]| - 1] == calls;
  }

  lemma ReadsAreLast(before: seq<Call>, b: Block)
    ensures LastRead(AfterReads(before, b), OnA, b.key) == b.ra && LastRead(AfterReads(before, b), OnB, b.key) == b.rb
  {
    var first := before + [Call(OnA, RawRead(b.key, b.ra))];
    LastReadPush(before, first[|before|], OnA, b.key);
    LastReadPush(first, Call(OnB, RawRead(b.key, b.rb)), OnA, b.key);
    LastReadPush(first, Call(OnB, RawRead(b.key, b.rb)), OnB, b.key);
  }

  lemma WriteFollows(m: Merger, at: seq<Call>, b: Block, side: Side)
    requires AllFollow(m, at) && LastRead(at, OnA, b.key) == b.ra && LastRead(at, OnB, b.key) == b.rb
    requires Writes(m, b.ra, b.rb, side) ==> Decide(m, b.ra, b.rb).record.key == b.key
    ensures var after := AfterWrite(m, at, b, side);
            AllFollow(m, after) && LastRead(after, OnA, b.key) == b.ra && LastRead(after, OnB, b.key) == b.rb
  {
    hide Decide, AllFollow, LastRead;
    if Writes(m, b.ra, b.rb, side) {
      var c := AfterWrite(m, at, b, side)[|at|];
      FollowsOneMore(m, at, c);
      LastReadPush(at, c, OnA, b.key);
      LastReadPush(at, c, OnB, b.key);
    }
  }

  lemma BlockFollows(m: Merger, w: Setting, before: seq<Call>, b: Block)
    requires Truthful(w, AfterBlock(m, before, b)) && WellKeyed(w) && AllFollow(m, before)
    ensures AllFollow(m, AfterBlock(m, before, b))
  {
    hide Decide, AllFollow, LastRead, Truthful, Replay, WellKeyed, AfterWrite;
    ReadsKeepTheirKey(m, w, before, b);
    DecisionKeepsKey(m, b.ra, b.rb, b.key);
    var first := before + [Call(OnA, RawRead(b.key, b.ra))];
    FollowsOneMore(m, before, Call(OnA, RawRead(b.key, b.ra)));
    FollowsOneMore(m, first, Call(OnB, RawRead(b.key, b.rb)));
    ReadsAreLast(before, b);
    WriteFollows(m, AfterReads(before, b), b, OnA);
    WriteFollows(m, AfterWrite(m, AfterReads(before, b), b, OnA), b, OnB);
  }

  lemma {:induction false} BlocksFollow(m: Merger, w: Setting, before: seq<Call>, blocks: seq<Block>)
    requires Truthful(w, AfterBlocks(m, before, blocks)) && WellKeyed(w) && AllFollow(m, before)
    ensures AllFollow(m, AfterBlocks(m, before, blocks))
    decreases |blocks|
  {
    hide AllFollow, Truthful, Replay, WellKeyed, AfterBlock;
    if blocks != [] {
      var front := blocks[..|blocks| - 1];
      BlockIsTruthful(m, w, AfterBlocks(m, before, front), blocks[|blocks| - 1]);
      BlocksFollow(m, w, before, front);
      BlockFollows(m, w, AfterBlocks(m, before, front), blocks[|blocks| - 1]);
    }
  }

  /** Over a whole run, every write is what the latest reads of its key call for. */
  lemma {:induction false} RunFollowsItsReads(m: Merger, w: Setting, before: seq<Call>, passes: seq<Pass>)
    requires Truthful(w, AfterPasses(m, before, passes)) && WellKeyed(w) && AllFollow(m, before)
    ensures AllFollow(m, AfterPasses(m, before, passes))
    decreases |passes|
  {
    hide AllFollow, Truthful, Replay, WellKeyed, AfterBlocks;
    if passes != [] {
      var front, p := passes[..|passes| - 1], passes[|passes| - 1];
      var at := AfterPasses(m, before, front);
      PassIsTruthful(m, w, at, p);
      RunFollowsItsReads(m, w, before, front);
      FollowsOneMore(m, at, Call(OnA, RawList(p.keysA)));
      FollowsOneMore(m, at + [Call(OnA, RawList(p.keysA))], Call(OnB, RawList(p.keysB)));
      BlocksFollow(m, w, AfterLists(at, p), p.blocks);
    }
  }

  // ---- bodies ----

  ghost predicate HashesAreTrue(t: Tables) {
    (forall k :: k in t.a ==> HashIsTrue(t.a[k])) && (forall k :: k in t.b ==> HashIsTrue(t.b[k]))
  }

  /** The stores start with true hashes and others keep to them. */
  ghost predicate WellHashed(w: Setting) {
    && HashesAreTrue(w.start)
    && (forall n, k :: w.others(n).a.Some? && k in w.others(n).a.value ==> HashIsTrue(w.others(n).a.value[k]))
    && (forall n, k :: w.others(n).b.Some? && k in w.others(n).b.value ==> HashIsTrue(w.others(n).b.value[k]))
  }

  lemma DecidedHashIsTrue(m: Merger, ra: Option<Record>, rb: Option<Record>)
    requires ra.Some? ==> HashIsTrue(ra.value)
    requires rb.Some? ==> HashIsTrue(rb.value)
    ensures var d := Decide(m, ra, rb); WritesA(d) || WritesB(d) ==> HashIsTrue(d.record)
  {
    hide ReconciledAncestors;
  }

  ghost predicate LastReadsAreTrue(calls: seq<Call>) {
    forall side, key :: LastRead(calls, side, key).Some? ==> HashIsTrue(LastRead(calls, side, key).value)
  }

  lemma WriteKeepsHashes(w: Setting, found: Tables, c: Call)
    requires HashesAreTrue(found) && (c.op.RawWrite? ==> HashIsTrue(c.op.record))
    ensures HashesAreTrue(AfterCall(w, found, c))
  {
    hide Ancestors.Fold;
  }

  lemma FoundHashes(w: Setting, calls: seq<Call>)
    requires WellHashed(w) && HashesAreTrue(Replay(w, calls))
    ensures HashesAreTrue(Found(w, calls))
  {
    hide Replay;
  }

  lemma ReadsStayTrue(w: Setting, calls: seq<Call>, c: Call)
    requires LastReadsAreTrue(calls) && HashesAreTrue(Found(w, calls)) && Answers(w, Found(w, calls), c)
    ensures LastReadsAreTrue(calls + [c])
  {
    hide Found, LastRead;
    forall side, key ensures LastRead(calls + [c], side, key)
        == if c.side == side && c.op.RawRead? && c.op.key == key then c.op.got else LastRead(calls, side, key)
    {
      LastReadPush(calls, c, side, key);
    }
  }

  /** A sync keeps every hash true. */
  lemma {:induction false} SyncKeepsHashes(m: Merger, w: Setting, calls: seq<Call>)
    requires WellHashed(w) && Truthful(w, calls) && AllFollow(m, calls)
    ensures HashesAreTrue(Replay(w, calls)) && LastReadsAreTrue(calls)
    decreases |calls|
  {
    hide WellHashed, HashesAreTrue, Found, LastReadsAreTrue;
    if calls == [] {
      StartIsTrue(w);
    } else {
      var front, c := calls[..|calls| - 1], calls[|calls| - 1];
      assert front + [c] == calls;
      OneMoreCall(w, front, c);
      FollowFront(m, calls);
      SyncKeepsHashes(m, w, front);
      FoundHashes(w, front);
      FollowingHashIsTrue(m, front, c);
      WriteKeepsHashes(w, Found(w, front), c);
      ReadsStayTrue(w, front, c);
    }
  }

  lemma StartIsTrue(w: Setting)
    requires WellHashed(w)
    ensures HashesAreTrue(Replay(w, [])) && LastReadsAreTrue([])
  {
  }

  lemma FollowFront(m: Merger, calls: seq<Call>)
    requires calls != [] && AllFollow(m, calls)
    ensures AllFollow(m, calls[..|calls| - 1]) && FollowsItsReads(m, calls[..|calls| - 1], calls[|calls| - 1])
  {
    hide FollowsItsReads;
    var front := calls[..|calls| - 1];
    forall n | 0 <= n < |front| ensures FollowsItsReads(m, front[..n], front[n]) {
      assert front[..n] == calls[..n];
    }
  }

  lemma FollowingHashIsTrue(m: Merger, calls: seq<Call>, c: Call)
    requires LastReadsAreTrue(calls) && FollowsItsReads(m, calls, c)
    ensures c.op.RawWrite? ==> HashIsTrue(c.op.record)
  {
    hide LastRead, Decide, HashIsTrue;
    if c.op.RawWrite? {
      DecidedHashIsTrue(m, LastRead(calls, OnA, c.op.record.key), LastRead(calls, OnB, c.op.record.key));
    }
  }

  /** Where the two stores agree on a revision, they agree on the body: two live records have the same
      bytes, and a live record can share a tombstone's revision only if its bytes are the tombstone
      domain. */
  ghost predicate BodiesAgree(t: Tables) {
    forall k :: k in t.a && k in t.b && t.a[k].revision == t.b[k].revision ==>
      && (!t.a[k].IsTombstone() && !t.b[k].IsTombstone() ==> t.a[k].body.Bytes() == t.b[k].body.Bytes())
      && (!t.a[k].IsTombstone() && !t.b[k].IsTombstone() && t.a[k].body.Blob? && t.b[k].body.Blob? ==>
            t.a[k].body.hash == t.b[k].body.hash)
      && (t.a[k].IsTombstone() && !t.b[k].IsTombstone() ==> t.b[k].body.Bytes() == TOMBSTONE_DOMAIN)
      && (t.b[k].IsTombstone() && !t.a[k].IsTombstone() ==> t.a[k].body.Bytes() == TOMBSTONE_DOMAIN)
  }

  /** After a sync, whatever others did, agreement on a revision is agreement on the body. */
  lemma SyncedBodiesAgree(m: Merger, w: Setting, passes: seq<Pass>)
    requires var calls := AfterPasses(m, [], passes); Truthful(w, calls) && WellKeyed(w) && WellHashed(w)
    ensures BodiesAgree(Replay(w, AfterPasses(m, [], passes)))
  {
    hide Truthful, Replay, WellKeyed, WellHashed, AfterPasses, AllFollow, BodiesAgree, HashesAreTrue;
    NothingFollows(m);
    RunFollowsItsReads(m, w, [], passes);
    SyncKeepsHashes(m, w, AfterPasses(m, [], passes));
    TrueHashesAgree(Replay(w, AfterPasses(m, [], passes)));
  }

  lemma TrueHashesAgree(t: Tables)
    requires HashesAreTrue(t)
    ensures BodiesAgree(t)
  {
    hide HexText;
    forall k | k in t.a && k in t.b && t.a[k].revision == t.b[k].revision && t.a[k].body.Blob? && t.b[k].body.Blob?
               && !t.a[k].IsTombstone() && !t.b[k].IsTombstone()
      ensures t.a[k].body.hash == t.b[k].body.hash
    {
      HexTextInjective(t.a[k].body.hash.preimage, t.b[k].body.hash.preimage);
    }
  }

  // ---- a whole sync ----

  /** Reconcile two stores. What others do before each call is given; the trace says what was made of
      it, and with nobody else about one pass is enough and both stores end converged. */
  method SyncStores(a: MemStore, b: MemStore, others: nat -> Interruption, m: Merger)
    returns (report: Report, ghost calls: seq<Call>, ghost passes: seq<Pass>)
    requires a != b
    modifies a, b
    ensures var w := Setting(Tables(old(a.records), old(b.records)), others, a.cap, b.cap);
            && calls == AfterPasses(m, [], passes) && Truthful(w, calls)
            && Tables(a.records, b.records) == Replay(w, calls)
            && (WellKeyed(w) ==> AllFollow(m, calls))
            && (WellKeyed(w) && WellHashed(w) ==> BodiesAgree(Tables(a.records, b.records)))
            && (WellKeyed(w) && (forall n :: others(n) == NOBODY) ==>
                  |passes| == 1 && report.unconverged == [] && Converged(Tables(a.records, b.records), report))
    ensures Retried(m, passes) && report == FinalReport(m, passes[|passes| - 1])
  {
    hide Truthful, Replay, WellKeyed, WellHashed, BodiesAgree, AfterPasses, AllFollow, Converged, RacedIn, ReportOn,
        Covers;
    var p := new Pair(a, b, others);
    report, passes := RunSync(p, m);
    calls := p.trace;
    ghost var w := p.World();
    if WellKeyed(w) {
      NothingFollows(m);
      RunFollowsItsReads(m, w, [], passes);
      if WellHashed(w) {
        SyncedBodiesAgree(m, w, passes);
      }
      if forall n :: others(n) == NOBODY {
        OnePassIsEnough(m, w, passes);
        QuietRunConverges(m, w, [], passes);
      }
    }
  }

  lemma NothingFollows(m: Merger)
    ensures AllFollow(m, [])
  {
  }

  lemma OnePassIsEnough(m: Merger, w: Setting, passes: seq<Pass>)
    requires Truthful(w, AfterPasses(m, [], passes)) && WellKeyed(w) && Retried(m, passes)
    requires forall n :: w.others(n) == NOBODY
    ensures |passes| == 1
  {
    hide Truthful, Replay, WellKeyed, AfterPass, RacedIn, Covers;
    if |passes| > 1 {
      PassOfRunIsTruthful(m, w, [], passes, 0);
      QuietPass(m, w, CallsBefore(m, [], passes, 0), passes[0]);
    }
  }
}
