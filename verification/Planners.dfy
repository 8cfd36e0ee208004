/** What a store must do for each write, decided from the record it holds now. */
module Planners {
  import opened Wrappers
  import opened Records
  import opened Ancestors
  import opened Links

  datatype Conflict = Conflict(expected: Option<Revision>, current: Record)

  datatype PutPlan = Write(record: Record) | Refuse(conflict: Conflict) | Missing | Rejected

  datatype DeletePlan = Bury(tombstone: Record) | NothingToDelete | DeleteConflict(conflict: Conflict)

  datatype PurgePlan = Remove | NothingToPurge | PurgeConflict(conflict: Conflict)

  /** What a delete puts in the place of a live record. */
  function TombstoneOf(current: Record, now: int, cap: nat, author: Option<string>): Record {
    var revision := Revision(current.revision.counter + 1, TombstoneHash());
    Record(
      current.key,
      Tombstone,
      revision,
      Some(current.revision),
      if IsManifest(current.kind) then current.body else Inline([]),
      current.meta.(author := if author.Some? then author.value else current.meta.author, updated := now),
      [],
      Fold(revision, [], Some(current), cap),
      Some(now),
      if current.body.Blob? then Some(current.body.hash) else None,
      if IsManifest(current.kind) then Some(current.kind) else None)
  }

  /** A tombstone that keeps a manifest body: the window in which it can be restored. */
  predicate IsRestoreWindow(t: Record) {
    t.deletedKind.Some? && IsManifest(t.deletedKind.value)
  }

  /** Decide a consumer put. */
  function PlanPut(current: Option<Record>, record: Record, expected: Option<Revision>, now: int, cap: nat): PutPlan {
    if record.IsTombstone() then Rejected
    else
      match current
      case None =>
        if expected.Some? then Missing
        else Write(record.(meta := record.meta.(created := now, updated := now),
                           ancestors := Fold(record.revision, record.ancestors, None, cap)))
      case Some(t) =>
        if t.IsTombstone() then
          if expected.Some? then Missing
          else if IsRestoreWindow(t) then Rejected
          else
            var revision := Revision(t.revision.counter + 1, HashOf(record.body.Bytes()));
            Write(record.(revision := revision,
                          parent := Some(t.revision),
                          deletedAt := None,
                          deletedBlob := None,
                          deletedKind := None,
                          meta := record.meta.(created := now, updated := now),
                          ancestors := Fold(revision, record.ancestors, Some(t), cap)))
        else if expected == Some(t.revision) then
          Write(record.(meta := record.meta.(created := t.meta.created, updated := now),
                        ancestors := Fold(record.revision, record.ancestors, Some(t), cap)))
        else Refuse(Conflict(expected, t))
  }

  /** Decide a replication write, which never stamps and never recreates. */
  function PlanPutRaw(current: Option<Record>, record: Record, expected: Option<Revision>, cap: nat): PutPlan {
    match (current, expected)
    case (None, None) =>
      Write(record.(ancestors := Fold(record.revision, record.ancestors, None, cap)))
    case (None, Some(_)) => Missing
    case (Some(c), _) =>
      if expected == Some(c.revision) then
        Write(record.(ancestors := Fold(record.revision, record.ancestors, Some(c), cap)))
      else Refuse(Conflict(expected, c))
  }

  /** Decide a conditional delete. */
  function PlanDelete(current: Option<Record>, expected: Option<Revision>, now: int, cap: nat,
                      author: Option<string>): DeletePlan
  {
    match current
    case None => NothingToDelete
    case Some(c) =>
      if c.IsTombstone() then NothingToDelete
      else if expected == None || expected == Some(c.revision) then Bury(TombstoneOf(c, now, cap, author))
      else DeleteConflict(Conflict(expected, c))
  }

  /** Decide a purge: remove only the exact revision named. */
  function PlanPurge(current: Option<Record>, expected: Revision): PurgePlan {
    match current
    case None => NothingToPurge
    case Some(c) => if c.revision == expected then Remove else PurgeConflict(Conflict(Some(expected), c))
  }

  // ---- restoring a deleted manifest ----

  /** The live record that restores `tomb`. */
  function RestoredFrom(key: RecordKey, tomb: Record, kind: RecordKind, now: int, author: Option<string>): Record {
    Record(key, kind, Revision(tomb.revision.counter + 1, HashOf(tomb.body.Bytes())), Some(tomb.revision),
           tomb.body,
           tomb.meta.(author := if author.Some? then author.value else tomb.meta.author, updated := now),
           [], [], None, None, None)
  }

  // ---- reconciling two diverged records ----

  /** The revisions and chains of two diverged records, in the order they are gathered. */
  function BothChains(a: Record, b: Record): seq<Revision> {
    [a.revision] + a.ancestors + [b.revision] + b.ancestors
  }

  function ReconciledAncestors(stored: Revision, a: Record, b: Record, cap: nat): seq<Revision> {
    Fold(stored, BothChains(a, b), None, cap)
  }

  /** Of two diverged tombstones, the one with the higher revision, carrying both chains. */
  function TombstoneWinner(a: Record, b: Record, cap: nat): Record {
    var winner := if Newer(b.revision, a.revision) then b else a;
    winner.(ancestors := ReconciledAncestors(winner.revision, a, b, cap))
  }

  /** The live record that reconciles two diverged live records into `body`. */
  function ReconciledRecord(a: Record, b: Record, body: Body, author: string, origin: string, cap: nat): Record {
    var counter := if a.revision.counter >= b.revision.counter then a.revision.counter else b.revision.counter;
    var revision := Revision(counter + 1, HashOf(body.Bytes()));
    Record(
      a.key,
      a.kind,
      revision,
      Some(if a.revision.counter >= b.revision.counter then a.revision else b.revision),
      body,
      Meta(author,
           origin,
           if a.meta.created <= b.meta.created then a.meta.created else b.meta.created,
           if a.meta.updated >= b.meta.updated then a.meta.updated else b.meta.updated,
           a.meta.labels + b.meta.labels),
      LinkUnion(a.links, b.links),
      ReconciledAncestors(revision, a, b, cap),
      None, None, None)
  }

  /** A cap that never truncates: each input list is already bounded by its own store. */
  function LosslessCap(a: Record, b: Record): nat {
    |a.ancestors| + |b.ancestors| + 2
  }

  lemma {:induction false} ElemsSize(s: seq<Revision>)
    ensures |Elems(s)| <= |s|
  {
    if s != [] {
      ElemsSize(s[1..]);
      assert Elems(s) == {s[0]} + Elems(s[1..]);
    }
  }

  /** Two bounded chains and their revisions never exceed the lossless cap. */
  lemma BothChainsFit(stored: Revision, a: Record, b: Record)
    ensures |Pool(stored, BothChains(a, b), None)| <= LosslessCap(a, b)
  {
    var both := BothChains(a, b);
    ElemsSize(both);
    assert Elems(Chain(None)) == {};
    assert Pool(stored, both, None) == Elems(both) - {stored};
    if stored in Elems(both) {
      SubsetSize(Elems(both) - {stored}, Elems(both));
    }
  }

  /** Folding losslessly in sync and then to the destination's cap on the write gives what
      folding both chains directly to that cap would have given. */
  lemma LosslessThenCap(r: Record, a: Record, b: Record, dst: Record, cap: nat)
    requires r.ancestors == ReconciledAncestors(r.revision, a, b, LosslessCap(a, b))
    requires dst == a || dst == b
    ensures PlanPutRaw(Some(dst), r, Some(dst.revision), cap)
         == Write(r.(ancestors := ReconciledAncestors(r.revision, a, b, cap)))
  {
    var both := BothChains(a, b);
    BothChainsFit(r.revision, a, b);
    FoldLossless(r.revision, both, None, LosslessCap(a, b));
    assert Elems(Chain(Some(dst))) <= Elems(both);
    assert Pool(r.revision, r.ancestors, Some(dst)) == Pool(r.revision, both, None);
    FoldDependsOnPool(r.revision, r.ancestors, Some(dst), both, None, cap);
  }

  /** After both writes of a reconciliation the store with the smaller cap holds a prefix of
      the other's ancestor list, and both hold the same revision. */
  lemma ReconciledListsArePrefixes(r: Record, a: Record, b: Record, capA: nat, capB: nat)
    requires r.ancestors == ReconciledAncestors(r.revision, a, b, LosslessCap(a, b))
    requires capA <= capB
    ensures var wa := PlanPutRaw(Some(a), r, Some(a.revision), capA);
            var wb := PlanPutRaw(Some(b), r, Some(b.revision), capB);
            wa.Write? && wb.Write? && wa.record.ancestors <= wb.record.ancestors
            && wa.record.revision == wb.record.revision
  {
    LosslessThenCap(r, a, b, a, capA);
    LosslessThenCap(r, a, b, b, capB);
    FoldPrefix(r.revision, BothChains(a, b), None, capA, capB);
  }

  lemma ReconciledAncestorsSymmetric(stored: Revision, a: Record, b: Record, cap: nat)
    ensures ReconciledAncestors(stored, a, b, cap) == ReconciledAncestors(stored, b, a, cap)
  {
    assert Elems(BothChains(a, b)) == Elems(BothChains(b, a));
    FoldDependsOnPool(stored, BothChains(a, b), None, BothChains(b, a), None, cap);
  }

  /** The winner does not depend on which side is called `a`, once the revisions differ. */
  lemma TombstoneWinnerSymmetric(a: Record, b: Record, cap: nat)
    requires a.revision != b.revision
    ensures TombstoneWinner(a, b, cap) == TombstoneWinner(b, a, cap)
  {
    NewerIsTotal(a.revision, b.revision);
    ReconciledAncestorsSymmetric(TombstoneWinner(a, b, cap).revision, a, b, cap);
  }

  /** The winner is one of the two, and the other never outranks it. */
  lemma TombstoneWinnerIsGreatest(a: Record, b: Record, cap: nat)
    ensures var w := TombstoneWinner(a, b, cap);
            && (w.(ancestors := []) == a.(ancestors := []) || w.(ancestors := []) == b.(ancestors := []))
            && !Newer(a.revision, w.revision) && !Newer(b.revision, w.revision)
            && (cap >= LosslessCap(a, b) ==>
                  Elems(w.ancestors)
                  == Elems(a.ancestors) + Elems(b.ancestors) + {a.revision, b.revision} - {w.revision})
  {
    NewerIsTotal(a.revision, b.revision);
    if cap >= LosslessCap(a, b) {
      WinnerHoldsBoth(TombstoneWinner(a, b, cap).revision, a, b, cap);
    }
  }

  lemma WinnerHoldsBoth(stored: Revision, a: Record, b: Record, cap: nat)
    requires cap >= LosslessCap(a, b)
    ensures Elems(ReconciledAncestors(stored, a, b, cap))
         == Elems(a.ancestors) + Elems(b.ancestors) + {a.revision, b.revision} - {stored}
  {
    hide Fold, Elems, BothChains;
    BothChainsFit(stored, a, b);
    FoldLossless(stored, BothChains(a, b), None, cap);
    BothChainsHold(a, b);
    NothingChained();
  }

  lemma NothingChained()
    ensures Elems(Chain(None)) == {}
  {
  }

  lemma BothChainsHold(a: Record, b: Record)
    ensures Elems(BothChains(a, b)) == Elems(a.ancestors) + Elems(b.ancestors) + {a.revision, b.revision}
  {
    ElemsConcat([a.revision] + a.ancestors + [b.revision], b.ancestors);
    ElemsConcat([a.revision] + a.ancestors, [b.revision]);
    ElemsConcat([a.revision], a.ancestors);
    assert Elems([a.revision]) == {a.revision} && Elems([b.revision]) == {b.revision};
  }

  /** A reconciliation outranks both sides, so no chain of either can hold it. */
  lemma ReconciledOutranksBoth(a: Record, b: Record, body: Body, author: string, origin: string, cap: nat)
    ensures var r := ReconciledRecord(a, b, body, author, origin, cap);
            && Newer(r.revision, a.revision) && Newer(r.revision, b.revision)
            && r.parent.Some? && r.parent.value in {a.revision, b.revision}
            && a.revision.counter <= r.parent.value.counter && b.revision.counter <= r.parent.value.counter
            && (cap >= LosslessCap(a, b) ==> a.revision in r.ancestors && b.revision in r.ancestors)
  {
    hide ReconciledAncestors;
    var r := ReconciledRecord(a, b, body, author, origin, cap);
    if cap >= LosslessCap(a, b) {
      LosslessHoldsBoth(r.revision, a, b, cap);
    }
  }

  lemma LosslessHoldsBoth(stored: Revision, a: Record, b: Record, cap: nat)
    requires cap >= LosslessCap(a, b) && stored != a.revision && stored != b.revision
    ensures a.revision in ReconciledAncestors(stored, a, b, cap) && b.revision in ReconciledAncestors(stored, a, b, cap)
  {
    hide Fold;
    var both := BothChains(a, b);
    BothChainsFit(stored, a, b);
    FoldLossless(stored, both, None, cap);
    assert both[0] == a.revision && both[1 + |a.ancestors|] == b.revision;
    assert {a.revision, b.revision} <= Elems(ReconciledAncestors(stored, a, b, cap));
  }

  /** Which side is called `a` shows in a reconciliation in four ways only: it gives the kind and the
      key, on a counter tie it picks the parent, on a colliding label `b` wins, and `b`'s links come
      behind. */
  lemma ReconciledSymmetricExactly(a: Record, b: Record, body: Body, author: string, origin: string, cap: nat)
    ensures ReconciledRecord(a, b, body, author, origin, cap) == ReconciledRecord(b, a, body, author, origin, cap)
            <==> a.key == b.key && a.kind == b.kind
                 && (a.revision.counter != b.revision.counter || a.revision == b.revision)
                 && LabelsAgree(a.meta.labels, b.meta.labels)
                 && (Extends(a.links, b.links) || Extends(b.links, a.links))
  {
    hide ReconciledAncestors, LinkUnion, LabelsAgree, Extends;
    ReconciledAncestorsSymmetric(ReconciledRecord(a, b, body, author, origin, cap).revision, a, b, cap);
    LabelUnionSymmetricExactly(a.meta.labels, b.meta.labels);
    LinkUnionSymmetricExactly(a.links, b.links);
  }

  /** A reconciliation drops no link and no label of either side, and times span both. */
  lemma ReconciledKeepsProvenance(a: Record, b: Record, body: Body, author: string, origin: string, cap: nat)
    ensures var r := ReconciledRecord(a, b, body, author, origin, cap);
            && (forall l :: l in r.links <==> l in a.links || l in b.links)
            && r.meta.labels.Keys == a.meta.labels.Keys + b.meta.labels.Keys
            && (forall k :: k in r.meta.labels ==>
                  r.meta.labels[k] == if k in b.meta.labels then b.meta.labels[k] else a.meta.labels[k])
            && r.meta.created <= a.meta.created && r.meta.created <= b.meta.created
            && r.meta.updated >= a.meta.updated && r.meta.updated >= b.meta.updated
            && r.meta.created in {a.meta.created, b.meta.created} && r.meta.updated in {a.meta.updated, b.meta.updated}
            && r.meta.author == author && r.meta.origin == origin && r.body == body
            && r.deletedAt == None && r.deletedBlob == None && r.deletedKind == None
  {
    hide ReconciledAncestors;
    LinkUnionExact(a.links, b.links);
  }

  /** A delete can be mistaken for the edit of the same record only if the edit's bytes are the
      tombstone domain itself; an edit to an empty body never is. */
  lemma TombstoneIsNoEdit(current: Record, body: Body, writer: Meta, now: int, cap: nat, author: Option<string>)
    ensures TombstoneOf(current, now, cap, author).revision == current.Update(body, writer).revision
            <==> body.Bytes() == TOMBSTONE_DOMAIN
    ensures body == Inline([]) ==>
              TombstoneOf(current, now, cap, author).revision != current.Update(body, writer).revision
  {
    assert TOMBSTONE_DOMAIN[0] == 103;
  }
}
