/** Reconciling two stores: what is decided for one key, and one key's effect on both sides. */
module Sync {
  import opened Wrappers
  import opened Records
  import opened Ancestors
  import opened Planners
  import opened Lines
  import opened Json

  /** How two present records relate by revision chain. */
  datatype Relation = InSync | AAhead | BAhead | Diverged

  function Relate(a: Record, b: Record): Relation {
    if a.revision == b.revision then InSync
    else if b.revision in a.ancestors then AAhead
    else if a.revision in b.ancestors then BAhead
    else Diverged
  }

  /** What merging needs from outside: the JSON reader and writer, and the retained past bodies. */
  datatype Merger = Merger(
    parse: seq<byte> -> Option<Value>,
    render: Value -> seq<byte>,
    ancestry: Option<map<ContentHash, seq<byte>>>)
  {
    /** The body of the shared parent when it is retained, else an empty base. */
    function Base(a: Record, b: Record): seq<byte> {
      if ancestry.Some? && a.parent.Some? && a.parent == b.parent && a.parent.value.hash in ancestry.value
      then ancestry.value[a.parent.value.hash]
      else []
    }

    /** Merge two bodies by class; None needs the caller. */
    function MergeBodies(class_: MergeClass, base: seq<byte>, ours: Body, theirs: Body): Option<Body> {
      match class_
      case AppendOnly => Some(Inline(AppendMerge(ours.Bytes(), theirs.Bytes())))
      case Structured =>
        var b, o, t := parse(base), parse(ours.Bytes()), parse(theirs.Bytes());
        if b.None? || o.None? || t.None? then None
        else
          (match MergeValue(b.value, o.value, t.value)
           case None => None
           case Some(v) => Some(Inline(render(v))))
      case Opaque => None
      case Derived => Some(ours)
    }
  }

  const SYNC_AUTHOR := "gonzalo-sync"
  const SYNC_ORIGIN := "sync"

  /** What a pass does about one key, given the two raw reads. */
  datatype Decision =
    | Leave
    | CopyToA(record: Record)
    | CopyToB(record: Record)
    | OverwriteA(record: Record)
    | OverwriteB(record: Record)
    | WriteBoth(record: Record)
    | Surface

  function Decide(m: Merger, ra: Option<Record>, rb: Option<Record>): Decision {
    match (ra, rb)
    case (None, None) => Leave
    case (Some(a), None) => CopyToB(a)
    case (None, Some(b)) => CopyToA(b)
    case (Some(a), Some(b)) =>
      match Relate(a, b)
      case InSync => Leave
      case AAhead => OverwriteB(a)
      case BAhead => OverwriteA(b)
      case Diverged => Reconcile(m, a, b)
  }

  /** Two diverged records: the higher tombstone wins, a merge is written to both sides, and a
      delete against an edit, or a merge that needs the caller, is a conflict. */
  function Reconcile(m: Merger, a: Record, b: Record): Decision {
    if a.IsTombstone() && b.IsTombstone() then WriteBoth(TombstoneWinner(a, b, LosslessCap(a, b)))
    else if a.IsTombstone() || b.IsTombstone() then Surface
    else
      match m.MergeBodies(MergeClassOf(a.kind), m.Base(a, b), a.body, b.body)
      case None => Surface
      case Some(body) => WriteBoth(ReconciledRecord(a, b, body, SYNC_AUTHOR, SYNC_ORIGIN, LosslessCap(a, b)))
  }

  /** Where a decided record comes from. */
  ghost predicate Origin(m: Merger, ra: Option<Record>, rb: Option<Record>, d: Decision) {
    && (d.CopyToA? ==> ra == None && rb == Some(d.record))
    && (d.CopyToB? ==> rb == None && ra == Some(d.record))
    && (d.OverwriteA? ==> ra.Some? && rb == Some(d.record) && ra.value.revision in d.record.ancestors)
    && (d.OverwriteB? ==> rb.Some? && ra == Some(d.record) && rb.value.revision in d.record.ancestors)
    && (d.WriteBoth? ==> ra.Some? && rb.Some? && d == Reconcile(m, ra.value, rb.value))
  }

  lemma DecisionOrigin(m: Merger, ra: Option<Record>, rb: Option<Record>)
    ensures Origin(m, ra, rb, Decide(m, ra, rb))
  {
  }

  /** A reconciled record carries the revisions and the chains of both sides. */
  lemma ReconciledCarriesBoth(m: Merger, a: Record, b: Record)
    requires Reconcile(m, a, b).WriteBoth?
    ensures var r := Reconcile(m, a, b).record;
            r.ancestors == ReconciledAncestors(r.revision, a, b, LosslessCap(a, b))
  {
  }

  predicate WritesA(d: Decision) {
    d.CopyToA? || d.OverwriteA? || d.WriteBoth?
  }

  predicate WritesB(d: Decision) {
    d.CopyToB? || d.OverwriteB? || d.WriteBoth?
  }

  function RevisionOf(r: Option<Record>): Option<Revision> {
    if r.None? then None else Some(r.value.revision)
  }

  /** What a store holds after one replication write. */
  function AfterRaw(current: Option<Record>, record: Record, expected: Option<Revision>, cap: nat): Option<Record> {
    var plan := PlanPutRaw(current, record, expected, cap);
    if plan.Write? then Some(plan.record) else current
  }

  /** What both sides hold after an undisturbed pass over one key. */
  function AfterA(m: Merger, ra: Option<Record>, rb: Option<Record>, capA: nat): Option<Record> {
    var d := Decide(m, ra, rb);
    if WritesA(d) then AfterRaw(ra, d.record, RevisionOf(ra), capA) else ra
  }

  function AfterB(m: Merger, ra: Option<Record>, rb: Option<Record>, capB: nat): Option<Record> {
    var d := Decide(m, ra, rb);
    if WritesB(d) then AfterRaw(rb, d.record, RevisionOf(rb), capB) else rb
  }

  /** A write that names what the store holds always commits, and stores that revision and body. */
  lemma NamedWriteCommits(current: Option<Record>, record: Record, cap: nat)
    ensures PlanPutRaw(current, record, RevisionOf(current), cap).Write?
    ensures AfterRaw(current, record, RevisionOf(current), cap)
         == Some(record.(ancestors := Fold(record.revision, record.ancestors, current, cap)))
  {
  }

  /** An undisturbed pass leaves the two sides on one revision, with the same body and kind when
      it wrote, unless the key is a conflict; then neither side is touched. */
  lemma QuietPassConverges(m: Merger, ra: Option<Record>, rb: Option<Record>, capA: nat, capB: nat)
    ensures var d := Decide(m, ra, rb);
            var a, b := AfterA(m, ra, rb, capA), AfterB(m, ra, rb, capB);
            && (d.Surface? ==> a == ra && b == rb && RevisionOf(a) != RevisionOf(b))
            && (!d.Surface? ==> RevisionOf(a) == RevisionOf(b))
            && (!d.Surface? && !d.Leave? ==> a.Some? && b.Some? && a.value.body == b.value.body
                                             && a.value.kind == b.value.kind)
  {
    var d := Decide(m, ra, rb);
    if WritesA(d) { NamedWriteCommits(ra, d.record, capA); }
    if WritesB(d) { NamedWriteCommits(rb, d.record, capB); }
  }

  /** A second undisturbed pass writes nothing and finds exactly the conflicts of the first. */
  lemma QuietPassIsFixpoint(m: Merger, ra: Option<Record>, rb: Option<Record>, capA: nat, capB: nat)
    ensures var d := Decide(m, ra, rb);
            var a, b := AfterA(m, ra, rb, capA), AfterB(m, ra, rb, capB);
            && Decide(m, a, b) == (if d.Surface? then Surface else Leave)
            && AfterA(m, a, b, capA) == a && AfterB(m, a, b, capB) == b
  {
    QuietPassConverges(m, ra, rb, capA, capB);
  }

  /** A body merge of this class needs the caller, whichever side is called ours. */
  predicate NeedsCaller(m: Merger, class_: MergeClass, a: Record, b: Record) {
    class_.Opaque? || (class_.Structured? && m.MergeBodies(Structured, m.Base(a, b), a.body, b.body).None?)
  }

  lemma NeedsCallerIsSymmetric(m: Merger, class_: MergeClass, a: Record, b: Record)
    ensures NeedsCaller(m, class_, a, b) == NeedsCaller(m, class_, b, a)
  {
    hide MergeValue;
    var base, ours, theirs := m.parse(m.Base(a, b)), m.parse(a.body.Bytes()), m.parse(b.body.Bytes());
    if base.Some? && ours.Some? && theirs.Some? {
      MergeCommutes(base.value, ours.value, theirs.value);
    }
  }

  /** Two diverged live records are merged by the class of the side called `a`. So whether they are a
      conflict depends on the side exactly when one's class needs the caller and the other's does not. */
  lemma ConflictDependsOnSideExactly(m: Merger, a: Record, b: Record)
    requires !a.IsTombstone() && !b.IsTombstone()
    ensures Reconcile(m, a, b).Surface? <==> NeedsCaller(m, MergeClassOf(a.kind), a, b)
    ensures Reconcile(m, a, b).Surface? != Reconcile(m, b, a).Surface? <==>
              NeedsCaller(m, MergeClassOf(a.kind), a, b) != NeedsCaller(m, MergeClassOf(b.kind), a, b)
  {
    hide MergeValue, ReconciledRecord, AppendMerge;
    NeedsCallerIsSymmetric(m, MergeClassOf(b.kind), a, b);
  }

  /** A key is a conflict exactly when both sides hold it, neither revision is known to descend
      from the other, and it is a delete against an edit or a body merge that needs the caller. */
  lemma ConflictExactly(m: Merger, ra: Option<Record>, rb: Option<Record>)
    ensures Decide(m, ra, rb).Surface? <==>
            (ra.Some? && rb.Some? &&
             var a, b := ra.value, rb.value;
             && a.revision != b.revision && b.revision !in a.ancestors && a.revision !in b.ancestors
             && (a.IsTombstone() != b.IsTombstone()
                 || (!a.IsTombstone() && m.MergeBodies(MergeClassOf(a.kind), m.Base(a, b), a.body, b.body).None?)))
  {
  }

  // ---- what two diverged live records become, kind by kind ----

  /** Neither record knows the other's revision. */
  predicate Apart(a: Record, b: Record) {
    a.revision != b.revision && b.revision !in a.ancestors && a.revision !in b.ancestors
  }

  /** The two have one parent, and `base` is its retained body. */
  predicate ParentRetained(m: Merger, a: Record, b: Record, base: seq<byte>) {
    && m.ancestry.Some? && a.parent.Some? && b.parent == a.parent
    && a.parent.value.hash in m.ancestry.value && m.ancestry.value[a.parent.value.hash] == base
  }

  /** Where the two started from, as far as is known: nothing, when no common parent is retained. */
  ghost predicate StartedFrom(m: Merger, a: Record, b: Record, base: seq<byte>) {
    ParentRetained(m, a, b, base) || (base == [] && forall other :: !ParentRetained(m, a, b, other))
  }

  ghost predicate ReadsBack(m: Merger) {
    forall v :: m.parse(m.render(v)) == Some(v)
  }

  lemma BaseExactly(m: Merger, a: Record, b: Record, base: seq<byte>)
    ensures StartedFrom(m, a, b, base) <==> m.Base(a, b) == base
  {
    assert m.Base(a, b) == [] || ParentRetained(m, a, b, m.Base(a, b));
  }

  /** Diverged live records are merged by what their bodies merge to. */
  lemma ApartAreMerged(m: Merger, a: Record, b: Record)
    requires Apart(a, b) && !a.IsTombstone() && !b.IsTombstone()
    ensures var d := Decide(m, Some(a), Some(b));
            var body := m.MergeBodies(MergeClassOf(a.kind), m.Base(a, b), a.body, b.body);
            if body.None? then d.Surface? else d.WriteBoth? && d.record.body == body.value
  {
    hide MergeValue, AppendMerge, ReconciledAncestors, MergeClassOf;
  }

  /** Two edits of a structured record are merged exactly when all three bodies are JSON and some value
      takes both changes; the body written then reads as that value. Otherwise they are a conflict. */
  lemma StructuredEditsMergeExactly(m: Merger, a: Record, b: Record, base: seq<byte>)
    requires Apart(a, b) && a.kind in {MemoryTier, Ticket, Person, IdentityBinding, RoleGrant, ChannelConfig}
    requires !b.IsTombstone() && StartedFrom(m, a, b, base) && ReadsBack(m)
    ensures var d := Decide(m, Some(a), Some(b));
            var vb, vo, vt := m.parse(base), m.parse(a.body.Bytes()), m.parse(b.body.Bytes());
            var read := vb.Some? && vo.Some? && vt.Some?;
            && (d.WriteBoth? || d.Surface?)
            && (d.WriteBoth? <==> read && exists v :: Takes(vb.value, vo.value, vt.value, v))
            && (d.WriteBoth? ==>
                  var written := m.parse(d.record.body.Bytes());
                  written.Some? && Takes(vb.value, vo.value, vt.value, written.value))
  {
    hide MergeValue, Takes, Decide;
    ApartAreMerged(m, a, b);
    BaseExactly(m, a, b, base);
    var vb, vo, vt := m.parse(base), m.parse(a.body.Bytes()), m.parse(b.body.Bytes());
    if vb.Some? && vo.Some? && vt.Some? {
      var merged := MergeValue(vb.value, vo.value, vt.value);
      forall v ensures merged == Some(v) <==> Takes(vb.value, vo.value, vt.value, v) {
        MergesExactly(vb.value, vo.value, vt.value, v);
      }
      assert merged.Some? ==> Takes(vb.value, vo.value, vt.value, merged.value);
      assert merged.Some? ==> m.parse(m.render(merged.value)) == merged;
    }
  }

  /** Two edits of an append-only record never conflict, and no line of either is lost. */
  lemma AppendOnlyEditsMerge(m: Merger, a: Record, b: Record)
    requires Apart(a, b) && a.kind in {Topic, Session, TicketEvent} && !b.IsTombstone()
    ensures var d := Decide(m, Some(a), Some(b));
            && d.WriteBoth? && a.body.Bytes() <= d.record.body.Bytes()
            && KeepsLines(a.body.Bytes(), d.record.body.Bytes()) && KeepsLines(b.body.Bytes(), d.record.body.Bytes())
  {
    hide AppendMerge, KeepsLines, LinesOf, MergeValue, Decide;
    ApartAreMerged(m, a, b);
    AppendMergeExact(a.body.Bytes(), b.body.Bytes());
    AppendMergeLosesNothing(a.body.Bytes(), b.body.Bytes());
  }

  /** Two views of one source never conflict: the one called `a` is kept. */
  lemma DerivedEditsTakeOurs(m: Merger, a: Record, b: Record)
    requires Apart(a, b) && a.kind == GraphManifest && !b.IsTombstone()
    ensures Decide(m, Some(a), Some(b)).WriteBoth? && Decide(m, Some(a), Some(b)).record.body == a.body
  {
    hide AppendMerge, MergeValue, Decide;
    ApartAreMerged(m, a, b);
  }

  /** Two edits of anything else are always a conflict. */
  lemma OpaqueEditsConflict(m: Merger, a: Record, b: Record)
    requires Apart(a, b) && a.kind in {Checkpoint, LinkToken, AuditEntry, VectorManifest} && !b.IsTombstone()
    ensures Decide(m, Some(a), Some(b)) == Surface
  {
    hide AppendMerge, MergeValue, Decide;
    ApartAreMerged(m, a, b);
  }

  /** Whatever a pass over diverged live records writes, both sides hold it when nobody disturbs: the body
      decided, under one revision that is its own. */
  lemma BothHoldTheMerge(m: Merger, a: Record, b: Record, capA: nat, capB: nat)
    requires Apart(a, b) && !a.IsTombstone() && !b.IsTombstone() && Decide(m, Some(a), Some(b)).WriteBoth?
    ensures var w := Decide(m, Some(a), Some(b)).record;
            var ra, rb := AfterA(m, Some(a), Some(b), capA), AfterB(m, Some(a), Some(b), capB);
            && ra.Some? && rb.Some? && ra.value.body == rb.value.body == w.body && !w.IsTombstone()
            && ra.value.revision == rb.value.revision == w.revision && w.revision.hash == HashOf(w.body.Bytes())
            && w.revision.counter > a.revision.counter && w.revision.counter > b.revision.counter
            && ra.value.meta == rb.value.meta
            && ra.value.meta.author == "gonzalo-sync" && ra.value.meta.origin == "sync"
  {
    hide ReconciledAncestors, MergeValue, AppendMerge;
    var w := Decide(m, Some(a), Some(b)).record;
    NamedWriteCommits(Some(a), w, capA);
    NamedWriteCommits(Some(b), w, capB);
  }
}
