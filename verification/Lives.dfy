/** A record's life in one store: what any sequence of edits, deletes, recreations and undeletes leaves. */
module Lives {
  import opened Wrappers
  import opened Records
  import opened Staleness

  function TimeOf(e: Edit): int {
    e.now
  }

  /** Who last signed, deletes and undeletes signing only when they name somebody. */
  function SignedBy(author: string, edits: seq<Edit>): string {
    if edits == [] then author
    else
      match edits[|edits| - 1]
      case Revise(_, meta, _) => meta.author
      case Recreate(_, _, meta, _) => meta.author
      case Remove(_, Some(name)) => name
      case Restore(_, Some(name)) => name
      case _ => SignedBy(author, edits[..|edits| - 1])
  }

  /** One edit: it is timed and signed, a delete is stamped and everything else is not, the creation time
      outlives all but a recreation, and the links outlive nothing but a revision. */
  lemma EditShows(c: Record, e: Edit, cap: nat)
    requires Edited(c, e, cap).Some?
    ensures var r := Edited(c, e, cap).value;
            && r.key == c.key && r.meta.updated == TimeOf(e) && r.meta.author == SignedBy(c.meta.author, [e])
            && r.meta.created == (if e.Recreate? then TimeOf(e) else c.meta.created)
            && r.links == (if e.Revise? then c.links else [])
            && (e.Remove? ==> r.IsTombstone()) && (e.Revise? || e.Recreate? ==> !r.IsTombstone())
            && r.deletedAt == (if e.Remove? then Some(TimeOf(e)) else None)
  {
  }

  /** Any life: the last edit is the one that shows, the creation time is that of the last recreation if
      there was one, and links are gone with the first delete. */
  lemma {:induction false} LifeShows(c: Record, edits: seq<Edit>, cap: nat)
    requires edits != [] && EditedAll(c, edits, cap).Some?
    ensures var r, last := EditedAll(c, edits, cap).value, edits[|edits| - 1];
            && r.key == c.key && r.meta.updated == TimeOf(last) && r.meta.author == SignedBy(c.meta.author, edits)
            && r.deletedAt == (if last.Remove? then Some(TimeOf(last)) else None)
            && r.links == (if forall e :: e in edits ==> e.Revise? then c.links else [])
            && ((forall e :: e in edits ==> !e.Recreate?) ==> r.meta.created == c.meta.created)
            && (last.Recreate? ==> r.meta.created == TimeOf(last))
  {
    hide Edited;
    var front, last := edits[..|edits| - 1], edits[|edits| - 1];
    var before := EditedAll(c, front, cap).value;
    EditShows(before, last, cap);
    assert edits == front + [last];
    assert [last][..0] == [];
    if front != [] {
      LifeShows(c, front, cap);
    }
  }

  /** A deleted record keeps its body exactly when it was a manifest, and says what it was. */
  lemma DeleteKeepsOnlyManifests(c: Record, now: int, author: Option<string>, cap: nat)
    requires !c.IsTombstone()
    ensures Edited(c, Edit.Remove(now, author), cap).Some?
    ensures var t := Edited(c, Edit.Remove(now, author), cap).value;
            && t.IsTombstone() && t.revision.hash == TombstoneHash()
            && (t.deletedKind.Some? <==> c.kind == GraphManifest || c.kind == VectorManifest)
            && (if t.deletedKind.Some? then t.deletedKind == Some(c.kind) && t.body == c.body else t.body == Inline([]))
  {
  }

  /** It can be restored exactly then. */
  lemma RestorableExactly(c: Record, now: int, author: Option<string>, later: int, who: Option<string>, cap: nat)
    requires !c.IsTombstone()
    ensures Edited(c, Edit.Remove(now, author), cap).Some?
    ensures Edited(Edited(c, Edit.Remove(now, author), cap).value, Restore(later, who), cap).Some? <==>
              c.kind == GraphManifest || c.kind == VectorManifest
  {
    DeleteKeepsOnlyManifests(c, now, author, cap);
  }

  /** However often a manifest is deleted and restored, its body, its kind, its labels, its origin and its
      creation time come back as they were, two counters on each time. */
  lemma {:induction false} DeletedAndRestored(c: Record, edits: seq<Edit>, cap: nat)
    requires !c.IsTombstone() && IsManifest(c.kind) && c.deletedKind.None?
    requires (forall e :: e in edits ==> e.Remove? || e.Restore?) && EditedAll(c, edits, cap).Some?
    ensures var r := EditedAll(c, edits, cap).value;
            && r.body == c.body && r.revision.counter == c.revision.counter + |edits|
            && (r.IsTombstone() <==> |edits| % 2 == 1)
            && (if r.IsTombstone() then r.deletedKind == Some(c.kind) else r.kind == c.kind && r.deletedKind == None)
            && r.meta.labels == c.meta.labels && r.meta.origin == c.meta.origin && r.meta.created == c.meta.created
            && (edits != [] ==> r.revision.hash == if r.IsTombstone() then TombstoneHash() else HashOf(c.body.Bytes()))
  {
    hide Edited, IsManifest, HashOf, TombstoneHash;
    if edits != [] {
      var front, last := edits[..|edits| - 1], edits[|edits| - 1];
      assert last in edits && forall e :: e in front ==> e in edits;
      DeletedAndRestored(c, front, cap);
      OneMoreTurn(EditedAll(c, front, cap).value, last, cap);
    }
  }

  lemma OneMoreTurn(c: Record, e: Edit, cap: nat)
    requires (e.Remove? || e.Restore?) && Edited(c, e, cap).Some?
    ensures var r := Edited(c, e, cap).value;
            && r.revision.counter == c.revision.counter + 1 && (c.IsTombstone() <==> e.Restore?)
            && r.meta.labels == c.meta.labels && r.meta.origin == c.meta.origin && r.meta.created == c.meta.created
            && (e.Restore? ==>
                  && c.deletedKind == Some(r.kind) && r.body == c.body && r.deletedKind == None
                  && r.revision.hash == HashOf(c.body.Bytes()))
            && (e.Remove? ==> r.IsTombstone() && r.revision.hash == TombstoneHash())
            && (e.Remove? && IsManifest(c.kind) ==> r.deletedKind == Some(c.kind) && r.body == c.body)
  {
  }
}
