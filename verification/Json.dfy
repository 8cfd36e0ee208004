/** The field-level three-way merge of JSON bodies. */
module Json {
  import opened Wrappers

  datatype Value =
    | Null
    | Scalar(text: string)
    | Array(items: seq<Value>)
    | Object(fields: map<string, Value>)

  function Field(fields: map<string, Value>, key: string): Option<Value> {
    if key in fields then Some(fields[key]) else None
  }

  /** How one field merges before any recursion: settled, or two present values to merge. */
  datatype Choice = Settled(field: Option<Value>) | Recurse | Clash

  function Choose(base: Option<Value>, ours: Option<Value>, theirs: Option<Value>): Choice {
    if ours == theirs then Settled(ours)
    else if ours == base then Settled(theirs)
    else if theirs == base then Settled(ours)
    else if ours.Some? && theirs.Some? then Recurse
    else Clash
  }

  function OrNull(v: Option<Value>): Value {
    if v.Some? then v.value else Null
  }

  function AllKeys(base: map<string, Value>, ours: map<string, Value>, theirs: map<string, Value>): set<string> {
    base.Keys + ours.Keys + theirs.Keys
  }

  /** None is a genuine conflict. */
  function MergeValue(base: Value, ours: Value, theirs: Value): Option<Value>
    decreases ours
  {
    if ours == theirs then Some(ours)
    else if ours == base then Some(theirs)
    else if theirs == base then Some(ours)
    else if base.Object? && ours.Object? && theirs.Object? then
      var keys := AllKeys(base.fields, ours.fields, theirs.fields);
      var merged := map k | k in keys ::
        var c := Choose(Field(base.fields, k), Field(ours.fields, k), Field(theirs.fields, k));
        match c
        case Settled(field) => Some(field)
        case Recurse =>
          (match MergeValue(OrNull(Field(base.fields, k)), ours.fields[k], theirs.fields[k])
           case None => None
           case Some(v) => Some(Some(v)))
        case Clash => None;
      if forall k :: k in keys ==> merged[k].Some? then
        Some(Object(map k | k in keys && merged[k].value.Some? :: merged[k].value.value))
      else None
    else None
  }

  /** One field: None is a conflict, Some(None) drops the key. */
  function MergeField(base: Option<Value>, ours: Option<Value>, theirs: Option<Value>): Option<Option<Value>> {
    match Choose(base, ours, theirs)
    case Settled(field) => Some(field)
    case Recurse =>
      (match MergeValue(OrNull(base), ours.value, theirs.value)
       case None => None
       case Some(v) => Some(Some(v)))
    case Clash => None
  }

  /** `m` holds at every key what the field merge gives there. */
  ghost predicate Fieldwise(base: map<string, Value>, ours: map<string, Value>,
                            theirs: map<string, Value>, m: map<string, Value>)
  {
    forall k :: MergeField(Field(base, k), Field(ours, k), Field(theirs, k)) == Some(Field(m, k))
  }

  lemma SameFields(m: map<string, Value>, n: map<string, Value>)
    requires forall k :: Field(m, k) == Field(n, k)
    ensures m == n
  {
    forall k ensures k in m <==> k in n {
      assert Field(m, k) == Field(n, k);
    }
    forall k | k in m ensures m[k] == n[k] {
      assert Field(m, k) == Field(n, k);
    }
  }

  /** The recursive case builds exactly the fieldwise merge. */
  lemma RecursiveCase(base: map<string, Value>, ours: map<string, Value>, theirs: map<string, Value>)
    requires ours != theirs && ours != base && theirs != base
    ensures var r := MergeValue(Object(base), Object(ours), Object(theirs));
            && (r.Some? ==> r.value.Object? && Fieldwise(base, ours, theirs, r.value.fields))
            && (r.None? ==> exists k :: MergeField(Field(base, k), Field(ours, k), Field(theirs, k)).None?)
  {
    hide MergeValue, MergeField;
    var r := MergeValue(Object(base), Object(ours), Object(theirs));
    if r.Some? {
      RecursiveMerge(base, ours, theirs);
    } else {
      var k := RecursiveClash(base, ours, theirs);
    }
  }

  lemma RecursiveMerge(base: map<string, Value>, ours: map<string, Value>, theirs: map<string, Value>)
    requires ours != theirs && ours != base && theirs != base
    requires MergeValue(Object(base), Object(ours), Object(theirs)).Some?
    ensures var r := MergeValue(Object(base), Object(ours), Object(theirs));
            r.value.Object? && Fieldwise(base, ours, theirs, r.value.fields)
  {
    var r := MergeValue(Object(base), Object(ours), Object(theirs));
    var keys := AllKeys(base, ours, theirs);
    forall k ensures MergeField(Field(base, k), Field(ours, k), Field(theirs, k)) == Some(Field(r.value.fields, k)) {
      if k !in keys {
        assert Field(base, k) == Field(ours, k) == Field(theirs, k) == None;
      }
    }
  }

  lemma RecursiveClash(base: map<string, Value>, ours: map<string, Value>, theirs: map<string, Value>)
    returns (k: string)
    requires ours != theirs && ours != base && theirs != base
    requires MergeValue(Object(base), Object(ours), Object(theirs)).None?
    ensures MergeField(Field(base, k), Field(ours, k), Field(theirs, k)).None?
  {
    k :| k in AllKeys(base, ours, theirs) && MergeField(Field(base, k), Field(ours, k), Field(theirs, k)).None?;
  }

  /** An object merge is the merge of its fields, whichever shortcut the merge took. */
  lemma ObjectMergeIsFieldwise(base: map<string, Value>, ours: map<string, Value>,
                               theirs: map<string, Value>, m: map<string, Value>)
    ensures MergeValue(Object(base), Object(ours), Object(theirs)) == Some(Object(m))
       <==> Fieldwise(base, ours, theirs, m)
  {
    if ours == theirs || ours == base || theirs == base {
      var n := if ours == base then theirs else ours;
      assert Fieldwise(base, ours, theirs, n);
      if Fieldwise(base, ours, theirs, m) {
        FieldwiseUnique(base, ours, theirs, m, n);
      }
    } else {
      RecursiveCase(base, ours, theirs);
      var r := MergeValue(Object(base), Object(ours), Object(theirs));
      if Fieldwise(base, ours, theirs, m) && r.Some? {
        FieldwiseUnique(base, ours, theirs, m, r.value.fields);
      }
    }
  }

  lemma FieldwiseUnique(base: map<string, Value>, ours: map<string, Value>, theirs: map<string, Value>,
                        m: map<string, Value>, n: map<string, Value>)
    requires Fieldwise(base, ours, theirs, m) && Fieldwise(base, ours, theirs, n)
    ensures m == n
  {
    forall k ensures Field(m, k) == Field(n, k) {
      assert MergeField(Field(base, k), Field(ours, k), Field(theirs, k)) == Some(Field(m, k)) == Some(Field(n, k));
    }
    SameFields(m, n);
  }

  /** A merge ends where it started only if neither side changed anything. */
  lemma {:induction false} MergeToBase(base: Value, ours: Value, theirs: Value)
    requires MergeValue(base, ours, theirs) == Some(base)
    ensures ours == base && theirs == base
    decreases ours
  {
    if ours != theirs && ours != base && theirs != base {
      var b, o, t := base.fields, ours.fields, theirs.fields;
      RecursiveCase(b, o, t);
      forall k ensures Field(o, k) == Field(b, k) == Field(t, k) {
        assert MergeField(Field(b, k), Field(o, k), Field(t, k)) == Some(Field(b, k));
        if Choose(Field(b, k), Field(o, k), Field(t, k)).Recurse? {
          MergeToBase(b[k], o[k], t[k]);
        }
      }
      SameFields(o, b);
    }
  }

  /** A field that recursed holds the merge of its two values. */
  lemma RecursedField(base: Option<Value>, ours: Option<Value>, theirs: Option<Value>, m: Option<Value>)
    requires MergeField(base, ours, theirs) == Some(m) && Choose(base, ours, theirs).Recurse?
    ensures ours.Some? && theirs.Some? && m.Some?
    ensures MergeValue(OrNull(base), ours.value, theirs.value) == Some(m.value)
  {
  }

  /** One field's merge absorbs when the merge it recursed into does. */
  lemma FieldAbsorbs(base: Option<Value>, ours: Option<Value>, theirs: Option<Value>, m: Option<Value>)
    requires MergeField(base, ours, theirs) == Some(m)
    requires Choose(base, ours, theirs).Recurse? ==>
               && ours.Some? && theirs.Some? && m.Some?
               && MergeValue(OrNull(base), m.value, theirs.value) == Some(m.value)
               && MergeValue(OrNull(base), ours.value, m.value) == Some(m.value)
    ensures MergeField(base, m, theirs) == Some(m) && MergeField(base, ours, m) == Some(m)
  {
    if Choose(base, ours, theirs).Recurse? && base == m {
      MergeToBase(base.value, ours.value, theirs.value);
    }
  }

  lemma SettledAbsorbs(base: Value, ours: Value, theirs: Value, m: Value)
    requires MergeValue(base, ours, theirs) == Some(m) && (ours == theirs || ours == base || theirs == base)
    ensures MergeValue(base, m, theirs) == Some(m) && MergeValue(base, ours, m) == Some(m)
  {
  }

  lemma OnlyObjectsRecurse(base: Value, ours: Value, theirs: Value)
    requires MergeValue(base, ours, theirs).Some? && ours != theirs && ours != base && theirs != base
    ensures base.Object? && ours.Object? && theirs.Object?
  {
  }

  /** Merging the result back in from either side changes nothing. */
  lemma {:induction false} MergeAbsorbs(base: Value, ours: Value, theirs: Value, m: Value)
    requires MergeValue(base, ours, theirs) == Some(m)
    ensures MergeValue(base, m, theirs) == Some(m)
    ensures MergeValue(base, ours, m) == Some(m)
    decreases ours
  {
    hide MergeField, MergeValue;
    if ours == theirs || ours == base || theirs == base {
      SettledAbsorbs(base, ours, theirs, m);
    } else {
      OnlyObjectsRecurse(base, ours, theirs);
      var b, o, t := base.fields, ours.fields, theirs.fields;
      RecursiveCase(b, o, t);
      forall k ensures MergeField(Field(b, k), Field(m.fields, k), Field(t, k)) == Some(Field(m.fields, k))
               ensures MergeField(Field(b, k), Field(o, k), Field(m.fields, k)) == Some(Field(m.fields, k))
      {
        if Choose(Field(b, k), Field(o, k), Field(t, k)).Recurse? {
          RecursedField(Field(b, k), Field(o, k), Field(t, k), Field(m.fields, k));
          MergeAbsorbs(OrNull(Field(b, k)), o[k], t[k], m.fields[k]);
        }
        FieldAbsorbs(Field(b, k), Field(o, k), Field(t, k), Field(m.fields, k));
      }
      ObjectMergeIsFieldwise(b, m.fields, t, m.fields);
      ObjectMergeIsFieldwise(b, o, m.fields, m.fields);
    }
  }

  /** Which side is called ours does not matter, conflicts included. */
  lemma {:induction false} MergeCommutes(base: Value, ours: Value, theirs: Value)
    ensures MergeValue(base, ours, theirs) == MergeValue(base, theirs, ours)
    decreases ours
  {
    if base.Object? && ours.Object? && theirs.Object? && ours != theirs && ours != base && theirs != base {
      var b, o, t := base.fields, ours.fields, theirs.fields;
      forall k ensures MergeField(Field(b, k), Field(o, k), Field(t, k))
        == MergeField(Field(b, k), Field(t, k), Field(o, k)) {
        if Choose(Field(b, k), Field(o, k), Field(t, k)).Recurse? {
          MergeCommutes(OrNull(Field(b, k)), o[k], t[k]);
        }
      }
      RecursiveCase(b, o, t);
      RecursiveCase(b, t, o);
      var r := MergeValue(base, ours, theirs);
      var s := MergeValue(base, theirs, ours);
      if r.Some? && s.Some? {
        forall k ensures Field(r.value.fields, k) == Field(s.value.fields, k) {
          assert MergeField(Field(b, k), Field(o, k), Field(t, k)) == Some(Field(r.value.fields, k));
        }
        SameFields(r.value.fields, s.value.fields);
      }
    }
  }

  /** A key only one side changed takes that side's value, or its deletion. */
  lemma OneSidedChangeWins(base: map<string, Value>, ours: map<string, Value>,
                           theirs: map<string, Value>, m: Value, k: string)
    requires MergeValue(Object(base), Object(ours), Object(theirs)) == Some(m)
    ensures m.Object?
    ensures Field(ours, k) == Field(base, k) ==> Field(m.fields, k) == Field(theirs, k)
    ensures Field(theirs, k) == Field(base, k) ==> Field(m.fields, k) == Field(ours, k)
    ensures Field(ours, k) == Field(theirs, k) ==> Field(m.fields, k) == Field(ours, k)
  {
    if ours != theirs && ours != base && theirs != base {
      RecursiveCase(base, ours, theirs);
      assert MergeField(Field(base, k), Field(ours, k), Field(theirs, k)) == Some(Field(m.fields, k));
    }
  }

  /** One conflicting field makes the whole merge a conflict. */
  lemma ConflictAt(base: map<string, Value>, ours: map<string, Value>, theirs: map<string, Value>, k: string)
    requires MergeField(Field(base, k), Field(ours, k), Field(theirs, k)).None?
    ensures MergeValue(Object(base), Object(ours), Object(theirs)).None?
  {
    if ours != theirs && ours != base && theirs != base {
      RecursiveCase(base, ours, theirs);
    }
  }

  // ---- exactly what merges, and to what ----

  predicate PairwiseDifferent<T(==)>(base: T, ours: T, theirs: T) {
    ours != theirs && ours != base && theirs != base
  }

  /** Two sides that agree, or of which one changed nothing, never conflict; three different values of
      which one is no object always do. */
  lemma UnlessAllObjects(base: Value, ours: Value, theirs: Value)
    ensures ours == theirs ==> MergeValue(base, ours, theirs) == Some(ours)
    ensures ours == base ==> MergeValue(base, ours, theirs) == Some(theirs)
    ensures theirs == base ==> MergeValue(base, ours, theirs) == Some(ours)
    ensures PairwiseDifferent(base, ours, theirs) && !(base.Object? && ours.Object? && theirs.Object?) ==>
              MergeValue(base, ours, theirs).None?
  {
  }

  /** A key at which the three objects are pairwise different and do not merge: it is gone on one side
      and changed on the other, or its values are in conflict. An absent base counts as null. */
  ghost predicate InConflict(base: map<string, Value>, ours: map<string, Value>, theirs: map<string, Value>,
                             k: string)
  {
    && PairwiseDifferent(Field(base, k), Field(ours, k), Field(theirs, k))
    && (k !in ours || k !in theirs
        || MergeValue(if k in base then base[k] else Null, ours[k], theirs[k]).None?)
  }

  /** Objects are a conflict exactly when some key is. */
  lemma ObjectsConflictExactly(base: map<string, Value>, ours: map<string, Value>, theirs: map<string, Value>)
    ensures MergeValue(Object(base), Object(ours), Object(theirs)).None? <==>
              exists k :: InConflict(base, ours, theirs, k)
  {
    hide MergeField;
    if PairwiseDifferent(base, ours, theirs) {
      RecursiveCase(base, ours, theirs);
    } else {
      AgreeingObjects(base, ours, theirs);
    }
    forall k ensures InConflict(base, ours, theirs, k) <==>
                       MergeField(Field(base, k), Field(ours, k), Field(theirs, k)).None?
    {
      FieldInConflict(base, ours, theirs, k);
    }
  }

  lemma AgreeingObjects(base: map<string, Value>, ours: map<string, Value>, theirs: map<string, Value>)
    requires !PairwiseDifferent(base, ours, theirs)
    ensures MergeValue(Object(base), Object(ours), Object(theirs)).Some?
    ensures forall k :: MergeField(Field(base, k), Field(ours, k), Field(theirs, k)).Some?
  {
  }

  lemma FieldInConflict(base: map<string, Value>, ours: map<string, Value>, theirs: map<string, Value>, k: string)
    ensures InConflict(base, ours, theirs, k) <==>
              MergeField(Field(base, k), Field(ours, k), Field(theirs, k)).None?
  {
    hide MergeValue;
  }

  /** What a merge of two changes is: the one change when only one was made, and otherwise an object whose
      every key holds what was made of that key, its deletion included. An absent base counts as null. */
  ghost predicate Takes(base: Value, ours: Value, theirs: Value, merged: Value)
    decreases ours
  {
    if ours == base then merged == theirs
    else if theirs == base || theirs == ours then merged == ours
    else
      && base.Object? && ours.Object? && theirs.Object? && merged.Object?
      && forall k ::
        var b, o, t := Field(base.fields, k), Field(ours.fields, k), Field(theirs.fields, k);
        var m := Field(merged.fields, k);
        if o == b then m == t
        else if t == b || t == o then m == o
        else
          && o.Some? && t.Some? && m.Some?
          && Takes(if b.Some? then b.value else Null, o.value, t.value, m.value)
  }

  /** The merge gives what takes both changes, and nothing else does. */
  lemma {:induction false} MergesExactly(base: Value, ours: Value, theirs: Value, merged: Value)
    ensures MergeValue(base, ours, theirs) == Some(merged) <==> Takes(base, ours, theirs, merged)
    decreases ours
  {
    if PairwiseDifferent(base, ours, theirs) && base.Object? && ours.Object? && theirs.Object? {
      if merged.Object? {
        TakesExactly(base, ours, theirs, merged);
      } else {
        RecursiveCase(base.fields, ours.fields, theirs.fields);
      }
    }
  }

  lemma {:induction false} TakesExactly(base: Value, ours: Value, theirs: Value, merged: Value)
    requires base.Object? && ours.Object? && theirs.Object? && merged.Object?
    requires PairwiseDifferent(base, ours, theirs)
    ensures MergeValue(base, ours, theirs) == Some(merged) <==> Takes(base, ours, theirs, merged)
    decreases ours, 0
  {
    hide MergeValue;
    var b, o, t, m := base.fields, ours.fields, theirs.fields, merged.fields;
    ObjectMergeIsFieldwise(b, o, t, m);
    forall k | k in o && k in t && k in m
      ensures MergeValue(if k in b then b[k] else Null, o[k], t[k]) == Some(m[k]) <==>
                Takes(if k in b then b[k] else Null, o[k], t[k], m[k])
    {
      MergesExactly(if k in b then b[k] else Null, o[k], t[k], m[k]);
    }
  }

  // ---- the same computation as a loop that fills a map ----

  method ComputeMergeValue(base: Value, ours: Value, theirs: Value) returns (r: Option<Value>)
    ensures r == MergeValue(base, ours, theirs)
    decreases ours, 2
  {
    if ours == theirs {
      r := Some(ours);
    } else if ours == base {
      r := Some(theirs);
    } else if theirs == base {
      r := Some(ours);
    } else if base.Object? && ours.Object? && theirs.Object? {
      r := ComputeMergeFields(base, ours, theirs);
    } else {
      r := None;
    }
  }

  /** The keys outside `todo` have been merged into `out`. */
  ghost predicate MergedSoFar(base: map<string, Value>, ours: map<string, Value>, theirs: map<string, Value>,
                              out: map<string, Value>, todo: set<string>)
  {
    forall k :: if k in todo then k !in out
                else MergeField(Field(base, k), Field(ours, k), Field(theirs, k)) == Some(Field(out, k))
  }

  lemma MergeOneMore(base: map<string, Value>, ours: map<string, Value>, theirs: map<string, Value>,
                     out: map<string, Value>, todo: set<string>, key: string)
    requires MergedSoFar(base, ours, theirs, out, todo) && key in todo
    requires MergeField(Field(base, key), Field(ours, key), Field(theirs, key)).Some?
    ensures var f := MergeField(Field(base, key), Field(ours, key), Field(theirs, key)).value;
            MergedSoFar(base, ours, theirs, if f.Some? then out[key := f.value] else out, todo - {key})
  {
  }

  method ComputeMergeFields(base: Value, ours: Value, theirs: Value) returns (r: Option<Value>)
    requires base.Object? && ours.Object? && theirs.Object?
    ensures r == MergeValue(base, ours, theirs)
    decreases ours, 1
  {
    var b, o, t := base.fields, ours.fields, theirs.fields;
    var out: map<string, Value> := map[];
    var todo := AllKeys(b, o, t);
    while todo != {}
      invariant MergedSoFar(b, o, t, out, todo)
      decreases |todo|
    {
      var key :| key in todo;
      var field := ComputeMergeField(Field(b, key), Field(o, key), Field(t, key), ours);
      if field.None? {
        ConflictAt(b, o, t, key);
        return None;
      }
      MergeOneMore(b, o, t, out, todo, key);
      if field.value.Some? {
        out := out[key := field.value.value];
      }
      todo := todo - {key};
    }
    ObjectMergeIsFieldwise(b, o, t, out);
    r := Some(Object(out));
  }

  method ComputeMergeField(base: Option<Value>, ours: Option<Value>, theirs: Option<Value>, ghost within: Value)
    returns (r: Option<Option<Value>>)
    requires ours.Some? ==> ours.value < within
    ensures r == MergeField(base, ours, theirs)
    decreases within, 0
  {
    match Choose(base, ours, theirs) {
      case Settled(field) => r := Some(field);
      case Recurse =>
        var inner := ComputeMergeValue(OrNull(base), ours.value, theirs.value);
        r := if inner.None? then None else Some(Some(inner.value));
      case Clash => r := None;
    }
  }
}
