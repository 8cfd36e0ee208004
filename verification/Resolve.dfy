/** Best-effort resolution of a reference to the file that defines what it names. */
module Resolve {
  import opened Wrappers
  import opened ModulePaths

  datatype Symbol = Symbol(name: string, owner: Option<string>)

  datatype RefKind = Free | Method | ValueUse

  datatype Reference = Reference(name: string, from: Option<string>, kind: RefKind, qualifier: Option<string>)

  /** An import; the name is empty when it brings in a whole file. */
  datatype Import = Import(name: string, path: seq<string>, depth: nat)

  datatype CodeGraph = CodeGraph(symbols: seq<Symbol>, references: seq<Reference>, imports: seq<Import>)

  datatype Slice = Slice(path: string, graph: CodeGraph)

  /** An assembled view: its slices in path order, one to a path. */
  type View = seq<Slice>

  ghost predicate OnePerPath(view: View) {
    forall i, j :: 0 <= i < j < |view| ==> view[i].path != view[j].path
  }

  datatype Located = Located(path: string, item: Reference)

  datatype Resolution = Qualified | Local | UniqueGlobal | Imported | Ambiguous | ReceiverUnknown | Unresolved

  datatype Resolved = Resolved(reference: Located, target: Option<string>, resolution: Resolution)

  // ---- what the view holds ----

  /** The paths defining `name`, once per definition. */
  function DefinitionsIn(path: string, symbols: seq<Symbol>, name: string): seq<string> {
    if symbols == [] then []
    else (if symbols[0].name == name then [path] else []) + DefinitionsIn(path, symbols[1..], name)
  }

  function Definitions(view: View, name: string): seq<string> {
    if view == [] then []
    else DefinitionsIn(view[0].path, view[0].graph.symbols, name) + Definitions(view[1..], name)
  }

  lemma {:induction false} DefinitionsInFile(path: string, symbols: seq<Symbol>, name: string, p: string)
    ensures p in DefinitionsIn(path, symbols, name) <==> p == path && exists d :: d in symbols && d.name == name
  {
    if symbols != [] {
      DefinitionsInFile(path, symbols[1..], name, p);
      assert symbols == [symbols[0]] + symbols[1..];
    }
  }

  /** The defining paths are those of the files with a symbol of the name. */
  lemma {:induction false} DefinitionsAreFiles(view: View, name: string, p: string)
    ensures p in Definitions(view, name) <==>
              exists s, d :: s in view && d in s.graph.symbols && s.path == p && d.name == name
  {
    if view != [] {
      DefinitionsInFile(view[0].path, view[0].graph.symbols, name, p);
      DefinitionsAreFiles(view[1..], name, p);
      assert view == [view[0]] + view[1..];
    }
  }

  predicate Defines(graph: CodeGraph, name: string, owner: Option<string>) {
    exists s :: s in graph.symbols && s.name == name && (owner.Some? ==> s.owner == owner)
  }

  /** The distinct paths defining `name`, owned by `owner` when one is given. */
  function DefPaths(view: View, name: string, owner: Option<string>): seq<string> {
    if view == [] then []
    else (if Defines(view[0].graph, name, owner) then [view[0].path] else []) + DefPaths(view[1..], name, owner)
  }

  function ReferencesIn(path: string, references: seq<Reference>, name: string): (r: seq<Located>)
    ensures forall x :: x in r <==> x.path == path && x.item in references && x.item.name == name
  {
    if references == [] then []
    else (if references[0].name == name then [Located(path, references[0])] else [])
         + ReferencesIn(path, references[1..], name)
  }

  function ReferencesTo(view: View, name: string): (r: seq<Located>)
    ensures forall x :: x in r <==>
              exists s :: s in view && x.path == s.path && x.item in s.graph.references && x.item.name == name
  {
    if view == [] then []
    else ReferencesIn(view[0].path, view[0].graph.references, name) + ReferencesTo(view[1..], name)
  }

  function ImportsInFile(view: View, path: string): seq<Import> {
    if view == [] then [] else if view[0].path == path then view[0].graph.imports else ImportsInFile(view[1..], path)
  }

  // ---- candidates ----

  function Best(candidates: seq<string>, score: string -> nat): (b: nat)
    ensures forall c :: c in candidates ==> score(c) <= b
    ensures candidates != [] ==> exists c :: c in candidates && score(c) == b
  {
    if candidates == [] then 0
    else
      var here, rest := score(candidates[0]), Best(candidates[1..], score);
      if here >= rest then here else rest
  }

  /** The one candidate with the highest score; None on a tie or when nothing scores. */
  function Winner(candidates: seq<string>, score: string -> nat): Option<string> {
    var best := Best(candidates, score);
    var winners := Filter(candidates, c => score(c) == best);
    if best == 0 || |winners| != 1 then None else Some(winners[0])
  }

  /** Scored by how many leading directories a candidate and the referencing file have in common. */
  function NearestTo(candidates: seq<string>, fromPath: string): Option<string> {
    Winner(candidates, c => Closeness(c, fromPath))
  }

  function Settle(matched: seq<string>, fromPath: string): Option<string> {
    if matched == [] then None else if |matched| == 1 then Some(matched[0]) else NearestTo(matched, fromPath)
  }

  function ImportOf(imports: seq<Import>, name: string): Option<Import> {
    if imports == [] then None else if imports[0].name == name then Some(imports[0]) else ImportOf(imports[1..], name)
  }

  predicate IncludedBy(imports: seq<Import>, path: string) {
    exists i :: i in imports && i.name == "" && i.path != [] && PathEndsWithModule(path, i.path)
  }

  /** What the imports of the referencing file make of the candidates: a named import is decided by its
      module path, otherwise whole-file imports are tried. */
  function ImportedTarget(imports: seq<Import>, name: string, fromPath: string,
                          candidates: seq<string>): Option<string> {
    match ImportOf(imports, name)
    case None => Settle(Filter(candidates, p => IncludedBy(imports, p)), fromPath)
    case Some(i) =>
      if i.depth > 0 then
        (match RelativeAnchor(fromPath, i.depth, i.path)
         case None => None
         case Some(anchor) => Settle(Filter(candidates, p => PathUnder(p, anchor)), fromPath))
      else if i.path == [] then None
      else Settle(Filter(candidates, p => PathEndsWithModule(p, i.path)), fromPath)
  }

  // ---- resolution ----

  /** The rules, in order, given the defining paths, those the qualifier owns, and the imports of
      the referencing file. */
  function Judge(r: Located, defs: seq<string>, qualified: seq<string>, imports: seq<Import>): Resolved {
    if |qualified| == 1 then Resolved(r, Some(qualified[0]), Qualified)
    else if qualified != [] then Resolved(r, None, Ambiguous)
    else if r.path in defs then Resolved(r, Some(r.path), Local)
    else if defs == [] then Resolved(r, None, Unresolved)
    else if r.item.kind == Method then Resolved(r, None, ReceiverUnknown)
    else if |defs| == 1 then Resolved(r, Some(defs[0]), UniqueGlobal)
    else
      var target := ImportedTarget(imports, r.item.name, r.path, defs);
      if target.Some? then Resolved(r, target, Imported) else Resolved(r, None, Ambiguous)
  }

  function QualifiedPaths(view: View, r: Located): seq<string> {
    if r.item.qualifier.Some? then DefPaths(view, r.item.name, r.item.qualifier) else []
  }

  /** Resolve one reference to the path it most likely means. */
  function ResolveOne(view: View, r: Located): Resolved {
    Judge(r, DefPaths(view, r.item.name, None), QualifiedPaths(view, r), ImportsInFile(view, r.path))
  }

  function ResolveAll(view: View, refs: seq<Located>): (r: seq<Resolved>)
    ensures |r| == |refs|
    ensures forall i :: 0 <= i < |refs| ==> r[i] == ResolveOne(view, refs[i])
  {
    seq(|refs|, i requires 0 <= i < |refs| => ResolveOne(view, refs[i]))
  }

  function ResolveReferencesTo(view: View, name: string): seq<Resolved> {
    ResolveAll(view, ReferencesTo(view, name))
  }

  // ---- what resolution guarantees ----

  lemma {:induction false} DefPathsAre(view: View, name: string, owner: Option<string>)
    ensures forall p :: p in DefPaths(view, name, owner) <==>
              exists s :: s in view && s.path == p && Defines(s.graph, name, owner)
  {
    if view != [] {
      DefPathsAre(view[1..], name, owner);
      assert view == [view[0]] + view[1..];
    }
  }

  /** A nearest candidate is chosen exactly when one candidate is strictly closest and shares
      something. */
  lemma NearestIsStrict(candidates: seq<string>, fromPath: string, c: string)
    requires c in candidates && Distinct(candidates)
    ensures NearestTo(candidates, fromPath) == Some(c) <==>
              Closeness(c, fromPath) > 0
              && forall d :: d in candidates && d != c ==> Closeness(d, fromPath) < Closeness(c, fromPath)
  {
    var score := (x: string) => Closeness(x, fromPath);
    WinnerIsStrict(candidates, score, c);
    assert forall d :: score(d) == Closeness(d, fromPath);
  }

  ghost predicate StrictlyFirst(candidates: seq<string>, score: string -> nat, c: string) {
    score(c) > 0 && forall d :: d in candidates && d != c ==> score(d) < score(c)
  }

  lemma WinnerIsStrict(candidates: seq<string>, score: string -> nat, c: string)
    requires c in candidates && Distinct(candidates)
    ensures Winner(candidates, score) == Some(c) <==> StrictlyFirst(candidates, score, c)
  {
    var best := Best(candidates, score);
    var keep := (x: string) => score(x) == best;
    var winners := Filter(candidates, keep);
    FilterDistinct(candidates, keep);
    OnlyMember(winners, c);
    assert c in winners <==> score(c) == best;
    var top :| top in candidates && score(top) == best;
    if StrictlyFirst(candidates, score, c) {
      assert top == c;
      assert forall d :: d in winners ==> d == c;
    } else if winners == [c] {
      forall d | d in candidates && d != c ensures score(d) < score(c) {
        assert d !in winners;
      }
    }
  }

  lemma OnlyMember<T>(s: seq<T>, c: T)
    requires Distinct(s)
    ensures c in s && (forall d :: d in s ==> d == c) <==> s == [c]
  {
    assert |s| >= 2 ==> s[0] != s[1];
    if c in s && (forall d :: d in s ==> d == c) {
      forall i | 0 <= i < |s| ensures s[i] == c {
        assert s[i] in s;
      }
    }
  }

  lemma TargetIsListed(r: Located, defs: seq<string>, qualified: seq<string>, imports: seq<Import>)
    ensures var d := Judge(r, defs, qualified, imports);
            d.target.Some? ==> d.target.value in (if d.resolution == Qualified then qualified else defs)
  {
    hide ImportedTarget;
    ImportedIsCandidate(imports, r.item.name, r.path, defs);
  }

  /** A target is always a file that defines the name, and there is one exactly for the four
      resolutions that claim one. */
  lemma TargetDefinesName(view: View, r: Located)
    ensures var d := ResolveOne(view, r);
            && (d.target.Some? <==> d.resolution in {Qualified, Local, UniqueGlobal, Imported})
            && (d.target.Some? ==> exists s :: s in view && s.path == d.target.value
                                             && Defines(s.graph, r.item.name, None))
  {
    var d := ResolveOne(view, r);
    var owner := if d.resolution == Qualified then r.item.qualifier else None;
    TargetIsListed(r, DefPaths(view, r.item.name, None), QualifiedPaths(view, r), ImportsInFile(view, r.path));
    DefPathsAre(view, r.item.name, owner);
    if d.target.Some? {
      var s :| s in view && s.path == d.target.value && Defines(s.graph, r.item.name, owner);
      assert Defines(s.graph, r.item.name, None);
    }
  }

  // ---- which file is meant ----

  /** The file at `p` has a symbol of the name, owned by `owner` when one is given. */
  ghost predicate HasSymbol(view: View, p: string, name: string, owner: Option<string>) {
    exists s, d :: s in view && d in s.graph.symbols && s.path == p && d.name == name
                   && (owner.None? || d.owner == owner)
  }

  ghost predicate NoFile(view: View, name: string, owner: Option<string>) {
    forall p :: !HasSymbol(view, p, name, owner)
  }

  ghost predicate OnlyFile(view: View, p: string, name: string, owner: Option<string>) {
    HasSymbol(view, p, name, owner) && forall q :: HasSymbol(view, q, name, owner) ==> q == p
  }

  lemma DefPathsExactly(view: View, name: string, owner: Option<string>)
    requires OnePerPath(view)
    ensures var defs := DefPaths(view, name, owner);
            && Distinct(defs) && (forall p :: p in defs <==> HasSymbol(view, p, name, owner))
            && (defs == [] <==> NoFile(view, name, owner))
            && (forall p :: defs == [p] <==> OnlyFile(view, p, name, owner))
            && (|defs| == 1 ==> OnlyFile(view, defs[0], name, owner))
  {
    var defs := DefPaths(view, name, owner);
    DefPathsAre(view, name, owner);
    DefPathsDistinct(view, name, owner);
    forall p ensures p in defs <==> HasSymbol(view, p, name, owner) {
      if p in defs {
        var s :| s in view && s.path == p && Defines(s.graph, name, owner);
        var d :| d in s.graph.symbols && d.name == name && (owner.Some? ==> d.owner == owner);
      }
      if HasSymbol(view, p, name, owner) {
        var s, d :| s in view && d in s.graph.symbols && s.path == p && d.name == name
                    && (owner.None? || d.owner == owner);
        assert Defines(s.graph, name, owner);
      }
    }
    if defs != [] {
      assert defs[0] in defs && HasSymbol(view, defs[0], name, owner);
    }
    forall p ensures defs == [p] <==> OnlyFile(view, p, name, owner) {
      OnlyMember(defs, p);
    }
    assert |defs| == 1 ==> defs == [defs[0]];
  }

  lemma {:induction false} DefPathsDistinct(view: View, name: string, owner: Option<string>)
    requires OnePerPath(view)
    ensures Distinct(DefPaths(view, name, owner))
    ensures forall p :: p in DefPaths(view, name, owner) ==> exists i :: 0 <= i < |view| && view[i].path == p
  {
    if view != [] {
      DefPathsDistinct(view[1..], name, owner);
      var rest := DefPaths(view[1..], name, owner);
      forall p | p in rest
        ensures p != view[0].path
        ensures exists i :: 0 <= i < |view| && view[i].path == p
      {
        var i :| 0 <= i < |view[1..]| && view[1..][i].path == p;
        assert view[i + 1].path == p;
      }
      var all := DefPaths(view, name, owner);
      assert all == rest || all == [view[0].path] + rest;
      forall j | 0 <= j < |rest| ensures rest[j] != view[0].path {
        assert rest[j] in rest;
      }
      forall p | p in all ensures exists i :: 0 <= i < |view| && view[i].path == p {
        if p !in rest { assert view[0].path == p; }
      }
    }
  }

  /** There is no qualifier, or it names no owner in the view. */
  ghost predicate Unowned(view: View, r: Located) {
    r.item.qualifier.None? || NoFile(view, r.item.name, r.item.qualifier)
  }

  /** How a reference is resolved, in terms of the symbols of the view: an owner that only one file has
      decides; failing any owner, the file itself if it defines the name; otherwise nothing is said of a
      method call; otherwise the only file there is, or the one an import settles on. */
  lemma ResolvesExactly(view: View, r: Located)
    requires OnePerPath(view)
    ensures var d := ResolveOne(view, r);
            var name, q, bare := r.item.name, r.item.qualifier, Unowned(view, r);
            var here, none := HasSymbol(view, r.path, name, None), NoFile(view, name, None);
            && d.reference == r
            && (d.resolution == Qualified <==> q.Some? && exists p :: OnlyFile(view, p, name, q))
            && (d.resolution == Qualified ==> d.target.Some? && OnlyFile(view, d.target.value, name, q))
            && (d.resolution == Local <==> bare && here)
            && (d.resolution == Local ==> d.target == Some(r.path))
            && (d.resolution == Unresolved <==> bare && none)
            && (d.resolution == ReceiverUnknown <==> bare && !here && !none && r.item.kind == Method)
            && (d.resolution == UniqueGlobal <==>
                  bare && !here && r.item.kind != Method && exists p :: OnlyFile(view, p, name, None))
            && (d.resolution == UniqueGlobal ==> d.target.Some? && OnlyFile(view, d.target.value, name, None))
            && (d.resolution == Imported ==>
                  && bare && !here && !none && r.item.kind != Method
                  && d.target == ImportedTarget(ImportsInFile(view, r.path), name, r.path, DefPaths(view, name, None)))
  {
    hide ImportedTarget, OnlyFile, NoFile, HasSymbol;
    var q := r.item.qualifier;
    DefPathsExactly(view, r.item.name, None);
    var defs := DefPaths(view, r.item.name, None);
    assert |defs| == 1 ==> defs == [defs[0]];
    if q.Some? {
      DefPathsExactly(view, r.item.name, q);
      var owned := DefPaths(view, r.item.name, q);
      assert |owned| == 1 ==> owned == [owned[0]];
    }
  }

  /** In a view with one slice a path, a file's imports are its slice's. */
  lemma {:induction false} ImportsInFileExactly(view: View, s: Slice)
    requires OnePerPath(view) && s in view
    ensures ImportsInFile(view, s.path) == s.graph.imports
  {
    if view[0] != s {
      var i :| 0 <= i < |view| && view[i] == s;
      assert view[0].path != view[i].path;
      assert view[1..][i - 1] == s;
      ImportsInFileExactly(view[1..], s);
    }
  }

  /** The candidate fits what the file imports under the name: the package a relative import points at, or
      the module path of an absolute one; without such an import, some file it includes whole. */
  ghost predicate Fits(imports: seq<Import>, name: string, fromPath: string, c: string) {
    if forall i :: i in imports ==> i.name != name then
      exists i :: i in imports && i.name == "" && i.path != [] && PathEndsWithModule(c, i.path)
    else
      exists k :: 0 <= k < |imports| && imports[k].name == name && (forall j :: 0 <= j < k ==> imports[j].name != name)
        && if imports[k].depth > 0 then
             var anchor := RelativeAnchor(fromPath, imports[k].depth, imports[k].path);
             anchor.Some? && PathUnder(c, anchor.value)
           else imports[k].path != [] && PathEndsWithModule(c, imports[k].path)
  }

  /** An import settles on a candidate exactly when it is the only one that fits, or the one that is strictly
      nearest of those that do. */
  lemma ImportedExactly(imports: seq<Import>, name: string, fromPath: string, candidates: seq<string>, c: string)
    requires Distinct(candidates) && c in candidates
    ensures ImportedTarget(imports, name, fromPath, candidates) == Some(c) <==>
              && Fits(imports, name, fromPath, c)
              && forall d :: d in candidates && d != c && Fits(imports, name, fromPath, d) ==>
                   Closeness(d, fromPath) < Closeness(c, fromPath)
                   || forall e :: e in candidates && Fits(imports, name, fromPath, e) ==> e == c
  {
    hide PathUnder, PathEndsWithModule, RelativeAnchor, Closeness, Settle;
    var fits := FittingOf(imports, name, fromPath, candidates);
    SettledExactly(fits, fromPath, c);
  }

  /** The candidates that fit, in order. */
  lemma FittingOf(imports: seq<Import>, name: string, fromPath: string, candidates: seq<string>)
    returns (fits: seq<string>)
    requires Distinct(candidates)
    ensures Distinct(fits) && forall d :: d in fits <==> d in candidates && Fits(imports, name, fromPath, d)
    ensures ImportedTarget(imports, name, fromPath, candidates) == Settle(fits, fromPath)
  {
    hide PathUnder, PathEndsWithModule, RelativeAnchor, Settle;
    FirstImport(imports, name);
    match ImportOf(imports, name)
    case None =>
      fits := Filter(candidates, p => IncludedBy(imports, p));
      FilterDistinct(candidates, p => IncludedBy(imports, p));
    case Some(i) =>
      if i.depth > 0 {
        var anchor := RelativeAnchor(fromPath, i.depth, i.path);
        if anchor.None? {
          fits := [];
          NothingSettles(fromPath);
        } else {
          fits := Filter(candidates, p => PathUnder(p, anchor.value));
          FilterDistinct(candidates, p => PathUnder(p, anchor.value));
        }
      } else if i.path == [] {
        fits := [];
        NothingSettles(fromPath);
      } else {
        fits := Filter(candidates, p => PathEndsWithModule(p, i.path));
        FilterDistinct(candidates, p => PathEndsWithModule(p, i.path));
      }
  }

  lemma NothingSettles(fromPath: string)
    ensures Settle([], fromPath) == None
  {
  }

  lemma {:induction false} FirstImport(imports: seq<Import>, name: string)
    ensures ImportOf(imports, name).None? <==> forall i :: i in imports ==> i.name != name
    ensures ImportOf(imports, name).Some? ==>
              exists k :: 0 <= k < |imports| && imports[k] == ImportOf(imports, name).value && imports[k].name == name
                          && forall j :: 0 <= j < k ==> imports[j].name != name
  {
    if imports != [] {
      var rest := imports[1..];
      FirstImport(rest, name);
      assert imports == [imports[0]] + rest;
      if imports[0].name == name {
        assert imports[0] == ImportOf(imports, name).value;
      } else if ImportOf(rest, name).Some? {
        var k :| 0 <= k < |rest| && rest[k] == ImportOf(rest, name).value && rest[k].name == name
                 && forall j :: 0 <= j < k ==> rest[j].name != name;
        assert imports[k + 1] == rest[k];
        forall j | 0 <= j < k + 1 ensures imports[j].name != name {
          if j > 0 { assert rest[j - 1] == imports[j]; }
        }
      }
    }
  }

  lemma SettledExactly(fits: seq<string>, fromPath: string, c: string)
    requires Distinct(fits)
    ensures Settle(fits, fromPath) == Some(c) <==>
              && c in fits
              && forall d :: d in fits && d != c ==>
                   Closeness(d, fromPath) < Closeness(c, fromPath) || forall e :: e in fits ==> e == c
  {
    hide Closeness;
    OnlyMember(fits, c);
    if |fits| > 1 {
      if c in fits {
        NearestIsStrict(fits, fromPath, c);
        assert exists d :: d in fits && d != c by {
          assert fits[0] != fits[1] && fits[0] in fits && fits[1] in fits;
        }
      } else {
        NearestIsListed(fits, fromPath);
      }
    }
  }

  lemma NearestIsListed(fits: seq<string>, fromPath: string)
    ensures NearestTo(fits, fromPath).Some? ==> NearestTo(fits, fromPath).value in fits
  {
  }

  lemma ImportedIsCandidate(imports: seq<Import>, name: string, fromPath: string, candidates: seq<string>)
    ensures var t := ImportedTarget(imports, name, fromPath, candidates); t.Some? ==> t.value in candidates
  {
  }

  /** A qualifier is meant only to narrow: to turn ambiguity into an answer, never an answer into
      ambiguity. It loses an answer exactly when several files own the name under it. */
  lemma QualifierLosesAnswerExactly(view: View, r: Located)
    requires ResolveOne(view, r.(item := r.item.(qualifier := None))).target.Some?
    ensures ResolveOne(view, r).target.None? <==>
              r.item.qualifier.Some? && |DefPaths(view, r.item.name, r.item.qualifier)| >= 2
  {
  }

  /** Two files own `get` under `B`: a call of `B::get` in one of them is ambiguous, while a bare
      `get` there is local. */
  lemma QualifierCanLoseAnswer()
    ensures exists view: View, r :: OnePerPath(view)
              && ResolveOne(view, r).target.None?
              && ResolveOne(view, r.(item := r.item.(qualifier := None))).target.Some?
  {
    var g := CodeGraph([Symbol("get", Some("B"))], [], []);
    var view := [Slice("a", g), Slice("b", g)];
    var r := Located("a", Reference("get", None, Free, Some("B")));
    assert view[1..] == [Slice("b", g)] && view[1..][1..] == [];
    assert g.symbols[0] in g.symbols;
    assert Defines(g, "get", Some("B")) && Defines(g, "get", None);
    assert DefPaths(view[1..], "get", Some("B")) == ["b"];
    assert DefPaths(view, "get", Some("B")) == ["a", "b"];
    DefPathsAre(view, "get", None);
    assert view[0] in view;
    assert "a" in DefPaths(view, "get", None);
    assert OnePerPath(view) && ResolveOne(view, r).target.None?;
    assert ResolveOne(view, r.(item := r.item.(qualifier := None))).target.Some?;
  }
}
