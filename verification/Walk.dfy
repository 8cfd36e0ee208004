/** Which files of a source tree enter a view: the path rules and the pruned directory walk.
    A repo-relative path is the sequence of its components. */
module Walk {
  import opened Wrappers

  type Path = seq<string>

  const SKIP_DIRS: set<string> :=
    {"target", "node_modules", "vendor", "dist", "build", "site-packages", "third_party"}

  const SKIP_SUFFIXES: seq<string> := [".min.js", ".min.css", ".bundle.js", "-lock.json"]

  /** Path prefixes that re-admit what the built-in rules would drop. */
  datatype IndexFilter = IndexFilter(includes: seq<Path>) {

    predicate IsIncluded(rel: Path) {
      exists p :: p in includes && p <= rel
    }

    /** The path-only rules: no dependency, output or hidden component, no generated file name. */
    predicate IsIndexable(rel: Path) {
      IsIncluded(rel) || (!HasSkippedPart(rel) && !HasSkippedName(rel))
    }

    /** Wider for directories: one that an include lies under must still be entered. */
    predicate ShouldDescend(rel: Path) {
      IsIndexable(rel) || exists p :: p in includes && rel < p
    }
  }

  predicate IsSkippedPart(part: string) {
    (part != "" && part[0] == '.') || part in SKIP_DIRS
  }

  predicate HasSkippedPart(rel: Path) {
    exists i :: 0 <= i < |rel| && IsSkippedPart(rel[i])
  }

  predicate EndsWith(s: string, suffix: string) {
    |suffix| <= |s| && s[|s| - |suffix|..] == suffix
  }

  predicate HasSkippedSuffix(name: string) {
    exists suffix :: suffix in SKIP_SUFFIXES && EndsWith(name, suffix)
  }

  predicate HasSkippedName(rel: Path) {
    rel != [] && HasSkippedSuffix(rel[|rel| - 1])
  }

  /** An include admits exactly the paths it leads, and opens exactly the directories on the way to them and
      below. */
  lemma IncludeAdmitsExactly(f: IndexFilter, more: Path, rel: Path)
    ensures IndexFilter(f.includes + [more]).IsIndexable(rel) <==> f.IsIndexable(rel) || more <= rel
    ensures IndexFilter(f.includes + [more]).ShouldDescend(rel) <==> f.ShouldDescend(rel) || more <= rel || rel < more
  {
    var g := IndexFilter(f.includes + [more]);
    assert forall p :: p in g.includes <==> p in f.includes || p == more;
    assert more in g.includes;
    assert g.IsIncluded(rel) <==> f.IsIncluded(rel) || more <= rel;
  }

  lemma EndsWithExactly(s: string, suffix: string)
    ensures EndsWith(s, suffix) <==> exists stem: string :: s == stem + suffix
  {
    if EndsWith(s, suffix) {
      assert s == s[..|s| - |suffix|] + suffix;
    }
    forall stem: string | s == stem + suffix ensures EndsWith(s, suffix) {
    }
  }

  predicate Generated(name: string, stem: string) {
    name == stem + ".min.js" || name == stem + ".min.css" || name == stem + ".bundle.js" || name == stem + "-lock.json"
  }

  /** Without includes a file is left out exactly if some part of its path is hidden or names a directory of
      dependencies or build output, or its own name ends like a generated file's. */
  lemma LeftOutExactly(dirs: Path, name: string)
    ensures var rel := dirs + [name];
            IndexFilter([]).IsIndexable(rel) <==>
              && (forall part :: part in rel ==>
                    !("." <= part)
                    && part !in {"target", "node_modules", "vendor", "dist", "build", "site-packages", "third_party"})
              && !exists stem :: Generated(name, stem)
  {
    var rel := dirs + [name];
    GeneratedExactly(name);
    assert rel[|rel| - 1] == name;
    forall part ensures IsSkippedPart(part) <==>
                          "." <= part || part in {"target", "node_modules", "vendor", "dist", "build",
                                                  "site-packages", "third_party"}
    {
    }
    assert HasSkippedPart(rel) <==> exists part :: part in rel && IsSkippedPart(part);
  }

  lemma GeneratedExactly(name: string)
    ensures HasSkippedSuffix(name) <==> exists stem :: Generated(name, stem)
  {
    hide EndsWith, Generated, HasSkippedSuffix;
    SuffixCases(name);
    EndsWithExactly(name, ".min.js");
    EndsWithExactly(name, ".min.css");
    EndsWithExactly(name, ".bundle.js");
    EndsWithExactly(name, "-lock.json");
    forall stem: string ensures Generated(name, stem) <==>
                                  name == stem + ".min.js" || name == stem + ".min.css" || name == stem + ".bundle.js"
                                  || name == stem + "-lock.json"
    {
      GeneratedCases(name, stem);
    }
  }

  lemma GeneratedCases(name: string, stem: string)
    ensures Generated(name, stem) <==>
              name == stem + ".min.js" || name == stem + ".min.css" || name == stem + ".bundle.js"
              || name == stem + "-lock.json"
  {
  }

  lemma SuffixCases(name: string)
    ensures HasSkippedSuffix(name) <==>
              EndsWith(name, ".min.js") || EndsWith(name, ".min.css") || EndsWith(name, ".bundle.js")
              || EndsWith(name, "-lock.json")
  {
    hide EndsWith;
    assert SKIP_SUFFIXES[0] == ".min.js" && SKIP_SUFFIXES[1] == ".min.css";
    assert SKIP_SUFFIXES[2] == ".bundle.js" && SKIP_SUFFIXES[3] == "-lock.json";
  }

  /** A directory above an indexable file is entered, unless it is itself named like a generated
      file and no include reaches it. */
  lemma AncestorsAreEntered(f: IndexFilter, rel: Path, k: nat)
    requires f.IsIndexable(rel) && 0 < k < |rel|
    ensures f.ShouldDescend(rel[..k]) <==>
              !HasSkippedSuffix(rel[k - 1]) || exists p :: p in f.includes && (p <= rel[..k] || rel[..k] < p)
  {
    var dir := rel[..k];
    assert dir[|dir| - 1] == rel[k - 1];
    if f.IsIncluded(rel) {
      var p :| p in f.includes && p <= rel;
      PrefixesCompare(p, dir, rel);
    } else {
      assert forall i :: 0 <= i < |dir| ==> dir[i] == rel[i];
    }
  }

  /** Two prefixes of one path are prefixes of each other, one way or the other. */
  lemma PrefixesCompare(p: Path, q: Path, rel: Path)
    requires p <= rel && q <= rel
    ensures p <= q || q < p
  {
    assert p == rel[..|p|] && q == rel[..|q|];
  }

  // ---- the walk ----

  datatype Entry<C> = File(content: C) | Dir(entries: map<string, Entry<C>>)

  /** What the walk asks of the outside: git's ignore rules and the known extensions. */
  datatype Rules = Rules(filter: IndexFilter, ignored: Path -> bool, language: Path -> bool) {

    predicate Enters(rel: Path) {
      filter.ShouldDescend(rel) && !ignored(rel)
    }

    predicate Admits(rel: Path) {
      filter.IsIndexable(rel) && !ignored(rel)
    }
  }

  /** The content of the file at `rel` under `entry`. */
  function FileAt<C>(entry: Entry<C>, rel: Path): Option<C>
    decreases |rel|
  {
    match entry
    case File(content) => if rel == [] then Some(content) else None
    case Dir(entries) => if rel == [] || rel[0] !in entries then None else FileAt(entries[rel[0]], rel[1..])
  }

  /** The walk's own reach: the files below `at` it lists, by their paths below `at`. */
  predicate Listed<C>(r: Rules, entry: Entry<C>, at: Path, below: Path)
    decreases |below|
  {
    match entry
    case File(_) => below == [] && r.language(at) && r.Admits(at)
    case Dir(entries) =>
      && below != [] && below[0] in entries
      && var next := at + [below[0]];
      (entries[below[0]].Dir? ==> r.Enters(next)) && Listed(r, entries[below[0]], next, below[1..])
  }

  /** Every directory strictly between the root and the file is entered. */
  ghost predicate EveryDirEntered(r: Rules, at: Path, below: Path) {
    forall k :: 0 < k < |below| ==> r.Enters(at + below[..k])
  }

  /** The walk lists exactly the admitted files of known languages under directories it enters. */
  lemma {:induction false} ListedExactly<C>(r: Rules, entry: Entry<C>, at: Path, below: Path)
    ensures Listed(r, entry, at, below) <==>
              FileAt(entry, below).Some? && r.language(at + below) && r.Admits(at + below)
                && EveryDirEntered(r, at, below)
    decreases |below|
  {
    if entry.File? {
      if below == [] {
        assert at + below == at;
      }
    } else if below != [] && below[0] in entry.entries {
      var next, rest := at + [below[0]], below[1..];
      ListedExactly(r, entry.entries[below[0]], next, rest);
      assert next + rest == at + below;
      assert forall k :: 0 < k < |rest| ==> next + rest[..k] == at + below[..k + 1];
      assert at + below[..1] == next;
      assert FileAt(entry, below) == FileAt(entry.entries[below[0]], rest);
      assert FileAt(entry.entries[below[0]], rest).Some? ==> (entry.entries[below[0]].Dir? <==> rest != []);
      if EveryDirEntered(r, at, below) {
        forall k | 0 < k < |rest| ensures r.Enters(next + rest[..k]) {
          assert r.Enters(at + below[..k + 1]);
        }
      }
      if EveryDirEntered(r, next, rest) && (|below| > 1 ==> r.Enters(next)) {
        forall k | 0 < k < |below| ensures r.Enters(at + below[..k]) {
          if k > 1 { assert r.Enters(next + rest[..k - 1]); }
        }
      }
    }
  }

  /** So nothing git ignores is listed, nor anything below a directory git ignores or the filter keeps the
      walk out of. */
  lemma ListedOnlyBelowOpenDirs<C>(r: Rules, root: Entry<C>, rel: Path)
    ensures Listed(r, root, [], rel) <==>
              && FileAt(root, rel).Some? && r.language(rel) && r.filter.IsIndexable(rel) && !r.ignored(rel)
              && forall k :: 0 < k < |rel| ==> r.filter.ShouldDescend(rel[..k]) && !r.ignored(rel[..k])
  {
    ListedExactly(r, root, [], rel);
    assert [] + rel == rel;
    assert forall k :: 0 < k < |rel| ==> [] + rel[..k] == rel[..k];
  }

  /** Git ignores everything under a directory it ignores. */
  ghost predicate IgnoresBelow(r: Rules) {
    forall rel, k :: 0 < k < |rel| && !r.ignored(rel) ==> !r.ignored(rel[..k])
  }

  /** No directory above `rel` is named like a generated file out of every include's reach. */
  ghost predicate NoOddDirectory(r: Rules, rel: Path) {
    forall k :: 0 < k < |rel| ==>
      !HasSkippedSuffix(rel[k - 1]) || exists p :: p in r.filter.includes && (p <= rel[..k] || rel[..k] < p)
  }

  /** So a file is listed exactly when it is admitted on its own path, provided no directory above
      it is oddly named; and an admitted file is missed exactly when one is. */
  lemma ListedExactlyWhenAdmitted<C>(r: Rules, root: Entry<C>, rel: Path)
    requires IgnoresBelow(r) && FileAt(root, rel).Some? && r.language(rel) && r.Admits(rel)
    ensures Listed(r, root, [], rel) <==> NoOddDirectory(r, rel)
  {
    ListedExactly(r, root, [], rel);
    assert [] + rel == rel;
    forall k | 0 < k < |rel| ensures r.Enters([] + rel[..k]) <==>
        (!HasSkippedSuffix(rel[k - 1]) || exists p :: p in r.filter.includes && (p <= rel[..k] || rel[..k] < p))
    {
      assert [] + rel[..k] == rel[..k];
      AncestorsAreEntered(r.filter, rel, k);
    }
  }

  /** No includes, nothing ignored, every extension known. */
  function PlainRules(): Rules {
    Rules(IndexFilter([]), _ => false, _ => true)
  }

  lemma ShortNamesAreKept(name: string)
    requires |name| < 7
    ensures !HasSkippedSuffix(name)
  {
    assert |SKIP_SUFFIXES[0]| == 7 && |SKIP_SUFFIXES[1]| == 8 && |SKIP_SUFFIXES[2]| == 10 && |SKIP_SUFFIXES[3]| == 10;
  }

  lemma PlainNameIsIndexable(name: string)
    requires |name| == 1 && name[0] != '.'
    ensures IndexFilter([]).IsIndexable([name]) && !IsSkippedPart(name)
  {
    ShortNamesAreKept(name);
    assert forall dir :: dir in SKIP_DIRS ==> |dir| > 1;
  }

  lemma PlainNameIsAdmitted(name: string)
    requires |name| == 1 && name[0] != '.'
    ensures PlainRules().Admits([name])
  {
    PlainNameIsIndexable(name);
  }

  /** A source file under a directory named like a minified script: the plain rules admit it, and the
      walk does not list it. */
  lemma FileUnderOddDirectory<C>(content: C)
    ensures var root, rel := Dir(map["a.min.js" := Dir(map["b" := File(content)])]), ["a.min.js", "b"];
            && FileAt(root, rel) == Some(content) && PlainRules().language(rel) && PlainRules().Admits(rel)
            && !NoOddDirectory(PlainRules(), rel) && !Listed(PlainRules(), root, [], rel)
  {
    var r, rel: Path := PlainRules(), ["a.min.js", "b"];
    var root := Dir(map["a.min.js" := Dir(map["b" := File(content)])]);
    PlainNameIsIndexable("b");
    assert forall dir :: dir in SKIP_DIRS ==> dir[0] != 'a';
    assert EndsWith(rel[0], SKIP_SUFFIXES[0]);
    assert rel[1..] == ["b"] && rel[1..][1..] == [];
    ListedExactlyWhenAdmitted(r, root, rel);
  }

  /** `out` holds the listed files below `at` whose first component is in `names`. */
  ghost predicate Holds<C(!new)>(r: Rules, entries: map<string, Entry<C>>, at: Path, names: set<string>,
                                 out: set<Path>) {
    && (forall p :: p in out ==> at <= p)
    && (forall below :: at + below in out <==>
          below != [] && below[0] in names && Listed(r, Dir(entries), at, below))
  }

  /** The recursive walk, pruning as it goes. */
  method SourceFiles<C(!new)>(r: Rules, dir: Entry<C>, at: Path) returns (out: set<Path>)
    requires dir.Dir?
    ensures Holds(r, dir.entries, at, dir.entries.Keys, out)
    decreases dir
  {
    var entries := dir.entries;
    out := {};
    var todo := entries.Keys;
    while todo != {}
      invariant todo <= entries.Keys && Holds(r, entries, at, entries.Keys - todo, out)
      decreases |todo|
    {
      var name :| name in todo;
      todo := todo - {name};
      var rel := at + [name];
      match entries[name] {
        case Dir(inner) =>
          if r.Enters(rel) {
            var found := SourceFiles(r, entries[name], rel);
            HoldsDir(r, entries, at, entries.Keys - todo - {name}, out, name, inner, found);
            out := out + found;
          } else {
            HoldsNothing(r, entries, at, entries.Keys - todo - {name}, out, name);
          }
        case File(_) =>
          if r.language(rel) && r.Admits(rel) {
            HoldsFile(r, entries, at, entries.Keys - todo - {name}, out, name);
            out := out + {rel};
          } else {
            HoldsNothing(r, entries, at, entries.Keys - todo - {name}, out, name);
          }
      }
      assert entries.Keys - todo - {name} + {name} == entries.Keys - todo;
    }
  }

  lemma SplitHead(at: Path, below: Path)
    requires below != []
    ensures at + below == at + [below[0]] + below[1..]
  {
  }

  lemma HoldsNothing<C(!new)>(r: Rules, entries: map<string, Entry<C>>, at: Path, names: set<string>, out: set<Path>,
                              name: string)
    requires Holds(r, entries, at, names, out) && name in entries && name !in names
    requires entries[name].Dir? ==> !r.Enters(at + [name])
    requires entries[name].File? ==> !(r.language(at + [name]) && r.Admits(at + [name]))
    ensures Holds(r, entries, at, names + {name}, out)
  {
    forall below | below != [] && below[0] == name ensures !Listed(r, Dir(entries), at, below) {
    }
  }

  lemma HoldsFile<C(!new)>(r: Rules, entries: map<string, Entry<C>>, at: Path, names: set<string>, out: set<Path>,
                           name: string)
    requires Holds(r, entries, at, names, out) && name in entries && name !in names
    requires entries[name].File? && r.language(at + [name]) && r.Admits(at + [name])
    ensures Holds(r, entries, at, names + {name}, out + {at + [name]})
  {
    forall below ensures at + below == at + [name] <==> below == [name] {
      assert (at + below)[|at|..] == below && (at + [name])[|at|..] == [name];
    }
    forall below | below != [] && below[0] == name ensures Listed(r, Dir(entries), at, below) <==> below == [name] {
      if below[1..] == [] { assert below == [name]; }
    }
  }

  lemma HoldsDir<C(!new)>(r: Rules, entries: map<string, Entry<C>>, at: Path, names: set<string>, out: set<Path>,
                          name: string, inner: map<string, Entry<C>>, found: set<Path>)
    requires Holds(r, entries, at, names, out) && name in entries && name !in names
    requires entries[name] == Dir(inner) && r.Enters(at + [name])
    requires Holds(r, inner, at + [name], inner.Keys, found)
    ensures Holds(r, entries, at, names + {name}, out + found)
  {
    forall below
      ensures at + below in found <==> below != [] && below[0] == name && Listed(r, Dir(entries), at, below)
    {
      if at + below in found {
        assert at + [name] <= at + below;
        assert (at + below)[..|at| + 1] == at + [name];
        assert below != [] && below[0] == (at + below)[|at|];
      }
      if below != [] && below[0] == name {
        SplitHead(at, below);
        assert Listed(r, Dir(entries), at, below) == Listed(r, Dir(inner), at + [name], below[1..]);
        assert (at + [name]) + below[1..] in found <==>
               below[1..] != [] && below[1..][0] in inner.Keys && Listed(r, Dir(inner), at + [name], below[1..]);
      }
    }
    forall p | p in found ensures at <= p {
      assert at + [name] <= p;
    }
  }
}
