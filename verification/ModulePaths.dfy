/** File paths as resolution compares them: components, stems, and the module path a file stands for. */
module ModulePaths {
  import opened Wrappers

  function Filter<T(!new)>(s: seq<T>, keep: T -> bool): (r: seq<T>)
    ensures forall x :: x in r <==> x in s && keep(x)
    ensures |r| <= |s|
  {
    if s == [] then [] else (if keep(s[0]) then [s[0]] else []) + Filter(s[1..], keep)
  }

  lemma {:induction false} FilterSplits<T(!new)>(s: seq<T>, t: seq<T>, keep: T -> bool)
    ensures Filter(s + t, keep) == Filter(s, keep) + Filter(t, keep)
  {
    if s == [] {
      assert s + t == t;
    } else {
      assert (s + t)[1..] == s[1..] + t;
      FilterSplits(s[1..], t, keep);
    }
  }

  lemma {:induction false} FilterDistinct<T(!new)>(s: seq<T>, keep: T -> bool)
    requires Distinct(s)
    ensures Distinct(Filter(s, keep))
  {
    if s != [] {
      FilterDistinct(s[1..], keep);
      var rest, r := Filter(s[1..], keep), Filter(s, keep);
      if keep(s[0]) {
        assert r == [s[0]] + rest;
        forall j | 0 <= j < |rest| ensures rest[j] != s[0] {
          assert rest[j] in s[1..];
        }
      }
    }
  }

  function SplitOn(s: string, sep: char): (r: seq<string>)
    ensures r != []
  {
    if s == [] then [[]]
    else if s[0] == sep then [[]] + SplitOn(s[1..], sep)
    else var rest := SplitOn(s[1..], sep); [[s[0]] + rest[0]] + rest[1..]
  }

  predicate IsNamed(part: string) {
    part != ""
  }

  function Components(path: string): seq<string> {
    Filter(SplitOn(path, '/'), IsNamed)
  }

  function LastIndex(s: string, c: char): (i: nat)
    requires c in s
    ensures i < |s| && s[i] == c
  {
    if s[|s| - 1] == c then |s| - 1 else LastIndex(s[..|s| - 1], c)
  }

  /** The part before the last dot, or the whole name. */
  function Stem(name: string): string {
    if '.' in name then name[..LastIndex(name, '.')] else name
  }

  predicate SameChar(a: char, b: char) {
    a == b || ((a == '-' || a == '_') && (b == '-' || b == '_'))
  }

  predicate SameSegment(a: string, b: string) {
    |a| == |b| && forall i :: 0 <= i < |a| ==> SameChar(a[i], b[i])
  }

  predicate SameSegments(a: seq<string>, b: seq<string>) {
    |a| == |b| && forall i :: 0 <= i < |a| ==> SameSegment(a[i], b[i])
  }

  /** A file's path as module segments: its stem, unless that names its container. */
  function ModuleSegments(components: seq<string>, containers: set<string>): seq<string> {
    if components == [] then []
    else
      var stem := Stem(components[|components| - 1]);
      components[..|components| - 1] + (if stem in containers then [] else [stem])
  }

  const CONTAINERS: set<string> := {"mod", "lib", "main", "__init__", "index"}

  /** `src` is build layout, not a module. */
  predicate IsModule(part: string) {
    part != "src"
  }

  function ModulePath(file: string): seq<string> {
    ModuleSegments(Filter(Components(file), IsModule), CONTAINERS)
  }

  predicate PathEndsWithModule(file: string, module_: seq<string>) {
    var parts := ModulePath(file);
    |parts| >= |module_| && SameSegments(parts[|parts| - |module_|..], module_)
  }

  predicate PathUnder(file: string, anchor: seq<string>) {
    var parts := ModuleSegments(Components(file), {"__init__"});
    |parts| >= |anchor| && SameSegments(parts[..|anchor|], anchor)
  }

  /** Where a relative import points: one level up per dot, then the module segments. */
  function RelativeAnchor(fromPath: string, depth: nat, module_: seq<string>): Option<seq<string>> {
    var parts := Components(fromPath);
    if depth == 0 || |parts| < depth then None else Some(parts[..|parts| - depth] + module_)
  }

  function SharedPrefix(a: seq<string>, b: seq<string>): nat {
    if a == [] || b == [] || !SameSegment(a[0], b[0]) then 0 else 1 + SharedPrefix(a[1..], b[1..])
  }

  function Closeness(path: string, fromPath: string): nat {
    SharedPrefix(Components(path), Components(fromPath))
  }

  // ---- what they mean ----

  function JoinWith(parts: seq<string>, sep: char): string {
    if parts == [] then "" else if |parts| == 1 then parts[0] else parts[0] + [sep] + JoinWith(parts[1..], sep)
  }

  /** Splitting is the one way to undo joining, when no part holds the separator. */
  lemma {:induction false} SplitOnExactly(s: string, sep: char, parts: seq<string>)
    ensures parts == SplitOn(s, sep) <==>
              parts != [] && (forall p :: p in parts ==> sep !in p) && JoinWith(parts, sep) == s
    decreases |s|
  {
    SplitJoins(s, sep);
    if parts != [] && (forall p :: p in parts ==> sep !in p) && JoinWith(parts, sep) == s {
      JoinSplits(parts, sep);
    }
  }

  lemma {:induction false} SplitJoins(s: string, sep: char)
    ensures JoinWith(SplitOn(s, sep), sep) == s && forall p :: p in SplitOn(s, sep) ==> sep !in p
  {
    if s != [] {
      var rest := SplitOn(s[1..], sep);
      SplitJoins(s[1..], sep);
      if s[0] == sep {
        assert SplitOn(s, sep) == [[]] + rest && ([[]] + rest)[1..] == rest;
        assert s == [sep] + s[1..];
      } else {
        var parts := [[s[0]] + rest[0]] + rest[1..];
        assert parts[1..] == rest[1..];
        assert s == [s[0]] + s[1..];
        forall p | p in parts ensures sep !in p {
          if p != parts[0] { assert p in rest[1..]; }
        }
      }
    }
  }

  lemma {:induction false} JoinSplits(parts: seq<string>, sep: char)
    requires parts != [] && forall p :: p in parts ==> sep !in p
    ensures SplitOn(JoinWith(parts, sep), sep) == parts
    decreases |parts|, |parts[0]|
  {
    var s, first := JoinWith(parts, sep), parts[0];
    if first == [] {
      if |parts| > 1 {
        JoinSplits(parts[1..], sep);
        assert s[0] == sep && s[1..] == JoinWith(parts[1..], sep);
        assert parts == [[]] + parts[1..];
      } else {
        assert parts == [[]];
      }
    } else {
      var shorter := [first[1..]] + parts[1..];
      assert shorter[1..] == parts[1..];
      assert s[0] == first[0] && s[1..] == JoinWith(shorter, sep);
      assert first in parts;
      TailHolds(first, sep);
      forall p | p in shorter ensures sep !in p {
        assert p == first[1..] || p in parts[1..];
      }
      JoinSplits(shorter, sep);
      assert [first[0]] + first[1..] == first && [first] + parts[1..] == parts;
    }
  }

  lemma TailHolds(s: string, c: char)
    requires s != [] && c !in s
    ensures c !in s[1..]
  {
  }

  /** A stem is what stands before the last dot. */
  lemma StemExactly(name: string, stem: string)
    ensures Stem(name) == stem <==>
              if '.' !in name then stem == name else exists ext :: '.' !in ext && name == stem + "." + ext
  {
    if '.' in name {
      var i := LastIndex(name, '.');
      LastIndexIsLast(name, '.');
      assert name == name[..i] + "." + name[i + 1..];
      assert '.' !in name[i + 1..];
      forall ext | '.' !in ext && name == stem + "." + ext ensures stem == name[..i] {
        NoDotBehind(stem, ext);
        assert name[i] == name[|stem|] == '.';
      }
    }
  }

  lemma NoDotBehind(stem: string, ext: string)
    requires '.' !in ext
    ensures var name := stem + "." + ext; forall k :: |stem| < k < |name| ==> name[k] != '.'
  {
    var name := stem + "." + ext;
    forall k | |stem| < k < |name| ensures name[k] != '.' {
      assert name[k] == ext[k - |stem| - 1];
    }
  }

  lemma {:induction false} LastIndexIsLast(s: string, c: char)
    requires c in s
    ensures forall k :: LastIndex(s, c) < k < |s| ==> s[k] != c
  {
    if s[|s| - 1] != c {
      var front := s[..|s| - 1];
      assert s == front + [s[|s| - 1]];
      LastIndexIsLast(front, c);
    }
  }

  /** The same with dashes for underscores. */
  function Dashed(s: string): string {
    if s == [] then [] else [if s[0] == '_' then '-' else s[0]] + Dashed(s[1..])
  }

  /** Segments are the same exactly when they are once dashes and underscores are not told apart. */
  lemma {:induction false} SameSegmentExactly(a: string, b: string)
    ensures SameSegment(a, b) <==> Dashed(a) == Dashed(b)
  {
    if a == [] || b == [] {
    } else {
      SameSegmentExactly(a[1..], b[1..]);
      assert Dashed(a)[1..] == Dashed(a[1..]) && Dashed(b)[1..] == Dashed(b[1..]);
      assert Dashed(a)[0] == Dashed(b)[0] <==> SameChar(a[0], b[0]);
      assert SameSegment(a, b) <==> SameChar(a[0], b[0]) && SameSegment(a[1..], b[1..]) by {
        if SameChar(a[0], b[0]) && SameSegment(a[1..], b[1..]) {
          forall i | 0 <= i < |a| ensures SameChar(a[i], b[i]) {
            if i > 0 { assert SameChar(a[1..][i - 1], b[1..][i - 1]); }
          }
        }
        if SameSegment(a, b) {
          forall i | 0 <= i < |a| - 1 ensures SameChar(a[1..][i], b[1..][i]) {
            assert SameChar(a[i + 1], b[i + 1]);
          }
        }
      }
    }
  }

  /** How close two paths are is the number of leading components they share. */
  lemma {:induction false} SharedPrefixExactly(a: seq<string>, b: seq<string>, k: nat)
    ensures k <= SharedPrefix(a, b) <==>
              k <= |a| && k <= |b| && forall i :: 0 <= i < k ==> SameSegment(a[i], b[i])
    decreases k
  {
    if k > 0 && a != [] && b != [] {
      SharedPrefixExactly(a[1..], b[1..], k - 1);
      if SameSegment(a[0], b[0]) && k - 1 <= |a[1..]| && k - 1 <= |b[1..]|
         && forall i :: 0 <= i < k - 1 ==> SameSegment(a[1..][i], b[1..][i]) {
        forall i | 0 <= i < k ensures SameSegment(a[i], b[i]) {
          if i > 0 { assert SameSegment(a[1..][i - 1], b[1..][i - 1]); }
        }
      }
      if k <= |a| && k <= |b| && forall i :: 0 <= i < k ==> SameSegment(a[i], b[i]) {
        forall i | 0 <= i < k - 1 ensures SameSegment(a[1..][i], b[1..][i]) {
          assert SameSegment(a[i + 1], b[i + 1]);
        }
      }
    }
  }

  /** The segments of `a` are, one by one, those of `b`. */
  lemma SameSegmentsPush(a: seq<string>, x: string, b: seq<string>, y: string)
    ensures SameSegments(a + [x], b + [y]) <==> SameSegments(a, b) && SameSegment(x, y)
  {
    if SameSegments(a + [x], b + [y]) {
      forall i | 0 <= i < |a| ensures SameSegment(a[i], b[i]) {
        assert SameSegment((a + [x])[i], (b + [y])[i]);
      }
      assert SameSegment((a + [x])[|a|], (b + [y])[|a|]);
    }
  }

  /** A file lies at or under a package exactly when the package leads its directories, or is its
      directories and its own stem; `__init__` stands for its directory and adds nothing. */
  lemma PathUnderExactly(file: string, dirs: seq<string>, base: string, anchor: seq<string>)
    requires Components(file) == dirs + [base]
    ensures PathUnder(file, anchor) <==>
              if |anchor| <= |dirs| then SameSegments(dirs[..|anchor|], anchor)
              else
                && |anchor| == |dirs| + 1 && Stem(base) != "__init__"
                && SameSegments(dirs, anchor[..|dirs|]) && SameSegment(Stem(base), anchor[|dirs|])
  {
    hide SameSegments, SameSegment, Stem, Components;
    var parts := ModuleSegments(dirs + [base], {"__init__"});
    assert (dirs + [base])[..|dirs|] == dirs;
    if |anchor| <= |dirs| {
      assert parts[..|anchor|] == dirs[..|anchor|];
    } else if |anchor| == |dirs| + 1 && Stem(base) != "__init__" {
      assert parts == dirs + [Stem(base)] == parts[..|anchor|];
      assert anchor == anchor[..|dirs|] + [anchor[|dirs|]];
      SameSegmentsPush(dirs, Stem(base), anchor[..|dirs|], anchor[|dirs|]);
    }
  }

  /** The module path of a file is its directories but `src`, and its stem unless that names its container. */
  lemma ModulePathExactly(file: string, dirs: seq<string>, base: string)
    requires Components(file) == dirs + [base] && base != "src"
    ensures var inner := Filter(dirs, IsModule);
            ModulePath(file)
            == if Stem(base) in {"mod", "lib", "main", "__init__", "index"} then inner else inner + [Stem(base)]
  {
    hide Stem, Components, Filter;
    var inner := Filter(dirs, IsModule);
    FilterSplits(dirs, [base], IsModule);
    FilterOne(base, IsModule);
    assert (inner + [base])[..|inner|] == inner;
  }

  lemma FilterOne<T(!new)>(x: T, keep: T -> bool)
    ensures Filter([x], keep) == if keep(x) then [x] else []
  {
    assert [x][1..] == [];
  }

  /** A path ends with a module exactly when the module, segment by segment, is the end of that. */
  lemma PathEndsWithModuleExactly(file: string, inner: seq<string>, stem: string, module_: seq<string>)
    requires ModulePath(file) == inner + [stem]
    ensures var n := |module_|;
            PathEndsWithModule(file, module_) <==>
              n == 0
              || (n <= |inner| + 1 && SameSegments(inner[|inner| - (n - 1)..], module_[..n - 1])
                  && SameSegment(stem, module_[n - 1]))
  {
    hide SameSegments, SameSegment, ModulePath;
    EndsWithOneMore(inner, stem, module_);
  }

  lemma EndsWithOneMore(inner: seq<string>, x: string, module_: seq<string>)
    ensures var n := |module_|;
            var parts := inner + [x];
            n <= |parts| && SameSegments(parts[|parts| - n..], module_) <==>
              n == 0
              || (n <= |inner| + 1 && SameSegments(inner[|inner| - (n - 1)..], module_[..n - 1])
                  && SameSegment(x, module_[n - 1]))
  {
    hide SameSegments, SameSegment;
    var parts, n := inner + [x], |module_|;
    if n == 0 {
      NothingIsSame(parts[|parts|..], module_);
    } else if n <= |parts| {
      assert parts[|parts| - n..] == inner[|inner| - (n - 1)..] + [x];
      assert module_ == module_[..n - 1] + [module_[n - 1]];
      SameSegmentsPush(inner[|inner| - (n - 1)..], x, module_[..n - 1], module_[n - 1]);
    }
  }

  lemma NothingIsSame(a: seq<string>, b: seq<string>)
    requires a == b == []
    ensures SameSegments(a, b)
  {
  }

  /** One dot is the file's own package, each further one a level up. */
  lemma RelativeAnchorExactly(fromPath: string, dirs: seq<string>, base: string, depth: nat, module_: seq<string>)
    requires Components(fromPath) == dirs + [base] && depth > 0
    ensures RelativeAnchor(fromPath, depth, module_)
         == if depth - 1 <= |dirs| then Some(dirs[..|dirs| - (depth - 1)] + module_) else None
  {
    hide Components;
    if depth - 1 <= |dirs| {
      assert (dirs + [base])[..|dirs| + 1 - depth] == dirs[..|dirs| - (depth - 1)];
    }
  }
}
