/** Append-only bodies: splitting into lines, and the line union of two diverged bodies. */
module Lines {
  import opened Records

  const NEWLINE: byte := 10

  // ---- lines ----

  /** Where the first line of `b` ends, its newline included. */
  function LineEnd(b: seq<byte>): (e: nat)
    requires b != []
    ensures 0 < e <= |b|
    ensures e < |b| ==> b[e - 1] == NEWLINE
    ensures forall i :: 0 <= i < e - 1 ==> b[i] != NEWLINE
  {
    if b[0] == NEWLINE || |b| == 1 then 1 else 1 + LineEnd(b[1..])
  }

  lemma {:induction false} LineEndUnique(b: seq<byte>, e: nat)
    requires 0 < e <= |b|
    requires e < |b| ==> b[e - 1] == NEWLINE
    requires forall i :: 0 <= i < e - 1 ==> b[i] != NEWLINE
    ensures LineEnd(b) == e
  {
  }

  function SplitLines(b: seq<byte>): seq<seq<byte>> {
    if b == [] then [] else [b[..LineEnd(b)]] + SplitLines(b[LineEnd(b)..])
  }

  function Strip(line: seq<byte>): seq<byte> {
    if line != [] && line[|line| - 1] == NEWLINE then line[..|line| - 1] else line
  }

  function StripAll(lines: seq<seq<byte>>): (r: seq<seq<byte>>)
    ensures |r| == |lines|
    ensures forall i :: 0 <= i < |r| ==> r[i] == Strip(lines[i])
  {
    if lines == [] then [] else [Strip(lines[0])] + StripAll(lines[1..])
  }

  /** The newline-stripped lines of a body. */
  function LinesOf(b: seq<byte>): seq<seq<byte>> {
    StripAll(SplitLines(b))
  }

  function Flatten(lines: seq<seq<byte>>): seq<byte> {
    if lines == [] then [] else lines[0] + Flatten(lines[1..])
  }

  /** Splitting loses no byte. */
  lemma {:induction false} FlattenSplit(b: seq<byte>)
    ensures Flatten(SplitLines(b)) == b
  {
    if b != [] {
      var e := LineEnd(b);
      FlattenSplit(b[e..]);
      assert SplitLines(b) == [b[..e]] + SplitLines(b[e..]);
      assert b == b[..e] + b[e..];
    }
  }

  ghost predicate Terminated(b: seq<byte>) {
    b == [] || b[|b| - 1] == NEWLINE
  }

  lemma {:induction false} SplitConcat(a: seq<byte>, b: seq<byte>)
    requires Terminated(a)
    ensures SplitLines(a + b) == SplitLines(a) + SplitLines(b)
  {
    if a == [] {
      assert a + b == b;
    } else {
      var e := LineEnd(a);
      LineEndUnique(a + b, e);
      assert (a + b)[..e] == a[..e];
      assert (a + b)[e..] == a[e..] + b;
      SplitConcat(a[e..], b);
    }
  }

  /** Any tail of a split is the split of its own bytes. */
  lemma {:induction false} SplitTail(b: seq<byte>, k: nat)
    requires k <= |SplitLines(b)|
    ensures SplitLines(Flatten(SplitLines(b)[k..])) == SplitLines(b)[k..]
  {
    if k == 0 {
      FlattenSplit(b);
      assert SplitLines(b)[0..] == SplitLines(b);
    } else {
      var e := LineEnd(b);
      assert SplitLines(b)[k..] == SplitLines(b[e..])[k - 1..];
      SplitTail(b[e..], k - 1);
    }
  }

  /** Terminating the last line changes no stripped line. */
  lemma {:induction false} LinesTerminate(a: seq<byte>)
    requires a != [] && a[|a| - 1] != NEWLINE
    ensures LinesOf(a + [NEWLINE]) == LinesOf(a)
  {
    var e := LineEnd(a);
    if e == |a| {
      LineEndUnique(a + [NEWLINE], |a| + 1);
      assert (a + [NEWLINE])[..|a| + 1] == a + [NEWLINE];
      assert (a + [NEWLINE])[|a| + 1..] == [];
      assert SplitLines(a + [NEWLINE]) == [a + [NEWLINE]];
      assert a[..e] == a && SplitLines(a) == [a];
    } else {
      LineEndUnique(a + [NEWLINE], e);
      assert (a + [NEWLINE])[..e] == a[..e];
      assert (a + [NEWLINE])[e..] == a[e..] + [NEWLINE];
      LinesTerminate(a[e..]);
      StripConcat([a[..e]], SplitLines(a[e..] + [NEWLINE]));
      StripConcat([a[..e]], SplitLines(a[e..]));
    }
  }

  lemma StripConcat(s: seq<seq<byte>>, t: seq<seq<byte>>)
    ensures StripAll(s + t) == StripAll(s) + StripAll(t)
  {
  }

  // ---- the merge ----

  /** Length of the longest common prefix. */
  function Shared<T(==)>(s: seq<T>, t: seq<T>): (k: nat)
    ensures k <= |s| && k <= |t|
    ensures s[..k] == t[..k]
    ensures k < |s| && k < |t| ==> s[k] != t[k]
  {
    if s == [] || t == [] || s[0] != t[0] then 0
    else
      var k := Shared(s[1..], t[1..]);
      assert s[..k + 1] == [s[0]] + s[1..][..k] && t[..k + 1] == [t[0]] + t[1..][..k];
      k + 1
  }

  lemma SharedUnique<T>(s: seq<T>, t: seq<T>, k: nat)
    requires k <= |s| && k <= |t| && s[..k] == t[..k]
    requires k < |s| && k < |t| ==> s[k] != t[k]
    ensures Shared(s, t) == k
  {
    var j := Shared(s, t);
    forall i | 0 <= i < j ensures s[i] == t[i] { assert s[..j][i] == t[..j][i]; }
    forall i | 0 <= i < k ensures s[i] == t[i] { assert s[..k][i] == t[..k][i]; }
  }

  /** Our bytes made ready for more lines to follow. */
  function Closed(ours: seq<byte>): seq<byte> {
    if ours != [] && ours[|ours| - 1] != NEWLINE then ours + [NEWLINE] else ours
  }

  function AppendMerge(ours: seq<byte>, theirs: seq<byte>): seq<byte> {
    var tail := SplitLines(theirs)[Shared(LinesOf(ours), LinesOf(theirs))..];
    if tail == [] then ours else Closed(ours) + Flatten(tail)
  }

  lemma LinesOfClosed(ours: seq<byte>)
    ensures LinesOf(Closed(ours)) == LinesOf(ours)
    ensures Terminated(Closed(ours))
  {
    if Closed(ours) != ours {
      LinesTerminate(ours);
    }
  }

  /** Appending some of their lines to our closed bytes appends exactly those lines. */
  lemma LinesWithTail(ours: seq<byte>, theirs: seq<byte>, k: nat)
    requires k <= |SplitLines(theirs)|
    ensures LinesOf(Closed(ours) + Flatten(SplitLines(theirs)[k..])) == LinesOf(ours) + LinesOf(theirs)[k..]
  {
    hide SplitLines, StripAll, Closed, Flatten;
    var tail := SplitLines(theirs)[k..];
    SplitTail(theirs, k);
    LinesOfClosed(ours);
    SplitConcat(Closed(ours), Flatten(tail));
    StripConcat(SplitLines(Closed(ours)), tail);
    StripTail(SplitLines(theirs), k);
  }

  lemma StripTail(lines: seq<seq<byte>>, k: nat)
    requires k <= |lines|
    ensures StripAll(lines[k..]) == StripAll(lines)[k..]
  {
  }

  /** The merge is exact: our bytes come first untouched, and its lines are ours followed by
      theirs past the longest common prefix of lines. */
  lemma AppendMergeExact(ours: seq<byte>, theirs: seq<byte>)
    ensures ours <= AppendMerge(ours, theirs)
    ensures LinesOf(AppendMerge(ours, theirs))
         == LinesOf(ours) + LinesOf(theirs)[Shared(LinesOf(ours), LinesOf(theirs))..]
  {
    var k := Shared(LinesOf(ours), LinesOf(theirs));
    LinesWithTail(ours, theirs, k);
    assert |LinesOf(theirs)[k..]| == |SplitLines(theirs)[k..]|;
  }

  /** Merging the merge back into `ours` adds nothing, byte for byte. */
  lemma AppendMergeAbsorbs(ours: seq<byte>, theirs: seq<byte>)
    ensures AppendMerge(ours, AppendMerge(ours, theirs)) == AppendMerge(ours, theirs)
  {
    hide SplitLines, StripAll, Closed, Flatten, Shared;
    var m := AppendMerge(ours, theirs);
    AppendMergeExact(ours, theirs);
    var k := Shared(LinesOf(ours), LinesOf(theirs));
    var tail := SplitLines(theirs)[k..];
    var n := |SplitLines(ours)|;
    SharedUnique(LinesOf(ours), LinesOf(m), n);
    if tail != [] {
      MergedTail(ours, theirs, k);
    }
  }

  /** What the merge put behind our lines is found behind them again. */
  lemma MergedTail(ours: seq<byte>, theirs: seq<byte>, k: nat)
    requires k <= |SplitLines(theirs)|
    ensures var tail := SplitLines(theirs)[k..];
            var lines := SplitLines(Closed(ours) + Flatten(tail));
            |lines| >= |SplitLines(ours)| && lines[|SplitLines(ours)|..] == tail
  {
    hide SplitLines, StripAll, Closed, Flatten;
    var tail := SplitLines(theirs)[k..];
    LinesOfClosed(ours);
    SplitTail(theirs, k);
    SplitConcat(Closed(ours), Flatten(tail));
    assert |SplitLines(Closed(ours))| == |LinesOf(Closed(ours))| == |SplitLines(ours)|;
  }

  /** Merging the merge back into `theirs` is stable exactly when one side's lines lead the other's;
      otherwise lines are repeated. */
  lemma AppendMergeBackIntoTheirs(ours: seq<byte>, theirs: seq<byte>)
    ensures var m := AppendMerge(ours, theirs);
            LinesOf(AppendMerge(theirs, m)) == LinesOf(m) <==>
              LinesOf(ours) <= LinesOf(theirs) || LinesOf(theirs) <= LinesOf(ours)
  {
    var m := AppendMerge(ours, theirs);
    AppendMergeExact(ours, theirs);
    AppendMergeExact(theirs, m);
    UnionIsStable(LinesOf(theirs), LinesOf(m));
    UnionIsLed(LinesOf(ours), LinesOf(theirs));
  }

  lemma UnionIsStable<T>(s: seq<T>, t: seq<T>)
    ensures s + t[Shared(s, t)..] == t <==> s <= t
  {
    if s <= t {
      SharedUnique(s, t, |s|);
    }
  }

  /** Which side comes first shows in the lines unless one side's lines lead the other's. */
  lemma AppendMergeSymmetricExactly(ours: seq<byte>, theirs: seq<byte>)
    ensures LinesOf(AppendMerge(ours, theirs)) == LinesOf(AppendMerge(theirs, ours)) <==>
              LinesOf(ours) <= LinesOf(theirs) || LinesOf(theirs) <= LinesOf(ours)
  {
    AppendMergeExact(ours, theirs);
    AppendMergeExact(theirs, ours);
    UnionSymmetricExactly(LinesOf(ours), LinesOf(theirs));
  }

  lemma UnionSymmetricExactly<T>(s: seq<T>, t: seq<T>)
    ensures s + t[Shared(s, t)..] == t + s[Shared(t, s)..] <==> s <= t || t <= s
  {
    var k := Shared(s, t);
    EqualPrefixes(t, s, k);
    SharedUnique(t, s, k);
    if k < |s| && k < |t| {
      assert (s + t[k..])[k] == s[k] != t[k] == (t + s[k..])[k];
    } else if k == |s| {
      assert s + t[k..] == t[..k] + t[k..] == t;
    } else {
      assert t + s[k..] == s[..k] + s[k..] == s;
    }
  }

  /** A list leads its union behind another exactly when one of the two leads the other. */
  lemma UnionIsLed<T>(s: seq<T>, t: seq<T>)
    ensures t <= s + t[Shared(s, t)..] <==> s <= t || t <= s
  {
    var k := Shared(s, t);
    var u := s + t[k..];
    if k < |s| && k < |t| {
      assert u[k] == s[k] != t[k];
    } else if k == |s| {
      assert u == t[..k] + t[k..] == t;
    } else {
      assert t == s[..k] && u == s;
    }
  }

  /** Two sides that each added a line: merged back into the second, the second's line is repeated. */
  lemma MergeBackRepeats(ours: seq<byte>, theirs: seq<byte>)
    requires ours == [97, NEWLINE] && theirs == [98, NEWLINE]
    ensures LinesOf(AppendMerge(ours, theirs)) == [[97], [98]]
    ensures LinesOf(AppendMerge(theirs, AppendMerge(ours, theirs))) == [[98], [97], [98]]
  {
    OneLine(ours);
    OneLine(theirs);
    AppendMergeExact(ours, theirs);
    AppendMergeExact(theirs, AppendMerge(ours, theirs));
  }

  lemma OneLine(b: seq<byte>)
    requires |b| == 2 && b[0] != NEWLINE && b[1] == NEWLINE
    ensures LinesOf(b) == [[b[0]]]
  {
    LineEndUnique(b, 2);
    assert b[..2] == b && b[2..] == [];
    assert SplitLines(b) == [b];
    assert Strip(b) == [b[0]];
  }

  // ---- subsequences ----

  predicate Subseq<T(==)>(s: seq<T>, t: seq<T>) {
    s == [] || (t != [] && ((s[0] == t[0] && Subseq(s[1..], t[1..])) || Subseq(s, t[1..])))
  }

  lemma {:induction false} SubseqTransitive<T>(a: seq<T>, b: seq<T>, c: seq<T>)
    requires Subseq(a, b) && Subseq(b, c)
    ensures Subseq(a, c)
    decreases c
  {
    if a == [] {
    } else if Subseq(b, c[1..]) {
      SubseqTransitive(a, b, c[1..]);
    } else if a[0] == b[0] && Subseq(a[1..], b[1..]) {
      SubseqTransitive(a[1..], b[1..], c[1..]);
    } else {
      SubseqTransitive(a, b[1..], c[1..]);
    }
  }

  lemma {:induction false} SubseqExtend<T>(s: seq<T>, t: seq<T>)
    ensures Subseq(s, s + t)
  {
    if s != [] {
      SubseqExtend(s[1..], t);
      assert (s + t)[1..] == s[1..] + t;
    }
  }

  lemma {:induction false} SubseqSkip<T>(s: seq<T>, t: seq<T>)
    ensures Subseq(s, t + s)
  {
    if t == [] {
      assert t + s == s;
      SubseqExtend(s, []);
      assert s + [] == s;
    } else {
      SubseqSkip(s, t[1..]);
      assert (t + s)[1..] == t[1..] + s;
    }
  }

  lemma {:induction false} SubseqAfterPrefix<T>(p: seq<T>, s: seq<T>, t: seq<T>)
    requires Subseq(s, t)
    ensures Subseq(p + s, p + t)
  {
    if p == [] {
      assert p + s == s && p + t == t;
    } else {
      SubseqAfterPrefix(p[1..], s, t);
      assert (p + s)[1..] == p[1..] + s && (p + t)[1..] == p[1..] + t;
    }
  }

  /** One list followed by another past a common prefix holds both in order. */
  lemma UnionHoldsBoth<T>(o: seq<T>, t: seq<T>, k: nat)
    requires k <= |o| && k <= |t| && o[..k] == t[..k]
    ensures Subseq(o, o + t[k..]) && Subseq(t, o + t[k..])
  {
    SubseqExtend(o, t[k..]);
    SubseqSkip(t[k..], o[k..]);
    SubseqAfterPrefix(t[..k], t[k..], o[k..] + t[k..]);
    assert t == t[..k] + t[k..];
    assert o + t[k..] == t[..k] + (o[k..] + t[k..]);
  }

  // ---- the same on bytes ----

  /** A line: bytes of which only the last may be a newline. */
  predicate IsLine(line: seq<byte>) {
    line != [] && forall i :: 0 <= i < |line| - 1 ==> line[i] != NEWLINE
  }

  lemma LineIsSome(line: seq<byte>)
    requires IsLine(line)
    ensures |line| > 0
  {
  }

  /** `lines` laid end to end are the bytes of `b`; each is a line, and all but the last are closed. */
  ghost predicate AreLines(b: seq<byte>, lines: seq<seq<byte>>) {
    && Flatten(lines) == b && (forall i :: 0 <= i < |lines| ==> IsLine(lines[i]))
    && (forall i :: 0 <= i < |lines| - 1 ==> lines[i][|lines[i]| - 1] == NEWLINE)
  }

  lemma {:induction false} SplitAreLines(b: seq<byte>)
    ensures AreLines(b, SplitLines(b))
  {
    FlattenSplit(b);
    if b != [] {
      var e := LineEnd(b);
      SplitAreLines(b[e..]);
      LinePrepended(b[..e], SplitLines(b[e..]), b[e..]);
      assert b == b[..e] + b[e..];
    }
  }

  lemma LinePrepended(line: seq<byte>, lines: seq<seq<byte>>, b: seq<byte>)
    requires IsLine(line) && AreLines(b, lines) && (lines != [] ==> line[|line| - 1] == NEWLINE)
    ensures AreLines(line + b, [line] + lines)
  {
    hide IsLine;
    assert ([line] + lines)[1..] == lines;
  }

  /** A body falls into lines in one way, and splitting finds it. */
  lemma {:induction false} SplitLinesExactly(b: seq<byte>, lines: seq<seq<byte>>)
    ensures lines == SplitLines(b) <==> AreLines(b, lines)
    decreases |lines|
  {
    hide IsLine;
    SplitAreLines(b);
    if AreLines(b, lines) {
      if lines == [] {
        assert b == [];
      } else {
        assert b == lines[0] + Flatten(lines[1..]);
        LineIsSome(lines[0]);
        FirstLine(b, lines);
        SplitLinesExactly(b[LineEnd(b)..], lines[1..]);
        assert lines == [lines[0]] + lines[1..];
      }
    }
  }

  lemma FirstLine(b: seq<byte>, lines: seq<seq<byte>>)
    requires b != [] && AreLines(b, lines)
    ensures lines != [] && lines[0] == b[..LineEnd(b)] && AreLines(b[LineEnd(b)..], lines[1..])
  {
    var first := lines[0];
    assert b == first + Flatten(lines[1..]);
    assert IsLine(first);
    if |lines| == 1 {
      assert Flatten(lines[1..]) == [];
    }
    forall i | 0 <= i < |first| ensures b[i] == first[i] {
    }
    LineEndUnique(b, |first|);
    assert b[..|first|] == first && b[|first|..] == Flatten(lines[1..]);
  }

  /** The same line, whether or not it is closed. */
  predicate SameLine(s: seq<byte>, t: seq<byte>) {
    s == t || s == t + [NEWLINE] || t == s + [NEWLINE]
  }

  /** Stripping takes one final newline and nothing else, so lines strip to the same bytes exactly when
      they are the same up to that newline. */
  lemma StripExactly(s: seq<byte>, t: seq<byte>)
    requires IsLine(s) && IsLine(t)
    ensures (Strip(s) == s || Strip(s) + [NEWLINE] == s) && NEWLINE !in Strip(s)
    ensures Strip(s) == Strip(t) <==> SameLine(s, t)
  {
    assert s[|s| - 1] == NEWLINE ==> s == s[..|s| - 1] + [NEWLINE];
    assert t[|t| - 1] == NEWLINE ==> t == t[..|t| - 1] + [NEWLINE];
  }

  /** The lines of `s` occur among those of `t`, in order. */
  predicate Embeds(s: seq<seq<byte>>, t: seq<seq<byte>>) {
    s == [] || (t != [] && ((SameLine(s[0], t[0]) && Embeds(s[1..], t[1..])) || Embeds(s, t[1..])))
  }

  lemma {:induction false} EmbedsStripped(s: seq<seq<byte>>, t: seq<seq<byte>>)
    requires (forall i :: 0 <= i < |s| ==> IsLine(s[i])) && forall i :: 0 <= i < |t| ==> IsLine(t[i])
    ensures Embeds(s, t) <==> Subseq(StripAll(s), StripAll(t))
    decreases |t|
  {
    hide Strip, SameLine, IsLine;
    if s != [] && t != [] {
      StripExactly(s[0], t[0]);
      EmbedsStripped(s[1..], t[1..]);
      EmbedsStripped(s, t[1..]);
      assert StripAll(s)[1..] == StripAll(s[1..]) && StripAll(t)[1..] == StripAll(t[1..]);
    }
  }

  /** Every line of `x` is still in `y`, in order, byte for byte up to its final newline. */
  ghost predicate KeepsLines(x: seq<byte>, y: seq<byte>) {
    Embeds(SplitLines(x), SplitLines(y))
  }

  lemma KeepsLinesExactly(x: seq<byte>, y: seq<byte>)
    ensures KeepsLines(x, y) <==> Subseq(LinesOf(x), LinesOf(y))
  {
    SplitLinesExactly(x, SplitLines(x));
    SplitLinesExactly(y, SplitLines(y));
    EmbedsStripped(SplitLines(x), SplitLines(y));
  }

  lemma KeepsLinesTransitive(x: seq<byte>, y: seq<byte>, z: seq<byte>)
    requires KeepsLines(x, y) && KeepsLines(y, z)
    ensures KeepsLines(x, z)
  {
    hide KeepsLines, LinesOf;
    KeepsLinesExactly(x, y);
    KeepsLinesExactly(y, z);
    KeepsLinesExactly(x, z);
    SubseqTransitive(LinesOf(x), LinesOf(y), LinesOf(z));
  }

  /** Line by line `x` is the beginning of `y`. */
  ghost predicate LeadsLines(x: seq<byte>, y: seq<byte>) {
    && |SplitLines(x)| <= |SplitLines(y)|
    && forall i :: 0 <= i < |SplitLines(x)| ==> SameLine(SplitLines(x)[i], SplitLines(y)[i])
  }

  lemma LeadsLinesExactly(x: seq<byte>, y: seq<byte>)
    ensures LeadsLines(x, y) <==> LinesOf(x) <= LinesOf(y)
  {
    hide Strip, SameLine, IsLine, SplitLines;
    var s, t := SplitLines(x), SplitLines(y);
    SplitLinesExactly(x, s);
    SplitLinesExactly(y, t);
    if |s| <= |t| {
      forall i | 0 <= i < |s| ensures SameLine(s[i], t[i]) <==> LinesOf(x)[i] == LinesOf(y)[i] {
        StripExactly(s[i], t[i]);
      }
    }
  }

  /** A body whose lines begin with another's keeps that one's lines. */
  lemma LeadingIsKept(x: seq<byte>, y: seq<byte>)
    requires LeadsLines(x, y)
    ensures KeepsLines(x, y)
  {
    hide KeepsLines, LeadsLines, LinesOf;
    LeadsLinesExactly(x, y);
    KeepsLinesExactly(x, y);
    var rest := LinesOf(y)[|LinesOf(x)|..];
    assert LinesOf(y) == LinesOf(x) + rest;
    SubseqExtend(LinesOf(x), rest);
  }

  /** The bytes of the merge: ours, closed if anything follows, and theirs from the first line on that is
      not, up to its final newline, the line of ours at the same place. */
  lemma AppendMergeOnBytes(ours: seq<byte>, theirs: seq<byte>) returns (k: nat)
    ensures var o, t := SplitLines(ours), SplitLines(theirs);
            && k <= |o| && k <= |t| && (forall i :: 0 <= i < k ==> SameLine(o[i], t[i]))
            && (k < |o| && k < |t| ==> !SameLine(o[k], t[k]))
            && var open := ours != [] && ours[|ours| - 1] != NEWLINE;
            var agreed := |Flatten(t[..k])|;
            && agreed <= |theirs| && theirs[..agreed] == Flatten(t[..k])
            && AppendMerge(ours, theirs)
               == ours + (if open && agreed < |theirs| then [NEWLINE] else []) + theirs[agreed..]
  {
    hide Strip, SameLine, IsLine, SplitLines, AppendMerge;
    var o, t := SplitLines(ours), SplitLines(theirs);
    k := Shared(LinesOf(ours), LinesOf(theirs));
    SplitLinesExactly(ours, o);
    SplitLinesExactly(theirs, t);
    forall i | 0 <= i < |o| && i < |t| ensures SameLine(o[i], t[i]) <==> LinesOf(ours)[i] == LinesOf(theirs)[i] {
      StripExactly(o[i], t[i]);
    }
    forall i | 0 <= i < k ensures SameLine(o[i], t[i]) {
      assert LinesOf(ours)[..k][i] == LinesOf(theirs)[..k][i];
    }
    MergedBytes(ours, theirs, k);
  }

  lemma MergedBytes(ours: seq<byte>, theirs: seq<byte>, k: nat)
    requires k == Shared(LinesOf(ours), LinesOf(theirs))
    ensures var t := SplitLines(theirs);
            && k <= |t|
            && var open := ours != [] && ours[|ours| - 1] != NEWLINE;
            var agreed := |Flatten(t[..k])|;
            && agreed <= |theirs| && theirs[..agreed] == Flatten(t[..k])
            && AppendMerge(ours, theirs)
               == ours + (if open && agreed < |theirs| then [NEWLINE] else []) + theirs[agreed..]
  {
    hide IsLine, SplitLines, Shared, LinesOf, Strip, StripAll;
    var t := SplitLines(theirs);
    SplitLinesExactly(theirs, t);
    LinesAreAsMany(theirs);
    FlattenApart(t, k);
    if k < |t| {
      assert Flatten(t[k..]) == t[k] + Flatten(t[k..][1..]);
      assert IsLine(t[k]);
      LineIsSome(t[k]);
    }
  }

  lemma LinesAreAsMany(b: seq<byte>)
    ensures |LinesOf(b)| == |SplitLines(b)|
  {
  }

  lemma {:induction false} FlattenApart(lines: seq<seq<byte>>, k: nat)
    requires k <= |lines|
    ensures Flatten(lines) == Flatten(lines[..k]) + Flatten(lines[k..])
  {
    if k == 0 {
      assert lines[0..] == lines;
    } else {
      FlattenApart(lines[1..], k - 1);
      assert lines[1..][..k - 1] == lines[..k][1..] && lines[1..][k - 1..] == lines[k..];
    }
  }

  /** No line of either side is lost, byte for byte up to its final newline. */
  lemma AppendMergeLosesNothing(ours: seq<byte>, theirs: seq<byte>)
    ensures KeepsLines(ours, AppendMerge(ours, theirs)) && KeepsLines(theirs, AppendMerge(ours, theirs))
  {
    AppendMergeExact(ours, theirs);
    UnionHoldsBoth(LinesOf(ours), LinesOf(theirs), Shared(LinesOf(ours), LinesOf(theirs)));
    KeepsLinesExactly(ours, AppendMerge(ours, theirs));
    KeepsLinesExactly(theirs, AppendMerge(ours, theirs));
  }

  // ---- the same computation over buffers ----

  lemma NextLine(b: seq<byte>, start: nat, e: nat)
    requires start < e <= |b|
    requires e < |b| ==> b[e - 1] == NEWLINE
    requires forall j :: start <= j < e - 1 ==> b[j] != NEWLINE
    ensures SplitLines(b[start..]) == [b[start..e]] + SplitLines(b[e..])
  {
    var rest := b[start..];
    LineEndUnique(rest, e - start);
    assert rest[..e - start] == b[start..e];
    assert rest[e - start..] == b[e..];
  }

  /** `lines` is what has been split off, `start` is where the rest begins. */
  ghost predicate SplitSoFar(b: seq<byte>, lines: seq<seq<byte>>, start: nat) {
    start <= |b| && SplitLines(b) == lines + SplitLines(b[start..])
  }

  lemma Reassociate<T>(s: seq<T>, t: seq<T>, u: seq<T>)
    ensures s + (t + u) == (s + t) + u
  {
  }

  lemma PushLine(b: seq<byte>, lines: seq<seq<byte>>, start: nat, e: nat)
    requires SplitSoFar(b, lines, start)
    requires start < e <= |b|
    requires e < |b| ==> b[e - 1] == NEWLINE
    requires forall j :: start <= j < e - 1 ==> b[j] != NEWLINE
    ensures SplitSoFar(b, lines + [b[start..e]], e)
  {
    NextLine(b, start, e);
    Reassociate(lines, [b[start..e]], SplitLines(b[e..]));
  }

  method ComputeSplitLines(b: seq<byte>) returns (lines: seq<seq<byte>>)
    ensures lines == SplitLines(b)
  {
    hide SplitSoFar;
    lines := [];
    var start := 0;
    SplitStarts(b);
    for i := 0 to |b|
      invariant start <= i
      invariant SplitSoFar(b, lines, start)
      invariant forall j :: start <= j < i ==> b[j] != NEWLINE
    {
      if b[i] == NEWLINE {
        PushLine(b, lines, start, i + 1);
        lines := lines + [b[start..i + 1]];
        start := i + 1;
      }
    }
    if start < |b| {
      PushLine(b, lines, start, |b|);
      lines := lines + [b[start..|b|]];
    }
    SplitEnds(b, lines, start);
  }

  lemma SplitStarts(b: seq<byte>)
    ensures SplitSoFar(b, [], 0)
  {
    assert b[0..] == b;
  }

  lemma SplitEnds(b: seq<byte>, lines: seq<seq<byte>>, start: nat)
    requires SplitSoFar(b, lines, if start < |b| then |b| else start) && start <= |b|
    ensures lines == SplitLines(b)
  {
    assert b[|b|..] == [];
  }

  method CountShared(oursLines: seq<seq<byte>>, theirsLines: seq<seq<byte>>) returns (shared: nat)
    ensures shared == Shared(StripAll(oursLines), StripAll(theirsLines))
  {
    shared := 0;
    while shared < |oursLines| && shared < |theirsLines| && Strip(oursLines[shared]) == Strip(theirsLines[shared])
      invariant shared <= |oursLines| && shared <= |theirsLines|
      invariant forall i :: 0 <= i < shared ==> Strip(oursLines[i]) == Strip(theirsLines[i])
    {
      shared := shared + 1;
    }
    SharedIsCounted(oursLines, theirsLines, shared);
  }

  lemma EqualPrefixes<T>(s: seq<T>, t: seq<T>, k: nat)
    requires k <= |s| && k <= |t| && forall i :: 0 <= i < k ==> s[i] == t[i]
    ensures s[..k] == t[..k]
  {
  }

  lemma SharedIsCounted(s: seq<seq<byte>>, t: seq<seq<byte>>, k: nat)
    requires k <= |s| && k <= |t|
    requires forall i :: 0 <= i < k ==> Strip(s[i]) == Strip(t[i])
    requires k < |s| && k < |t| ==> Strip(s[k]) != Strip(t[k])
    ensures Shared(StripAll(s), StripAll(t)) == k
  {
    EqualPrefixes(StripAll(s), StripAll(t), k);
    SharedUnique(StripAll(s), StripAll(t), k);
  }

  method ExtendAll(buffer: seq<byte>, tail: seq<seq<byte>>) returns (out: seq<byte>)
    ensures out == buffer + Flatten(tail)
  {
    out := buffer;
    for i := 0 to |tail|
      invariant out + Flatten(tail[i..]) == buffer + Flatten(tail)
    {
      assert tail[i..][1..] == tail[i + 1..];
      assert tail[i] + Flatten(tail[i + 1..]) == Flatten(tail[i..]);
      Reassociate(out, tail[i], Flatten(tail[i + 1..]));
      out := out + tail[i];
    }
  }

  method ComputeAppendMerge(ours: seq<byte>, theirs: seq<byte>) returns (out: seq<byte>)
    ensures out == AppendMerge(ours, theirs)
  {
    var oursLines := ComputeSplitLines(ours);
    var theirsLines := ComputeSplitLines(theirs);
    var shared := CountShared(oursLines, theirsLines);
    var tail := theirsLines[shared..];
    out := ours;
    if tail != [] && out != [] && out[|out| - 1] != NEWLINE {
      out := out + [NEWLINE];
    }
    out := ExtendAll(out, tail);
  }
}
