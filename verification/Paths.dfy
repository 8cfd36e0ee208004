/** How a record key becomes an object key: percent-encoding as in section 2.1 of RFC 3986, over a
    smaller unreserved set than that of its section 2.3. Strings are the bytes of their UTF-8 form. */
module Paths {
  import opened Wrappers
  import opened Records
  import opened Stores

  const PERCENT: byte := 37
  const SLASH: byte := 47
  const DOT: byte := 46
  const JSON_SUFFIX: seq<byte> := [46, 106, 115, 111, 110]

  /** `[A-Za-z0-9_-]`: what survives encoding verbatim. */
  predicate Unreserved(b: byte) {
    (65 <= b <= 90) || (97 <= b <= 122) || (48 <= b <= 57) || b == 45 || b == 95
  }

  /** The uppercase hexadecimal digit for a nibble. */
  function HexDigit(n: nat): byte
    requires n < 16
  {
    if n < 10 then (48 + n) as byte else (55 + n) as byte
  }

  /** The value of a hexadecimal digit of either case. */
  function HexVal(b: byte): Option<nat> {
    if 48 <= b <= 57 then Some(b as int - 48)
    else if 65 <= b <= 70 then Some(b as int - 55)
    else if 97 <= b <= 102 then Some(b as int - 87)
    else None
  }

  function EncodeByte(b: byte): seq<byte> {
    if Unreserved(b) then [b] else [PERCENT, HexDigit(b as int / 16), HexDigit(b as int % 16)]
  }

  function Segment(s: seq<byte>): seq<byte> {
    if s == [] then [] else EncodeByte(s[0]) + Segment(s[1..])
  }

  /** An escape starts here: a percent sign and two hexadecimal digits. */
  predicate IsEscape(s: seq<byte>) {
    |s| >= 3 && s[0] == PERCENT && HexVal(s[1]).Some? && HexVal(s[2]).Some?
  }

  function Unescaped(s: seq<byte>): byte
    requires IsEscape(s)
  {
    (HexVal(s[1]).value * 16 + HexVal(s[2]).value) as byte
  }

  function DecodeSegment(s: seq<byte>): seq<byte> {
    if s == [] then []
    else if IsEscape(s) then [Unescaped(s)] + DecodeSegment(s[3..])
    else [s[0]] + DecodeSegment(s[1..])
  }

  lemma {:induction false} SegmentAppend(s: seq<byte>, t: seq<byte>)
    ensures Segment(s + t) == Segment(s) + Segment(t)
  {
    if s == [] {
      assert s + t == t;
    } else {
      assert (s + t)[1..] == s[1..] + t;
      SegmentAppend(s[1..], t);
    }
  }

  method ComputeSegment(s: seq<byte>) returns (out: seq<byte>)
    ensures out == Segment(s)
  {
    out := [];
    for i := 0 to |s|
      invariant out == Segment(s[..i])
    {
      SegmentAppend(s[..i], [s[i]]);
      assert s[..i + 1] == s[..i] + [s[i]];
      assert Segment([s[i]]) == EncodeByte(s[i]);
      var b := s[i];
      if Unreserved(b) {
        out := out + [b];
      } else {
        out := out + [PERCENT];
        out := out + [HexDigit(b as int / 16)];
        out := out + [HexDigit(b as int % 16)];
      }
    }
    assert s[..|s|] == s;
  }

  /** `out` is what has been decoded, `i` is where the rest begins. */
  ghost predicate DecodedSoFar(s: seq<byte>, out: seq<byte>, i: nat) {
    i <= |s| && out + DecodeSegment(s[i..]) == DecodeSegment(s)
  }

  lemma DecodeStep(s: seq<byte>, out: seq<byte>, i: nat)
    requires DecodedSoFar(s, out, i) && i < |s|
    ensures var rest := s[i..];
            if IsEscape(rest) then DecodedSoFar(s, out + [Unescaped(rest)], i + 3)
            else DecodedSoFar(s, out + [s[i]], i + 1)
  {
    var rest := s[i..];
    if IsEscape(rest) {
      assert rest[3..] == s[i + 3..];
      assert out + ([Unescaped(rest)] + DecodeSegment(rest[3..]))
        == (out + [Unescaped(rest)]) + DecodeSegment(s[i + 3..]);
    } else {
      assert rest[1..] == s[i + 1..];
      assert out + ([s[i]] + DecodeSegment(rest[1..])) == (out + [s[i]]) + DecodeSegment(s[i + 1..]);
    }
  }

  lemma DecodeStarts(s: seq<byte>)
    ensures DecodedSoFar(s, [], 0)
  {
    assert s[0..] == s;
  }

  lemma DecodeEnds(s: seq<byte>, out: seq<byte>)
    requires DecodedSoFar(s, out, |s|)
    ensures out == DecodeSegment(s)
  {
    assert s[|s|..] == [];
  }

  method ComputeDecodeSegment(s: seq<byte>) returns (out: seq<byte>)
    ensures out == DecodeSegment(s)
  {
    hide DecodedSoFar;
    out := [];
    var i := 0;
    DecodeStarts(s);
    while i < |s|
      invariant 0 <= i <= |s|
      invariant DecodedSoFar(s, out, i)
    {
      DecodeStep(s, out, i);
      if s[i] == PERCENT && i + 2 < |s| && HexVal(s[i + 1]).Some? && HexVal(s[i + 2]).Some? {
        out := out + [(HexVal(s[i + 1]).value * 16 + HexVal(s[i + 2]).value) as byte];
        i := i + 3;
      } else {
        out := out + [s[i]];
        i := i + 1;
      }
    }
    DecodeEnds(s, out);
  }

  /** Decoding undoes encoding, whatever the bytes and whatever follows. */
  lemma DecodeHead(b: byte, rest: seq<byte>)
    ensures DecodeSegment(EncodeByte(b) + rest) == [b] + DecodeSegment(rest)
  {
    var enc := EncodeByte(b) + rest;
    if Unreserved(b) {
      assert enc[0] == b && enc[1..] == rest;
    } else {
      assert enc[0] == PERCENT && enc[3..] == rest;
      assert HexVal(enc[1]) == Some(b as int / 16) && HexVal(enc[2]) == Some(b as int % 16);
      assert Unescaped(enc) == b;
    }
  }

  lemma {:induction false} RoundTrip(s: seq<byte>)
    ensures DecodeSegment(Segment(s)) == s
  {
    if s == [] {
    } else {
      DecodeHead(s[0], Segment(s[1..]));
      RoundTrip(s[1..]);
      assert [s[0]] + s[1..] == s;
    }
  }

  /** An encoded segment holds no separator and no dot, so no component can leave its place. */
  lemma {:induction false} SegmentIsSafe(s: seq<byte>)
    ensures forall b :: b in Segment(s) ==> Unreserved(b) || b == PERCENT
    ensures SLASH !in Segment(s) && DOT !in Segment(s)
  {
    if s != [] {
      SegmentIsSafe(s[1..]);
      assert forall b :: b in EncodeByte(s[0]) ==> Unreserved(b) || b == PERCENT;
    }
  }

  /** Exactly the well-formed keys encode to themselves. */
  lemma {:induction false} SegmentIsIdentityExactly(s: seq<byte>)
    ensures Segment(s) == s <==> forall b :: b in s ==> Unreserved(b)
    ensures |Segment(s)| >= |s|
  {
    if s != [] {
      SegmentIsIdentityExactly(s[1..]);
      var head, tail := EncodeByte(s[0]), Segment(s[1..]);
      assert s == [s[0]] + s[1..];
      if Segment(s) == s {
        assert |head| == 1;
        assert (head + tail)[1..] == tail;
      }
    }
  }

  /** A path component followed by the rest of the path. */
  function Join(part: seq<byte>, rest: seq<byte>): seq<byte> {
    part + [SLASH] + rest
  }

  /** `namespace/collection/id.json`. */
  function ObjectKey(key: RecordKey): seq<byte> {
    Join(Segment(key.ns), Join(Segment(key.collection), Segment(key.id) + JSON_SUFFIX))
  }

  /** Letters, digits, underscores and dashes. */
  predicate IsPlain(s: seq<byte>) {
    forall b :: b in s ==> 65 <= b <= 90 || 97 <= b <= 122 || 48 <= b <= 57 || b == 95 || b == 45
  }

  /** A key of plain parts is stored under its own text; a dot, the least there is to escape, becomes `%2E`. */
  lemma PlainKeysAreReadable(key: RecordKey)
    ensures Segment(key.ns) == key.ns <==> IsPlain(key.ns)
    ensures IsPlain(key.ns) && IsPlain(key.collection) && IsPlain(key.id) ==>
              ObjectKey(key) == key.ns + [47] + key.collection + [47] + key.id + [46, 106, 115, 111, 110]
    ensures Segment([46]) == [37, 50, 69]
  {
    hide Segment, IsPlain;
    PlainSegment(key.ns);
    PlainSegment(key.collection);
    PlainSegment(key.id);
    DotIsEscaped();
  }

  lemma PlainSegment(s: seq<byte>)
    ensures Segment(s) == s <==> IsPlain(s)
  {
    SegmentIsIdentityExactly(s);
  }

  lemma DotIsEscaped()
    ensures Segment([46]) == [37, 50, 69]
  {
    assert [46 as byte][1..] == [];
  }

  lemma FirstPartIsNoShorter(a: seq<byte>, x: seq<byte>, b: seq<byte>, y: seq<byte>)
    requires SLASH !in b && Join(a, x) == Join(b, y)
    ensures |b| <= |a|
  {
    var whole := Join(b, y);
    assert Join(a, x)[|a|] == SLASH;
    assert forall i :: 0 <= i < |b| ==> whole[i] == b[i];
  }

  /** A separator ends the first part, when the part holds none. */
  lemma JoinInjective(a: seq<byte>, x: seq<byte>, b: seq<byte>, y: seq<byte>)
    requires SLASH !in a && SLASH !in b && Join(a, x) == Join(b, y)
    ensures a == b && x == y
  {
    FirstPartIsNoShorter(a, x, b, y);
    FirstPartIsNoShorter(b, y, a, x);
    assert Join(a, x)[..|a|] == a && Join(b, y)[..|b|] == b;
    assert Join(a, x)[|a| + 1..] == x && Join(b, y)[|b| + 1..] == y;
  }

  lemma SuffixInjective(a: seq<byte>, b: seq<byte>, suffix: seq<byte>)
    requires a + suffix == b + suffix
    ensures a == b
  {
    assert a == (a + suffix)[..|a|] && b == (b + suffix)[..|b|];
  }

  lemma SegmentInjective(s: seq<byte>, t: seq<byte>)
    requires Segment(s) == Segment(t)
    ensures s == t
  {
    RoundTrip(s);
    RoundTrip(t);
  }

  /** Two keys never share an object key. */
  lemma ObjectKeyInjective(k: RecordKey, l: RecordKey)
    requires ObjectKey(k) == ObjectKey(l)
    ensures k == l
  {
    SegmentIsSafe(k.ns);
    SegmentIsSafe(l.ns);
    SegmentIsSafe(k.collection);
    SegmentIsSafe(l.collection);
    var kTail, lTail := Segment(k.id) + JSON_SUFFIX, Segment(l.id) + JSON_SUFFIX;
    JoinInjective(Segment(k.ns), Join(Segment(k.collection), kTail), Segment(l.ns), Join(Segment(l.collection), lTail));
    JoinInjective(Segment(k.collection), kTail, Segment(l.collection), lTail);
    SuffixInjective(Segment(k.id), Segment(l.id), JSON_SUFFIX);
    SegmentInjective(k.ns, l.ns);
    SegmentInjective(k.collection, l.collection);
    SegmentInjective(k.id, l.id);
  }

  /** What an object store is asked to list: the encoded namespace, and the encoded collection behind it
      when both are given. */
  function ListPrefix(prefix: KeyPrefix): seq<byte> {
    if prefix.ns.None? then []
    else Join(Segment(prefix.ns.value),
              if prefix.collection.None? then [] else Join(Segment(prefix.collection.value), []))
  }

  lemma JoinLeads(a: seq<byte>, x: seq<byte>, b: seq<byte>, y: seq<byte>)
    requires SLASH !in a && SLASH !in b
    ensures Join(a, x) <= Join(b, y) <==> a == b && x <= y
  {
    if Join(a, x) <= Join(b, y) {
      var rest := Join(b, y)[|Join(a, x)|..];
      assert Join(a, x + rest) == Join(a, x) + rest == Join(b, y);
      JoinInjective(a, x + rest, b, y);
    }
  }

  /** Listing by that prefix finds every key the record prefix matches, and no other unless a collection is
      given without a namespace; then everything is listed. */
  lemma ListPrefixExactly(prefix: KeyPrefix, key: RecordKey)
    ensures prefix.Matches(key) ==> ListPrefix(prefix) <= ObjectKey(key)
    ensures prefix.ns.Some? || prefix.collection.None? ==>
              (ListPrefix(prefix) <= ObjectKey(key) <==> prefix.Matches(key))
    ensures prefix.ns.None? ==> (prefix.Matches(key) <==> prefix.collection in {None, Some(key.collection)})
  {
    if prefix.ns.Some? {
      SegmentIsSafe(prefix.ns.value);
      SegmentIsSafe(key.ns);
      SegmentIsSafe(key.collection);
      var file := Segment(key.id) + JSON_SUFFIX;
      SameSegmentsExactly(prefix.ns.value, key.ns);
      if prefix.collection.None? {
        JoinLeads(Segment(prefix.ns.value), [], Segment(key.ns), Join(Segment(key.collection), file));
      } else {
        SegmentIsSafe(prefix.collection.value);
        SameSegmentsExactly(prefix.collection.value, key.collection);
        JoinLeads(Segment(prefix.ns.value), Join(Segment(prefix.collection.value), []),
                  Segment(key.ns), Join(Segment(key.collection), file));
        JoinLeads(Segment(prefix.collection.value), [], Segment(key.collection), file);
      }
    }
  }

  lemma SameSegmentsExactly(s: seq<byte>, t: seq<byte>)
    ensures Segment(s) == Segment(t) <==> s == t
  {
    if Segment(s) == Segment(t) {
      SegmentInjective(s, t);
    }
  }
}
