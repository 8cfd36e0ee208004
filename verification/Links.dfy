/** Uniting what two diverged records link to and how they are labelled. */
module Links {
  /** `a` followed by what `b` adds, in `b`'s order; a link already there is not repeated. */
  function LinkUnion<T(==)>(a: seq<T>, b: seq<T>): seq<T>
    decreases b
  {
    if b == [] then a else LinkUnion(if b[0] in a then a else a + [b[0]], b[1..])
  }

  method UniteLinks<T(==)>(a: seq<T>, b: seq<T>) returns (links: seq<T>)
    ensures links == LinkUnion(a, b)
  {
    links := a;
    assert b[0..] == b;
    for i := 0 to |b|
      invariant LinkUnion(links, b[i..]) == LinkUnion(a, b)
    {
      assert b[i..][1..] == b[i + 1..];
      if b[i] !in links {
        links := links + [b[i]];
      }
    }
  }

  /** From position `n` on, no link repeats an earlier one. */
  ghost predicate NewFrom<T>(s: seq<T>, n: nat) {
    forall i, j :: 0 <= i < j < |s| && n <= j ==> s[i] != s[j]
  }

  /** The union holds exactly both sides' links, ours first and untouched, theirs once each. */
  lemma {:induction false} LinkUnionExact<T>(a: seq<T>, b: seq<T>)
    ensures a <= LinkUnion(a, b) && NewFrom(LinkUnion(a, b), |a|)
    ensures forall x :: x in LinkUnion(a, b) <==> x in a || x in b
    decreases b
  {
    if b != [] {
      var next := if b[0] in a then a else a + [b[0]];
      LinkUnionExact(next, b[1..]);
      assert b == [b[0]] + b[1..];
      if next != a {
        assert NewFrom(LinkUnion(a, b), |a| + 1);
        forall i | 0 <= i < |a| ensures LinkUnion(a, b)[i] != LinkUnion(a, b)[|a|] {
          assert LinkUnion(a, b)[i] == next[i] && LinkUnion(a, b)[|a|] == next[|a|];
        }
      }
    }
  }

  lemma {:induction false} LinkUnionAbsorbs<T>(a: seq<T>, b: seq<T>)
    requires forall x :: x in b ==> x in a
    ensures LinkUnion(a, b) == a
    decreases b
  {
    if b != [] {
      LinkUnionAbsorbs(a, b[1..]);
    }
  }

  /** `b` is `a` with new links, each once, behind it. */
  ghost predicate Extends<T>(a: seq<T>, b: seq<T>) {
    a <= b && NewFrom(b, |a|)
  }

  lemma {:induction false} LinkUnionAppends<T>(a: seq<T>, more: seq<T>)
    requires NewFrom(a + more, |a|)
    ensures LinkUnion(a, more) == a + more
    decreases more
  {
    if more == [] {
      assert a + more == a;
    } else {
      assert a + more == (a + [more[0]]) + more[1..];
      assert (a + more)[|a|] == more[0];
      assert forall i :: 0 <= i < |a| ==> (a + more)[i] == a[i];
      LinkUnionAppends(a + [more[0]], more[1..]);
    }
  }

  lemma {:induction false} LinkUnionSplits<T>(a: seq<T>, b: seq<T>, more: seq<T>)
    requires forall x :: x in b ==> x in a
    ensures LinkUnion(a, b + more) == LinkUnion(a, more)
    decreases b
  {
    if b == [] {
      assert b + more == more;
    } else {
      assert (b + more)[1..] == b[1..] + more;
      LinkUnionSplits(a, b[1..], more);
    }
  }

  lemma LinkUnionExtends<T>(a: seq<T>, b: seq<T>)
    requires Extends(a, b)
    ensures LinkUnion(a, b) == b && LinkUnion(b, a) == b
  {
    var more := b[|a|..];
    assert b == a + more;
    LinkUnionSplits(a, a, more);
    LinkUnionAppends(a, more);
    LinkUnionAbsorbs(b, a);
  }

  /** The order of the two sides shows in the links unless one list only adds to the other. */
  lemma LinkUnionSymmetricExactly<T>(a: seq<T>, b: seq<T>)
    ensures LinkUnion(a, b) == LinkUnion(b, a) <==> Extends(a, b) || Extends(b, a)
  {
    if Extends(a, b) {
      LinkUnionExtends(a, b);
    } else if Extends(b, a) {
      LinkUnionExtends(b, a);
    } else if LinkUnion(a, b) == LinkUnion(b, a) {
      if |a| <= |b| {
        UnionOfShorter(a, b);
      } else {
        UnionOfShorter(b, a);
      }
    }
  }

  lemma UnionOfShorter<T>(a: seq<T>, b: seq<T>)
    requires LinkUnion(a, b) == LinkUnion(b, a) && |a| <= |b|
    ensures Extends(a, b)
  {
    LinkUnionExact(a, b);
    LinkUnionExact(b, a);
    var u := LinkUnion(a, b);
    assert a == u[..|a|] && b == u[..|b|];
    assert forall x :: x in a ==> x in b;
    LinkUnionAbsorbs(b, a);
  }

  /** Two label sets. */
  type Labels = map<string, string>

  ghost predicate LabelsAgree(a: Labels, b: Labels) {
    forall k :: k in a && k in b ==> a[k] == b[k]
  }

  /** On a colliding label the second side wins, so the order shows exactly when two labels differ. */
  lemma LabelUnionSymmetricExactly(a: Labels, b: Labels)
    ensures a + b == b + a <==> LabelsAgree(a, b)
  {
    if a + b == b + a {
      forall k | k in a && k in b ensures a[k] == b[k] {
        assert (a + b)[k] == b[k] && (b + a)[k] == a[k];
      }
    }
  }
}
