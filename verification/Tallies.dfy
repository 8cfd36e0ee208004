/** Counts kept beside a walk, and their total over the nodes expanded. */
module Tallies {

  datatype Counts = Counts(valueEdges: nat, ambiguous: nat, receiverUnknown: nat)

  const NO_COUNTS := Counts(0, 0, 0)

  function Plus(a: Counts, b: Counts): Counts {
    Counts(a.valueEdges + b.valueEdges, a.ambiguous + b.ambiguous, a.receiverUnknown + b.receiverUnknown)
  }

  function Total<N>(count: N -> Counts, s: seq<N>): Counts {
    if s == [] then NO_COUNTS else Plus(count(s[0]), Total(count, s[1..]))
  }

  lemma {:induction false} TotalConcat<N>(count: N -> Counts, a: seq<N>, b: seq<N>)
    ensures Total(count, a + b) == Plus(Total(count, a), Total(count, b))
  {
    if a == [] {
      assert a + b == b;
    } else {
      assert (a + b)[0] == a[0] && (a + b)[1..] == a[1..] + b;
      TotalConcat(count, a[1..], b);
    }
  }

  lemma TotalPush<N>(count: N -> Counts, s: seq<N>, i: nat)
    requires i < |s|
    ensures Total(count, s[..i + 1]) == Plus(Total(count, s[..i]), count(s[i]))
  {
    TotalConcat(count, s[..i], [s[i]]);
    assert s[..i + 1] == s[..i] + [s[i]];
    assert [s[i]][1..] == [];
  }
}
