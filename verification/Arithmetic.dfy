/** Sums, and two laws of products, to be called where the verifier should not search for them. */
module Arithmetic {

  lemma Scale(a: int, b: int, c: nat)
    requires a <= b
    ensures a * c <= b * c
  {}

  lemma Cancel(a: nat, b: nat, c: nat)
    requires a * c < b * c
    ensures a < b
  {}

  function Sum(s: seq<int>): (r: int)
    ensures (forall k | 0 <= k < |s| :: s[k] >= 0) ==> r >= 0
  {
    if s == [] then 0 else Sum(s[..|s| - 1]) + s[|s| - 1]
  }

  lemma {:induction false} SumConcat(s: seq<int>, t: seq<int>)
    ensures Sum(s + t) == Sum(s) + Sum(t)
  {
    if t == [] {
      assert s + t == s;
    } else {
      SumConcat(s, t[..|t| - 1]);
      assert (s + t)[..|s + t| - 1] == s + t[..|t| - 1];
    }
  }

  lemma SumNext(s: seq<int>, i: nat)
    requires i < |s|
    ensures Sum(s[..i + 1]) == Sum(s[..i]) + s[i]
  {
    assert s[..i + 1][..i] == s[..i];
  }

  lemma SumRange(s: seq<int>, i: nat, j: nat)
    requires i <= j <= |s|
    ensures Sum(s[..j]) == Sum(s[..i]) + Sum(s[i..j])
  {
    SumConcat(s[..i], s[i..j]);
    assert s[..i] + s[i..j] == s[..j];
  }
}
