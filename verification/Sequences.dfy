/** Laws of concatenation, to be called where the verifier should not search for them. */
module Sequences {

  lemma Associates<T>(a: seq<T>, b: seq<T>, c: seq<T>)
    ensures (a + b) + c == a + (b + c)
  {}

  lemma Neutral<T>(s: seq<T>)
    ensures [] + s == s && s + [] == s
  {}

  lemma HeadTail<T>(s: seq<T>)
    requires s != []
    ensures [s[0]] + s[1..] == s
  {}

  lemma InitLast<T>(s: seq<T>)
    requires s != []
    ensures s[..|s| - 1] + [s[|s| - 1]] == s
  {}

  /** A prefix made of two parts. */
  lemma PrefixSplits<T>(a: seq<T>, b: seq<T>, s: seq<T>)
    requires a + b <= s
    ensures a <= s && s[|a|..|a| + |b|] == b
  {
    assert s[..|a| + |b|] == a + b;
    assert s[..|a|] == (a + b)[..|a|] == a;
    assert s[|a|..|a| + |b|] == (a + b)[|a|..];
  }

  /** What follows a known prefix. */
  lemma DropPrefix<T>(a: seq<T>, b: seq<T>)
    ensures (a + b)[..|a|] == a && (a + b)[|a|..] == b
  {}

  /** s with `mid` in place of what was at `at`. */
  function Splice<T>(s: seq<T>, at: nat, mid: seq<T>): (t: seq<T>)
    requires at + |mid| <= |s|
    ensures |t| == |s|
  {
    s[..at] + mid + s[at + |mid|..]
  }

  lemma SpliceKeeps<T>(s: seq<T>, at: nat, mid: seq<T>, lo: nat, hi: nat)
    requires at + |mid| <= |s| && lo <= hi <= |s| && (hi <= at || at + |mid| <= lo)
    ensures Splice(s, at, mid)[lo..hi] == s[lo..hi]
  {}

  lemma SpliceHas<T>(s: seq<T>, at: nat, mid: seq<T>)
    requires at + |mid| <= |s|
    ensures Splice(s, at, mid)[at..at + |mid|] == mid
  {}

  lemma Joined<T>(s: seq<T>, a: nat, b: nat, c: nat)
    requires a <= b <= c <= |s|
    ensures s[a..b] + s[b..c] == s[a..c]
  {}

  /** A longer prefix of s', read from position a on. */
  lemma PrefixGrows<T>(s: seq<T>, s': seq<T>, a: nat, n: nat, n': nat, more: seq<T>)
    requires a <= n <= |s| && n' <= |s'| && s'[..n'] == s[..n] + more
    ensures a <= n' && s'[..a] == s[..a] && s'[a..n'] == s[a..n] + more
  {
    assert n' == n + |more|;
    assert s'[..a] == s'[..n'][..a] == s[..n][..a];
    assert s'[a..n'] == s'[..n'][a..] == s[..n][a..] + more;
  }

  lemma SuffixShrinks<T>(s: seq<T>, s': seq<T>, a: nat, b: nat)
    requires a <= b <= |s| == |s'| && s[a..] == s'[a..]
    ensures s[b..] == s'[b..]
  {
    assert s[b..] == s[a..][b - a..];
    assert s'[b..] == s'[a..][b - a..];
  }

  lemma SamePart<T>(s: seq<T>, s': seq<T>, n: nat, lo: nat, hi: nat)
    requires lo <= hi <= n <= |s| && n <= |s'| && s[..n] == s'[..n]
    ensures s[lo..hi] == s'[lo..hi]
  {
    forall k | lo <= k < hi ensures s[k] == s'[k] {
      assert s[..n][k] == s'[..n][k];
    }
  }

  /** A prefix of a + b lies in a, or goes past it. */
  lemma PrefixOfSum<T>(a: seq<T>, b: seq<T>, s: seq<T>)
    requires s <= a + b
    ensures |s| <= |a| ==> s <= a
    ensures |s| >= |a| ==> s == a + s[|a|..] && s[|a|..] <= b
  {
    assert s == (a + b)[..|s|];
  }

  lemma PrefixBehind<T>(a: seq<T>, b: seq<T>, s: seq<T>)
    requires b <= s
    ensures a + b <= a + s && (a + s)[|a + b|..] == s[|b|..]
  {}

  /** All elements of the parts, in order. */
  function Concat<T>(parts: seq<seq<T>>): seq<T> {
    if parts == [] then [] else Concat(parts[..|parts| - 1]) + parts[|parts| - 1]
  }

  lemma ConcatStep<T>(parts: seq<seq<T>>, i: nat)
    requires i < |parts|
    ensures Concat(parts[..i + 1]) == Concat(parts[..i]) + parts[i] && parts[..|parts|] == parts
  {
    assert parts[..i + 1][..i] == parts[..i];
  }

  lemma {:induction false} ConcatHead<T>(parts: seq<seq<T>>)
    requires parts != []
    ensures Concat(parts) == parts[0] + Concat(parts[1..])
  {
    var n := |parts| - 1;
    if n > 0 {
      ConcatHead(parts[..n]);
      assert parts[..n][1..] == parts[1..][..n - 1] && parts[1..][n - 1] == parts[n];
      Associates(parts[0], Concat(parts[1..][..n - 1]), parts[n]);
    } else {
      Neutral(parts[0]);
    }
  }
}
