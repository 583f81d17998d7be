/**
 Sliding sum of squares over the latest cycle, kept in a ring buffer and trimmed every 32 samples.
 Floats are exact here: squares are integers and emitted means are rationals.
 */
module SlidingRms {
  import opened Arithmetic
  import opened Bits
  import opened LoopBuffer

  const INTERVAL: nat := 32

  lemma SumSplit(s: seq<int>, i: nat)
    requires i <= |s|
    ensures Sum(s) == Sum(s[..i]) + Sum(s[i..])
  {
    SumConcat(s[..i], s[i..]);
    assert s[..i] + s[i..] == s;
  }

  lemma SumNone()
    ensures Sum([]) == 0
  {}

  lemma SumRest(w: seq<int>, i: nat)
    requires i < |w|
    ensures Sum(w[..i + 1]) == Sum(w[..i]) + w[i] && w[i..] == [w[i]] + w[i + 1..]
  {
    SumNext(w, i);
  }

  lemma SumOne(x: int)
    ensures Sum([x]) == x
  {
    assert [x][..0] == [];
  }

  /** The newest m elements. */
  function Newest(s: seq<int>, m: nat): seq<int> {
    if |s| <= m then s else s[|s| - m..]
  }

  lemma SumPushed(w: seq<int>, x: int, cap: nat)
    requires |w| <= cap
    ensures Sum(Newest(w + [x], cap)) == Sum(w) + x - if |w| >= cap then (w + [x])[0] else 0
  {
    hide Sum;
    var all := w + [x];
    SumConcat(w, [x]);
    SumOne(x);
    if |w| >= cap {
      SumSplit(all, 1);
      SumOne(all[0]);
      assert all[..1] == [all[0]];
    }
  }

  lemma SumParts(w: seq<int>)
    ensures Sum(w[..0]) == 0 && w[..|w|] == w
  {
    SumNone();
    assert w[..0] == [];
  }

  lemma NewestOfRest(s: seq<int>, m: nat)
    requires |s| > m
    ensures Newest(s[1..], m) == Newest(s, m)
  {}

  lemma NewestOfFew(s: seq<int>, m: nat)
    ensures |s| <= m ==> Newest(s, m) == s
  {}

  function Squares(s: seq<int>): (t: seq<int>)
    ensures |t| == |s|
  {
    seq(|s|, i requires 0 <= i < |s| => s[i] * s[i])
  }

  /** For every sample, the length of the cycle it belongs to. */
  function Lengths(cycles: seq<nat>): seq<nat> {
    if cycles == [] then []
    else Lengths(cycles[..|cycles| - 1]) + seq(cycles[|cycles| - 1], _ => cycles[|cycles| - 1])
  }

  /** What a ring of `cap` elements holds after p samples: every 32nd sample keeps one cycle only. */
  function Window(cap: nat, q: seq<int>, sq: seq<int>, lens: seq<nat>, p: nat): seq<int>
    requires p <= |sq| == |lens|
  {
    if p == 0 then q else
      var w := Newest(Window(cap, q, sq, lens, p - 1) + [sq[p - 1]], cap);
      if p % INTERVAL == 0 then Newest(w, lens[p - 1]) else w
  }

  /** The squares that an overflowing ring has dropped without subtracting them. */
  function Drift(cap: nat, q: seq<int>, sq: seq<int>, lens: seq<nat>, p: nat): int
    requires p <= |sq| == |lens|
  {
    if p == 0 then 0 else
      var w := Window(cap, q, sq, lens, p - 1);
      Drift(cap, q, sq, lens, p - 1) + if |w| >= cap then (w + [sq[p - 1]])[0] else 0
  }

  /** The mean that sample p emits, for p a multiple of 32. */
  function Mean(cap: nat, q: seq<int>, sq: seq<int>, lens: seq<nat>, lost: int, p: nat): real
    requires 0 < p <= |sq| == |lens| && lens[p - 1] > 0
  {
    (lost + Drift(cap, q, sq, lens, p) + Sum(Window(cap, q, sq, lens, p))) as real / lens[p - 1] as real
  }

  lemma {:induction false} LengthsPositive(cycles: seq<nat>)
    ensures forall i | 0 <= i < |Lengths(cycles)| :: Lengths(cycles)[i] > 0 && Lengths(cycles)[i] in cycles
  {
    if cycles != [] {
      LengthsPositive(cycles[..|cycles| - 1]);
    }
  }

  /** One channel and phase of the sample-value process. */
  class Phase {
    const v1pn2: Ring<int>
    var sum: int           // sum_v1pn2_
    ghost var lost: int    // by how much the sum exceeds the ring's contents

    constructor (size: int)
      ensures Valid() && fresh(v1pn2) && fresh(v1pn2.buffer)
      ensures lost == 0 && v1pn2.Contents() == []
    {
      v1pn2 := new Ring<int>(size);
      sum := 0;
      lost := 0;
    }

    ghost predicate Valid()
      reads this, v1pn2, v1pn2.buffer
    {
      v1pn2.Valid() && sum == Sum(v1pn2.Contents()) + lost
    }

    /** A square enters the ring and the sum. A full ring drops its oldest square, which the sum keeps. */
    method PushSquare(fi: int)
      requires Valid()
      modifies this, v1pn2, v1pn2.buffer
      ensures Valid()
      ensures var w := old(v1pn2.Contents());
              && v1pn2.Contents() == Newest(w + [fi], v1pn2.cap)
              && lost == old(lost) + if |w| >= v1pn2.cap then (w + [fi])[0] else 0
    {
      ghost var w := v1pn2.Contents();
      SumPushed(w, fi, v1pn2.cap);
      var full := v1pn2.Push(fi);
      assert v1pn2.Contents() == Newest(w + [fi], v1pn2.cap);
      hide Newest, Sum;
      sum := sum + fi;
      if full == 1 {
        lost := lost + (w + [fi])[0];
      }
    }

    /** The oldest square leaves the ring and the sum. */
    method PopSquare()
      requires Valid() && v1pn2.Contents() != []
      modifies this`sum, v1pn2`tail
      ensures Valid() && v1pn2.Contents() == old(v1pn2.Contents())[1..]
    {
      hide Sum;
      var r, fi := v1pn2.Pop();
      sum := sum - fi;
      SumConcat([fi], v1pn2.Contents());
      SumOne(fi);
    }

    /** Pop squares until at most one cycle is left. */
    method Trim(pnts: nat)
      requires Valid()
      modifies this`sum, v1pn2`tail
      ensures Valid() && v1pn2.Contents() == Newest(old(v1pn2.Contents()), pnts)
    {
      hide Newest, Sum;
      var num := v1pn2.DataNum();
      while num > pnts
        invariant Valid() && num == |v1pn2.Contents()|
        invariant Newest(v1pn2.Contents(), pnts) == Newest(old(v1pn2.Contents()), pnts)
        decreases num
      {
        NewestOfRest(v1pn2.Contents(), pnts);
        PopSquare();
        num := v1pn2.DataNum();
      }
      NewestOfFew(v1pn2.Contents(), pnts);
    }

    /** The state after `pos` samples, n of which emitted a mean, tied to the reference windows. */
    ghost predicate Follows(q: seq<int>, sq: seq<int>, lens: seq<nat>, lost0: int, pos: nat, n: nat, rms: seq<real>)
      requires pos <= |sq| == |lens| && |rms| == |sq| / INTERVAL + 1
      requires forall i | 0 <= i < |lens| :: lens[i] > 0
      reads this, v1pn2, v1pn2.buffer
    {
      && Valid() && n == pos / INTERVAL
      && v1pn2.Contents() == Window(v1pn2.cap, q, sq, lens, pos)
      && lost == lost0 + Drift(v1pn2.cap, q, sq, lens, pos)
      && forall e | 0 <= e < n :: rms[e] == Mean(v1pn2.cap, q, sq, lens, lost0, INTERVAL * e + 32)
    }

    /** One turn of the inner loop: push the square and, at every 32nd sample, trim and emit. */
    method TakeSample(v: int, pnts: nat, pos: nat, n: nat, rms: array<real>,
                      ghost q: seq<int>, ghost sq: seq<int>, ghost lens: seq<nat>, ghost lost0: int)
      returns (n': nat)
      requires pos < |sq| == |lens| && sq[pos] == v * v && lens[pos] == pnts
      requires rms.Length == |sq| / INTERVAL + 1
      requires forall i | 0 <= i < |lens| :: lens[i] > 0
      requires Follows(q, sq, lens, lost0, pos, n, rms[..])
      modifies this, v1pn2, v1pn2.buffer, rms
      ensures Follows(q, sq, lens, lost0, pos + 1, n', rms[..])
    {
      hide Window, Drift, Mean, Sum, Newest;
      Turn(v1pn2.cap, q, sq, lens, pos);
      MeanOf(v1pn2.cap, q, sq, lens, lost0, pos);
      PushSquare(v * v);
      n' := n;
      if (pos + 1) % INTERVAL == 0 {
        Trim(pnts);
        rms[n] := sum as real / pnts as real;
        n' := n + 1;
      }
    }

    /** One turn of the recalculation: the next square is read and added. */
    method AddNext(ghost w: seq<int>, i: nat)
      requires v1pn2.Valid() && i < |w| && v1pn2.Pending() == w[i..] && sum == Sum(w[..i])
      modifies this`sum, v1pn2`pos
      ensures v1pn2.Valid() && v1pn2.Pending() == w[i + 1..] && sum == Sum(w[..i + 1])
    {
      hide Sum, Span, Pow2;
      SumRest(w, i);
      var r, fi := v1pn2.Read();
      if r == 0 {
        sum := sum + fi;
      }
    }

    /** RecalcSumV1pn2: start the sum anew from the ring, but from no more than the oldest `pnts` squares. */
    method RecalcSum(pnts: nat)
      requires Valid()
      modifies this, v1pn2`pos
      ensures Valid() && v1pn2.Contents() == old(v1pn2.Contents())
      ensures sum == Sum(Oldest(v1pn2.Contents(), pnts))
    {
      hide Sum, Oldest, Span, Pow2, SeekSlot;
      var m := v1pn2.DataNum();
      var n := if m < pnts then m else pnts;
      sum := 0;
      v1pn2.Seek(0);
      ghost var w := v1pn2.Contents();
      SumParts(w);
      OldestUpTo(w, pnts);
      var i := 0;
      while i < n
        modifies this`sum, v1pn2`pos
        invariant 0 <= i <= n && v1pn2.Valid() && sum == Sum(w[..i])
        invariant n > 0 ==> v1pn2.Pending() == w[i..]
      {
        AddNext(w, i);
        i := i + 1;
      }
      lost := sum - Sum(w);
    }

    /** The loop over the samples of one phase, cycle by cycle. */
    method RmsLoop(src: seq<int>, cycles: seq<nat>) returns (rms: array<real>, n: nat)
      requires Valid() && |src| == |Lengths(cycles)|
      modifies this, v1pn2, v1pn2.buffer
      ensures fresh(rms) && rms.Length == |src| / INTERVAL + 1
      ensures forall i | 0 <= i < |Lengths(cycles)| :: Lengths(cycles)[i] > 0
      ensures Follows(old(v1pn2.Contents()), Squares(src), Lengths(cycles), old(lost), |src|, n, rms[..])
    {
      hide Window, Drift, Mean;
      rms := new real[|src| / INTERVAL + 1];
      ghost var sq, lens, q := Squares(src), Lengths(cycles), v1pn2.Contents();
      LengthsPositive(cycles);
      n := 0;
      Started(v1pn2.cap, q, sq, lens);
      var pos := 0;
      var j := 0;
      while j < |cycles|
        invariant 0 <= j <= |cycles| && pos == |Lengths(cycles[..j])| <= |src|
        invariant Follows(q, sq, lens, old(lost), pos, n, rms[..])
      {
        var pnts := cycles[j];
        LengthsPrefix(cycles, j);
        var k := 0;
        while k < pnts
          invariant 0 <= k <= pnts && pos == |Lengths(cycles[..j])| + k
          invariant Follows(q, sq, lens, old(lost), pos, n, rms[..])
        {
          assert lens[pos] == Lengths(cycles[..j + 1])[pos];
          n := TakeSample(src[pos], pnts, pos, n, rms, q, sq, lens, old(lost));
          pos := pos + 1;
          k := k + 1;
        }
        j := j + 1;
      }
      assert cycles[..j] == cycles;
    }

    /**
     CalcRceRms for one phase; src1 and src2 are the two sectors of samples. At the end of one call in twenty,
     the sum is started anew with the length of the last cycle.
     */
    method CalcRceRms(src1: seq<int>, src2: seq<int>, cycles: seq<nat>, recalc: bool)
      returns (rms: array<real>, n: nat)
      requires Valid() && |src1 + src2| == |Lengths(cycles)|
      modifies this, v1pn2, v1pn2.buffer
      ensures Valid() && fresh(rms)
      ensures var q, sq, lens := old(v1pn2.Contents()), Squares(src1 + src2), Lengths(cycles);
        && rms.Length == |sq| / INTERVAL + 1 && n == |sq| / INTERVAL
        && (forall i | 0 <= i < |lens| :: lens[i] > 0)
        && (forall e | 0 <= e < n :: rms[e] == Mean(v1pn2.cap, q, sq, lens, old(lost), INTERVAL * e + 32))
        && v1pn2.Contents() == Window(v1pn2.cap, q, sq, lens, |sq|)
        && (sq != [] ==> cycles != [])
        && (var w := v1pn2.Contents();
            lost == if recalc && src1 + src2 != [] then Sum(Oldest(w, cycles[|cycles| - 1])) - Sum(w)
                    else old(lost) + Drift(v1pn2.cap, q, sq, lens, |sq|))
    {
      hide Window, Drift, Mean, Sum, Span, Oldest, Pow2;
      var src := src1 + src2;
      rms, n := RmsLoop(src, cycles);
      if recalc && src != [] {
        RecalcSum(cycles[|cycles| - 1]);
      }
    }
  }

  /** The oldest n elements. */
  function Oldest(s: seq<int>, n: nat): seq<int> {
    if |s| < n then s else s[..n]
  }

  lemma OldestUpTo(s: seq<int>, n: nat)
    ensures Oldest(s, n) == s[..if |s| < n then |s| else n]
  {}

  /** One sample further in the reference. */
  lemma Turn(cap: nat, q: seq<int>, sq: seq<int>, lens: seq<nat>, p: nat)
    requires p < |sq| == |lens|
    ensures var w := Window(cap, q, sq, lens, p);
            var v := Newest(w + [sq[p]], cap);
            && Window(cap, q, sq, lens, p + 1) == (if (p + 1) % INTERVAL == 0 then Newest(v, lens[p]) else v)
            && Drift(cap, q, sq, lens, p + 1) == Drift(cap, q, sq, lens, p) + if |w| >= cap then (w + [sq[p]])[0] else 0
  {
    hide Newest;
  }

  lemma MeanOf(cap: nat, q: seq<int>, sq: seq<int>, lens: seq<nat>, lost: int, p: nat)
    requires p < |sq| == |lens| && lens[p] > 0
    ensures Mean(cap, q, sq, lens, lost, p + 1) ==
            (Sum(Window(cap, q, sq, lens, p + 1)) + (lost + Drift(cap, q, sq, lens, p + 1))) as real / lens[p] as real
  {
    hide Window, Drift, Sum;
  }

  lemma Started(cap: nat, q: seq<int>, sq: seq<int>, lens: seq<nat>)
    requires |sq| == |lens|
    ensures Window(cap, q, sq, lens, 0) == q && Drift(cap, q, sq, lens, 0) == 0
  {}

  lemma {:induction false} LengthsPrefix(cycles: seq<nat>, j: nat)
    requires j < |cycles|
    ensures Lengths(cycles[..j + 1]) == Lengths(cycles[..j]) + seq(cycles[j], _ => cycles[j])
    ensures Lengths(cycles[..j + 1]) <= Lengths(cycles)
    decreases |cycles|
  {
    assert cycles[..j + 1][..j] == cycles[..j];
    if j + 1 == |cycles| {
      assert cycles[..j + 1] == cycles;
    } else {
      LengthsPrefix(cycles[..|cycles| - 1], j);
      assert cycles[..|cycles| - 1][..j + 1] == cycles[..j + 1];
    }
  }

  /** Whatever the ring loses or trims, it holds the latest of all squares, in order. */
  lemma {:induction false} HoldsTheLatest(cap: nat, q: seq<int>, sq: seq<int>, lens: seq<nat>, p: nat)
    requires p <= |sq| == |lens| && |q| <= cap
    ensures var w := Window(cap, q, sq, lens, p);
            && w == Newest(q + sq[..p], |w|) && |w| <= cap
            && (p > 0 && p % INTERVAL == 0 ==> |w| <= lens[p - 1])
  {
    hide Window;
    if p == 0 {
      Started(cap, q, sq, lens);
      assert q + sq[..0] == q;
    } else {
      HoldsTheLatest(cap, q, sq, lens, p - 1);
      Turn(cap, q, sq, lens, p - 1);
      var w, h, x := Window(cap, q, sq, lens, p - 1), q + sq[..p - 1], sq[p - 1];
      assert q + sq[..p] == h + [x];
      Shifted(h, w, x, cap, lens[p - 1]);
    }
  }

  lemma Shifted(h: seq<int>, w: seq<int>, x: int, cap: nat, m: nat)
    requires w == Newest(h, |w|)
    ensures var v := Newest(w + [x], cap); v == Newest(h + [x], |v|) && |v| <= cap
    ensures var v := Newest(Newest(w + [x], cap), m); v == Newest(h + [x], |v|) && |v| <= cap && |v| <= m
  {
    NewestGrows(h, w, x);
    var k := if |w| + 1 < cap then |w| + 1 else cap;
    hide Newest;
    NewestTwice(h + [x], |w| + 1, cap);
    NewestTwice(h + [x], k, m);
  }

  lemma NewestGrows(h: seq<int>, w: seq<int>, x: int)
    requires w == Newest(h, |w|)
    ensures |w| <= |h| && w + [x] == Newest(h + [x], |w| + 1)
  {}

  lemma NewestTwice(s: seq<int>, m: nat, n: nat)
    ensures Newest(Newest(s, m), n) == Newest(s, if m < n then m else n)
    ensures |Newest(s, m)| == (if |s| < m then |s| else m) && Newest(s, |Newest(s, m)|) == Newest(s, m)
    ensures |Newest(Newest(s, m), n)| <= n && |Newest(Newest(s, m), n)| <= m
    ensures Newest(s, |Newest(Newest(s, m), n)|) == Newest(Newest(s, m), n)
  {}

  /**
   Cycles of at most m samples leave the sum exact when the ring has room for one cycle and 63 more
   samples: 31 from after the last trim of the call before, 32 up to the first trim of this one.
   */
  lemma {:induction false} NoDrift(cap: nat, q: seq<int>, sq: seq<int>, lens: seq<nat>, m: nat, p: nat)
    requires p <= |sq| == |lens| && m + 63 <= cap && |q| <= m + 31
    requires forall i | 0 <= i < |lens| :: lens[i] <= m
    ensures Drift(cap, q, sq, lens, p) == 0
    ensures |Window(cap, q, sq, lens, p)| <= if p < INTERVAL then |q| + p else m + p % INTERVAL
  {
    hide Window, Drift;
    if p == 0 {
      Started(cap, q, sq, lens);
    } else {
      NoDrift(cap, q, sq, lens, m, p - 1);
      Turn(cap, q, sq, lens, p - 1);
    }
  }

  /** With that room, every emitted mean is the sum of the latest squares of at most one cycle, over the cycle. */
  lemma ExactMean(cap: nat, q: seq<int>, sq: seq<int>, lens: seq<nat>, m: nat, p: nat)
    requires 0 < p <= |sq| == |lens| && p % INTERVAL == 0 && lens[p - 1] > 0
    requires m + 63 <= cap && |q| <= m + 31
    requires forall i | 0 <= i < |lens| :: lens[i] <= m
    ensures var k := |Window(cap, q, sq, lens, p)|;
            && k <= lens[p - 1]
            && Mean(cap, q, sq, lens, 0, p) == Sum(Newest(q + sq[..p], k)) as real / lens[p - 1] as real
  {
    hide Sum, Newest;
    NoDrift(cap, q, sq, lens, m, p);
    HoldsTheLatest(cap, q, sq, lens, p);
    MeanOf(cap, q, sq, lens, 0, p - 1);
  }

  predicate NonNegative(s: seq<int>) {
    forall i | 0 <= i < |s| :: s[i] >= 0
  }

  /**
   Once a cycle is as long as the ring, nothing is ever trimmed: the sum keeps every square since
   start-up and each emitted mean is that total over the cycle length.
   */
  lemma {:induction false} NeverTrims(cap: nat, q: seq<int>, sq: seq<int>, lens: seq<nat>, p: nat)
    requires p <= |sq| == |lens| && |q| <= cap
    requires forall i | 0 <= i < |lens| :: lens[i] >= cap
    ensures Window(cap, q, sq, lens, p) == Newest(q + sq[..p], cap)
    ensures Drift(cap, q, sq, lens, p) + Sum(Window(cap, q, sq, lens, p)) == Sum(q + sq[..p])
  {
    hide Window, Drift, Sum;
    if p == 0 {
      Started(cap, q, sq, lens);
      assert q + sq[..0] == q;
    } else {
      hide Newest;
      NeverTrims(cap, q, sq, lens, p - 1);
      Turn(cap, q, sq, lens, p - 1);
      var h, x, w := q + sq[..p - 1], sq[p - 1], Window(cap, q, sq, lens, p - 1);
      assert q + sq[..p] == h + [x];
      SumConcat(h, [x]);
      Untrimmed(h, x, cap, lens[p - 1]);
      SumPushed(w, x, cap);
      SumOne(x);
    }
  }

  lemma Untrimmed(h: seq<int>, x: int, cap: nat, m: nat)
    requires m >= cap
    ensures |Newest(h, cap)| <= cap
    ensures var v := Newest(Newest(h, cap) + [x], cap); v == Newest(h + [x], cap) && Newest(v, m) == v
  {}

  /** With the ring the source asks for (205 samples, so 255), full-rate cycles of 256 samples never trim. */
  lemma SourceRingIsTooSmall(q: seq<int>, sq: seq<int>, cycles: seq<nat>, lost: int, p: nat)
    requires |q| <= 255 && 0 < p <= |sq| == |Lengths(cycles)| && p % INTERVAL == 0
    requires forall c | c in cycles :: c == 256
    ensures var lens := Lengths(cycles);
            lens[p - 1] == 256 && Mean(255, q, sq, lens, lost, p) == (lost + Sum(q + sq[..p])) as real / 256.0
  {
    LengthsPositive(cycles);
    NeverTrims(255, q, sq, Lengths(cycles), p);
  }

  /** Restarting the sum from the oldest n squares is exact only if the newer ones are all zero. */
  lemma OldestSuffice(w: seq<int>, n: nat)
    requires n <= |w| && NonNegative(w)
    ensures Sum(w[..n]) == Sum(w) <==> forall i | n <= i < |w| :: w[i] == 0
  {
    SumSplit(w, n);
    ZeroSum(w[n..]);
    assert forall i | n <= i < |w| :: w[i] == w[n..][i - n];
    assert forall i | 0 <= i < |w| - n :: w[n..][i] == w[n + i];
  }

  lemma {:induction false} ZeroSum(s: seq<int>)
    requires NonNegative(s)
    ensures Sum(s) >= 0 && (Sum(s) == 0 <==> forall i | 0 <= i < |s| :: s[i] == 0)
  {
    if s != [] {
      ZeroSum(s[..|s| - 1]);
    }
  }
}
