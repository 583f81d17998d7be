/** Resampling of ten cycles to 2048 points by integer linear interpolation. */
module Interpolate {
  import opened Arithmetic

  const N: int := 2048  // kHrmSmpNum

  /** Division of C: it truncates toward zero. */
  function Quotient(a: int, b: int): int
    requires b > 0
  {
    if a >= 0 then a / b else -(-a / b)
  }

  /** It drops the fraction, on both sides of zero alike. */
  lemma Truncates(a: int, b: int)
    requires a >= 0 && b > 0
    ensures Quotient(-a, b) == -Quotient(a, b)
    ensures b * Quotient(a, b) <= a < b * Quotient(a, b) + b
  {
    Divides(a, b);
    assert Quotient(a, b) == a / b;
    assert a > 0 ==> Quotient(-a, b) == -(a / b);
    assert a == 0 ==> Quotient(-a, b) == 0;
    hide Quotient;
  }

  lemma Divides(a: nat, b: nat)
    requires b > 0
    ensures b * (a / b) <= a < b * (a / b) + b
  {
    assert a == b * (a / b) + a % b;
  }

  /** The source sample before point k. */
  function Dot(n: nat, k: nat): nat {
    k * n / N
  }

  /** The distance from that sample, in percent of a sample. */
  function Percent(n: nat, k: nat): int {
    Scaled(n, k) / N - Dot(n, k) * 100
  }

  /** The position of point k in hundredths of a sample, before the division by 2048 that rounds it. */
  function Scaled(n: nat, k: nat): nat {
    k * 100 * n + N / 2
  }

  function Rise(d: int, dx: int): int {
    Quotient(d * dx + 50, 100)
  }

  /** Resampled point k. */
  function Point(src: seq<int>, k: nat): int
    requires |src| > N && k < N
  {
    InRange(|src|);
    var s := Dot(|src|, k);
    src[s] + Rise(src[s + 1] - src[s], Percent(|src|, k))
  }

  /** Every access src[sdot + 1] is inside the merged samples exactly when there are more than 2048 of them. */
  lemma InRange(n: nat)
    ensures n > N <==> n > 0 && forall k | 0 <= k < N :: Dot(n, k) + 1 < n
  {
    if n > N {
      forall k | 0 <= k < N
        ensures Dot(n, k) + 1 < n
      {
        Within(n, k);
      }
    } else if n > 0 {
      assert Dot(n, N - 1) == (N * n - n) / N == n - 1;
    }
  }

  lemma Within(n: nat, k: nat)
    requires n > N && k < N
    ensures Dot(n, k) + 1 < n
  {
    Scale(k, N - 1, n);
  }

  /** Percent is the position within the gap, rounded to the nearest percent. */
  lemma PercentRounds(n: nat, k: nat)
    ensures var r := k * n % N; Percent(n, k) == (100 * r + N / 2) / N
    ensures 0 <= Percent(n, k) <= 100
  {
    var r := k * n % N;
    var s := Dot(n, k);
    assert k * n == N * s + r;
    assert k * 100 * n == 100 * (k * n);
    assert (100 * (N * s + r) + N / 2) / N == 100 * s + (100 * r + N / 2) / N;
  }

  lemma RiseBetween(d: int, dx: int)
    requires 0 <= dx <= 100
    ensures d >= 0 ==> 0 <= Rise(d, dx) <= d
    ensures d <= 0 ==> d <= Rise(d, dx) <= 0
  {
    ScaledBounds(d, dx);
  }

  lemma ScaledBounds(d: int, dx: int)
    requires 0 <= dx <= 100
    ensures d >= 0 ==> 0 <= d * dx <= 100 * d
    ensures d <= 0 ==> 100 * d <= d * dx <= 0
  {}

  /** Each point lies between its two neighbours in the source. */
  lemma BetweenNeighbours(src: seq<int>, k: nat)
    requires |src| > N && k < N
    ensures Dot(|src|, k) + 1 < |src|
    ensures var s := Dot(|src|, k);
            src[s] <= Point(src, k) <= src[s + 1] || src[s + 1] <= Point(src, k) <= src[s]
  {
    InRange(|src|);
    PercentRounds(|src|, k);
    var s := Dot(|src|, k);
    RiseBetween(src[s + 1] - src[s], Percent(|src|, k));
  }

  /** Exact linear interpolation at the position of point k. */
  function Exact(src: seq<int>, k: nat): real
    requires |src| > N && k < N
  {
    InRange(|src|);
    var s := Dot(|src|, k);
    src[s] as real + (src[s + 1] - src[s]) as real * ((k * |src| % N) as real / N as real)
  }

  /** Two roundings: half a percent of the gap, and one and a half units in the division. */
  lemma CloseToExact(src: seq<int>, k: nat)
    requires |src| > N && k < N
    ensures Dot(|src|, k) + 1 < |src|
    ensures var s := Dot(|src|, k);
            var d := src[s + 1] - src[s];
            var e := Point(src, k) as real - Exact(src, k);
            var bound := (if d >= 0 then d else -d) as real / 200.0 + 1.5;
            -bound <= e <= bound
  {
    hide Dot, Percent, Rise;
    InRange(|src|);
    PercentRounds(|src|, k);
    var s := Dot(|src|, k);
    var d, r := src[s + 1] - src[s], k * |src| % N;
    var rise := Rise(d, Percent(|src|, k));
    IntegerError(d, r);
    InReals(rise, d, r);
    var a := 200 * N * rise - 200 * (d * r);
    var abs := if d >= 0 then d else -d;
    assert Point(src, k) as real - Exact(src, k) == rise as real - d as real * (r as real / N as real);
    assert a as real <= N as real * abs as real + 300.0 * N as real;
  }

  /** The error in units of 1 / 409600. */
  lemma IntegerError(d: int, r: int)
    requires 0 <= r < N
    ensures var a := 200 * N * Rise(d, (100 * r + N / 2) / N) - 200 * (d * r);
            var bound := N * (if d >= 0 then d else -d) + 300 * N;
            -bound <= a <= bound
  {
    var dx := (100 * r + N / 2) / N;
    var e := N * dx - 100 * r;
    assert -N / 2 <= e <= N / 2;
    GapError(d, e);
    Distribute(d, dx, r);
    assert -150 <= 100 * Rise(d, dx) - d * dx <= 150;
    hide Rise;
    AddErrors(Rise(d, dx), d * dx, d * r, d * e, if d >= 0 then d else -d);
  }

  /** The error of the division and that of the rounded percentage add up. */
  lemma AddErrors(rise: int, scaled: int, exact: int, gap: int, abs: int)
    requires -150 <= 100 * rise - scaled <= 150
    requires gap == N * scaled - 100 * exact && -(N / 2) * abs <= gap <= (N / 2) * abs
    ensures -(N * abs + 300 * N) <= 200 * N * rise - 200 * exact <= N * abs + 300 * N
  {}

  lemma Distribute(d: int, dx: int, r: int)
    ensures d * (N * dx - 100 * r) == N * (d * dx) - 100 * (d * r)
  {}

  lemma InReals(rise: int, d: int, r: int)
    ensures rise as real - d as real * (r as real / N as real) == (200 * N * rise - 200 * (d * r)) as real / 409600.0
  {
    assert (d * r) as real == d as real * r as real;
    assert d as real * (r as real / 2048.0) == (d * r) as real / 2048.0;
  }

  lemma GapError(d: int, e: int)
    requires -N / 2 <= e <= N / 2
    ensures var abs := if d >= 0 then d else -d; -(N / 2) * abs <= d * e <= (N / 2) * abs
  {
    if d >= 0 {
      Scale(e, N / 2, d);
      Scale(-N / 2, e, d);
    } else {
      Scale(e, N / 2, -d);
      Scale(-N / 2, e, -d);
    }
  }

  lemma RiseGrows(d: int, dx: int, dy: int)
    requires d >= 0 && dx <= dy && 0 <= dx
    ensures Rise(d, dx) <= Rise(d, dy)
  {
    assert d * dx <= d * dy;
  }

  lemma RiseFalls(d: int, dx: int, dy: int)
    requires d <= 0 && dx <= dy && 0 <= dx
    ensures Rise(d, dx) >= Rise(d, dy)
  {
    assert d * dx >= d * dy;
  }

  lemma DotGrows(n: nat, k: nat, l: nat)
    requires k <= l
    ensures Dot(n, k) <= Dot(n, l)
    ensures Dot(n, k) == Dot(n, l) ==> Percent(n, k) <= Percent(n, l)
  {
    assert k * n <= l * n;
    assert k * 100 * n == 100 * (k * n) && l * 100 * n == 100 * (l * n);
  }

  predicate Rising(s: seq<int>) {
    forall i, j | 0 <= i <= j < |s| :: s[i] <= s[j]
  }

  predicate Falling(s: seq<int>) {
    forall i, j | 0 <= i <= j < |s| :: s[i] >= s[j]
  }

  /** A monotone source gives monotone points, in either direction. */
  lemma Monotone(src: seq<int>, k: nat, l: nat)
    requires |src| > N && k <= l < N
    ensures Rising(src) ==> Point(src, k) <= Point(src, l)
    ensures Falling(src) ==> Point(src, k) >= Point(src, l)
  {
    var n := |src|;
    InRange(n);
    DotGrows(n, k, l);
    BetweenNeighbours(src, k);
    BetweenNeighbours(src, l);
    PercentRounds(n, k);
    PercentRounds(n, l);
    var s, t := Dot(n, k), Dot(n, l);
    var d := src[s + 1] - src[s];
    if s == t {
      if d >= 0 {
        RiseGrows(d, Percent(n, k), Percent(n, l));
      }
      if d <= 0 {
        RiseFalls(d, Percent(n, k), Percent(n, l));
      }
    } else {
      assert Rising(src) ==> src[s + 1] <= src[t] && src[t] <= src[t + 1];
      assert Falling(src) ==> src[s + 1] >= src[t] && src[t] >= src[t + 1];
    }
  }

  /** The scaled positions fit in 32 bits exactly for up to 10490 samples. */
  lemma PositionsFit(n: nat)
    ensures (forall k | 0 <= k < N :: Scaled(n, k) < 0x8000_0000) <==> n <= 10490
  {
    if n <= 10490 {
      forall k | 0 <= k < N
        ensures Scaled(n, k) < 0x8000_0000
      {
        ProductBound(k, n, 2047, 10490);
        assert k * 100 * n == 100 * (k * n);
      }
    } else {
      assert Scaled(n, 2047) == 2047 * 100 * n + N / 2;
    }
  }

  /** The products of 24-bit differences and percentages always fit. */
  lemma RisesFit(n: nat, k: nat, d: int)
    requires k < N && -0x100_0000 <= d <= 0x100_0000
    ensures -0x8000_0000 <= d * Percent(n, k) + 50 < 0x8000_0000
  {
    hide Dot, Percent;
    PercentRounds(n, k);
    ScaledBounds(d, Percent(n, k));
  }

  lemma ProductBound(a: nat, b: nat, c: nat, d: nat)
    requires a <= c && b <= d
    ensures a * b <= c * d
  {
    assert a * b <= a * d;
    assert a * d <= c * d;
  }

  /** The loop over the points of one phase. */
  method FillPhase(des: array2<int>, i: nat, src: seq<int>)
    requires i < des.Length0 && des.Length1 == N && |src| > N
    modifies des
    ensures forall k | 0 <= k < N :: des[i, k] == Point(src, k)
    ensures forall p, k | 0 <= p < des.Length0 && p != i && 0 <= k < N :: des[p, k] == old(des[p, k])
  {
    hide Dot, Percent, Rise;
    var scnt := |src|;
    InRange(scnt);
    Corner(src);
    des[i, 0] := src[0];
    var k := 1;
    while k < N
      invariant 1 <= k <= N
      invariant forall p, l | 0 <= p < des.Length0 && p != i && 0 <= l < N :: des[p, l] == old(des[p, l])
      invariant forall l | 0 <= l < k :: des[i, l] == Point(src, l)
    {
      var sdot := k * scnt / N;
      var dx := (k * 100 * scnt + N / 2) / N - sdot * 100;
      Unfolded(src, k);
      var dy := Quotient((src[sdot + 1] - src[sdot]) * dx + 50, 100);
      des[i, k] := src[sdot] + dy;
      k := k + 1;
    }
  }

  lemma Unfolded(src: seq<int>, k: nat)
    requires |src| > N && k < N
    ensures k * |src| / N + 1 < |src|
    ensures var s := k * |src| / N;
            var dx := (k * 100 * |src| + N / 2) / N - s * 100;
            Point(src, k) == src[s] + Quotient((src[s + 1] - src[s]) * dx + 50, 100)
  {
    Within(|src|, k);
  }

  lemma Corner(src: seq<int>)
    requires |src| > N
    ensures Point(src, 0) == src[0]
  {
    PercentRounds(|src|, 0);
  }

  datatype Source = Source(valid: int, src1: seq<seq<int>>, cnt1: nat, src2: seq<seq<int>>, cnt2: nat)

  /** Fills the three phases of `des`; invalid data gives zeros, no data leaves `des` alone. */
  method Resample(des: array2<int>, rs: Source)
    requires des.Length0 == 3 && des.Length1 == N
    requires |rs.src1| == 3 && |rs.src2| == 3
    requires forall i | 0 <= i < 3 :: |rs.src1[i]| == rs.cnt1 && |rs.src2[i]| == rs.cnt2
    requires rs.valid != 0 || rs.cnt1 + rs.cnt2 == 0 || rs.cnt1 + rs.cnt2 > N
    modifies des
    ensures rs.valid != 0 ==> forall i, k | 0 <= i < 3 && 0 <= k < N :: des[i, k] == 0
    ensures rs.valid == 0 && rs.cnt1 + rs.cnt2 == 0 ==>
              forall i, k | 0 <= i < 3 && 0 <= k < N :: des[i, k] == old(des[i, k])
    ensures rs.valid == 0 && rs.cnt1 + rs.cnt2 > N ==>
              forall i, k | 0 <= i < 3 && 0 <= k < N :: des[i, k] == Point(rs.src1[i] + rs.src2[i], k)
  {
    if rs.valid != 0 {
      forall i, k | 0 <= i < 3 && 0 <= k < N {
        des[i, k] := 0;
      }
      return;
    }
    var scnt := rs.cnt1 + rs.cnt2;
    if scnt <= 0 {
      return;
    }
    InRange(scnt);
    var i := 0;
    while i < 3
      invariant 0 <= i <= 3
      invariant forall p, k | 0 <= p < i && 0 <= k < N :: des[p, k] == Point(rs.src1[p] + rs.src2[p], k)
    {
      FillPhase(des, i, rs.src1[i] + rs.src2[i]);
      i := i + 1;
    }
  }
}
