/** The sliding sum of squares over many calls, and the ring that it needs. */
module SlidingRuns {
  import opened Arithmetic
  import opened SlidingRms

  // ---- How large the ring must be ----

  /** Whatever the samples, and whatever a call before has left, no square is dropped from the sum's ring. */
  ghost predicate AlwaysExact(cap: nat, m: nat) {
    forall q: seq<int>, sq: seq<int>, cycles: seq<nat>, p: nat |
      && |q| <= cap && |q| <= m + 31 && NonNegative(q) && NonNegative(sq)
      && (forall c | c in cycles :: c <= m) && p <= |sq| == |Lengths(cycles)|
      :: Drift(cap, q, sq, Lengths(cycles), p) == 0
  }

  /** For cycles of up to m samples, the sum is exact for all signals exactly when the ring has room for m + 63. */
  lemma RingThatSuffices(cap: nat, m: nat)
    requires m > 0
    ensures AlwaysExact(cap, m) <==> cap >= m + 63
  {
    if cap >= m + 63 {
      forall q: seq<int>, sq: seq<int>, cycles: seq<nat>, p: nat |
        && |q| <= cap && |q| <= m + 31 && NonNegative(q) && NonNegative(sq)
        && (forall c | c in cycles :: c <= m) && p <= |sq| == |Lengths(cycles)|
        ensures Drift(cap, q, sq, Lengths(cycles), p) == 0
      {
        LengthsPositive(cycles);
        NoDrift(cap, q, sq, Lengths(cycles), m, p);
      }
    } else {
      var k := if cap < m + 31 then cap else m + 31;
      var cycles := seq(INTERVAL, _ => m);
      LengthsSum(cycles, m);
      OnesDrift(cap, m, k, Lengths(cycles));
      assert NonNegative(Ones(k)) && NonNegative(Ones(|Lengths(cycles)|));
    }
  }

  function Ones(n: nat): (s: seq<int>)
    ensures |s| == n
  {
    seq(n, _ => 1)
  }

  lemma OnesPushed(k: nat, cap: nat)
    requires k <= cap
    ensures Newest(Ones(k) + [1], cap) == Ones(if k < cap then k + 1 else cap) && (Ones(k) + [1])[0] == 1
  {}

  /** Up to the first trim, the ring fills with the squares pushed, and a full one drops one for each. */
  lemma {:induction false} OnesFill(cap: nat, k: nat, lens: seq<nat>, p: nat)
    requires k <= cap && p <= |lens| && p < INTERVAL
    ensures Window(cap, Ones(k), Ones(|lens|), lens, p) == Ones(if k + p < cap then k + p else cap)
    ensures Drift(cap, Ones(k), Ones(|lens|), lens, p) == if k + p < cap then 0 else k + p - cap
  {
    hide Window, Drift, Ones, Newest;
    if p == 0 {
      Started(cap, Ones(k), Ones(|lens|), lens);
    } else {
      OnesFill(cap, k, lens, p - 1);
      OneOfOnes(|lens|, p - 1);
      Turn(cap, Ones(k), Ones(|lens|), lens, p - 1);
      OnesPushed(if k + p - 1 < cap then k + p - 1 else cap, cap);
    }
  }

  /** A ring too small drops a one before the first trim. */
  lemma OnesDrift(cap: nat, m: nat, k: nat, lens: seq<nat>)
    requires 0 < m && cap < m + 63 && k == (if cap < m + 31 then cap else m + 31) && |lens| >= INTERVAL
    ensures Drift(cap, Ones(k), Ones(|lens|), lens, 32) > 0
  {
    hide Window, Drift, Ones, Newest;
    OnesFill(cap, k, lens, 31);
    OneOfOnes(|lens|, 31);
    Turn(cap, Ones(k), Ones(|lens|), lens, 31);
    OnesPushed(if k + 31 < cap then k + 31 else cap, cap);
  }

  lemma OneOfOnes(n: nat, i: nat)
    requires i < n
    ensures Ones(n)[i] == 1 && NonNegative(Ones(n))
  {}

  lemma {:induction false} LengthsSum(cycles: seq<nat>, m: nat)
    requires m > 0 && forall i | 0 <= i < |cycles| :: cycles[i] == m
    ensures |Lengths(cycles)| >= |cycles|
  {
    if cycles != [] {
      LengthsSum(cycles[..|cycles| - 1], m);
    }
  }

  // ---- Many calls ----

  /** The ring holds the squares of a whole cycle but for the samples up to the next trim, or all there were. */
  predicate Filled(w: seq<int>, h: seq<int>, m: nat) {
    |w| + INTERVAL >= m || |w| == |h|
  }

  /** Cycle lengths that differ by at most 32 samples, m being the greatest. */
  predicate Steady(lens: seq<nat>, m: nat) {
    forall i | 0 <= i < |lens| :: lens[i] + INTERVAL >= m
  }

  /** The sum is that of the ring, which holds the newest squares of all, with room for another call. */
  ghost predicate Exact(ph: Phase, m: nat, h: seq<int>, steady: bool)
    reads ph, ph.v1pn2, ph.v1pn2.buffer
  {
    && ph.Valid() && ph.lost == 0 && m + 63 <= ph.v1pn2.cap
    && var w := ph.v1pn2.Contents(); w == Newest(h, |w|) && |w| <= m + 31 && (steady ==> Filled(w, h, m))
  }

  /**
     The sum of the latest squares over the cycle length. With steady cycles, once m samples have been seen,
     it is that of exactly one cycle, and otherwise of no more.
   */
  ghost predicate IsMean(r: real, squares: seq<int>, len: nat, m: nat, steady: bool)
    requires len > 0
  {
    exists k: nat | k <= len ::
      (steady && |squares| >= m ==> k == len) && r == Sum(Newest(squares, k)) as real / len as real
  }

  /** All means of a call, when h are the squares of the calls before. */
  ghost predicate MeansAre(rms: seq<real>, h: seq<int>, sq: seq<int>, lens: seq<nat>, m: nat, steady: bool) {
    && |rms| >= |sq| / INTERVAL && |sq| == |lens| && (forall i | 0 <= i < |lens| :: lens[i] > 0)
    && forall e | 0 <= e < |sq| / INTERVAL ::
         IsMean(rms[e], h + sq[..INTERVAL * e + 32], lens[INTERVAL * e + 31], m, steady)
  }

  /** With steady cycles, every trim leaves exactly one, or all squares there were. */
  lemma {:induction false} WholeCycles(cap: nat, h: seq<int>, q: seq<int>, sq: seq<int>, lens: seq<nat>, m: nat, p: nat)
    requires p <= |sq| == |lens| && m + 63 <= cap && |q| <= m + 31 && Filled(q, h, m) && Steady(lens, m)
    requires forall i | 0 <= i < |lens| :: lens[i] <= m
    ensures var n := |Window(cap, q, sq, lens, p)|;
      && (n + INTERVAL >= m + p % INTERVAL || n == |h| + p)
      && (p > 0 && p % INTERVAL == 0 && |h| + p >= m ==> n == lens[p - 1])
  {
    hide Window, Drift, Newest;
    if p == 0 {
      Started(cap, q, sq, lens);
    } else {
      WholeCycles(cap, h, q, sq, lens, m, p - 1);
      NoDrift(cap, q, sq, lens, m, p - 1);
      Turn(cap, q, sq, lens, p - 1);
      var all := Window(cap, q, sq, lens, p - 1) + [sq[p - 1]];
      NewestLength(all, cap);
      NewestLength(Newest(all, cap), lens[p - 1]);
    }
  }

  lemma NewestLength(s: seq<int>, m: nat)
    ensures |Newest(s, m)| == if |s| <= m then |s| else m
  {}

  lemma NewestOfAll(h: seq<int>, q: seq<int>, more: seq<int>, k: nat)
    requires q == Newest(h, |q|)
    ensures k <= |q + more| ==> Newest(q + more, k) == Newest(h + more, k)
    ensures |Newest(q + more, k)| == k ==> k <= |q + more|
  {}

  /** One mean, seen from all the squares since start-up. */
  lemma MeanSinceStart(cap: nat, h: seq<int>, q: seq<int>, sq: seq<int>, lens: seq<nat>, m: nat, p: nat, steady: bool)
    requires 0 < p <= |sq| == |lens| && p % INTERVAL == 0 && lens[p - 1] > 0
    requires m + 63 <= cap && |q| <= m + 31 && q == Newest(h, |q|)
    requires forall i | 0 <= i < |lens| :: lens[i] <= m
    requires steady ==> Filled(q, h, m) && Steady(lens, m)
    ensures IsMean(Mean(cap, q, sq, lens, 0, p), h + sq[..p], lens[p - 1], m, steady)
  {
    hide Mean, Window, Drift, Sum;
    ExactMean(cap, q, sq, lens, m, p);
    HoldsTheLatest(cap, q, sq, lens, p);
    if steady {
      WholeCycles(cap, h, q, sq, lens, m, p);
    }
    var w := Window(cap, q, sq, lens, p);
    NewestOfAll(h, q, sq[..p], |w|);
    assert Newest(q + sq[..p], |w|) == Newest(h + sq[..p], |w|);
  }

  /** All means of a call. */
  lemma MeansSinceStart(cap: nat, h: seq<int>, q: seq<int>, sq: seq<int>, lens: seq<nat>, m: nat, rms: seq<real>,
                        steady: bool)
    requires |sq| == |lens| && m + 63 <= cap && |q| <= m + 31 && q == Newest(h, |q|)
    requires forall i | 0 <= i < |lens| :: 0 < lens[i] <= m
    requires steady ==> Filled(q, h, m) && Steady(lens, m)
    requires |rms| >= |sq| / INTERVAL
    requires forall e | 0 <= e < |sq| / INTERVAL :: rms[e] == Mean(cap, q, sq, lens, 0, INTERVAL * e + 32)
    ensures MeansAre(rms, h, sq, lens, m, steady)
  {
    hide Mean, IsMean;
    forall e | 0 <= e < |sq| / INTERVAL
      ensures IsMean(rms[e], h + sq[..INTERVAL * e + 32], lens[INTERVAL * e + 31], m, steady)
    {
      MeanSinceStart(cap, h, q, sq, lens, m, INTERVAL * e + 32, steady);
    }
  }

  /** What the ring holds after a call. */
  lemma AfterCall(cap: nat, h: seq<int>, q: seq<int>, sq: seq<int>, lens: seq<nat>, m: nat, steady: bool)
    requires INTERVAL <= |sq| == |lens| && m + 63 <= cap && |q| <= m + 31 && q == Newest(h, |q|)
    requires forall i | 0 <= i < |lens| :: lens[i] <= m
    requires steady ==> Filled(q, h, m) && Steady(lens, m)
    ensures var w := Window(cap, q, sq, lens, |sq|);
      && Drift(cap, q, sq, lens, |sq|) == 0
      && w == Newest(h + sq, |w|) && |w| <= m + 31 && (steady ==> Filled(w, h + sq, m))
      && (|sq| % INTERVAL == 0 ==> |w| <= lens[|sq| - 1])
  {
    hide Window, Drift;
    NoDrift(cap, q, sq, lens, m, |sq|);
    HoldsTheLatest(cap, q, sq, lens, |sq|);
    if steady {
      WholeCycles(cap, h, q, sq, lens, m, |sq|);
    }
    assert sq[..|sq|] == sq;
    NewestOfAll(h, q, sq, |Window(cap, q, sq, lens, |sq|)|);
  }

  lemma LastLength(cycles: seq<nat>)
    requires cycles != [] && cycles[|cycles| - 1] > 0
    ensures |Lengths(cycles)| > 0 && Lengths(cycles)[|Lengths(cycles)| - 1] == cycles[|cycles| - 1]
  {}

  lemma AllOfFew(w: seq<int>, n: nat)
    ensures |w| <= n ==> Oldest(w, n) == w
  {}

  /** What one call gets: two sectors of samples and the lengths of their cycles. */
  datatype Call = Call(src1: seq<int>, src2: seq<int>, cycles: seq<nat>, recalc: bool)

  /**
     Calls of at least 32 samples with cycles of up to m. The sum is started anew only after a multiple of 32
     samples: the ring has just been trimmed then, and the oldest squares are all of them.
   */
  predicate Regular(c: Call, m: nat, steady: bool) {
    && INTERVAL <= |c.src1 + c.src2| == |Lengths(c.cycles)|
    && (forall i | 0 <= i < |c.cycles| :: 0 < c.cycles[i] <= m) && (steady ==> Steady(c.cycles, m))
    && (c.recalc ==> |c.src1 + c.src2| % INTERVAL == 0)
  }

  lemma RegularLengths(c: Call, m: nat, steady: bool)
    requires Regular(c, m, steady)
    ensures forall i | 0 <= i < |Lengths(c.cycles)| :: 0 < Lengths(c.cycles)[i] <= m
    ensures steady ==> Steady(Lengths(c.cycles), m)
    ensures c.cycles != [] && Lengths(c.cycles)[|Lengths(c.cycles)| - 1] == c.cycles[|c.cycles| - 1]
  {
    LengthsPositive(c.cycles);
    LastLength(c.cycles);
  }

  /** One call: the sum stays exact, and every mean is that of the latest squares. */
  method OneCall(ph: Phase, c: Call, m: nat, ghost h: seq<int>, ghost steady: bool) returns (rms: array<real>, n: nat)
    requires Exact(ph, m, h, steady) && Regular(c, m, steady)
    modifies ph, ph.v1pn2, ph.v1pn2.buffer
    ensures Exact(ph, m, h + Squares(c.src1 + c.src2), steady)
    ensures n == |c.src1 + c.src2| / INTERVAL <= rms.Length
    ensures MeansAre(rms[..], h, Squares(c.src1 + c.src2), Lengths(c.cycles), m, steady)
  {
    ghost var q, sq, lens, cap := ph.v1pn2.Contents(), Squares(c.src1 + c.src2), Lengths(c.cycles), ph.v1pn2.cap;
    RegularLengths(c, m, steady);
    rms, n := ph.CalcRceRms(c.src1, c.src2, c.cycles, c.recalc);
    hide Window, Drift, Mean, Sum, Oldest, Newest, MeansAre, Steady, Filled;
    AfterCall(cap, h, q, sq, lens, m, steady);
    MeansSinceStart(cap, h, q, sq, lens, m, rms[..], steady);
    AllOfFew(ph.v1pn2.Contents(), c.cycles[|c.cycles| - 1]);
  }

  /** The squares of a run of calls. */
  function AllSquares(cs: seq<Call>): seq<int> {
    if cs == [] then [] else AllSquares(cs[..|cs| - 1]) + Squares(cs[|cs| - 1].src1 + cs[|cs| - 1].src2)
  }

  /** The means of call i of a run. */
  ghost predicate CallMeans(rms: seq<real>, cs: seq<Call>, i: nat, m: nat, steady: bool)
    requires i < |cs|
  {
    MeansAre(rms, AllSquares(cs[..i]), Squares(cs[i].src1 + cs[i].src2), Lengths(cs[i].cycles), m, steady)
  }

  /** From start-up, with room for m + 63 squares, all means of all calls are those of the latest squares. */
  method AllCalls(ph: Phase, cs: seq<Call>, m: nat, ghost steady: bool) returns (out: seq<seq<real>>)
    requires ph.Valid() && ph.lost == 0 && ph.v1pn2.Contents() == [] && m + 63 <= ph.v1pn2.cap
    requires forall i | 0 <= i < |cs| :: Regular(cs[i], m, steady)
    modifies ph, ph.v1pn2, ph.v1pn2.buffer
    ensures Exact(ph, m, AllSquares(cs), steady)
    ensures |out| == |cs| && forall i | 0 <= i < |cs| :: CallMeans(out[i], cs, i, m, steady)
  {
    hide Exact, Regular, MeansAre;
    out := [];
    var k := 0;
    StartsExact(ph, m, steady);
    while k < |cs|
      invariant 0 <= k <= |cs| && |out| == k && Exact(ph, m, AllSquares(cs[..k]), steady)
      invariant forall i | 0 <= i < k :: CallMeans(out[i], cs, i, m, steady)
    {
      var rms, n := OneCall(ph, cs[k], m, AllSquares(cs[..k]), steady);
      out := out + [rms[..]];
      assert cs[..k + 1][..k] == cs[..k];
      k := k + 1;
    }
    assert cs[..k] == cs;
  }

  lemma StartsExact(ph: Phase, m: nat, steady: bool)
    requires ph.Valid() && ph.lost == 0 && ph.v1pn2.Contents() == [] && m + 63 <= ph.v1pn2.cap
    ensures Exact(ph, m, [], steady)
  {}
}
