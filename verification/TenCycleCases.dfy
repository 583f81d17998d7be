/** A restart in the middle of a block, after which the cursor falls short of the samples used. */
module TenCycleCases {
  import opened Arithmetic
  import opened TenCycle

  /** Cycles of 200 samples. */
  function Cycles(n: nat): (c: seq<nat>)
    ensures |c| == n
  {
    seq(n, _ => 200)
  }

  lemma {:induction false} CyclesSum(c: seq<nat>, k: nat)
    requires k <= |c| && c == Cycles(|c|)
    ensures Sum(c[..k]) == 200 * k
  {
    if k == 0 {
      SumNone(c);
    } else {
      CyclesSum(c, k - 1);
      SumNext(c, k - 1);
    }
  }

  /** The block that begins a ten-minute interval. */
  predicate Tick(b: nat) {
    b == 1
  }

  /** From sample 4000 of a block of 5120, the restart point is behind the sixth cycle. */
  lemma SixthCycle(c: seq<nat>, cp: nat)
    requires c == Cycles(|c|) && cp <= 10 <= |c|
    ensures RestartAt(c, 10, 4000, 5120, cp) <==> cp == 6
  {
    CyclesSum(c, cp);
    if cp > 0 {
      CyclesSum(c, cp - 1);
    }
    if cp < 10 {
      CyclesSum(c, cp + 1);
    }
  }

  method Filled() returns (r: Resampler)
    ensures fresh(r) && r.num == 5120 && r.Valid()
    ensures r.zcp == Cycles(40) && r.block == r.point == 0 && !r.rs.resync
  {
    r := new Resampler(5120, 256);
    for i := 0 to 40
      invariant fresh(r) && r.num == 5120 && r.maxCycle == 256 && r.Valid()
      invariant r.zcp == Cycles(i) && r.block == r.point == 0 && !r.rs.resync
    {
      r.PushCycle(200);
    }
  }

  /** One window of ten cycles within a block. */
  method WholeWindow(r: Resampler)
    requires r.Valid() && |r.zcp| >= 10 && r.zcp == Cycles(|r.zcp|) && !r.rs.resync
    requires r.block == 0 && r.point <= 2000 && r.num == 5120
    modifies r
    ensures r.Valid() && r.zcp == Cycles(|old(r.zcp)| - 10) && !r.rs.resync
    ensures r.block == 0 && r.point == old(r.point) + 2000
  {
    CyclesSum(r.zcp, 10);
    hide Sum, Covers, RestartAt;
    var total := r.GetRsmplSrc(Tick);
    CoversCount(r.rs.src1, r.rs.src2, old(r.Cursor()), r.Cursor());
  }

  lemma CoversCount(s1: Sector, s2: Sector, from: int, to: int)
    requires Covers(s1, s2, from, to)
    ensures to == from + s1.count + s2.count
  {}

  /**
     After the restart at sample 5200, 80 samples into its block, the window holds the samples from 5200 to
     7200, and the next one begins at 7120.
   */
  method FallsShort() returns (r: Resampler)
    ensures fresh(r) && r.Valid() && Covers(r.rs.src1, r.rs.src2, 5200, 7200) && r.Cursor() == 7120
  {
    r := Filled();
    WholeWindow(r);
    WholeWindow(r);
    CyclesSum(r.zcp, 10);
    CyclesSum(r.zcp, 6);
    ghost var c := r.zcp;
    hide Sum, Covers, RestartAt;
    var total := r.GetRsmplSrc(Tick);
    CoversCount(r.rs.src1, r.rs.src2, 4000, r.Cursor());
    SixthCycle(c, r.rs.cntCp);
    assert r.carried == c[6..10] && r.block == 1 && r.point == 880;
    CyclesSum(c[6..10], 4);
    CyclesSum(r.zcp, 6);
    assert c[6..10][..4] == c[6..10];
    total := r.GetRsmplSrc(Tick);
  }
}
