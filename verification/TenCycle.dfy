/**
 Ten-cycle windows over one-second sample blocks, with the restart at each ten-minute tick
 (IEC 61000-4-30, section 4.5). Pointers into blocks are absolute sample positions.
 */
module TenCycle {
  import opened Arithmetic

  lemma SumNone(s: seq<nat>)
    ensures Sum(s[..0]) == 0
  {
    assert s[..0] == [];
  }

  lemma {:induction false} SumBounded(s: seq<nat>, m: nat)
    requires forall i | 0 <= i < |s| :: s[i] <= m
    ensures Sum(s) <= m * |s|
  {
    if s != [] {
      SumBounded(s[..|s| - 1], m);
      assert m * |s| == m * (|s| - 1) + m;
    }
  }

  lemma TenBounded(c: seq<nat>, n: nat, m: nat)
    requires n <= 10 && n <= |c| && forall i | 0 <= i < |c| :: c[i] <= m
    ensures Sum(c[..n]) <= 10 * m
  {
    SumBounded(c[..n], m);
    UpToTen(m, n);
  }

  lemma UpToTen(m: nat, n: nat)
    requires n <= 10
    ensures m * n <= 10 * m
  {
    assert m * 10 == m * n + m * (10 - n);
  }

  datatype Pointer = Null | At(pos: int)

  /** `count` samples from `start` on. */
  datatype Sector = Sector(start: Pointer, count: int)

  /** Two sectors that together are exactly the samples from `from` to `to`. */
  predicate Covers(s1: Sector, s2: Sector, from: int, to: int) {
    && s1.count >= 0 && s2.count >= 0 && s1.count + s2.count == to - from
    && (s1.count > 0 ==> s1.start == At(from))
    && (s2.count > 0 ==> s2.start == At(from + s1.count))
  }

  /** The sectors kept at a switch hold exactly the samples after the restart point. */
  lemma RestartSectors(base: int, cut: int, s1: Sector, cnt: int)
    requires cut <= cnt && 0 <= cnt
    requires s1 == if cut > 0 then Sector(Null, 0) else Sector(At(base + cut), -cut)
    ensures var k := if cut > 0 then cut else 0;
            Covers(s1, Sector(At(base + k), cnt - k), base + cut, base + cnt)
  {}

  /** A window over two blocks: the rest of one from `from` on, and `cnt` samples of the next. */
  lemma TwoBlocks(from: int, base: int, cnt: int)
    requires from <= base && 0 <= cnt
    ensures Covers(Sector(At(from), base - from), Sector(At(base), cnt), from, base + cnt)
  {}

  lemma OneBlock(from: int, cnt: int)
    requires 0 <= cnt
    ensures Covers(Sector(At(from), cnt), Sector(Null, 0), from, from + cnt)
  {}

  lemma LongerSector(s1: Sector, s2: Sector, from: int, to: int, more: int)
    requires Covers(s1, s2, from, to) && 0 <= more && s2.start == At(to - s2.count)
    ensures Covers(s1, Sector(s2.start, s2.count + more), from, to + more)
  {}

  /** Cycle lengths that the source takes for a valid 40 Hz to 70 Hz signal. */
  predicate InRange(len: nat) {
    180 <= len <= 320
  }

  predicate AllInRange(c: seq<nat>, n: nat)
    requires n <= |c|
  {
    forall i | 0 <= i < n :: InRange(c[i])
  }

  lemma AllInRangeNext(c: seq<nat>, n: nat)
    requires n < |c|
    ensures AllInRange(c, n + 1) <==> AllInRange(c, n) && InRange(c[n])
  {}

  /**
   A window from `point` on, of the first n cycles, crosses the end of the block, at num, in the cycle before
   c[cp] or in c[cp]: the restart point is the end of that cycle if it is less than 128 samples behind the
   block, and otherwise its beginning.
   */
  predicate RestartAt(c: seq<nat>, n: nat, point: int, num: nat, cp: nat)
    requires cp <= n <= |c|
  {
    || (cp > 0 && point + Sum(c[..cp - 1]) <= num < point + Sum(c[..cp]) < num + 128)
    || (cp < n && point + Sum(c[..cp]) <= num && num + 128 <= point + Sum(c[..cp + 1]))
  }

  /** One more cycle, c[i], keeps the restart point, or finds it at the end of the block. */
  lemma RestartStep(c: seq<nat>, i: nat, point: int, num: nat, sw: bool, cp: nat, before: int, cp': nat, before': int)
    requires i < |c|
    requires sw ==>
      cp <= i && before == Sum(c[..cp]) && RestartAt(c, i, point, num, cp) && cp' == cp && before' == before
    requires !sw ==>
      && point + Sum(c[..i]) <= num < point + Sum(c[..i + 1])
      && cp' == (if point + Sum(c[..i + 1]) < num + 128 then i + 1 else i) && before' == Sum(c[..cp'])
    ensures cp' <= i + 1 && before' == Sum(c[..cp']) && RestartAt(c, i + 1, point, num, cp')
  {}

  /** The record ReSampSource: this window, and where to restart at the next ten-minute tick. */
  datatype ReSampSource = ReSampSource(src1: Sector, src2: Sector, valid: int, resync: bool, cntCp: nat,
                                       src1Sw: Sector, src2Sw: Sector)

  /** The record RceSource: sample counts for the rapid-change detector, and its cycle lengths. */
  datatype RceSource = RceSource(cnt1: int, cnt2: int, cntPnt: seq<nat>)

  /** The loop after a restart, s samples on: the window is in the current block already. */
  predicate Restarting(rs: ReSampSource, sw: bool, s: int, s1: Sector, s2: Sector, cnt0: int, cnt: int, k: int) {
    && sw && k == 0 && !rs.resync && cnt == cnt0 + s
    && rs.src1 == s1 && rs.src2 == s2 && rs.src1Sw == rs.src2Sw == Sector(Null, 0)
  }

  /**
   The loop of a plain window, s samples on. The window starts `point` samples into the block at `base`
   and may have run over its end; `before` samples of it then precede the restart point.
   */
  predicate Advancing(rs: ReSampSource, sw: bool, num: nat, base: int, point: int, s: int, before: int, cnt: int, k: int) {
    && 0 <= s && point <= num
    && if !sw then
         && !rs.resync && cnt == s && point + cnt <= num && k == 0
         && rs.src1 == Sector(At(base + point), 0) && rs.src2 == rs.src1Sw == rs.src2Sw == Sector(Null, 0)
       else
         && cnt == point + s - num && 0 < cnt
         && rs.src1 == Sector(At(base + point), num - point) && rs.src2 == Sector(At(base + num), 0)
         && (var cut := point + before - num;
             && k == (if cut > 0 then cut else 0) && k <= cnt && 0 <= before <= s
             && rs.src1Sw == (if cut > 0 then Sector(Null, 0) else Sector(At(base + num + cut), -cut))
             && rs.src2Sw == Sector(At(base + num + k), 0))
  }

  class Resampler {
    const num: nat          // samples in a one-second block
    const maxCycle: nat     // no cycle is longer
    var zcp: seq<nat>       // queue of cycle lengths
    var block: nat          // blocks taken off the queue so far
    var point: int          // where the next window starts in the current block
    var rs: ReSampSource
    var rce: RceSource
    ghost var carried: seq<nat>  // the cycles of the last window that follow its restart point

    /** The absolute position at which the next window starts. */
    function Cursor(): int
      reads this
    {
      Base(block) + point
    }

    /** The absolute position of the first sample of block b. */
    function Base(b: nat): int {
      b * num
    }

    lemma NextBase(b: nat)
      ensures Base(b + 1) == Base(b) + num
    {}

    ghost predicate Sized()
      reads this
    {
      20 * maxCycle <= num && 0 <= point <= num && forall i | 0 <= i < |zcp| :: zcp[i] <= maxCycle
    }

    /** A pending restart begins before the carried cycles, which end at the cursor. */
    ghost predicate Pending()
      reads this
    {
      && rs.cntCp + |carried| == 10 && point <= 10 * maxCycle
      && Covers(rs.src1Sw, rs.src2Sw, Cursor() - Sum(carried), Cursor())
      && rs.src2Sw.start == At(Cursor() - rs.src2Sw.count) && rs.src2Sw.count <= point
    }

    ghost predicate Valid()
      reads this
    {
      Sized() && (rs.resync ==> Pending())
    }

    constructor (num: nat, maxCycle: nat)
      requires 20 * maxCycle <= num
      ensures this.num == num && this.maxCycle == maxCycle
      ensures Valid() && zcp == [] && block == point == 0 && !rs.resync
    {
      this.num, this.maxCycle := num, maxCycle;
      zcp, block, point := [], 0, 0;
      rs := ReSampSource(Sector(Null, 0), Sector(Null, 0), 0, false, 0, Sector(Null, 0), Sector(Null, 0));
      rce := RceSource(0, 0, []);
      carried := [];
    }

    /** DetectCycs has found one more cycle. */
    method PushCycle(len: nat)
      requires Valid() && len <= maxCycle
      modifies this`zcp
      ensures Valid() && zcp == old(zcp) + [len]
    {
      zcp := zcp + [len];
    }

    /** ReSampSource::IniSrc */
    method IniSrc() returns (sw: bool, cnt: int, cycs: nat)
      modifies this`rs
      ensures !rs.resync && rs.valid == 0 && rs.cntCp == old(rs).cntCp
      ensures rs.src1Sw == rs.src2Sw == Sector(Null, 0)
      ensures if old(rs).resync then
                sw && cnt == old(rs).src2Sw.count && cycs == rs.cntCp &&
                rs.src1 == old(rs).src1Sw && rs.src2 == Sector(old(rs).src2Sw.start, 0)
              else
                !sw && cnt == 0 && cycs == 10 && rs.src1 == Sector(At(Cursor()), 0) && rs.src2 == Sector(Null, 0)
    {
      if rs.resync {
        cnt := rs.src2Sw.count;
        cycs := rs.cntCp;
        sw := true;
        rs := rs.(resync := false, src1 := rs.src1Sw, src2 := rs.src2Sw);
      } else {
        rs := rs.(src1 := Sector(At(Base(block) + point), 0), src2 := Sector(Null, 0));
        cnt := 0;
        cycs := 10;
        sw := false;
      }
      rs := rs.(src2 := Sector(rs.src2.start, 0));
      rs := rs.(src1Sw := Sector(Null, 0), src2Sw := Sector(Null, 0), valid := 0);
    }

    /** The block switch of GetRsmplSrc: cycle i, of length nmp, ends cnt samples into the window, beyond the block. */
    method SwitchBlock(cnt: int, nmp: nat, i: nat, tick: nat -> bool) returns (cnt': int, k: int, ghost before: int)
      requires num < point + cnt && nmp <= cnt && !rs.resync
      requires Advancing(rs, false, num, Base(block), point, cnt - nmp, 0, cnt - nmp, 0)
      modifies this`rs, this`block
      ensures block == old(block) + 1 && rs.resync == tick(block) && rs.valid == old(rs).valid
      ensures rs.cntCp == (if point + cnt < num + 128 then i + 1 else i)
      ensures before == (if point + cnt < num + 128 then cnt else cnt - nmp)
      ensures Advancing(rs, true, num, Base(old(block)), point, cnt, before, cnt', k)
    {
      hide Base;
      NextBase(block);
      rs := rs.(src1 := Sector(rs.src1.start, num - point), cntCp := i);
      if point + cnt < num + 128 {
        rs := rs.(cntCp := rs.cntCp + 1);
        k := point + cnt - num;
        before := cnt;
      } else {
        k := point + cnt - nmp;
        rs := rs.(src1Sw := Sector(At(Base(block) + k), num - k));
        k := 0;
        before := cnt - nmp;
      }
      block := block + 1;
      rs := rs.(src2 := Sector(At(Base(block)), rs.src2.count), src2Sw := Sector(At(Base(block) + k), rs.src2Sw.count));
      if tick(block) {
        rs := rs.(resync := true);
      }
      cnt' := point + cnt - num;
    }

    /** The loop of GetRsmplSrc, s samples on: after a restart, or from the cursor in block b0. */
    ghost predicate Looping(restarted: bool, sw: bool, s: nat, before: int, s1: Sector, s2: Sector,
                            cnt0: int, cnt: int, k: int, b0: nat, tick: nat -> bool)
      reads this`rs, this`point, this`block
    {
      if restarted then Restarting(rs, sw, s, s1, s2, cnt0, cnt, k) && block == b0
      else
        && Advancing(rs, sw, num, Base(b0), point, s, before, cnt, k)
        && if sw then block == b0 + 1 && rs.resync == tick(block) else block == b0
    }

    /** One turn of the loop of GetRsmplSrc, for cycle i of nmp samples. */
    method TakeCycle(ghost restarted: bool, sw: bool, nmp: nat, i: nat, cnt: int, k: int, tick: nat -> bool,
                     ghost s: nat, ghost before: int, ghost s1: Sector, ghost s2: Sector, ghost cnt0: int, ghost b0: nat)
      returns (sw': bool, cnt': int, k': int, ghost before': int)
      requires Looping(restarted, sw, s, before, s1, s2, cnt0, cnt, k, b0, tick)
      modifies this`rs, this`block
      ensures rs.valid == if InRange(nmp) then old(rs).valid else 1
      ensures Looping(restarted, sw', s + nmp, before', s1, s2, cnt0, cnt', k', b0, tick)
      ensures !restarted && sw' ==>
        if sw then rs.cntCp == old(rs).cntCp && before' == before
        else
          && point + s <= num < point + s + nmp
          && rs.cntCp == (if point + s + nmp < num + 128 then i + 1 else i)
          && before' == (if point + s + nmp < num + 128 then s + nmp else s)
    {
      hide Base;
      sw', cnt', k', before' := sw, cnt + nmp, k, before;
      if nmp < 180 || nmp > 320 {
        rs := rs.(valid := 1);
      }
      if point + cnt' > num && !sw {
        cnt', k', before' := SwitchBlock(cnt', nmp, i, tick);
        sw' := true;
      }
    }

    /** The next cycle length goes from the queue into the record for the rapid-change detector. */
    method PopCycle(ghost c: seq<nat>, ghost i: nat) returns (nmp: nat)
      requires i < |c| && zcp == c[i..] && rce.cntPnt == c[..i]
      modifies this`zcp, this`rce
      ensures nmp == c[i] && zcp == c[i + 1..] && rce == old(rce).(cntPnt := c[..i + 1])
    {
      nmp := zcp[0];
      zcp := zcp[1..];
      rce := rce.(cntPnt := rce.cntPnt + [nmp]);
    }

    /** The loop of GetRsmplSrc after i cycles of c: what has been taken, and where the window stands. */
    ghost predicate Taking(c: seq<nat>, i: nat, sw0: bool, sw: bool, cnt: int, k: int, before: int,
                           s1: Sector, s2: Sector, cnt0: int, b0: nat, tick: nat -> bool)
      requires i <= |c|
      reads this
    {
      && rce.cntPnt == c[..i] && zcp == c[i..] && (rs.valid == 0 <==> AllInRange(c, i))
      && Looping(sw0, sw, Sum(c[..i]), before, s1, s2, cnt0, cnt, k, b0, tick)
      && (!sw0 && sw ==>
            rs.cntCp <= i && before == Sum(c[..rs.cntCp]) && RestartAt(c, i, point, num, rs.cntCp))
    }

    method OneTurn(sw0: bool, sw: bool, cnt: int, k: int, i: nat, tick: nat -> bool, ghost before: int,
                   ghost c: seq<nat>, ghost s1: Sector, ghost s2: Sector, ghost cnt0: int, ghost b0: nat)
      returns (sw': bool, cnt': int, k': int, ghost before': int)
      requires i < |c| && Taking(c, i, sw0, sw, cnt, k, before, s1, s2, cnt0, b0, tick)
      modifies this`zcp, this`rs, this`rce, this`block
      ensures Taking(c, i + 1, sw0, sw', cnt', k', before', s1, s2, cnt0, b0, tick)
      ensures rce.cnt1 == old(rce).cnt1 && rce.cnt2 == old(rce).cnt2
    {
      hide Sum, Base, Looping, AllInRange, InRange, RestartAt;
      var nmp := PopCycle(c, i);
      SumNext(c, i);
      AllInRangeNext(c, i);
      ghost var cp := rs.cntCp;
      sw', cnt', k', before' := TakeCycle(sw0, sw, nmp, i, cnt, k, tick, Sum(c[..i]), before, s1, s2, cnt0, b0);
      if !sw0 && sw' {
        RestartStep(c, i, point, num, sw, cp, before, rs.cntCp, before');
      }
    }

    /** The loop of GetRsmplSrc over the cycles that complete the window. */
    method TakeCycles(sw0: bool, cnt0: int, cycs: nat, tick: nat -> bool)
      returns (sw: bool, cnt: int, k: int, ghost before: int)
      requires cycs <= 10 <= |zcp| && rs.valid == 0 && rce.cntPnt == []
      requires Looping(sw0, sw0, 0, 0, rs.src1, rs.src2, cnt0, cnt0, 0, block, tick)
      modifies this`zcp, this`rs, this`rce, this`block
      ensures Taking(old(zcp), cycs, sw0, sw, cnt, k, before, old(rs).src1, old(rs).src2, cnt0, old(block), tick)
      ensures rce.cnt1 == old(rce).cnt1 && rce.cnt2 == old(rce).cnt2
    {
      ghost var c, b0, s1, s2 := zcp, block, rs.src1, rs.src2;
      sw, cnt, k, before := sw0, cnt0, 0, 0;
      SumNone(c);
      assert AllInRange(c, 0);
      assert Taking(c, 0, sw0, sw, cnt, k, before, s1, s2, cnt0, b0, tick);
      hide Taking, Looping;
      for i := 0 to cycs
        invariant Taking(c, i, sw0, sw, cnt, k, before, s1, s2, cnt0, b0, tick)
        invariant rce.cnt1 == old(rce).cnt1 && rce.cnt2 == old(rce).cnt2
      {
        sw, cnt, k, before := OneTurn(sw0, sw, cnt, k, i, tick, before, c, s1, s2, cnt0, b0);
      }
    }

    /** The end of GetRsmplSrc. */
    method Close(sw: bool, cnt0: int, cnt: int, k: int)
      modifies this`rs, this`rce, this`point
      ensures rce.cntPnt == old(rce).cntPnt
      ensures if sw then
                && rs == old(rs).(src2 := Sector(old(rs).src2.start, cnt), src2Sw := Sector(old(rs).src2Sw.start, cnt - k))
                && point == cnt && rce.cnt1 == old(rce).cnt1 && rce.cnt2 == cnt - cnt0
              else
                && rs == old(rs).(src1 := Sector(old(rs).src1.start, cnt))
                && point == old(point) + cnt && rce.cnt1 == cnt && rce.cnt2 == old(rce).cnt2
    {
      if sw {
        rs := rs.(src2 := Sector(rs.src2.start, cnt), src2Sw := Sector(rs.src2Sw.start, cnt - k));
        rce := rce.(cnt2 := cnt - cnt0);
        point := cnt;
      } else {
        rs := rs.(src1 := Sector(rs.src1.start, cnt));
        rce := rce.(cnt1 := cnt);
        point := point + cnt;
      }
    }

    /** The cycles taken off the queue, and whether all of them are in range. */
    ghost predicate Taken(queue: seq<nat>, taken: nat)
      requires taken <= |queue|
      reads this
    {
      && rce.cntPnt == queue[..taken] && zcp == queue[taken..]
      && (rs.valid == 0 <==> AllInRange(queue, taken))
    }

    /**
     A plain window holds the samples of ten fresh cycles and nothing else, from the cursor to where the
     cursor then is, so windows tile. It goes over the end of the block exactly when its last sample does, and
     a restart is pending exactly when the block it enters begins a ten-minute interval. The counts handed to
     the rapid-change detector lack the samples before the block switch.
     */
    ghost predicate PlainWindow(queue: seq<nat>, cursor: int, point0: int, b0: nat, tick: nat -> bool)
      requires |queue| >= 10
      reads this
    {
      var total := Sum(queue[..10]);
      && rs.src1.count + rs.src2.count == total && Covers(rs.src1, rs.src2, cursor, Cursor())
      && block == (if point0 + total > num then b0 + 1 else b0)
      && rce.cnt1 + rce.cnt2 == total - (if block != b0 then num - point0 else 0)
      && (rs.resync <==> block != b0 && tick(block))
      && (block != b0 ==> RestartPoint(queue, point0))
    }

    /** Where a window that has gone over the end of its block is to restart, and the cycles from there on. */
    ghost predicate RestartPoint(queue: seq<nat>, point0: int)
      requires |queue| >= 10
      reads this
    {
      && rs.cntCp <= 10 && RestartAt(queue, 10, point0, num, rs.cntCp) && carried == queue[rs.cntCp..10]
      && var k := point0 + Sum(queue[..rs.cntCp]) - num;
         rs.src2Sw.start == At(Base(block) + if k > 0 then k else 0)
    }

    /**
     A window after a ten-minute tick holds the carried cycles followed by cntCp fresh ones. The cursor
     then falls short of the window's end by the offset of the restart point in its block: it is right
     exactly when the restart was in the block before, where that offset is zero.
     */
    ghost predicate RestartedWindow(old10: seq<nat>, new10: seq<nat>, cursor: int, offset: int, b0: nat)
      reads this
    {
      var from := cursor - Sum(old10);
      var to := cursor + Sum(new10);
      && |old10 + new10| == 10 && rs.src1.count + rs.src2.count == Sum(old10 + new10) == to - from
      && Covers(rs.src1, rs.src2, from, to) && Cursor() == to - offset
      && rce.cnt1 + rce.cnt2 == Sum(new10) && !rs.resync && block == b0
    }

    /** The next window, once ten cycles are queued; `tick` says whether a block starts a ten-minute interval. */
    method GetRsmplSrc(tick: nat -> bool) returns (total: int)
      requires Valid()
      modifies this
      ensures Valid()
      ensures |old(zcp)| < 10 ==> total == 0 && unchanged(this)
      ensures |old(zcp)| >= 10 ==>
        var taken := if old(rs).resync then old(rs).cntCp else 10;
        && Taken(old(zcp), taken) && total == rs.src1.count + rs.src2.count
        && if old(rs).resync then
             RestartedWindow(old(carried), old(zcp)[..taken], old(Cursor()),
                             old(rs).src2Sw.start.pos - Base(old(block)), old(block))
           else
             PlainWindow(old(zcp), old(Cursor()), old(point), old(block), tick)
    {
      if |zcp| < 10 {
        return 0;
      }
      var sw0, cnt0, cycs := IniSrc();
      rce := RceSource(0, 0, []);
      ghost var c := zcp;
      TenBounded(c, cycs, maxCycle);
      SumNone(c);
      var sw, cnt, k;
      ghost var before;
      assert Looping(sw0, sw0, 0, 0, rs.src1, rs.src2, cnt0, cnt0, 0, block, tick);
      hide Sum, Base, RestartAt, Covers, AllInRange, Looping, PlainWindow, RestartedWindow;
      sw, cnt, k, before := TakeCycles(sw0, cnt0, cycs, tick);
      assert Taken(c, cycs) && forall i | 0 <= i < |zcp| :: zcp[i] == c[cycs + i];
      if sw0 {
        CloseRestarted(sw, cnt0, cnt, k, c, cycs, before, old(rs), old(Cursor()), tick);
      } else {
        ClosePlain(sw, cnt0, cnt, k, c, before, old(block), tick);
      }
      total := rs.src1.count + rs.src2.count;
    }

    /** The end of GetRsmplSrc after a restart, for which rs0 held the sectors. */
    method CloseRestarted(sw: bool, cnt0: int, cnt: int, k: int,
                          ghost c: seq<nat>, ghost cycs: nat, ghost before: int, ghost rs0: ReSampSource,
                          ghost cursor: int, tick: nat -> bool)
      requires cycs <= |c| && Taken(c, cycs) && Sized()
      requires Looping(true, sw, Sum(c[..cycs]), before, rs0.src1Sw, Sector(rs0.src2Sw.start, 0), cnt0, cnt, k, block,
                       tick)
      requires Covers(rs0.src1Sw, rs0.src2Sw, cursor - Sum(carried), cursor)
      requires cnt0 == rs0.src2Sw.count && rs0.src2Sw.start == At(cursor - cnt0)
      requires cursor == Cursor() && cnt0 <= point <= 10 * maxCycle
      requires |carried| + cycs == 10 && Sum(c[..cycs]) <= 10 * maxCycle && rce.cnt1 == 0
      modifies this`rs, this`rce, this`point, this`carried
      ensures Valid() && Taken(c, cycs)
      ensures RestartedWindow(old(carried), c[..cycs], cursor, rs0.src2Sw.start.pos - Base(block), block)
    {
      SumConcat(carried, c[..cycs]);
      LongerSector(rs0.src1Sw, rs0.src2Sw, cursor - Sum(carried), cursor, Sum(c[..cycs]));
      hide Covers, Sum, Base, AllInRange;
      carried := [];
      Close(sw, cnt0, cnt, k);
    }

    /** The end of GetRsmplSrc after a plain window. */
    method ClosePlain(sw: bool, cnt0: int, cnt: int, k: int,
                      ghost c: seq<nat>, ghost before: int, ghost b0: nat, tick: nat -> bool)
      requires 10 <= |c| && Taken(c, 10) && Sized()
      requires Looping(false, sw, Sum(c[..10]), before, rs.src1, rs.src2, cnt0, cnt, k, b0, tick) && cnt0 == 0
      requires sw ==>
        rs.cntCp <= 10 && before == Sum(c[..rs.cntCp]) && RestartAt(c, 10, point, num, rs.cntCp)
      requires Sum(c[..10]) <= 10 * maxCycle && rce.cnt1 == rce.cnt2 == 0
      modifies this`rs, this`rce, this`point, this`carried
      ensures Valid() && Taken(c, 10)
      ensures PlainWindow(c, Base(b0) + old(point), old(point), b0, tick)
    {
      hide RestartAt;
      NextBase(b0);
      ghost var cursor := Base(b0) + point;
      if sw {
        TwoBlocks(cursor, Base(block), cnt);
        SumRange(c, rs.cntCp, 10);
        RestartSectors(Base(block), point + before - num, rs.src1Sw, cnt);
        carried := c[rs.cntCp..10];
      } else {
        OneBlock(cursor, cnt);
        carried := [];
      }
      hide Covers, Sum, Base, AllInRange;
      Close(sw, cnt0, cnt, k);
    }
  }
}
