/** vga_bit_memcpy and the packed-pixel path of vga_update, against a per-pixel description. */
module VgaBlit {
  import opened Arithmetic
  import opened PackedPixels

  /** Source pixel i of a run: one byte of every tp. */
  function Src(src: seq<bv8>, off: nat, tp: nat, i: nat): bv8 {
    if off + i * tp < |src| then src[off + i * tp] else 0
  }

  /** The number, within a run that starts at pixel bx of byte at, of pixel t of byte q. */
  function Nth(at: nat, bx: nat, per: nat, q: nat, t: nat): int {
    (q - at) * per + t - bx
  }

  /** Byte q as it should become: pixels of the run come from the source, others stay. */
  predicate Copied(bpp: nat, was: bv8, now: bv8, at: nat, bx: nat, src: seq<bv8>, off: nat, tp: nat, num: int, q: nat)
    requires Depth(bpp)
  {
    forall t | 0 <= t < PerByte(bpp) ::
      var n := Nth(at, bx, PerByte(bpp), q, t);
      Pixel(bpp, now, t) == if 0 <= n < num then LowBits(bpp, Src(src, off, tp, n)) else Pixel(bpp, was, t)
  }

  lemma SrcInBounds(off: nat, tp: nat, i: nat, num: int, len: nat)
    requires i < num && off + (num - 1) * tp < len
    ensures 0 <= off + i * tp < len
  {
    assert i * tp <= (num - 1) * tp;
  }

  /** The loop over the first or the last byte: n pixels from pixel bx on, from source pixel `from` on. */
  method PutRun(bpp: nat, was: bv8, bx: nat, src: array<bv8>, off: nat, tp: nat, from: nat, n: nat) returns (chi: bv8)
    requires Depth(bpp) && bx + n <= PerByte(bpp) && (n > 0 ==> off + (from + n - 1) * tp < src.Length)
    ensures forall t | 0 <= t < PerByte(bpp) ::
      Pixel(bpp, chi, t) == if bx <= t < bx + n then LowBits(bpp, Src(src[..], off, tp, from + (t - bx))) else Pixel(bpp, was, t)
  {
    hide Pixel, LowBits, Cleared, Merged;
    chi := was;
    var i := 0;
    while i < n
      invariant 0 <= i <= n
      invariant forall t | 0 <= t < PerByte(bpp) ::
        Pixel(bpp, chi, t) == if bx <= t < bx + i then LowBits(bpp, Src(src[..], off, tp, from + (t - bx))) else Pixel(bpp, was, t)
    {
      SrcInBounds(off, tp, from + i, from + n, src.Length);
      var k := (bx + i) * bpp;
      var v := src[off + (from + i) * tp];
      ghost var before := chi;
      chi := Cleared(bpp, chi, k);
      chi := Merged(bpp, chi, v, 8 - k - bpp);
      forall t | 0 <= t < PerByte(bpp)
        ensures Pixel(bpp, chi, t) == if t == bx + i then LowBits(bpp, v) else Pixel(bpp, before, t)
      {
        Replace(bpp, before, v, bx + i, t);
      }
      i := i + 1;
    }
  }

  /** A whole byte of the middle part, from source pixel `from` on. */
  method WholeByte(bpp: nat, src: array<bv8>, off: nat, tp: nat, from: nat) returns (chi: bv8)
    requires Depth(bpp) && off + (from + PerByte(bpp) - 1) * tp < src.Length
    ensures forall t | 0 <= t < PerByte(bpp) :: Pixel(bpp, chi, t) == LowBits(bpp, Src(src[..], off, tp, from + t))
  {
    ZeroByte(bpp);
    hide Pixel, LowBits, Cleared, Merged;
    chi := 0;
    var j := 0;
    while j < PerByte(bpp)
      invariant 0 <= j <= PerByte(bpp)
      invariant forall t | 0 <= t < PerByte(bpp) ::
        Pixel(bpp, chi, t) == if t < j then LowBits(bpp, Src(src[..], off, tp, from + t)) else 0
    {
      SrcInBounds(off, tp, from + j, from + PerByte(bpp), src.Length);
      var v := src[off + (from + j) * tp];
      ghost var before := chi;
      chi := Merged(bpp, chi, v, 8 - (j + 1) * bpp);
      forall t | 0 <= t < PerByte(bpp)
        ensures Pixel(bpp, chi, t) == if t == j then LowBits(bpp, v) else Pixel(bpp, before, t)
      {
        Replace(bpp, before, v, j, t);
      }
      j := j + 1;
    }
  }

  lemma ZeroByte(bpp: nat)
    requires Depth(bpp)
    ensures forall t | 0 <= t < PerByte(bpp) :: Pixel(bpp, 0, t) == 0
  {
    forall t | 0 <= t < PerByte(bpp)
      ensures Pixel(bpp, 0, t) == 0
    {
      ShiftedZero(Amount(8 - t * bpp - bpp), RightMask(bpp));
    }
  }

  lemma ShiftedZero(a: bv8, m: bv8)
    requires a <= 8
    ensures (0 as bv8 >> a) & m == 0
  {}

  /** The split of a run: bNum pixels of the first byte, mNum whole bytes and eNum pixels of the last. */
  predicate Split(per: nat, bx: nat, num: int, bNum: int, mNum: int, eNum: int) {
    && mNum >= 0 && 0 <= eNum < per && num == bNum + mNum * per + eNum
    && (bNum > 0 ==> bx > 0 && bx + bNum <= per)
    && (mNum > 0 || eNum > 0 ==> bNum == if bx == 0 then 0 else per - bx)
  }

  lemma SplitHolds(bpp: nat, bx: nat, num: int)
    requires Depth(bpp) && bx < PerByte(bpp)
    ensures var per := PerByte(bpp);
            var b := (per - bx) % per;
            if b < num then Split(per, bx, num, b, (num - b) / per, (num - b) % per) else Split(per, bx, num, num, 0, 0)
  {
    var per := PerByte(bpp);
    assert per == 8 || per == 4 || per == 2;
    if per == 8 {
    } else if per == 4 {
    } else {
    }
  }

  /** Bytes already written when i whole bytes are done. */
  function Position(bNum: int, i: int): int {
    i + if bNum > 0 then 1 else 0
  }

  /** The next byte starts with the next source pixel. */
  lemma NextPixel(per: nat, bx: nat, num: int, bNum: int, mNum: int, eNum: int, i: nat)
    requires Split(per, bx, num, bNum, mNum, eNum) && bx < per && i <= mNum && (mNum > 0 || eNum > 0)
    ensures Position(bNum, i) * per - bx == bNum + i * per && 0 <= bNum + i * per
    ensures i < mNum ==> bNum + i * per + per <= num
  {
    assert (i + 1) * per == i * per + per;
    if i < mNum {
      Scale(i + 1, mNum, per);
    }
  }

  /** When the run ends, all of it has been reached. */
  lemma AllReached(per: nat, bx: nat, num: int, bNum: int, mNum: int, eNum: int)
    requires Split(per, bx, num, bNum, mNum, eNum) && bx < per
    ensures var pos := Position(bNum, mNum) + if eNum > 0 then 1 else 0;
            num <= 0 || num <= pos * per - bx
  {
    if mNum > 0 || eNum > 0 {
      NextPixel(per, bx, num, bNum, mNum, eNum, mNum);
    }
  }

  /** The run touches bytes of the framebuffer and samples of the source that exist. */
  predicate Fits(per: nat, toLen: nat, at: nat, bx: nat, srcLen: nat, off: nat, tp: nat, num: int) {
    num > 0 ==> at * per + bx + num <= toLen * per && off + (num - 1) * tp < srcLen
  }

  lemma Exists(per: nat, toLen: nat, at: nat, bx: nat, srcLen: nat, off: nat, tp: nat, num: int, from: nat, n: nat, pos: nat)
    requires per > 0 && Fits(per, toLen, at, bx, srcLen, off, tp, num)
    requires 0 < n && from + n <= num && pos * per - bx <= from
    ensures at + pos < toLen && off + (from + n - 1) * tp < srcLen
  {
    SrcInBounds(off, tp, from + n - 1, num, srcLen);
    assert (at + pos) * per == at * per + pos * per;
    Cancel(at + pos, toLen, per);
  }

  /** A byte in which the run starts at pixel bx0 with source pixel `start` and covers n pixels. */
  lemma ByteCopied(bpp: nat, was: bv8, now: bv8, at: nat, bx: nat, src: seq<bv8>, off: nat, tp: nat, num: int,
                   pos: nat, bx0: nat, start: nat, n: nat)
    requires Depth(bpp) && bx0 + n <= PerByte(bpp) && 0 < n && start + n <= num
    requires pos * PerByte(bpp) - bx == start - bx0
    requires bx0 == 0 || start == 0
    requires bx0 + n == PerByte(bpp) || start + n == num
    requires forall t | 0 <= t < PerByte(bpp) ::
      Pixel(bpp, now, t) == if bx0 <= t < bx0 + n then LowBits(bpp, Src(src, off, tp, start + (t - bx0))) else Pixel(bpp, was, t)
    ensures Copied(bpp, was, now, at, bx, src, off, tp, num, at + pos)
  {
    hide Pixel, LowBits, Src;
    forall t | 0 <= t < PerByte(bpp)
      ensures var k := Nth(at, bx, PerByte(bpp), at + pos, t);
              Pixel(bpp, now, t) == if 0 <= k < num then LowBits(bpp, Src(src, off, tp, k)) else Pixel(bpp, was, t)
    {
      assert Nth(at, bx, PerByte(bpp), at + pos, t) == start + t - bx0;
    }
  }

  lemma Untouched(bpp: nat, c: bv8, at: nat, bx: nat, src: seq<bv8>, off: nat, tp: nat, num: int, pos: nat, q: nat)
    requires Depth(bpp) && bx < PerByte(bpp) && (num <= 0 || num <= pos * PerByte(bpp) - bx) && !(at <= q < at + pos)
    ensures Copied(bpp, c, c, at, bx, src, off, tp, num, q)
  {
    hide Pixel, LowBits, Src;
    var per := PerByte(bpp);
    if q < at {
      Scale(q - at, -1, per);
    } else {
      Scale(pos, q - at, per);
    }
  }

  /** vga_bit_memcpy: num pixels to pixel bx of byte `at` on. */
  method BitMemcpy(bpp: nat, to: array<bv8>, at: nat, bx: nat, src: array<bv8>, off: nat, tp: nat, num: int)
    requires Depth(bpp) && bx < PerByte(bpp) && to != src
    requires Fits(PerByte(bpp), to.Length, at, bx, src.Length, off, tp, num)
    modifies to
    ensures forall q | 0 <= q < to.Length :: Copied(bpp, old(to[q]), to[q], at, bx, src[..], off, tp, num, q)
  {
    var per := PerByte(bpp);
    SplitHolds(bpp, bx, num);
    hide Copied, Pixel, LowBits, Src, Fits, Split;
    var bNum: int, mNum, eNum := (per - bx) % per, 0, 0;
    if bNum < num {
      mNum := (num - bNum) / per;
      eNum := (num - bNum) % per;
    } else {
      bNum := num;
    }
    AllReached(per, bx, num, bNum, mNum, eNum);
    FirstPart(per, bx, num, bNum, mNum, eNum);
    var pos := 0;
    if bNum > 0 {
      CopyPart(bpp, old(to[..]), to, at, bx, src, off, tp, num, 0, bx, 0, bNum);
      pos := pos + 1;
    }
    if mNum > 0 {
      var i := 0;
      while i < mNum
        invariant 0 <= i <= mNum && pos == Position(bNum, i)
        invariant Progress(bpp, old(to[..]), to[..], at, bx, src[..], off, tp, num, pos)
      {
        NextPixel(per, bx, num, bNum, mNum, eNum, i);
        CopyByte(bpp, old(to[..]), to, at, bx, src, off, tp, num, pos, bNum + i * per);
        pos := pos + 1;
        i := i + 1;
      }
    }
    if eNum > 0 {
      NextPixel(per, bx, num, bNum, mNum, eNum, mNum);
      LastPart(per, bx, num, bNum, mNum, eNum);
      CopyPart(bpp, old(to[..]), to, at, bx, src, off, tp, num, pos, 0, bNum + mNum * per, eNum);
      pos := pos + 1;
    }
    Finished(bpp, old(to[..]), to[..], at, bx, src[..], off, tp, num, pos);
  }

  lemma Finished(bpp: nat, was: seq<bv8>, now: seq<bv8>, at: nat, bx: nat, src: seq<bv8>, off: nat, tp: nat,
                 num: int, pos: nat)
    requires Depth(bpp) && bx < PerByte(bpp) && |was| == |now|
    requires Progress(bpp, was, now, at, bx, src, off, tp, num, pos)
    requires num <= 0 || num <= pos * PerByte(bpp) - bx
    ensures forall q | 0 <= q < |now| :: Copied(bpp, was[q], now[q], at, bx, src, off, tp, num, q)
  {
    hide Copied;
    forall q | 0 <= q < |now|
      ensures Copied(bpp, was[q], now[q], at, bx, src, off, tp, num, q)
    {
      if !(at <= q < at + pos) {
        Untouched(bpp, was[q], at, bx, src, off, tp, num, pos, q);
      }
    }
  }

  /** The first or the last byte: read, changed and written back. */
  method CopyPart(bpp: nat, ghost was: seq<bv8>, to: array<bv8>, at: nat, bx: nat, src: array<bv8>, off: nat, tp: nat,
                  num: int, pos: nat, bx0: nat, from: nat, n: nat)
    requires Depth(bpp) && to != src && |was| == to.Length
    requires Fits(PerByte(bpp), to.Length, at, bx, src.Length, off, tp, num)
    requires Progress(bpp, was, to[..], at, bx, src[..], off, tp, num, pos)
    requires bx0 + n <= PerByte(bpp) && 0 < n && from + n <= num && (bx0 == 0 || from == 0)
    requires pos * PerByte(bpp) - bx == from - bx0 && (bx0 + n == PerByte(bpp) || from + n == num)
    modifies to
    ensures Progress(bpp, was, to[..], at, bx, src[..], off, tp, num, pos + 1)
  {
    hide Copied, Pixel, LowBits, Src, Fits;
    Exists(PerByte(bpp), to.Length, at, bx, src.Length, off, tp, num, from, n, pos);
    var chi := PutRun(bpp, to[at + pos], bx0, src, off, tp, from, n);
    ByteCopied(bpp, was[at + pos], chi, at, bx, src[..], off, tp, num, pos, bx0, from, n);
    to[at + pos] := chi;
  }

  /** The bytes of the run before byte at + pos are as they should become, all others as they were. */
  ghost predicate Progress(bpp: nat, was: seq<bv8>, now: seq<bv8>, at: nat, bx: nat, src: seq<bv8>, off: nat, tp: nat,
                           num: int, pos: nat)
    requires Depth(bpp) && |was| == |now|
  {
    && (forall q | 0 <= q < |now| && !(at <= q < at + pos) :: now[q] == was[q])
    && (forall q | at <= q < at + pos && q < |now| :: Copied(bpp, was[q], now[q], at, bx, src, off, tp, num, q))
  }

  /** One turn of the middle loop. */
  method CopyByte(bpp: nat, ghost was: seq<bv8>, to: array<bv8>, at: nat, bx: nat, src: array<bv8>, off: nat, tp: nat,
                  num: int, pos: nat, from: nat)
    requires Depth(bpp) && to != src && |was| == to.Length
    requires Fits(PerByte(bpp), to.Length, at, bx, src.Length, off, tp, num)
    requires Progress(bpp, was, to[..], at, bx, src[..], off, tp, num, pos)
    requires pos * PerByte(bpp) - bx == from && from + PerByte(bpp) <= num
    modifies to
    ensures Progress(bpp, was, to[..], at, bx, src[..], off, tp, num, pos + 1)
  {
    hide Copied, Pixel, LowBits, Src, Fits;
    Exists(PerByte(bpp), to.Length, at, bx, src.Length, off, tp, num, from, PerByte(bpp), pos);
    var chi := WholeByte(bpp, src, off, tp, from);
    ByteCopied(bpp, was[at + pos], chi, at, bx, src[..], off, tp, num, pos, 0, from, PerByte(bpp));
    to[at + pos] := chi;
  }

  lemma FirstPart(per: nat, bx: nat, num: int, bNum: int, mNum: int, eNum: int)
    requires Split(per, bx, num, bNum, mNum, eNum)
    ensures bNum > 0 ==> bx + bNum <= per && bNum <= num && (bx + bNum == per || bNum == num)
    ensures mNum > 0 || eNum > 0 || bNum == num
  {}

  lemma LastPart(per: nat, bx: nat, num: int, bNum: int, mNum: int, eNum: int)
    requires Split(per, bx, num, bNum, mNum, eNum)
    ensures bNum + mNum * per + eNum == num && 0 <= eNum < per
  {}

  /** A display: bits per pixel, bytes in a framebuffer line and pixels in a line of the source picture. */
  datatype Display = Display(bpp: nat, lineBytes: nat, linePixels: nat)

  /** Columns x1 up to x2 of rows y1 up to y2. */
  datatype Rect = Rect(x1: nat, y1: nat, x2: int, y2: int)

  predicate Inside(r: Rect, x: int, y: int) {
    r.x1 <= x < r.x2 && r.y1 <= y < r.y2
  }

  /** Byte q after an update: pixels inside the rectangle show the picture, all others are unchanged. */
  predicate Updated(d: Display, r: Rect, picture: seq<bv8>, was: bv8, now: bv8, q: nat)
    requires Depth(d.bpp) && d.lineBytes > 0
  {
    forall t | 0 <= t < PerByte(d.bpp) ::
      var x, y := Column(d, q, t), Row(d, q);
      Pixel(d.bpp, now, t) ==
        if Inside(r, x, y) then LowBits(d.bpp, Src(picture, 0, 4, y * d.linePixels + x)) else Pixel(d.bpp, was, t)
  }

  /** The column of pixel t of byte q, and the row of byte q. */
  function Column(d: Display, q: nat, t: nat): nat
    requires Depth(d.bpp) && d.lineBytes > 0
  {
    q % d.lineBytes * PerByte(d.bpp) + t
  }

  function Row(d: Display, q: nat): nat
    requires d.lineBytes > 0
  {
    q / d.lineBytes
  }

  /** A byte without a pixel in the rectangle is left as it was, with all its bits. */
  lemma LeftAlone(d: Display, r: Rect, picture: seq<bv8>, was: bv8, now: bv8, q: nat)
    requires Depth(d.bpp) && d.lineBytes > 0 && Updated(d, r, picture, was, now, q)
    requires forall t | 0 <= t < PerByte(d.bpp) :: !Inside(r, Column(d, q, t), Row(d, q))
    ensures now == was
  {
    hide Pixel, LowBits, Src, Column, Row, Inside;
    PixelsMakeByte(d.bpp, now, was);
  }

  /** The rectangle lies on the display and in the picture. */
  predicate OnDisplay(d: Display, r: Rect, fbLen: nat, pictureLen: nat)
    requires Depth(d.bpp)
  {
    && d.lineBytes > 0 && r.x2 <= d.lineBytes * PerByte(d.bpp) && r.x2 <= d.linePixels
    && (r.y1 < r.y2 ==> r.y2 * d.lineBytes <= fbLen && r.y2 * d.linePixels * 4 <= pictureLen)
  }

  /** The byte that holds column x1 of row y. */
  function Start(d: Display, x1: nat, y: nat): nat
    requires Depth(d.bpp)
  {
    y * d.lineBytes + x1 / PerByte(d.bpp)
  }

  /** Where pixel t of byte q lies, seen from a run that starts at column x1 of row y. */
  lemma NthInRow(d: Display, x1: nat, y: nat, q: nat, t: nat)
    requires Depth(d.bpp) && d.lineBytes > 0 && t < PerByte(d.bpp)
    ensures var per := PerByte(d.bpp);
            var n := Nth(Start(d, x1, y), x1 % per, per, q, t);
            && (Row(d, q) == y ==> n == Column(d, q, t) - x1)
            && (Row(d, q) < y ==> n < 0)
            && (Row(d, q) > y ==> n >= d.lineBytes * per - x1)
  {
    hide Nth, PerByte, Depth;
    var per, lb := PerByte(d.bpp), d.lineBytes;
    var col, row, start, e := q % lb, q / lb, Start(d, x1, y), q - y * lb;
    assert Column(d, q, t) == col * per + t && Row(d, q) == row && q - start == e - x1 / per;
    hide Column, Row, Start;
    RowCases(row, y, col, lb, q);
    Columns(e, x1, per);
    ColumnCases(e, per, lb);
    NthFrom(e, start, x1, per, q, t);
  }

  lemma NthFrom(e: int, start: nat, x1: nat, per: nat, q: nat, t: nat)
    requires per > 0 && q - start == e - x1 / per
    ensures Nth(start, x1 % per, per, q, t) == (e - x1 / per) * per - x1 % per + t
  {}

  lemma ColumnCases(e: int, per: nat, lb: nat)
    ensures e < 0 ==> e * per + per <= 0
    ensures e >= lb ==> e * per >= lb * per
  {
    if e < 0 {
      Scale(e, -1, per);
    } else if e >= lb {
      Scale(lb, e, per);
    }
  }

  lemma RowCases(row: nat, y: nat, col: nat, lb: nat, q: nat)
    requires q == lb * row + col && col < lb
    ensures var e := q - y * lb; (row == y ==> e == col) && (row < y ==> e < 0) && (row > y ==> e >= lb)
  {
    RowBase(row, y, lb);
    assert lb * row == row * lb;
  }

  lemma Columns(e: int, x1: nat, per: nat)
    requires per > 0
    ensures (e - x1 / per) * per - x1 % per == e * per - x1
  {
    Distribute(e, -(x1 / per), per);
    assert x1 == per * (x1 / per) + x1 % per;
  }

  lemma RowBase(row: nat, y: nat, lb: nat)
    ensures row < y ==> row * lb <= y * lb - lb
    ensures row > y ==> row * lb >= y * lb + lb
  {
    if row < y {
      Scale(row + 1, y, lb);
    } else if row > y {
      Scale(y + 1, row, lb);
    }
  }

  lemma SameSource(picture: seq<bv8>, base: nat, x1: nat, n: nat)
    ensures Src(picture, (base + x1) * 4, 4, n) == Src(picture, 0, 4, base + (x1 + n))
  {}

  /** One row more. */
  lemma RowUpdated(d: Display, r: Rect, picture: seq<bv8>, was: bv8, mid: bv8, now: bv8, y: nat, q: nat)
    requires Depth(d.bpp) && d.lineBytes > 0 && r.y1 <= y && r.x2 <= d.lineBytes * PerByte(d.bpp)
    requires Updated(d, r.(y2 := y), picture, was, mid, q)
    requires Copied(d.bpp, mid, now, Start(d, r.x1, y), r.x1 % PerByte(d.bpp),
                    picture, (y * d.linePixels + r.x1) * 4, 4, r.x2 - r.x1, q)
    ensures Updated(d, r.(y2 := y + 1), picture, was, now, q)
  {
    hide Pixel, LowBits, Src, Copied, Column, Row, Start, Inside;
    forall t | 0 <= t < PerByte(d.bpp)
      ensures var x, row := Column(d, q, t), Row(d, q);
              Pixel(d.bpp, now, t) ==
                if Inside(r.(y2 := y + 1), x, row) then LowBits(d.bpp, Src(picture, 0, 4, row * d.linePixels + x))
                else Pixel(d.bpp, was, t)
    {
      PixelUpdated(d, r, picture, was, mid, now, y, q, t);
    }
  }

  lemma PixelUpdated(d: Display, r: Rect, picture: seq<bv8>, was: bv8, mid: bv8, now: bv8, y: nat, q: nat, t: nat)
    requires Depth(d.bpp) && d.lineBytes > 0 && r.y1 <= y && r.x2 <= d.lineBytes * PerByte(d.bpp) && t < PerByte(d.bpp)
    requires Updated(d, r.(y2 := y), picture, was, mid, q)
    requires Copied(d.bpp, mid, now, Start(d, r.x1, y), r.x1 % PerByte(d.bpp),
                    picture, (y * d.linePixels + r.x1) * 4, 4, r.x2 - r.x1, q)
    ensures var x, row := Column(d, q, t), Row(d, q);
            Pixel(d.bpp, now, t) ==
              if Inside(r.(y2 := y + 1), x, row) then LowBits(d.bpp, Src(picture, 0, 4, row * d.linePixels + x))
              else Pixel(d.bpp, was, t)
  {
    var per := PerByte(d.bpp);
    var n := Nth(Start(d, r.x1, y), r.x1 % per, per, q, t);
    NthInRow(d, r.x1, y, q, t);
    hide Pixel, LowBits, Nth, Src, PerByte, Column, Row, Start;
    if 0 <= n {
      SameSource(picture, y * d.linePixels, r.x1, n);
    }
  }

  lemma Distribute(a: int, b: int, c: int)
    ensures (a + b) * c == a * c + b * c
  {}

  lemma RowFits(d: Display, r: Rect, fbLen: nat, pictureLen: nat, y: nat)
    requires Depth(d.bpp) && OnDisplay(d, r, fbLen, pictureLen) && r.y1 <= y < r.y2
    ensures Fits(PerByte(d.bpp), fbLen, Start(d, r.x1, y), r.x1 % PerByte(d.bpp),
                 pictureLen, (y * d.linePixels + r.x1) * 4, 4, r.x2 - r.x1)
  {
    var per := PerByte(d.bpp);
    var yb, yp := y * d.lineBytes, y * d.linePixels;
    RowBase(y, r.y2, d.lineBytes);
    RowBase(y, r.y2, d.linePixels);
    Scale(yb + d.lineBytes, fbLen, per);
    Distribute(yb, d.lineBytes, per);
    Distribute(yb, r.x1 / per, per);
    assert r.x1 == r.x1 / per * per + r.x1 % per;
  }

  /** vga_update on a display of less than 8 bits a pixel. */
  method Update(d: Display, fb: array<bv8>, buf: array<bv8>, r: Rect)
    requires Depth(d.bpp) && fb != buf && OnDisplay(d, r, fb.Length, buf.Length)
    modifies fb
    ensures forall q | 0 <= q < fb.Length :: Updated(d, r, buf[..], old(fb[q]), fb[q], q)
  {
    hide Copied, Updated, Start, Fits;
    var per := PerByte(d.bpp);
    var pbuf := (r.y1 * d.linePixels + r.x1) * 4;
    var y := r.y1;
    forall q | 0 <= q < fb.Length
      ensures Updated(d, r.(y2 := y), buf[..], fb[q], fb[q], q)
    {
      NothingYet(d, r, buf[..], fb[q], q);
    }
    while y < r.y2
      invariant r.y1 <= y && (y <= r.y2 || y == r.y1)
      invariant pbuf == (y * d.linePixels + r.x1) * 4
      invariant forall q | 0 <= q < fb.Length :: Updated(d, r.(y2 := y), buf[..], old(fb[q]), fb[q], q)
    {
      ghost var mid := fb[..];
      UpdateRow(d, fb, buf, r, y, pbuf);
      forall q | 0 <= q < fb.Length
        ensures Updated(d, r.(y2 := y + 1), buf[..], old(fb[q]), fb[q], q)
      {
        RowUpdated(d, r, buf[..], old(fb[q]), mid[q], fb[q], y, q);
      }
      NextLine(y, d.linePixels, r.x1);
      pbuf := pbuf + d.linePixels * 4;
      y := y + 1;
    }
    forall q | 0 <= q < fb.Length
      ensures Updated(d, r, buf[..], old(fb[q]), fb[q], q)
    {
      AllRows(d, r, buf[..], old(fb[q]), fb[q], y, q);
    }
  }

  lemma NextLine(y: nat, line: nat, x1: nat)
    ensures ((y + 1) * line + x1) * 4 == (y * line + x1) * 4 + line * 4
  {
    Distribute(y, 1, line);
  }

  lemma NothingYet(d: Display, r: Rect, picture: seq<bv8>, c: bv8, q: nat)
    requires Depth(d.bpp) && d.lineBytes > 0
    ensures Updated(d, r.(y2 := r.y1), picture, c, c, q)
  {
    hide Pixel, LowBits, Src, Column, Row;
  }

  lemma AllRows(d: Display, r: Rect, picture: seq<bv8>, was: bv8, now: bv8, y: nat, q: nat)
    requires Depth(d.bpp) && d.lineBytes > 0 && Updated(d, r.(y2 := y), picture, was, now, q)
    requires r.y2 <= y && (y <= r.y2 || y == r.y1)
    ensures Updated(d, r, picture, was, now, q)
  {
    hide Pixel, LowBits, Src, Column, Row;
  }

  /** The body of the row loop. */
  method UpdateRow(d: Display, fb: array<bv8>, buf: array<bv8>, r: Rect, y: nat, pbuf: nat)
    requires Depth(d.bpp) && fb != buf && OnDisplay(d, r, fb.Length, buf.Length)
    requires r.y1 <= y < r.y2 && pbuf == (y * d.linePixels + r.x1) * 4
    modifies fb
    ensures forall q | 0 <= q < fb.Length ::
      Copied(d.bpp, old(fb[q]), fb[q], Start(d, r.x1, y), r.x1 % PerByte(d.bpp), buf[..], pbuf, 4, r.x2 - r.x1, q)
  {
    hide Copied, Fits;
    var per := PerByte(d.bpp);
    RowFits(d, r, fb.Length, buf.Length, y);
    BitMemcpy(d.bpp, fb, y * d.lineBytes + r.x1 / per, r.x1 % per, buf, pbuf, 4, r.x2 - r.x1);
  }
}
