/** The incremental MD5 context of the source and the digest it delivers. */
module Md5 {
  import opened Bits
  import opened Bytes
  import opened Md5Reference
  import opened Sequences
  import Md5Rounds

  class Context {
    var A: Word
    var B: Word
    var C: Word
    var D: Word
    var nblocks: Word        // wraps at 2^32, like the source's u32
    var buf: array<Byte>
    var count: int
    ghost var written: seq<Byte>  // every byte handed to Write so far

    function Registers(): Chain
      reads this
    {
      Chain(A, B, C, D)
    }

    /** The context stands for its bytes, of which the last `count` (at most 64) are still in `buf`. */
    ghost predicate Buffered()
      reads this, buf
    {
      && buf.Length == 64 && 0 <= count <= 64 && count <= |written|
      && buf[..count] == written[|written| - count..]
      && Absorbed(Registers(), nblocks, written[..|written| - count])
    }

    /** Between calls the context depends only on the concatenation of the bytes written. */
    ghost predicate Valid()
      reads this, buf
    {
      Buffered() && count < 64
    }

    /** md5_init */
    constructor ()
      ensures Valid() && fresh(buf) && written == []
    {
      hide Absorbed;
      A, B, C, D := 0x67452301, 0xefcdab89, 0x98badcfe, 0x10325476;
      nblocks := 0;
      count := 0;
      buf := new Byte[64];
      written := [];
      new;
      StartsEmpty(written[..|written| - count]);
    }

    method Transform(data: array<Byte>, off: nat)
      requires off + 64 <= data.Length
      modifies this`A, this`B, this`C, this`D
      ensures Registers() == Compress(old(Registers()), data[off..off + 64])
    {
      var words := BlockWords(data[off..off + 64]);
      ghost var q := Registers();
      var p := Md5Rounds.Round1(Registers(), words);
      p := Md5Rounds.Round2(q, p, words);
      p := Md5Rounds.Round3(q, p, words);
      p := Md5Rounds.Round4(q, p, words);
      A, B, C, D := Add(A, p.a), Add(B, p.b), Add(C, p.c), Add(D, p.d);
    }

    /** The next whole block is absorbed, from the buffer or from the input of the caller, and counted. */
    method TakeBlock(data: array<Byte>, off: nat, ghost before: seq<Byte>)
      requires off + 64 <= data.Length
      requires Absorbed(Registers(), nblocks, before)
      modifies this`A, this`B, this`C, this`D, this`count, this`nblocks
      ensures count == 0 && Absorbed(Registers(), nblocks, before + data[off..off + 64])
    {
      hide Compress, Absorbed;
      AbsorbOne(Registers(), nblocks, before, data[off..off + 64]);
      Transform(data, off);
      count := 0;
      nblocks := (nblocks + 1) % 0x1_0000_0000;
    }

    /** Bytes of the input go to the buffer until one of the two is used up. */
    method Fill(inbuf: array<Byte>, start: nat, inlen: nat) returns (pos: nat)
      requires Buffered() && start <= inlen <= inbuf.Length && inbuf != buf
      modifies this`count, this`written, buf
      ensures Buffered() && start <= pos <= inlen
      ensures written == old(written) + inbuf[start..pos] && count == old(count) + (pos - start)
      ensures pos == inlen || count == 64
    {
      hide Compress, Absorbed;
      pos := start;
      while pos < inlen && count < 64
        invariant start <= pos <= inlen && count == old(count) + (pos - start)
        invariant written == old(written) + inbuf[start..pos]
        invariant Buffered()
      {
        written := written + [inbuf[pos]];
        buf[count] := inbuf[pos];
        count := count + 1;
        pos := pos + 1;
        assert written[..|written| - count] == old(written)[..|old(written)| - old(count)];
      }
    }

    /** The whole blocks of the input, straight from the caller's buffer. */
    method WholeBlocks(inbuf: array<Byte>, start: nat, inlen: nat) returns (pos: nat)
      requires Buffered() && count == 0 && start <= inlen <= inbuf.Length
      modifies this
      ensures Buffered() && count == 0 && buf == old(buf)
      ensures start <= pos <= inlen < pos + 64
      ensures written == old(written) + inbuf[start..pos]
    {
      hide Compress, Absorbed;
      pos := start;
      while inlen - pos >= 64
        invariant start <= pos <= inlen && buf == old(buf)
        invariant Buffered() && count == 0
        invariant written == old(written) + inbuf[start..pos]
      {
        assert written[..|written|] == written;
        TakeBlock(inbuf, pos, written);
        written := written + inbuf[pos..pos + 64];
        assert written[..|written|] == written;
        pos := pos + 64;
      }
    }

    /** The head of md5_write, which is all that md5_write( hd, NULL, 0 ) does. */
    method Flush()
      requires Buffered()
      modifies this
      ensures Valid() && buf == old(buf) && written == old(written)
      ensures count == if old(count) == 64 then 0 else old(count)
    {
      hide Compress, Absorbed;
      if count == 64 {
        ghost var before := written[..|written| - 64];
        assert before + buf[0..64] == written[..|written|];
        TakeBlock(buf, 0, before);
      }
    }

    /** md5_write */
    method Write(inbuf: array<Byte>, inlen: nat)
      requires Buffered() && inlen <= inbuf.Length && inbuf != buf
      modifies this, buf
      ensures Valid() && buf == old(buf)
      ensures written == old(written) + inbuf[..inlen]
    {
      hide Compress, Absorbed;
      Flush();
      var pos := 0;
      if count != 0 {
        pos := Fill(inbuf, 0, inlen);
        Flush();
        Extend(old(written), inbuf[..], 0, pos);
        if pos == inlen {
          return;
        }
      }
      var whole := WholeBlocks(inbuf, pos, inlen);
      Extend(old(written), inbuf[..], pos, whole);
      pos := Fill(inbuf, whole, inlen);
      Extend(old(written), inbuf[..], whole, pos);
    }

    /** The bit count that md5_final builds from nblocks and count in two 32-bit halves. */
    method BitCount() returns (lsb: Word, msb: Word)
      requires Valid()
      ensures lsb + 0x1_0000_0000 * msb == 8 * (|written| % 0x40_0000_0000)
    {
      hide Or, Absorbed, Carry;
      AbsorbedLength(Registers(), nblocks, written[..|written| - count]);
      BytesCounted(|written|, count, nblocks);
      CountInWords(nblocks, count);
      var t: int := nblocks;
      lsb := t * 64 % 0x1_0000_0000;
      msb := t / 0x400_0000;
      t := lsb;
      lsb := (lsb + count) % 0x1_0000_0000;
      msb := Carry(msb, lsb < t);
      t := lsb;
      lsb := lsb * 8 % 0x1_0000_0000;
      msb := msb * 8 % 0x1_0000_0000;
      msb := Or(msb, t / 0x2000_0000);
    }

    /** Both branches of md5_final: a byte 0x80, then zeros up to `limit`. */
    method PadTo(limit: nat)
      requires Buffered() && count < limit <= 64
      modifies this`count, this`written, buf
      ensures Buffered() && count == limit
      ensures written == old(written) + [0x80] + Zeros(limit - old(count) - 1)
    {
      hide Compress, Absorbed;
      written := written + [0x80];
      buf[count] := 0x80;
      count := count + 1;
      assert written[..|written| - count] == old(written)[..|old(written)| - old(count)];
      while count < limit
        invariant old(count) < count <= limit
        invariant written == old(written) + [0x80] + Zeros(count - old(count) - 1)
        invariant Buffered()
      {
        written := written + [0];
        buf[count] := 0;
        count := count + 1;
        assert written[..|written| - count] == old(written)[..|old(written)| - old(count)];
      }
    }

    /** The part of the buffer in front of the count is set to zero. */
    method ClearHead()
      requires buf.Length == 64
      modifies buf
      ensures buf[..56] == Zeros(56)
    {
      var i := 0;
      while i < 56
        modifies buf
        invariant 0 <= i <= 56 && forall k | 0 <= k < i :: buf[k] == 0
      {
        buf[i] := 0;
        i := i + 1;
      }
    }

    /** Padding up to the place of the count; `before` is what the registers have absorbed. */
    method PadUp() returns (ghost before: seq<Byte>)
      requires Valid()
      modifies this, buf
      ensures buf == old(buf) && buf.Length == 64
      ensures Absorbed(Registers(), nblocks, before)
      ensures before + buf[..56] == old(written) + [0x80] + Zeros((55 - |old(written)|) % 64)
      ensures count == if |old(written)| % 64 < 56 then 56 else 0
    {
      hide Compress, Absorbed, Zeros;
      AbsorbedLength(Registers(), nblocks, written[..|written| - count]);
      PaddingLength(|written|, count);
      if count < 56 {
        PadTo(56);
        before := written[..|written| - 56];
        LastPart(written, 56);
      } else {
        PadTo(64);
        Flush();
        before := written;
        LastPart(written, 0);
        ClearHead();
        Associates(old(written) + [0x80], Zeros(63 - old(count)), Zeros(56));
        ZerosAdd(63 - old(count), 56);
      }
    }

    /** Append the count to the padded message in `buf` and absorb the last block. */
    method LastBlock(ghost before: seq<Byte>, lsb: Word, msb: Word)
      requires buf.Length == 64 && Absorbed(Registers(), nblocks, before)
      modifies this`A, this`B, this`C, this`D, buf
      ensures Absorbed(Registers(), (nblocks + 1) % 0x1_0000_0000,
                       before + old(buf[..56]) + LittleBytes(lsb + 0x1_0000_0000 * msb, 8))
    {
      hide Compress, Absorbed, LittleBytes;
      PutWord(56, lsb);
      PutWord(60, msb);
      CountBytes(lsb, msb);
      AbsorbOne(Registers(), nblocks, before, buf[0..64]);
      assert before + buf[0..64] == before + old(buf[..56]) + (LittleBytes(lsb, 4) + LittleBytes(msb, 4));
      Transform(buf, 0);
    }

    method PutDigest()
      requires buf.Length == 64
      modifies buf
      ensures buf[..16] == ChainBytes(Registers())
    {
      hide LittleBytes;
      PutWord(0, A);
      PutWord(4, B);
      PutWord(8, C);
      PutWord(12, D);
    }

    /** The handle is as md5_init leaves it. */
    predicate IsNew()
      reads this
    {
      Registers() == INIT && nblocks == 0 && count == 0
    }

    /**
     md5_final: the digest is left in the first 16 bytes of `buf`. The counters are left as the padding of the
     last block makes them, and the registers as the digest does, so the handle is new again only when both happen
     to be those of md5_init. For a message of less than 2^38 - 8 bytes it is not.
     */
    method Final()
      requires Valid()
      modifies this, buf
      ensures buf == old(buf) && buf.Length == 64
      ensures var q := Absorb(INIT, Padded(old(written), 8 * (|old(written)| % 0x40_0000_0000)));
        && buf[..16] == ChainBytes(q) && Registers() == q
        && (IsNew() <==> q == INIT && |old(written)| % 0x40_0000_0000 >= 0x40_0000_0000 - 8)
      ensures count == if |old(written)| % 64 < 56 then 56 else 0
      ensures nblocks == (|old(written)| / 64 + if |old(written)| % 64 < 56 then 0 else 1) % 0x1_0000_0000
    {
      hide Compress, Absorb, LittleBytes;
      ghost var n := |written|;
      Flush();
      var lsb, msb := BitCount();
      ghost var before := PadUp();
      AbsorbedLength(Registers(), nblocks, before);
      BlocksPadded(n, |before|);
      CountersAreZero(n);
      LastBlock(before, lsb, msb);
      PutDigest();
    }

    /** The four bytes of a word, low-order byte first. */
    method PutWord(at: nat, w: Word)
      requires at + 4 <= buf.Length
      modifies buf
      ensures buf[..] == old(buf[..at]) + LittleBytes(w, 4) + old(buf[at + 4..])
    {
      buf[at], buf[at + 1] := w % 0x100, w / 0x100 % 0x100;
      buf[at + 2], buf[at + 3] := w / 0x1_0000 % 0x100, w / 0x100_0000 % 0x100;
      WordInBytes(w);
    }
  }

  /** The carry of the low word into the high one. */
  function Carry(w: Word, carry: bool): Word { if carry then (w + 1) % 0x1_0000_0000 else w }

  function Zeros(n: nat): seq<Byte> { seq(n, _ => 0) }

  lemma WordInBytes(w: Word)
    ensures LittleBytes(w, 4) == [w % 0x100, w / 0x100 % 0x100, w / 0x1_0000 % 0x100, w / 0x100_0000 % 0x100]
  {
    assert w / 0x100 / 0x100 == w / 0x1_0000;
    assert w / 0x1_0000 / 0x100 == w / 0x100_0000;
    assert LittleBytes(w / 0x100_0000, 1) == [w / 0x100_0000 % 0x100];
    assert LittleBytes(w / 0x1_0000, 2) == [w / 0x1_0000 % 0x100] + LittleBytes(w / 0x100_0000, 1);
    assert LittleBytes(w / 0x100, 3) == [w / 0x100 % 0x100] + LittleBytes(w / 0x1_0000, 2);
  }

  lemma FourDigits(n0: Byte, n1: Byte, n2: Byte, n3: Byte)
    ensures var w := n0 + 0x100 * n1 + 0x1_0000 * n2 + 0x100_0000 * n3;
      && w % 0x100 == n0 && w / 0x100 % 0x100 == n1 && w / 0x1_0000 % 0x100 == n2 && w / 0x100_0000 % 0x100 == n3
  {
    var w3: int := n3;
    var w2 := n2 + 0x100 * w3;
    var w1 := n1 + 0x100 * w2;
    var w := n0 + 0x100 * w1;
    assert w / 0x100 == w1 && w1 / 0x100 == w2 && w2 / 0x100 == w3;
    assert w / 0x1_0000 == w1 / 0x100 && w / 0x100_0000 == w2 / 0x100;
  }

  /** The word that stands for four bytes has them as its bytes, low-order byte first. */
  lemma LittleWordBytes(b: seq<Byte>)
    requires |b| == 4
    ensures LittleBytes(LittleWord(b), 4) == b
  {
    FourDigits(b[0], b[1], b[2], b[3]);
    WordInBytes(LittleWord(b));
    hide LittleBytes;
  }

  /** The sixteen words of a block hold its bytes in order, as a copy on a little-endian machine leaves them. */
  lemma BlockWordBytes(block: seq<Byte>, i: nat)
    requires |block| == 64 && i < 16
    ensures LittleBytes(BlockWords(block)[i], 4) == block[4 * i..4 * i + 4]
  {
    LittleWordBytes(block[4 * i..4 * i + 4]);
  }

  /** Addition drops the carry out of 32 digits. */
  lemma AddWraps(x: Word, y: Word)
    ensures Add(x, y) == if x + y < 0x1_0000_0000 then x + y else x + y - 0x1_0000_0000
  {
    ModuloUnique(x + y, 0x1_0000_0000, if x + y < 0x1_0000_0000 then 0 else 1, Add(x, y));
  }

  /** The complement flips each of the 32 digits. */
  lemma NotFlips(x: Word, i: nat)
    requires i < 32
    ensures Bit(Not(x), i) == 1 - Bit(x, i)
  {
    Pow2Values();
    hide Pow2, Bit;
    DigitsFlip(x, 32, i);
  }

  /** The bytes of a number are the bytes of its low half followed by those of its high half. */
  lemma {:induction false} BytesSplit(l: nat, h: nat, k: nat, m: nat)
    requires l < Pow2(8 * k)
    ensures LittleBytes(l + Pow2(8 * k) * h, k + m) == LittleBytes(l, k) + LittleBytes(h, m)
  {
    if k > 0 {
      var p := Pow2(8 * (k - 1));
      Pow2Values();
      Pow2Adds(8, 8 * (k - 1));
      assert Pow2(8 * k) == 256 * p;
      BytesSplit(l / 256, h, k - 1, m);
      LowByte(l, p, h);
    }
  }

  lemma LowByte(l: nat, p: nat, h: nat)
    ensures (l + 256 * p * h) % 256 == l % 256 && (l + 256 * p * h) / 256 == l / 256 + p * h
  {
    var x := p * h;
    assert 256 * p * h == 256 * x;
  }

  lemma CountBytes(lsb: Word, msb: Word)
    ensures LittleBytes(lsb + 0x1_0000_0000 * msb, 8) == LittleBytes(lsb, 4) + LittleBytes(msb, 4)
  {
    Pow2Values();
    BytesSplit(lsb, msb, 4, 4);
  }

  /** The block counter and the pending count give the length modulo 2^38. */
  lemma BytesCounted(n: nat, count: nat, nblocks: Word)
    requires count < 64 && count <= n && (n - count) % 64 == 0
    requires nblocks == (n - count) / 64 % 0x1_0000_0000
    ensures 64 * nblocks + count == n % 0x40_0000_0000
  {
    var t := (n - count) / 64;
    assert n == 64 * t + count;
  }

  /** Shifting the block counter into two words leaves room for the pending count. */
  lemma Times64(t: Word)
    ensures t * 64 % 0x1_0000_0000 + 0x1_0000_0000 * (t / 0x400_0000) == 64 * t
    ensures t * 64 % 0x1_0000_0000 <= 0x1_0000_0000 - 64
  {
    assert t * 64 % 0x1_0000_0000 == 64 * (t % 0x400_0000);
  }

  /** Shifting a two-word number left by three digits. */
  lemma Times8(l: Word, m: nat)
    requires m < 0x2000_0000
    ensures l * 8 % 0x1_0000_0000 + 0x1_0000_0000 * Or(m * 8 % 0x1_0000_0000, l / 0x2000_0000) == 8 * (l + 0x1_0000_0000 * m)
    ensures Or(m * 8 % 0x1_0000_0000, l / 0x2000_0000) < 0x1_0000_0000
  {
    hide Or;
    assert Pow2(3) == 8;
    OrDisjoint(m, l / 0x2000_0000, 3);
    assert l * 8 % 0x1_0000_0000 == 8 * (l % 0x2000_0000);
  }

  /** The shifts and the carry of md5_final, taken together. */
  lemma CountInWords(t: Word, count: nat)
    requires count < 64
    ensures var l := t * 64 % 0x1_0000_0000;
      var lsb := (l + count) % 0x1_0000_0000;
      var msb := Carry(t / 0x400_0000, lsb < l);
      var high := Or(msb * 8 % 0x1_0000_0000, lsb / 0x2000_0000);
      high < 0x1_0000_0000 && lsb * 8 % 0x1_0000_0000 + 0x1_0000_0000 * high == 8 * (64 * t + count)
  {
    hide Or;
    var l, h := t * 64 % 0x1_0000_0000, t / 0x400_0000;
    Times64(t);
    ModuloUnique(l + count, 0x1_0000_0000, 0, l + count);
    assert Carry(h, false) == h;
    hide Carry;
    Times8(l + count, h);
  }

  lemma PaddingLength(n: nat, count: nat)
    requires count <= n && (n - count) % 64 == 0 && count < 64
    ensures n % 64 == count && (55 - n) % 64 == if count < 56 then 55 - count else 119 - count
  {
    var t := (n - count) / 64;
    assert 55 - n == 55 - count - 64 * t;
  }

  lemma LastPart(s: seq<Byte>, k: nat)
    requires k <= |s|
    ensures s[..|s| - k] + s[|s| - k..] == s && s[..|s| - 0] == s
  {}

  lemma ZerosAdd(a: nat, b: nat)
    ensures Zeros(a) + Zeros(b) == Zeros(a + b)
  {}

  /** The blocks absorbed before the one that holds the count. */
  lemma BlocksPadded(n: nat, before: nat)
    requires before + 56 == n + 1 + (55 - n) % 64
    ensures before / 64 == n / 64 + if n % 64 < 56 then 0 else 1
  {
    var t, r := n / 64, n % 64;
    assert 55 - n == 55 - r - 64 * t;
    assert (55 - n) % 64 == (55 - r) % 64;
  }

  /** When both counters are zero at the end of a message of n bytes. */
  lemma CountersAreZero(n: nat)
    ensures n % 64 >= 56 && (n / 64 + 1) % 0x1_0000_0000 == 0 <==> n % 0x40_0000_0000 >= 0x40_0000_0000 - 8
  {
    var t, r := n / 64, n % 64;
    var u, v := t / 0x1_0000_0000, t % 0x1_0000_0000;
    ModuloUnique(n, 0x40_0000_0000, u, 64 * v + r);
    if v + 1 < 0x1_0000_0000 {
      ModuloUnique(t + 1, 0x1_0000_0000, u, v + 1);
    } else {
      ModuloUnique(t + 1, 0x1_0000_0000, u + 1, 0);
    }
  }

  /** What Buffered says about lengths. */
  lemma AbsorbedLength(q: Chain, nblocks: Word, s: seq<Byte>)
    requires Absorbed(q, nblocks, s)
    ensures |s| % 64 == 0 && nblocks == |s| / 64 % 0x1_0000_0000
  {
    hide Absorb;
  }

  lemma Extend(w: seq<Byte>, a: seq<Byte>, i: nat, j: nat)
    requires i <= j <= |a|
    ensures w + a[..i] + a[i..j] == w + a[..j]
    ensures i == 0 ==> w + a[i..j] == w + a[..j]
  {}

  /** The registers and the 32-bit block counter after the whole blocks s. */
  ghost predicate Absorbed(q: Chain, n: Word, s: seq<Byte>) {
    |s| % 64 == 0 && q == Absorb(INIT, s) && n == |s| / 64 % 0x1_0000_0000
  }

  lemma AbsorbOne(q: Chain, n: Word, s: seq<Byte>, block: seq<Byte>)
    requires Absorbed(q, n, s) && |block| == 64
    ensures Absorbed(Compress(q, block), (n + 1) % 0x1_0000_0000, s + block)
  {
    hide Compress, Absorb;
    AbsorbStep(s, block);
    CountWraps(|s| / 64);
    OneMoreBlock(|s|);
  }

  lemma OneMoreBlock(n: nat)
    requires n % 64 == 0
    ensures (n + 64) % 64 == 0 && (n + 64) / 64 == n / 64 + 1
  {}

  lemma AbsorbStep(s: seq<Byte>, block: seq<Byte>)
    requires |s| % 64 == 0 && |block| == 64
    ensures Absorb(INIT, s + block) == Compress(Absorb(INIT, s), block)
  {
    hide Compress;
    assert (s + block)[..|s|] == s && (s + block)[|s|..] == block;
  }

  lemma StartsEmpty(s: seq<Byte>)
    requires |s| == 0
    ensures Absorbed(INIT, 0, s)
  {}

  lemma CountWraps(t: nat)
    ensures (t % 0x1_0000_0000 + 1) % 0x1_0000_0000 == (t + 1) % 0x1_0000_0000
  {}
}
