/** What md5_sum prints for a file, however the reads split it, and when the bit count is the standard's. */
module Md5Sum {
  import opened Bits
  import opened Bytes
  import opened Md5Reference
  import opened Sequences
  import Md5

  /** The source keeps 2^32 blocks of length; its padding is the standard's exactly while that suffices. */
  lemma CountIsStandard(msg: seq<Byte>)
    ensures Padded(msg, 8 * (|msg| % 0x40_0000_0000)) == Pad(msg) <==> |msg| % 0x2000_0000_0000_0000 < 0x40_0000_0000
  {
    var n, kept := |msg|, |msg| % 0x40_0000_0000;
    var head := msg + [0x80] + seq((55 - n) % 64, _ => 0);
    var short, full := LittleBytes(8 * kept, 8), LittleBytes(8 * n, 8);
    assert Padded(msg, 8 * kept) == Pad(msg) <==> short == full by {
      assert Padded(msg, 8 * kept)[|head|..] == short && Pad(msg)[|head|..] == full;
    }
    LittleBytesModulo(8 * kept, 8 * n, 8);
    LowDigits(n);
  }

  lemma LowDigits(n: nat)
    ensures 8 * (n % 0x40_0000_0000) % Pow2(64) == 8 * n % Pow2(64) <==> n % 0x2000_0000_0000_0000 < 0x40_0000_0000
  {
    Pow2Values();
    Pow2Adds(32, 32);
    assert Pow2(64) == 0x1_0000_0000_0000_0000;
    hide Pow2;
    var a, q := n % 0x2000_0000_0000_0000, n / 0x2000_0000_0000_0000;
    ModuloUnique(8 * n, 0x1_0000_0000_0000_0000, q, 8 * a);
    ModuloUnique(n, 0x40_0000_0000, 0x80_0000 * q + a / 0x40_0000_0000, a % 0x40_0000_0000);
    ModuloUnique(8 * (n % 0x40_0000_0000), 0x1_0000_0000_0000_0000, 0, 8 * (n % 0x40_0000_0000));
  }

  /** The k low-order bytes are equal exactly when the numbers agree modulo 2^(8k). */
  lemma {:induction false} LittleBytesModulo(a: nat, b: nat, k: nat)
    ensures LittleBytes(a, k) == LittleBytes(b, k) <==> a % Pow2(8 * k) == b % Pow2(8 * k)
  {
    if k > 0 {
      var p := Pow2(8 * (k - 1));
      Pow2Values();
      Pow2Adds(8, 8 * (k - 1));
      ModuloDigit(a, p);
      ModuloDigit(b, p);
      LittleBytesModulo(a / 256, b / 256, k - 1);
      var s, t := LittleBytes(a / 256, k - 1), LittleBytes(b / 256, k - 1);
      assert ([a % 256] + s)[1..] == s && ([b % 256] + t)[1..] == t;
    }
  }

  lemma ModuloDigit(x: nat, p: nat)
    requires p > 0
    ensures x % (256 * p) == x % 256 + 256 * (x / 256 % p)
  {
    var q, r := x / 256 / p, x / 256 % p;
    assert x / 256 == p * q + r;
    assert x == (256 * p) * q + (256 * r + x % 256);
    ModuloUnique(x, 256 * p, q, 256 * r + x % 256);
  }

  function HexDigit(d: nat): (c: char)
    requires d < 16
  {
    "0123456789abcdef"[d]
  }

  /** Each byte as two hexadecimal digits, as the format %02x prints them. */
  function Hex(s: seq<Byte>): (t: string)
    ensures |t| == 2 * |s|
  {
    if s == [] then "" else Hex(s[..|s| - 1]) + [HexDigit(s[|s| - 1] / 16), HexDigit(s[|s| - 1] % 16)]
  }

  /** Equal printed sums, which md5_check compares, mean equal digests. */
  lemma {:induction false} HexIsInjective(s: seq<Byte>, t: seq<Byte>)
    requires Hex(s) == Hex(t)
    ensures s == t
  {
    if s != [] && t != [] {
      var n := |Hex(s)| - 2;
      assert Hex(s)[..n] == Hex(s[..|s| - 1]) && Hex(t)[..n] == Hex(t[..|t| - 1]);
      HexIsInjective(s[..|s| - 1], t[..|t| - 1]);
      DigitsDiffer(s[|s| - 1], t[|t| - 1]);
      assert Hex(s)[n] == HexDigit(s[|s| - 1] / 16) && Hex(t)[n] == HexDigit(t[|t| - 1] / 16);
      assert Hex(s)[n + 1] == HexDigit(s[|s| - 1] % 16) && Hex(t)[n + 1] == HexDigit(t[|t| - 1] % 16);
      assert s == s[..|s| - 1] + [s[|s| - 1]] && t == t[..|t| - 1] + [t[|t| - 1]];
    }
  }

  /** The value of a hexadecimal digit, or -1. */
  function DigitValue(c: char): int {
    if '0' <= c <= '9' then c as int - '0' as int
    else if 'a' <= c <= 'f' then c as int - 'a' as int + 10
    else -1
  }

  /** Characters 2i and 2i + 1 are the lower-case hexadecimal digits of byte i, the high one first. */
  lemma {:induction false} HexReads(s: seq<Byte>, i: nat)
    requires i < |s|
    ensures var h, l := DigitValue(Hex(s)[2 * i]), DigitValue(Hex(s)[2 * i + 1]);
      0 <= h < 16 && 0 <= l < 16 && 16 * h + l == s[i]
  {
    var n := |s| - 1;
    DigitIsRead(s[n] / 16);
    DigitIsRead(s[n] % 16);
    hide HexDigit, DigitValue;
    if i < n {
      HexReads(s[..n], i);
    }
  }

  lemma DigitIsRead(d: nat)
    requires d < 16
    ensures DigitValue(HexDigit(d)) == d
  {}

  lemma DigitsDiffer(a: Byte, b: Byte)
    ensures HexDigit(a / 16) == HexDigit(b / 16) && HexDigit(a % 16) == HexDigit(b % 16) ==> a == b
  {
    assert forall d, e | 0 <= d < 16 && 0 <= e < 16 :: HexDigit(d) == HexDigit(e) ==> d == e;
  }

  /** The digest, as md5_sum prints it. */
  method Print(ctx: Md5.Context) returns (sum: string)
    requires ctx.buf.Length == 64
    ensures sum == Hex(ctx.buf[..16])
  {
    sum := "";
    var i := 0;
    while i < 16
      invariant 0 <= i <= 16 && sum == Hex(ctx.buf[..i])
    {
      assert ctx.buf[..i + 1][..i] == ctx.buf[..i];
      sum := sum + [HexDigit(ctx.buf[i] / 16), HexDigit(ctx.buf[i] % 16)];
      i := i + 1;
    }
  }

  /** md5_sum over the blocks that successive reads of a file return. */
  method SumFile(blocks: seq<seq<Byte>>) returns (sum: string)
    requires forall i | 0 <= i < |blocks| :: |blocks[i]| <= 4096
    ensures |Concat(blocks)| % 0x2000_0000_0000_0000 < 0x40_0000_0000 ==> sum == Hex(Digest(Concat(blocks)))
  {
    hide Compress, Absorb, Md5.Absorbed, Concat, Hex, Padded;
    NoParts(blocks);
    var ctx := new Md5.Context();
    var buffer := new Byte[4096];
    var i := 0;
    while i < |blocks|
      invariant 0 <= i <= |blocks| && ctx.Valid() && fresh(ctx.buf) && buffer != ctx.buf
      invariant ctx.written == Concat(blocks[..i])
    {
      var n := |blocks[i]|;
      forall j | 0 <= j < n {
        buffer[j] := blocks[i][j];
      }
      assert buffer[..n] == blocks[i];
      ConcatStep(blocks, i);
      ctx.Write(buffer, n);
      i := i + 1;
    }
    assert blocks[..i] == blocks;
    CountIsStandard(ctx.written);
    ctx.Final();
    sum := Print(ctx);
  }

  lemma NoParts(parts: seq<seq<Byte>>)
    ensures Concat(parts[..0]) == [] && parts[..|parts|] == parts
  {}

  /** md5_sum of a string: its bytes in front of the terminating zero, in one write. */
  method SumString(src: array<Byte>, len: nat) returns (sum: string)
    requires len <= src.Length
    ensures len % 0x2000_0000_0000_0000 < 0x40_0000_0000 ==> sum == Hex(Digest(src[..len]))
  {
    hide Compress, Absorb, Md5.Absorbed, Hex, Padded;
    var ctx := new Md5.Context();
    ctx.Write(src, len);
    assert ctx.written == src[..len];
    CountIsStandard(ctx.written);
    ctx.Final();
    sum := Print(ctx);
  }
}
