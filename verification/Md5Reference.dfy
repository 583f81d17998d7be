/**
 MD5 as RFC 1321 sections 3.1 to 3.5 define it: padding, and a table-driven step on four registers
 that rotate after every step.
 */
module Md5Reference {
  import opened Arithmetic
  import opened Bits
  import opened Bytes

  /** A 32-bit word. */
  type Word = x: int | 0 <= x < 0x1_0000_0000

  datatype Chain = Chain(a: Word, b: Word, c: Word, d: Word)

  /** The initial registers (section 3.3). */
  const INIT := Chain(0x67452301, 0xefcdab89, 0x98badcfe, 0x10325476)

  function Add(x: Word, y: Word): Word { (x + y) % 0x1_0000_0000 }

  function Not(x: Word): Word { 0xffff_ffff - x }

  lemma WordWidth(x: Word, y: Word)
    ensures And(x, y) < 0x1_0000_0000 && Or(x, y) < 0x1_0000_0000 && Xor(x, y) < 0x1_0000_0000
  {
    Pow2Values();
    Width(x, y, 32);
  }

  function WordAnd(x: Word, y: Word): Word { WordWidth(x, y); And(x, y) }

  function WordOr(x: Word, y: Word): Word { WordWidth(x, y); Or(x, y) }

  function WordXor(x: Word, y: Word): Word { WordWidth(x, y); Xor(x, y) }

  /** The four auxiliary functions (section 3.4). */
  function F(x: Word, y: Word, z: Word): Word { WordOr(WordAnd(x, y), WordAnd(Not(x), z)) }

  function G(x: Word, y: Word, z: Word): Word { WordOr(WordAnd(x, z), WordAnd(y, Not(z))) }

  function H(x: Word, y: Word, z: Word): Word { WordXor(WordXor(x, y), z) }

  function I(x: Word, y: Word, z: Word): Word { WordXor(y, WordOr(x, Not(z))) }

  /** The auxiliary function of step i. */
  function Mix(i: nat, x: Word, y: Word, z: Word): Word {
    if i < 16 then F(x, y, z) else if i < 32 then G(x, y, z) else if i < 48 then H(x, y, z) else I(x, y, z)
  }

  /** The message word that step i reads. */
  function K(i: nat): (k: nat)
    ensures k < 16
  {
    (if i < 16 then i else if i < 32 then 5 * i + 1 else if i < 48 then 3 * i + 5 else 7 * i) % 16
  }

  /** The distance by which step i rotates. */
  function S(i: nat): (s: nat)
    ensures 0 < s < 32
  {
    var q := i % 4;
    if i < 16 then if q == 0 then 7 else if q == 1 then 12 else if q == 2 then 17 else 22
    else if i < 32 then if q == 0 then 5 else if q == 1 then 9 else if q == 2 then 14 else 20
    else if i < 48 then if q == 0 then 4 else if q == 1 then 11 else if q == 2 then 16 else 23
    else if q == 0 then 6 else if q == 1 then 10 else if q == 2 then 15 else 21
  }

  /** Circular shift: the low 32 - s digits move up, the high s digits come in below them. */
  function RotateLeft(x: Word, s: nat): Word
    requires s <= 32
  {
    RotateFits(x, s);
    x % Pow2(32 - s) * Pow2(s) + x / Pow2(32 - s)
  }

  lemma RotateFits(x: Word, s: nat)
    requires s <= 32
    ensures 0 <= x / Pow2(32 - s) < Pow2(s)
    ensures x % Pow2(32 - s) * Pow2(s) + x / Pow2(32 - s) < 0x1_0000_0000
  {
    hide Pow2;
    var p, q := Pow2(32 - s), Pow2(s);
    Pow2Adds(s, 32 - s);
    Pow2Values();
    RotateBounds(x, x / p, x % p, p, q);
  }

  lemma RotateBounds(x: nat, h: nat, r: nat, p: nat, q: nat)
    requires x == p * h + r && r < p && x < p * q
    ensures h < q && r * q + h < p * q
  {
    Cancel(h, q, p);
    Scale(r, p - 1, q);
  }

  /** Element i + 1 of the table of section 3.4. */
  function T(i: nat): Word {
    if i < 16 then T1(i) else if i < 32 then T2(i - 16) else if i < 48 then T3(i - 32) else T4(i - 48)
  }

  function T1(i: nat): Word {
    match i
    case 0 => 0xd76aa478 case 1 => 0xe8c7b756 case 2 => 0x242070db case 3 => 0xc1bdceee
    case 4 => 0xf57c0faf case 5 => 0x4787c62a case 6 => 0xa8304613 case 7 => 0xfd469501
    case 8 => 0x698098d8 case 9 => 0x8b44f7af case 10 => 0xffff5bb1 case 11 => 0x895cd7be
    case 12 => 0x6b901122 case 13 => 0xfd987193 case 14 => 0xa679438e case 15 => 0x49b40821
    case _ => 0
  }

  function T2(i: nat): Word {
    match i
    case 0 => 0xf61e2562 case 1 => 0xc040b340 case 2 => 0x265e5a51 case 3 => 0xe9b6c7aa
    case 4 => 0xd62f105d case 5 => 0x02441453 case 6 => 0xd8a1e681 case 7 => 0xe7d3fbc8
    case 8 => 0x21e1cde6 case 9 => 0xc33707d6 case 10 => 0xf4d50d87 case 11 => 0x455a14ed
    case 12 => 0xa9e3e905 case 13 => 0xfcefa3f8 case 14 => 0x676f02d9 case 15 => 0x8d2a4c8a
    case _ => 0
  }

  function T3(i: nat): Word {
    match i
    case 0 => 0xfffa3942 case 1 => 0x8771f681 case 2 => 0x6d9d6122 case 3 => 0xfde5380c
    case 4 => 0xa4beea44 case 5 => 0x4bdecfa9 case 6 => 0xf6bb4b60 case 7 => 0xbebfbc70
    case 8 => 0x289b7ec6 case 9 => 0xeaa127fa case 10 => 0xd4ef3085 case 11 => 0x04881d05
    case 12 => 0xd9d4d039 case 13 => 0xe6db99e5 case 14 => 0x1fa27cf8 case 15 => 0xc4ac5665
    case _ => 0
  }

  function T4(i: nat): Word {
    match i
    case 0 => 0xf4292244 case 1 => 0x432aff97 case 2 => 0xab9423a7 case 3 => 0xfc93a039
    case 4 => 0x655b59c3 case 5 => 0x8f0ccc92 case 6 => 0xffeff47d case 7 => 0x85845dd1
    case 8 => 0x6fa87e4f case 9 => 0xfe2ce6e0 case 10 => 0xa3014314 case 11 => 0x4e0811a1
    case 12 => 0xf7537e82 case 13 => 0xbd3af235 case 14 => 0x2ad7d2bb case 15 => 0xeb86d391
    case _ => 0
  }

  /** The value that step i assigns to register a. */
  function StepValue(i: nat, a: Word, b: Word, c: Word, d: Word, xk: Word): Word {
    Add(b, RotateLeft(Add(Add(Add(a, Mix(i, b, c, d)), xk), T(i)), S(i)))
  }

  /** One step, after which the registers change names: [ABCD], [DABC], [CDAB], [BCDA]. */
  function Step(q: Chain, x: seq<Word>, i: nat): Chain
    requires |x| == 16
  {
    Chain(q.d, StepValue(i, q.a, q.b, q.c, q.d, x[K(i)]), q.b, q.c)
  }

  /** The first n steps. */
  function Steps(q: Chain, x: seq<Word>, n: nat): Chain
    requires |x| == 16
  {
    if n == 0 then q else Step(Steps(q, x, n - 1), x, n - 1)
  }

  /** Four bytes as a word, low-order byte first. */
  function LittleWord(b: seq<Byte>): Word
    requires |b| == 4
  {
    (b[0] as int) + 0x100 * (b[1] as int) + 0x1_0000 * (b[2] as int) + 0x100_0000 * (b[3] as int)
  }

  function BlockWords(block: seq<Byte>): (x: seq<Word>)
    requires |block| == 64
    ensures |x| == 16
  {
    seq(16, i requires 0 <= i < 16 => LittleWord(block[4 * i..4 * i + 4]))
  }

  /** The 64 steps on one block, added to the registers they started from. */
  function Compress(q: Chain, block: seq<Byte>): Chain
    requires |block| == 64
  {
    var p := Steps(q, BlockWords(block), 64);
    Chain(Add(q.a, p.a), Add(q.b, p.b), Add(q.c, p.c), Add(q.d, p.d))
  }

  /** The registers after the whole blocks of a message. */
  function Absorb(q: Chain, s: seq<Byte>): Chain
    requires |s| % 64 == 0
  {
    if s == [] then q else Compress(Absorb(q, s[..|s| - 64]), s[|s| - 64..])
  }

  /** The k low-order bytes of n, lowest first. */
  function LittleBytes(n: nat, k: nat): (s: seq<Byte>)
    ensures |s| == k
  {
    if k == 0 then [] else [n % 256] + LittleBytes(n / 256, k - 1)
  }

  /** A message followed by a single one bit, zero bits up to 448 modulo 512, and a 64-bit count. */
  function Padded(msg: seq<Byte>, bits: nat): (s: seq<Byte>)
    ensures |s| % 64 == 0
  {
    msg + [0x80] + seq((55 - |msg|) % 64, _ => 0) + LittleBytes(bits, 8)
  }

  /** Padding of sections 3.1 and 3.2: the count is the length of the message in bits, modulo 2^64. */
  function Pad(msg: seq<Byte>): (s: seq<Byte>)
    ensures |s| % 64 == 0
  {
    Padded(msg, 8 * |msg|)
  }

  /** The registers from the low-order byte of a to the high-order byte of d (section 3.5). */
  function ChainBytes(q: Chain): (s: seq<Byte>)
    ensures |s| == 16
  {
    LittleBytes(q.a, 4) + LittleBytes(q.b, 4) + LittleBytes(q.c, 4) + LittleBytes(q.d, 4)
  }

  function Digest(msg: seq<Byte>): (s: seq<Byte>)
    ensures |s| == 16
  {
    ChainBytes(Absorb(INIT, Pad(msg)))
  }
}
