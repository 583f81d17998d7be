/**
 The 64 unrolled steps of `transform`. The source keeps the four registers in place and passes them
 to the macro OP in rotated positions; the rounds below do the same and are proved equal to the
 rotating, table-driven steps of the reference.
 */
module Md5Rounds {
  import opened Bits
  import opened Md5Reference

  function FF(b: Word, c: Word, d: Word): Word { WordXor(d, WordAnd(b, WordXor(c, d))) }

  function FG(b: Word, c: Word, d: Word): Word { FF(d, b, c) }

  function FH(b: Word, c: Word, d: Word): Word { WordXor(WordXor(b, c), d) }

  function FI(b: Word, c: Word, d: Word): Word { WordXor(c, WordOr(b, Not(d))) }

  /** The rotation as the source writes it: two shifts whose results are joined by OR. */
  function Rol(x: Word, n: nat): Word
    requires 0 < n < 32
  {
    RotateFits(x, n);
    WordOr(x * Pow2(n) % 0x1_0000_0000, x / Pow2(32 - n))
  }

  /** Digit by digit, d ^ (b & (c ^ d)) selects c where b is one and d where it is zero. */
  lemma {:induction false} SelectByXor(b: nat, c: nat, d: nat, w: nat)
    requires b < Pow2(w) && c < Pow2(w) && d < Pow2(w)
    ensures Xor(d, And(b, Xor(c, d))) == Or(And(b, c), And(Pow2(w) - 1 - b, d))
  {
    if w == 0 {
    } else {
      SelectByXor(b / 2, c / 2, d / 2, w - 1);
      var n := Pow2(w) - 1 - b;
      assert n / 2 == Pow2(w - 1) - 1 - b / 2 && n % 2 == 1 - b % 2;
      XorDigits(c, d);
      AndDigits(b, Xor(c, d));
      XorDigits(d, And(b, Xor(c, d)));
      AndDigits(b, c);
      AndDigits(n, d);
      OrDigits(And(b, c), And(n, d));
    }
  }

  lemma {:induction false} AndCommutes(x: nat, y: nat)
    ensures And(x, y) == And(y, x)
    decreases x + y
  {
    if x == 0 {
      AndZero(y);
    } else if y == 0 {
      AndZero(x);
    } else {
      AndCommutes(x / 2, y / 2);
    }
  }

  lemma {:induction false} AndZero(y: nat)
    ensures And(0, y) == 0
  {
    if y != 0 {
      AndZero(y / 2);
    }
  }

  /** The optimised selections are the auxiliary functions of the standard. */
  lemma OptimisedSelection(b: Word, c: Word, d: Word)
    ensures FF(b, c, d) == F(b, c, d)
    ensures FG(b, c, d) == G(b, c, d)
  {
    hide And, Or, Xor;
    Pow2Values();
    SelectByXor(b, c, d, 32);
    SelectByXor(d, b, c, 32);
    AndCommutes(d, b);
    AndCommutes(Not(d), c);
  }

  /** The shifted halves do not overlap, so OR-ing them rotates. */
  lemma RolIsRotateLeft(x: Word, n: nat)
    requires 0 < n < 32
    ensures Rol(x, n) == RotateLeft(x, n)
  {
    hide Or, Pow2;
    var p, q := Pow2(32 - n), Pow2(n);
    Pow2Adds(n, 32 - n);
    Pow2Values();
    RotateFits(x, n);
    var h, r := x / p, x % p;
    assert x * q == 0x1_0000_0000 * h + r * q by {
      assert x == p * h + r;
      assert x * q == p * h * q + r * q;
      assert p * h * q == (q * p) * h;
    }
    ModuloUnique(x * q, 0x1_0000_0000, h, r * q);
    OrDisjoint(r, h, n);
  }

  /** One use of the macro OP, in which three sums and a rotation update a register in place. */
  method Op(ghost i: nat, a: Word, b: Word, f: Word, ghost c: Word, ghost d: Word, xk: Word, s: nat, t: Word)
    returns (r: Word)
    requires f == Mix(i, b, c, d) && s == S(i) && t == T(i)
    ensures r == StepValue(i, a, b, c, d, xk)
  {
    hide RotateLeft, Rol;
    r := Add(Add(Add(a, f), xk), t);
    RolIsRotateLeft(r, s);
    r := Rol(r, s);
    r := Add(r, b);
  }

  method OpFF(ghost i: nat, a: Word, b: Word, c: Word, d: Word, xk: Word, s: nat, t: Word) returns (r: Word)
    requires 0 <= i < 16 && s == S(i) && t == T(i)
    ensures r == StepValue(i, a, b, c, d, xk)
  {
    hide StepValue, S, T, F, G, WordXor, WordOr, Not, FF, FG;
    OptimisedSelection(b, c, d);
    r := Op(i, a, b, FF(b, c, d), c, d, xk, s, t);
  }

  method OpFG(ghost i: nat, a: Word, b: Word, c: Word, d: Word, xk: Word, s: nat, t: Word) returns (r: Word)
    requires 16 <= i < 32 && s == S(i) && t == T(i)
    ensures r == StepValue(i, a, b, c, d, xk)
  {
    hide StepValue, S, T, F, G, WordXor, WordOr, Not, FF, FG;
    OptimisedSelection(b, c, d);
    r := Op(i, a, b, FG(b, c, d), c, d, xk, s, t);
  }

  method OpFH(ghost i: nat, a: Word, b: Word, c: Word, d: Word, xk: Word, s: nat, t: Word) returns (r: Word)
    requires 32 <= i < 48 && s == S(i) && t == T(i)
    ensures r == StepValue(i, a, b, c, d, xk)
  {
    hide StepValue, S, T, F, G, WordXor, WordOr, Not;
    r := Op(i, a, b, FH(b, c, d), c, d, xk, s, t);
  }

  method OpFI(ghost i: nat, a: Word, b: Word, c: Word, d: Word, xk: Word, s: nat, t: Word) returns (r: Word)
    requires 48 <= i < 64 && s == S(i) && t == T(i)
    ensures r == StepValue(i, a, b, c, d, xk)
  {
    hide StepValue, S, T, F, G, WordXor, WordOr, Not;
    r := Op(i, a, b, FI(b, c, d), c, d, xk, s, t);
  }

  /** After four steps the registers have their own names again. */
  lemma FourSteps(q: Chain, x: seq<Word>, n: nat, a: Word, b: Word, c: Word, d: Word)
    requires |x| == 16
    requires var p := Steps(q, x, n);
      && a == StepValue(n, p.a, p.b, p.c, p.d, x[K(n)])
      && d == StepValue(n + 1, p.d, a, p.b, p.c, x[K(n + 1)])
      && c == StepValue(n + 2, p.c, d, a, p.b, x[K(n + 2)])
      && b == StepValue(n + 3, p.b, c, d, a, x[K(n + 3)])
    ensures Steps(q, x, n + 4) == Chain(a, b, c, d)
  {
    hide StepValue, K;
    assert Steps(q, x, n + 1) == Step(Steps(q, x, n), x, n);
    assert Steps(q, x, n + 2) == Step(Steps(q, x, n + 1), x, n + 1);
    assert Steps(q, x, n + 3) == Step(Steps(q, x, n + 2), x, n + 2);
    assert Steps(q, x, n + 4) == Step(Steps(q, x, n + 3), x, n + 3);
  }

  method Round1(q: Chain, x: seq<Word>) returns (r: Chain)
    requires |x| == 16
    ensures r == Steps(q, x, 16)
  {
    hide StepValue;
    var a, b, c, d := q.a, q.b, q.c, q.d;
    a := OpFF(0, a, b, c, d, x[0], 7, 0xd76aa478);
    d := OpFF(1, d, a, b, c, x[1], 12, 0xe8c7b756);
    c := OpFF(2, c, d, a, b, x[2], 17, 0x242070db);
    b := OpFF(3, b, c, d, a, x[3], 22, 0xc1bdceee);
    FourSteps(q, x, 0, a, b, c, d);
    a := OpFF(4, a, b, c, d, x[4], 7, 0xf57c0faf);
    d := OpFF(5, d, a, b, c, x[5], 12, 0x4787c62a);
    c := OpFF(6, c, d, a, b, x[6], 17, 0xa8304613);
    b := OpFF(7, b, c, d, a, x[7], 22, 0xfd469501);
    FourSteps(q, x, 4, a, b, c, d);
    a := OpFF(8, a, b, c, d, x[8], 7, 0x698098d8);
    d := OpFF(9, d, a, b, c, x[9], 12, 0x8b44f7af);
    c := OpFF(10, c, d, a, b, x[10], 17, 0xffff5bb1);
    b := OpFF(11, b, c, d, a, x[11], 22, 0x895cd7be);
    FourSteps(q, x, 8, a, b, c, d);
    a := OpFF(12, a, b, c, d, x[12], 7, 0x6b901122);
    d := OpFF(13, d, a, b, c, x[13], 12, 0xfd987193);
    c := OpFF(14, c, d, a, b, x[14], 17, 0xa679438e);
    b := OpFF(15, b, c, d, a, x[15], 22, 0x49b40821);
    FourSteps(q, x, 12, a, b, c, d);
    r := Chain(a, b, c, d);
  }

  method Round2(ghost q: Chain, p: Chain, x: seq<Word>) returns (r: Chain)
    requires |x| == 16 && p == Steps(q, x, 16)
    ensures r == Steps(q, x, 32)
  {
    hide StepValue, Steps;
    var a, b, c, d := p.a, p.b, p.c, p.d;
    a := OpFG(16, a, b, c, d, x[1], 5, 0xf61e2562);
    d := OpFG(17, d, a, b, c, x[6], 9, 0xc040b340);
    c := OpFG(18, c, d, a, b, x[11], 14, 0x265e5a51);
    b := OpFG(19, b, c, d, a, x[0], 20, 0xe9b6c7aa);
    FourSteps(q, x, 16, a, b, c, d);
    a := OpFG(20, a, b, c, d, x[5], 5, 0xd62f105d);
    d := OpFG(21, d, a, b, c, x[10], 9, 0x02441453);
    c := OpFG(22, c, d, a, b, x[15], 14, 0xd8a1e681);
    b := OpFG(23, b, c, d, a, x[4], 20, 0xe7d3fbc8);
    FourSteps(q, x, 20, a, b, c, d);
    a := OpFG(24, a, b, c, d, x[9], 5, 0x21e1cde6);
    d := OpFG(25, d, a, b, c, x[14], 9, 0xc33707d6);
    c := OpFG(26, c, d, a, b, x[3], 14, 0xf4d50d87);
    b := OpFG(27, b, c, d, a, x[8], 20, 0x455a14ed);
    FourSteps(q, x, 24, a, b, c, d);
    a := OpFG(28, a, b, c, d, x[13], 5, 0xa9e3e905);
    d := OpFG(29, d, a, b, c, x[2], 9, 0xfcefa3f8);
    c := OpFG(30, c, d, a, b, x[7], 14, 0x676f02d9);
    b := OpFG(31, b, c, d, a, x[12], 20, 0x8d2a4c8a);
    FourSteps(q, x, 28, a, b, c, d);
    r := Chain(a, b, c, d);
  }

  method Round3(ghost q: Chain, p: Chain, x: seq<Word>) returns (r: Chain)
    requires |x| == 16 && p == Steps(q, x, 32)
    ensures r == Steps(q, x, 48)
  {
    hide StepValue, Steps;
    var a, b, c, d := p.a, p.b, p.c, p.d;
    a := OpFH(32, a, b, c, d, x[5], 4, 0xfffa3942);
    d := OpFH(33, d, a, b, c, x[8], 11, 0x8771f681);
    c := OpFH(34, c, d, a, b, x[11], 16, 0x6d9d6122);
    b := OpFH(35, b, c, d, a, x[14], 23, 0xfde5380c);
    FourSteps(q, x, 32, a, b, c, d);
    a := OpFH(36, a, b, c, d, x[1], 4, 0xa4beea44);
    d := OpFH(37, d, a, b, c, x[4], 11, 0x4bdecfa9);
    c := OpFH(38, c, d, a, b, x[7], 16, 0xf6bb4b60);
    b := OpFH(39, b, c, d, a, x[10], 23, 0xbebfbc70);
    FourSteps(q, x, 36, a, b, c, d);
    a := OpFH(40, a, b, c, d, x[13], 4, 0x289b7ec6);
    d := OpFH(41, d, a, b, c, x[0], 11, 0xeaa127fa);
    c := OpFH(42, c, d, a, b, x[3], 16, 0xd4ef3085);
    b := OpFH(43, b, c, d, a, x[6], 23, 0x04881d05);
    FourSteps(q, x, 40, a, b, c, d);
    a := OpFH(44, a, b, c, d, x[9], 4, 0xd9d4d039);
    d := OpFH(45, d, a, b, c, x[12], 11, 0xe6db99e5);
    c := OpFH(46, c, d, a, b, x[15], 16, 0x1fa27cf8);
    b := OpFH(47, b, c, d, a, x[2], 23, 0xc4ac5665);
    FourSteps(q, x, 44, a, b, c, d);
    r := Chain(a, b, c, d);
  }

  method Round4(ghost q: Chain, p: Chain, x: seq<Word>) returns (r: Chain)
    requires |x| == 16 && p == Steps(q, x, 48)
    ensures r == Steps(q, x, 64)
  {
    hide StepValue, Steps;
    var a, b, c, d := p.a, p.b, p.c, p.d;
    a := OpFI(48, a, b, c, d, x[0], 6, 0xf4292244);
    d := OpFI(49, d, a, b, c, x[7], 10, 0x432aff97);
    c := OpFI(50, c, d, a, b, x[14], 15, 0xab9423a7);
    b := OpFI(51, b, c, d, a, x[5], 21, 0xfc93a039);
    FourSteps(q, x, 48, a, b, c, d);
    a := OpFI(52, a, b, c, d, x[12], 6, 0x655b59c3);
    d := OpFI(53, d, a, b, c, x[3], 10, 0x8f0ccc92);
    c := OpFI(54, c, d, a, b, x[10], 15, 0xffeff47d);
    b := OpFI(55, b, c, d, a, x[1], 21, 0x85845dd1);
    FourSteps(q, x, 52, a, b, c, d);
    a := OpFI(56, a, b, c, d, x[8], 6, 0x6fa87e4f);
    d := OpFI(57, d, a, b, c, x[15], 10, 0xfe2ce6e0);
    c := OpFI(58, c, d, a, b, x[6], 15, 0xa3014314);
    b := OpFI(59, b, c, d, a, x[13], 21, 0x4e0811a1);
    FourSteps(q, x, 56, a, b, c, d);
    a := OpFI(60, a, b, c, d, x[4], 6, 0xf7537e82);
    d := OpFI(61, d, a, b, c, x[11], 10, 0xbd3af235);
    c := OpFI(62, c, d, a, b, x[2], 15, 0x2ad7d2bb);
    b := OpFI(63, b, c, d, a, x[9], 21, 0xeb86d391);
    FourSteps(q, x, 60, a, b, c, d);
    r := Chain(a, b, c, d);
  }
}
