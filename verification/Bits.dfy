/** Bitwise operators of C on integers, as their action on binary digits. */
module Bits {

  function Pow2(k: nat): (p: nat)
    ensures p > 0
  {
    if k == 0 then 1 else 2 * Pow2(k - 1)
  }

  /** x & m. A negative x stands for its two's complement, whose digits Euclidean division produces. */
  function And(x: int, m: nat): nat
    decreases m
  {
    if m == 0 then 0 else (if x % 2 == 1 && m % 2 == 1 then 1 else 0) + 2 * And(x / 2, m / 2)
  }

  /** x | y */
  function Or(x: nat, y: nat): nat
    decreases x + y
  {
    if x == 0 && y == 0 then 0 else (if x % 2 == 1 || y % 2 == 1 then 1 else 0) + 2 * Or(x / 2, y / 2)
  }

  /** x ^ y */
  function Xor(x: nat, y: nat): nat
    decreases x + y
  {
    if x == 0 && y == 0 then 0 else (if x % 2 != y % 2 then 1 else 0) + 2 * Xor(x / 2, y / 2)
  }

  /** Binary digit i of x. */
  function Bit(x: nat, i: nat): nat {
    x / Pow2(i) % 2
  }

  /** The digits of a combination are the combinations of the digits. */
  lemma AndDigits(x: int, y: nat)
    ensures And(x, y) % 2 == (if x % 2 == 1 && y % 2 == 1 then 1 else 0)
    ensures And(x, y) / 2 == And(x / 2, y / 2)
  {
    if y != 0 {
      HalfOf(And(x / 2, y / 2), if x % 2 == 1 && y % 2 == 1 then 1 else 0);
    }
  }

  lemma OrDigits(x: nat, y: nat)
    ensures Or(x, y) % 2 == (if x % 2 == 1 || y % 2 == 1 then 1 else 0)
    ensures Or(x, y) / 2 == Or(x / 2, y / 2)
  {
    if x != 0 || y != 0 {
      HalfOf(Or(x / 2, y / 2), if x % 2 == 1 || y % 2 == 1 then 1 else 0);
    }
  }

  lemma XorDigits(x: nat, y: nat)
    ensures Xor(x, y) % 2 == (if x % 2 != y % 2 then 1 else 0)
    ensures Xor(x, y) / 2 == Xor(x / 2, y / 2)
  {
    if x != 0 || y != 0 {
      HalfOf(Xor(x / 2, y / 2), if x % 2 != y % 2 then 1 else 0);
    }
  }

  /** Digit i of a combination is that of the two digits i. */
  lemma {:induction false} DigitsCombine(x: nat, y: nat, i: nat)
    ensures Bit(And(x, y), i) == (if Bit(x, i) == 1 && Bit(y, i) == 1 then 1 else 0)
    ensures Bit(Or(x, y), i) == (if Bit(x, i) == 1 || Bit(y, i) == 1 then 1 else 0)
    ensures Bit(Xor(x, y), i) == (if Bit(x, i) != Bit(y, i) then 1 else 0)
    decreases i
  {
    AndDigits(x, y);
    OrDigits(x, y);
    XorDigits(x, y);
    LowestDigit(x);
    LowestDigit(y);
    LowestDigit(And(x, y));
    LowestDigit(Or(x, y));
    LowestDigit(Xor(x, y));
    hide And, Or, Xor, Bit;
    if i > 0 {
      DigitsCombine(x / 2, y / 2, i - 1);
      HigherDigit(x, i);
      HigherDigit(y, i);
      HigherDigit(And(x, y), i);
      HigherDigit(Or(x, y), i);
      HigherDigit(Xor(x, y), i);
    }
  }

  /** The difference to a number of w ones has the other digits. */
  lemma {:induction false} DigitsFlip(x: nat, w: nat, i: nat)
    requires x < Pow2(w) && i < w
    ensures Bit(Pow2(w) - 1 - x, i) == 1 - Bit(x, i)
    decreases i
  {
    var p := Pow2(w - 1);
    var n := 2 * p - 1 - x;
    hide Bit;
    assert n / 2 == p - 1 - x / 2 && n % 2 == 1 - x % 2;
    LowestDigit(x);
    LowestDigit(n);
    if i > 0 {
      DigitsFlip(x / 2, w - 1, i - 1);
      HigherDigit(x, i);
      HigherDigit(n, i);
    }
  }

  lemma LowestDigit(x: nat)
    ensures Bit(x, 0) == x % 2
  {}

  lemma HigherDigit(x: nat, i: nat)
    requires i > 0
    ensures Bit(x, i) == Bit(x / 2, i - 1)
  {
    var p := Pow2(i - 1);
    var q, r := x / 2 / p, x / 2 % p;
    assert x / 2 == p * q + r;
    ModuloUnique(x, 2 * p, q, 2 * r + x % 2);
  }

  lemma HalfOf(h: nat, d: nat)
    requires d < 2
    ensures (d + 2 * h) % 2 == d && (d + 2 * h) / 2 == h
  {}

  /** Combinations of numbers of w digits have at most w digits. */
  lemma {:induction false} Width(x: nat, y: nat, w: nat)
    requires x < Pow2(w) && y < Pow2(w)
    ensures And(x, y) < Pow2(w) && Or(x, y) < Pow2(w) && Xor(x, y) < Pow2(w)
  {
    if w > 0 {
      Width(x / 2, y / 2, w - 1);
    }
  }

  /** Masking by 2^k - 1 is reduction modulo 2^k, for negative numbers too. */
  lemma {:induction false} MaskIsModulo(x: int, k: nat)
    ensures And(x, Pow2(k) - 1) == x % Pow2(k)
    decreases k
  {
    if k > 0 {
      var p := Pow2(k - 1);
      MaskIsModulo(x / 2, k - 1);
      assert (2 * p - 1) % 2 == 1 && (2 * p - 1) / 2 == p - 1;
      ModuloDoubles(x, p);
    }
  }

  lemma ModuloDoubles(x: int, p: nat)
    requires p > 0
    ensures x % (2 * p) == x % 2 + 2 * (x / 2 % p)
  {
    var q, r := x / 2 / p, x / 2 % p;
    assert x / 2 == p * q + r;
    assert x == (2 * p) * q + (2 * r + x % 2);
    ModuloUnique(x, 2 * p, q, 2 * r + x % 2);
  }

  lemma ModuloSum(a: int, b: int, m: nat)
    requires m > 0
    ensures (a % m + b) % m == (a + b) % m
  {
    var q, k, r := a / m, (a % m + b) / m, (a % m + b) % m;
    assert a == m * q + a % m && a % m + b == m * k + r;
    assert a + b == m * (q + k) + r;
    ModuloUnique(a + b, m, q + k, r);
  }

  /** Quotient and remainder are unique. */
  lemma ModuloUnique(x: int, m: int, q: int, r: int)
    requires m > 0 && 0 <= r < m && x == m * q + r
    ensures x / m == q && x % m == r
  {
    var e := x / m - q;
    assert x == m * (x / m) + x % m;
    assert m * e == r - x % m by {
      assert m * e == m * (x / m) - m * q;
    }
    assert e >= 1 ==> m * e >= m;
    assert e <= -1 ==> m * e <= -m;
  }

  /** Or of a number below 2^k with a multiple of 2^k is their sum. */
  lemma {:induction false} OrDisjoint(h: nat, l: nat, k: nat)
    requires l < Pow2(k)
    ensures Or(h * Pow2(k), l) == h * Pow2(k) + l
  {
    if k == 0 {
      OrZero(h);
    } else {
      var p := Pow2(k - 1);
      assert h * Pow2(k) == 2 * (h * p);
      OrDisjoint(h, l / 2, k - 1);
      OrDigits(2 * (h * p), l);
    }
  }

  lemma {:induction false} OrCommutes(x: nat, y: nat)
    ensures Or(x, y) == Or(y, x)
    decreases x + y
  {
    if x + y > 0 {
      OrCommutes(x / 2, y / 2);
    }
  }

  lemma {:induction false} OrZero(x: nat)
    ensures Or(x, 0) == x
  {
    if x > 0 {
      OrZero(x / 2);
    }
  }

  lemma {:induction false} Pow2Adds(j: nat, k: nat)
    ensures Pow2(j + k) == Pow2(j) * Pow2(k)
  {
    if j > 0 {
      Pow2Adds(j - 1, k);
      assert Pow2(j + k) == 2 * (Pow2(j - 1) * Pow2(k)) == Pow2(j) * Pow2(k);
    }
  }

  lemma Pow2Values()
    ensures Pow2(8) == 0x100 && Pow2(16) == 0x1_0000 && Pow2(32) == 0x1_0000_0000
  {
    assert Pow2(4) == 16;
    Pow2Adds(4, 4);
    Pow2Adds(8, 8);
    Pow2Adds(16, 16);
  }
}
