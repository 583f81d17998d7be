/**
 Copying pixels into a packed framebuffer of 1, 2 or 4 bits a pixel, leftmost pixel in the high bits.
 Characters are unsigned, as on the target.
 */
module PackedPixels {

  /** Bits per pixel that a byte holds a whole number of. */
  predicate Depth(bpp: nat) {
    bpp == 1 || bpp == 2 || bpp == 4
  }

  function PerByte(bpp: nat): (n: nat)
    requires Depth(bpp)
    ensures n > 0 && n * bpp == 8
  {
    8 / bpp
  }

  function LeftMask(bpp: nat): bv8 {
    if bpp == 1 then 0x80 else if bpp == 2 then 0xc0 else 0xf0
  }

  function RightMask(bpp: nat): bv8 {
    if bpp == 1 then 0x01 else if bpp == 2 then 0x03 else 0x0f
  }

  /** The low bits of a source pixel. */
  function LowBits(bpp: nat, v: bv8): bv8 {
    v & RightMask(bpp)
  }

  /** A bit offset as the amount of a shift. */
  function Amount(k: nat): bv8 {
    match k
    case 0 => 0 case 1 => 1 case 2 => 2 case 3 => 3
    case 4 => 4 case 5 => 5 case 6 => 6 case 7 => 7 case _ => 8
  }

  /** Pixel t of a byte. */
  function Pixel(bpp: nat, c: bv8, t: nat): bv8
    requires Depth(bpp) && t < PerByte(bpp)
  {
    (c >> Amount(8 - t * bpp - bpp)) & RightMask(bpp)
  }

  /** The byte with the pixel that starts at bit k from the left set to zero. */
  function Cleared(bpp: nat, c: bv8, k: nat): bv8 {
    c & !(LeftMask(bpp) >> Amount(k))
  }

  /** The byte with the low bits of a source pixel put in, where it has zeros. */
  function Merged(bpp: nat, c: bv8, v: bv8, shift: nat): bv8 {
    c | (LowBits(bpp, v) << Amount(shift))
  }

  // ---- A byte is its pixels ----

  lemma Same1(c: bv8, d: bv8)
    requires (c >> 7) & 1 == (d >> 7) & 1 && (c >> 6) & 1 == (d >> 6) & 1
    requires (c >> 5) & 1 == (d >> 5) & 1 && (c >> 4) & 1 == (d >> 4) & 1
    requires (c >> 3) & 1 == (d >> 3) & 1 && (c >> 2) & 1 == (d >> 2) & 1
    requires (c >> 1) & 1 == (d >> 1) & 1 && (c >> 0) & 1 == (d >> 0) & 1
    ensures c == d
  {}

  lemma Same2(c: bv8, d: bv8)
    requires (c >> 6) & 3 == (d >> 6) & 3 && (c >> 4) & 3 == (d >> 4) & 3
    requires (c >> 2) & 3 == (d >> 2) & 3 && (c >> 0) & 3 == (d >> 0) & 3
    ensures c == d
  {}

  lemma Same4(c: bv8, d: bv8)
    requires (c >> 4) & 15 == (d >> 4) & 15 && (c >> 0) & 15 == (d >> 0) & 15
    ensures c == d
  {}

  /** The pixels of a byte determine it: there is no bit outside of them. */
  lemma PixelsMakeByte(bpp: nat, c: bv8, d: bv8)
    requires Depth(bpp) && forall t | 0 <= t < PerByte(bpp) :: Pixel(bpp, c, t) == Pixel(bpp, d, t)
    ensures c == d
  {
    if bpp == 1 {
      assert Pixel(1, c, 0) == Pixel(1, d, 0) && Pixel(1, c, 1) == Pixel(1, d, 1);
      assert Pixel(1, c, 2) == Pixel(1, d, 2) && Pixel(1, c, 3) == Pixel(1, d, 3);
      assert Pixel(1, c, 4) == Pixel(1, d, 4) && Pixel(1, c, 5) == Pixel(1, d, 5);
      assert Pixel(1, c, 6) == Pixel(1, d, 6) && Pixel(1, c, 7) == Pixel(1, d, 7);
      Same1(c, d);
    } else if bpp == 2 {
      assert Pixel(2, c, 0) == Pixel(2, d, 0) && Pixel(2, c, 1) == Pixel(2, d, 1);
      assert Pixel(2, c, 2) == Pixel(2, d, 2) && Pixel(2, c, 3) == Pixel(2, d, 3);
      Same2(c, d);
    } else {
      assert Pixel(4, c, 0) == Pixel(4, d, 0) && Pixel(4, c, 1) == Pixel(4, d, 1);
      Same4(c, d);
    }
  }

  lemma Mask1(v: bv8)
    ensures (v & 1) as int == v as int % 2
  {}

  lemma Mask2(v: bv8)
    ensures (v & 3) as int == v as int % 4
  {}

  lemma Mask4(v: bv8)
    ensures (v & 15) as int == v as int % 16
  {}

  /** The low bits of a source pixel are its value modulo the number of shades. */
  lemma LowBitsAreModulo(bpp: nat, v: bv8)
    requires Depth(bpp)
    ensures LowBits(bpp, v) as int == v as int % (if bpp == 1 then 2 else if bpp == 2 then 4 else 16)
  {
    Mask1(v);
    Mask2(v);
    Mask4(v);
  }

  lemma Shift1(c: bv8, v: bv8, s: bv8, t: bv8)
    requires s < 8 && t < 8
    ensures (((c & !(0x80 >> s)) | ((v & 0x01) << (7 - s))) >> (7 - t)) & 0x01 ==
            if s == t then v & 0x01 else (c >> (7 - t)) & 0x01
    ensures (((c | ((v & 0x01) << (7 - s))) >> (7 - t)) & 0x01) ==
            if s == t then ((c >> (7 - t)) & 0x01) | (v & 0x01) else (c >> (7 - t)) & 0x01
  {}

  lemma Shift2(c: bv8, v: bv8, s: bv8, t: bv8)
    requires (s == 0 || s == 2 || s == 4 || s == 6) && (t == 0 || t == 2 || t == 4 || t == 6)
    ensures (((c & !(0xc0 >> s)) | ((v & 0x03) << (6 - s))) >> (6 - t)) & 0x03 ==
            if s == t then v & 0x03 else (c >> (6 - t)) & 0x03
    ensures (((c | ((v & 0x03) << (6 - s))) >> (6 - t)) & 0x03) ==
            if s == t then ((c >> (6 - t)) & 0x03) | (v & 0x03) else (c >> (6 - t)) & 0x03
  {}

  lemma Shift4(c: bv8, v: bv8, s: bv8, t: bv8)
    requires (s == 0 || s == 4) && (t == 0 || t == 4)
    ensures (((c & !(0xf0 >> s)) | ((v & 0x0f) << (4 - s))) >> (4 - t)) & 0x0f ==
            if s == t then v & 0x0f else (c >> (4 - t)) & 0x0f
    ensures (((c | ((v & 0x0f) << (4 - s))) >> (4 - t)) & 0x0f) ==
            if s == t then ((c >> (4 - t)) & 0x0f) | (v & 0x0f) else (c >> (4 - t)) & 0x0f
  {}

  lemma Replace1(c: bv8, v: bv8, s: nat, t: nat)
    requires s < 8 && t < 8
    ensures Pixel(1, Merged(1, Cleared(1, c, s * 1), v, 8 - s * 1 - 1), t) ==
            if s == t then LowBits(1, v) else Pixel(1, c, t)
    ensures Pixel(1, c, s) == 0 ==>
              Pixel(1, Merged(1, c, v, 8 - s * 1 - 1), t) == if s == t then LowBits(1, v) else Pixel(1, c, t)
  {
    Complement1(s);
    Complement1(t);
    Injective1(s, t);
    Shift1(c, v, Amount(s * 1), Amount(t * 1));
    hide Amount;
  }

  lemma Replace2(c: bv8, v: bv8, s: nat, t: nat)
    requires s < 4 && t < 4
    ensures Pixel(2, Merged(2, Cleared(2, c, s * 2), v, 8 - s * 2 - 2), t) ==
            if s == t then LowBits(2, v) else Pixel(2, c, t)
    ensures Pixel(2, c, s) == 0 ==>
              Pixel(2, Merged(2, c, v, 8 - s * 2 - 2), t) == if s == t then LowBits(2, v) else Pixel(2, c, t)
  {
    Complement2(s);
    Complement2(t);
    Injective2(s, t);
    Shift2(c, v, Amount(s * 2), Amount(t * 2));
    hide Amount;
  }

  lemma Replace4(c: bv8, v: bv8, s: nat, t: nat)
    requires s < 2 && t < 2
    ensures Pixel(4, Merged(4, Cleared(4, c, s * 4), v, 8 - s * 4 - 4), t) ==
            if s == t then LowBits(4, v) else Pixel(4, c, t)
    ensures Pixel(4, c, s) == 0 ==>
              Pixel(4, Merged(4, c, v, 8 - s * 4 - 4), t) == if s == t then LowBits(4, v) else Pixel(4, c, t)
  {
    Complement4(s);
    Complement4(t);
    Injective4(s, t);
    Shift4(c, v, Amount(s * 4), Amount(t * 4));
    hide Amount;
  }

  /** Replacing pixel s sets it to the low bits of v and leaves the other pixels of the byte alone. */
  lemma Replace(bpp: nat, c: bv8, v: bv8, s: nat, t: nat)
    requires Depth(bpp) && s < PerByte(bpp) && t < PerByte(bpp)
    ensures Pixel(bpp, Merged(bpp, Cleared(bpp, c, s * bpp), v, 8 - s * bpp - bpp), t) ==
            if s == t then LowBits(bpp, v) else Pixel(bpp, c, t)
    ensures Pixel(bpp, c, s) == 0 ==>
              Pixel(bpp, Merged(bpp, c, v, 8 - s * bpp - bpp), t) == if s == t then LowBits(bpp, v) else Pixel(bpp, c, t)
  {
    hide Pixel, Merged, Cleared, LowBits;
    if bpp == 1 {
      Replace1(c, v, s, t);
    } else if bpp == 2 {
      Replace2(c, v, s, t);
    } else {
      Replace4(c, v, s, t);
    }
  }

  lemma Complement1(s: nat)
    requires s < 8
    ensures Amount(8 - s * 1 - 1) == 7 - Amount(s * 1) && Amount(s * 1) < 8
  {}

  lemma Complement2(s: nat)
    requires s < 4
    ensures Amount(8 - s * 2 - 2) == 6 - Amount(s * 2)
    ensures Amount(s * 2) == 0 || Amount(s * 2) == 2 || Amount(s * 2) == 4 || Amount(s * 2) == 6
  {}

  lemma Complement4(s: nat)
    requires s < 2
    ensures Amount(8 - s * 4 - 4) == 4 - Amount(s * 4)
    ensures Amount(s * 4) == 0 || Amount(s * 4) == 4
  {}

  lemma Injective1(s: nat, t: nat)
    requires s < 8 && t < 8
    ensures Amount(s * 1) == Amount(t * 1) <==> s == t
  {}

  lemma Injective2(s: nat, t: nat)
    requires s < 4 && t < 4
    ensures Amount(s * 2) == Amount(t * 2) <==> s == t
  {}

  lemma Injective4(s: nat, t: nat)
    requires s < 2 && t < 2
    ensures Amount(s * 4) == Amount(t * 4) <==> s == t
  {}
}
