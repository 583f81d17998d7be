/** The bytes of an interharmonic record, and a reader for them. */
module InterBytes {
  import opened Bits
  import opened Bytes
  import opened InterRecord
  import opened Sequences

  // ---- Writing ----

  /** A 16-bit number, low-order byte first. */
  function Pair(w: Word): (s: seq<Byte>)
    ensures |s| == 2 && Value(s[0], s[1]) == w
  {
    [w % 256, w / 256]
  }

  function Value(low: Byte, high: Byte): Word {
    low + 256 * high
  }

  /** The set of sub-bins as a bit mask. */
  function Mask(items: seq<Item>): (mask: nat)
    ensures mask == 0 <==> items == []
  {
    if items == [] then 0 else Mask(items[..|items| - 1]) + Pow2(items[|items| - 1].sub)
  }

  function Payload(items: seq<Item>): (s: seq<Byte>)
    ensures |s| == 4 * |items|
  {
    if items == [] then [] else
      Payload(items[..|items| - 1]) + (Pair(items[|items| - 1].amp) + Pair(items[|items| - 1].angle))
  }

  /** The parts of a group fit their bit fields. */
  ghost predicate Fits(g: Group) {
    g.channel < 2 && g.phase < 4 && g.order < 64 && Sorted(g.items, 15)
  }

  lemma {:induction false} MaskBound(items: seq<Item>, m: nat)
    requires Sorted(items, m)
    ensures Mask(items) < Pow2(m)
    decreases m
  {
    if items != [] {
      var last := items[|items| - 1].sub;
      MaskBound(items[..|items| - 1], last);
      Ascends(last + 1, m);
    }
  }

  lemma {:induction false} Ascends(k: nat, m: nat)
    requires k <= m
    ensures Pow2(k) <= Pow2(m)
    decreases m
  {
    if k < m {
      Ascends(k, m - 1);
    }
  }

  lemma Fifteen(items: seq<Item>)
    requires Sorted(items, 15)
    ensures Mask(items) < 0x8000
  {
    MaskBound(items, 15);
    Pow2Values();
    assert Pow2(16) == 2 * Pow2(15);
  }

  function Emit(g: Group): (s: seq<Byte>)
    requires Fits(g)
    ensures |s| == 3 + 4 * |g.items|
  {
    Fifteen(g.items);
    [g.phase * 64 + g.order] + Pair(g.channel * 0x8000 + Mask(g.items)) + Payload(g.items)
  }

  /** The head of a group: phase and order share its first byte, channel and sub-bins the next two. */
  lemma GroupHead(g: Group)
    requires Fits(g)
    ensures Emit(g)[0] == 64 * g.phase + g.order
    ensures (Emit(g)[1] as int) + 256 * (Emit(g)[2] as int) == 0x8000 * g.channel + Mask(g.items)
  {
    hide Payload, Mask, Sorted;
    Fifteen(g.items);
  }

  /** A sub-bin is recorded in the group exactly if its bit is set. */
  lemma {:induction false} MaskBits(items: seq<Item>, m: nat, j: nat)
    requires Sorted(items, m)
    ensures Bit(Mask(items), j) == 1 <==> exists i | 0 <= i < |items| :: items[i].sub == j
    decreases |items|
  {
    hide Bit, Pow2;
    if items == [] {
      NoBits(j);
    } else {
      var init, last := items[..|items| - 1], items[|items| - 1].sub;
      MaskBits(init, last, j);
      MaskBound(init, last);
      TopBit(Mask(init), last, j);
      assert forall i | 0 <= i < |init| :: init[i] == items[i];
      if j == last {
        assert items[|items| - 1].sub == j;
      }
    }
  }

  lemma NoBits(j: nat)
    ensures Bit(0, j) == 0
  {}

  /** A power above a number adds its own digit and changes no other. */
  lemma {:induction false} TopBit(x: nat, k: nat, j: nat)
    requires x < Pow2(k)
    ensures Bit(x + Pow2(k), j) == if j == k then 1 else Bit(x, j)
    decreases k
  {
    LowestDigit(x);
    LowestDigit(x + Pow2(k));
    var p := Pow2(if k > 0 then k - 1 else 0);
    assert k > 0 ==> Pow2(k) == 2 * p && (x + 2 * p) % 2 == x % 2 && (x + 2 * p) / 2 == x / 2 + p;
    hide Bit, Pow2;
    if j > 0 {
      HigherDigit(x, j);
      HigherDigit(x + Pow2(k), j);
      if k > 0 {
        TopBit(x / 2, k - 1, j - 1);
      } else {
        NoBits(j - 1);
      }
    }
  }

  function EmitAll(gs: seq<Group>): seq<Byte>
    requires forall g | g in gs :: Fits(g)
  {
    if gs == [] then [] else Emit(gs[0]) + EmitAll(gs[1..])
  }

  lemma {:induction false} EmitAppend(gs: seq<Group>, g: Group)
    requires (forall h | h in gs :: Fits(h)) && Fits(g)
    ensures EmitAll(gs + [g]) == EmitAll(gs) + Emit(g)
  {
    if gs == [] {
      assert (gs + [g])[1..] == [];
    } else {
      assert (gs + [g])[1..] == gs[1..] + [g];
      EmitAppend(gs[1..], g);
    }
  }

  // ---- Reading ----

  /** The items of the sub-bins below m whose bit is set; their values come first in `bytes`. */
  function Unpack(mask: nat, m: nat, bytes: seq<Byte>): (items: seq<Item>)
    ensures 4 * |items| <= |bytes|
  {
    if m == 0 then [] else
      var items := Unpack(mask, m - 1, bytes);
      var n := 4 * |items|;
      if Bit(mask, m - 1) == 1 && n + 4 <= |bytes| then
        items + [Item(m - 1, Value(bytes[n], bytes[n + 1]), Value(bytes[n + 2], bytes[n + 3]))]
      else items
  }

  /** The first n groups in `bytes`. */
  function Parse(bytes: seq<Byte>, n: nat): seq<Group> {
    if n == 0 || |bytes| < 3 then [] else
      var w := Value(bytes[1], bytes[2]);
      var items := Unpack(w % 0x8000, 15, bytes[3..]);
      [Group(w / 0x8000, bytes[0] / 64, bytes[0] % 64, items)] + Parse(bytes[3 + 4 * |items|..], n - 1)
  }

  /** A binary digit splits off the top of a remainder. */
  lemma ModuloSplit(x: nat, k: nat)
    ensures x % Pow2(k + 1) == Bit(x, k) * Pow2(k) + x % Pow2(k)
  {
    var p := Pow2(k);
    var q, r := x / p, x % p;
    assert x == p * q + r && q == 2 * (q / 2) + q % 2;
    assert x == (2 * p) * (q / 2) + ((q % 2) * p + r) by {
      assert p * q == p * (2 * (q / 2)) + p * (q % 2);
    }
    ModuloUnique(x, 2 * p, q / 2, (q % 2) * p + r);
  }

  /** The reader recovers the items of a group from the mask and the values. */
  lemma {:induction false} UnpackPayload(items: seq<Item>, m: nat, mask: nat, bytes: seq<Byte>)
    requires Sorted(items, m) && mask % Pow2(m) == Mask(items) && Payload(items) <= bytes
    ensures Unpack(mask, m, bytes) == items
    decreases m
  {
    UnpackZero(mask, bytes);
    hide Unpack, Payload, Bit, Pow2;
    if m > 0 {
      if items != [] && items[|items| - 1].sub == m - 1 {
        var init, last := items[..|items| - 1], items[|items| - 1];
        MaskBound(init, m - 1);
        Digit(mask, m - 1, Mask(init), true);
        PayloadSplits(items, bytes);
        UnpackPayload(init, m - 1, mask, bytes);
        UnpackOne(mask, m, bytes, last);
        InitLast(items);
      } else {
        MaskBound(items, m - 1);
        Digit(mask, m - 1, Mask(items), false);
        UnpackPayload(items, m - 1, mask, bytes);
        UnpackNone(mask, m, bytes);
      }
    }
  }

  lemma PayloadSplits(items: seq<Item>, bytes: seq<Byte>)
    requires items != [] && Payload(items) <= bytes
    ensures var init, last := items[..|items| - 1], items[|items| - 1];
      && Payload(init) <= bytes && |Payload(init)| + 4 <= |bytes|
      && bytes[|Payload(init)|..|Payload(init)| + 4] == Pair(last.amp) + Pair(last.angle)
  {
    PayloadStep(items);
    hide Payload, Pair;
    PrefixSplits(Payload(items[..|items| - 1]), Pair(items[|items| - 1].amp) + Pair(items[|items| - 1].angle), bytes);
  }

  lemma PayloadStep(items: seq<Item>)
    requires items != []
    ensures Payload(items)
         == Payload(items[..|items| - 1]) + (Pair(items[|items| - 1].amp) + Pair(items[|items| - 1].angle))
  {}

  lemma UnpackOne(mask: nat, m: nat, bytes: seq<Byte>, item: Item)
    requires m > 0 && Bit(mask, m - 1) == 1 && item.sub == m - 1
    requires var n := 4 * |Unpack(mask, m - 1, bytes)|;
      n + 4 <= |bytes| && bytes[n..n + 4] == Pair(item.amp) + Pair(item.angle)
    ensures Unpack(mask, m, bytes) == Unpack(mask, m - 1, bytes) + [item]
  {
    var n := 4 * |Unpack(mask, m - 1, bytes)|;
    var v := bytes[n..n + 4];
    assert v[0] == bytes[n] && v[1] == bytes[n + 1] && v[2] == bytes[n + 2] && v[3] == bytes[n + 3];
  }

  lemma UnpackZero(mask: nat, bytes: seq<Byte>)
    ensures Unpack(mask, 0, bytes) == []
  {}

  lemma UnpackNone(mask: nat, m: nat, bytes: seq<Byte>)
    requires m > 0 && Bit(mask, m - 1) == 0
    ensures Unpack(mask, m, bytes) == Unpack(mask, m - 1, bytes)
  {}

  lemma Digit(x: nat, k: nat, low: nat, one: bool)
    requires low < Pow2(k) && x % Pow2(k + 1) == (if one then low + Pow2(k) else low)
    ensures Bit(x, k) == (if one then 1 else 0) && x % Pow2(k) == low
  {
    ModuloSplit(x, k);
  }

  /** What was written is read back, whatever bytes follow. */
  lemma {:induction false} ParseEmitted(gs: seq<Group>, rest: seq<Byte>)
    requires forall g | g in gs :: Fits(g)
    ensures Parse(EmitAll(gs) + rest, |gs|) == gs
  {
    EmitAllStep(gs, rest);
    hide Emit, EmitAll, Parse, Fits;
    if gs != [] {
      ParseEmitted(gs[1..], rest);
      ParseOne(gs[0], EmitAll(gs[1..]) + rest, |gs|);
      HeadTail(gs);
    }
  }

  lemma EmitAllStep(gs: seq<Group>, rest: seq<Byte>)
    requires forall g | g in gs :: Fits(g)
    ensures Parse(rest, 0) == []
    ensures gs == [] ==> EmitAll(gs) + rest == rest
    ensures gs != [] ==> EmitAll(gs) + rest == Emit(gs[0]) + (EmitAll(gs[1..]) + rest)
  {
    hide Emit, Fits;
    Neutral(rest);
    if gs != [] {
      Associates(Emit(gs[0]), EmitAll(gs[1..]), rest);
    }
  }

  lemma ParseOne(g: Group, tail: seq<Byte>, n: nat)
    requires Fits(g) && n > 0
    ensures Parse(Emit(g) + tail, n) == [g] + Parse(tail, n - 1)
  {
    hide Unpack, Payload, Mask, Sorted, Bit, Pow2, Emit, Parse;
    var bytes, mask := Emit(g) + tail, Mask(g.items);
    EmitParts(g, tail);
    Fields(g.channel, mask);
    UnpackPayload(g.items, 15, mask, bytes[3..]);
    ParseStep(bytes, n, mask);
  }

  /** The mask and the channel bit do not collide. */
  lemma Fields(channel: nat, mask: nat)
    requires channel < 2 && mask < 0x8000
    ensures var w := channel * 0x8000 + mask; w % 0x8000 == mask && w / 0x8000 == channel
    ensures mask % Pow2(15) == mask
  {
    Pow2Values();
    assert Pow2(16) == 2 * Pow2(15);
    ModuloUnique(mask, Pow2(15), 0, mask);
  }

  lemma ParseStep(bytes: seq<Byte>, n: nat, mask: nat)
    requires n > 0 && |bytes| >= 3 && mask == Value(bytes[1], bytes[2]) % 0x8000
    ensures var items := Unpack(mask, 15, bytes[3..]);
      Parse(bytes, n) == [Group(Value(bytes[1], bytes[2]) / 0x8000, bytes[0] / 64, bytes[0] % 64, items)]
                       + Parse(bytes[3 + 4 * |items|..], n - 1)
  {
    hide Unpack;
  }

  lemma EmitParts(g: Group, tail: seq<Byte>)
    requires Fits(g)
    ensures Mask(g.items) < 0x8000
    ensures var bytes := Emit(g) + tail;
      && bytes[0] == g.phase * 64 + g.order && Value(bytes[1], bytes[2]) == g.channel * 0x8000 + Mask(g.items)
      && Payload(g.items) <= bytes[3..] && bytes[3 + 4 * |g.items|..] == tail
  {
    Fifteen(g.items);
    hide Payload, Mask, Sorted;
    var bytes := Emit(g) + tail;
    assert bytes[3..] == Payload(g.items) + tail;
  }
}
