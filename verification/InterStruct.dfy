/** The interharmonic record, written in place into a fixed buffer with the head of each group patched in last. */
module InterStruct {
  import opened Bits
  import opened Bytes
  import opened InterRecord
  import opened InterBytes
  import opened InterLimit
  import opened Sequences

  datatype Record = Record(resoId: Byte, groups: seq<Group>) | Malformed

  /** A reader of whole records: head, length, resolution and number of groups, then the groups. */
  function Decode(rec: seq<Byte>): Record {
    if |rec| < 9 || Value(rec[0], rec[1]) != HEAD || Value(rec[4], rec[5]) + 7 != |rec| then Malformed
    else Record(rec[6], Parse(rec[9..], Value(rec[7], rec[8])))
  }

  /** The fixed bytes of a record: its tag, its length less seven, and the number of the resolution. */
  lemma RecordHead(rec: seq<Byte>)
    requires Decode(rec).Record?
    ensures |rec| >= 9 && rec[0] == 0xce && rec[1] == 0xcf && Decode(rec).resoId == rec[6]
    ensures (rec[4] as int) + 256 * (rec[5] as int) == |rec| - 7
  {}

  /** The bytes of group t, if it has items. */
  function Emitted(t: nat, items: seq<Item>): seq<Byte>
    requires t < GROUPS && Sorted(items, 15)
  {
    if items == [] then [] else Emit(Place(t, items))
  }

  lemma {:induction false} GroupsFit(buf: seq<Word>, width: nat, t: nat)
    requires 0 < width <= 15 && t <= GROUPS && 2 * Base(t, width) <= |buf|
    ensures forall g | g in Groups(buf, width, t) :: Fits(g)
  {
    hide Groups, Base, Sorted, Items, Fits, Place, Nonzero, Entries;
    GroupsStep(buf, width, t);
    if t > 0 {
      GroupsFit(buf, width, t - 1);
      var items := Items(buf, Base(t - 1, width), width);
      SortedWidens(items, width, 15);
      PlaceFits(t - 1, items);
    }
  }

  lemma PlaceFits(t: nat, items: seq<Item>)
    requires t < GROUPS && Sorted(items, 15)
    ensures Fits(Place(t, items))
  {}

  /** The bytes of the first t groups. */
  function Body(buf: seq<Word>, width: nat, t: nat): seq<Byte>
    requires 0 < width <= 15 && t <= GROUPS && 2 * Base(t, width) <= |buf|
  {
    GroupsFit(buf, width, t);
    EmitAll(Groups(buf, width, t))
  }

  /** The record grows by what is emitted for the next group. */
  lemma BodyStep(buf: seq<Word>, width: nat, t: nat)
    requires 0 < width <= 15 && t < GROUPS && 2 * Base(t + 1, width) <= |buf|
    ensures Sorted(Items(buf, Base(t, width), width), 15)
    ensures Body(buf, width, t + 1) == Body(buf, width, t) + Emitted(t, Items(buf, Base(t, width), width))
    ensures |Groups(buf, width, t + 1)|
         == |Groups(buf, width, t)| + if Items(buf, Base(t, width), width) == [] then 0 else 1
  {
    hide Groups, Base, Sorted, Items, Emit, EmitAll, Fits, Place, Nonzero, Entries;
    GroupsStep(buf, width, t + 1);
    GroupsFit(buf, width, t);
    GroupsFit(buf, width, t + 1);
    var items := Items(buf, Base(t, width), width);
    SortedWidens(items, width, 15);
    PlaceFits(t, items);
    Neutral(EmitAll(Groups(buf, width, t)));
    if items != [] {
      EmitAppend(Groups(buf, width, t), Place(t, items));
    }
  }

  /** A group in the making: its values follow a gap of three bytes at `start`, if it has any. */
  ghost predicate Partial(now: seq<Byte>, was: seq<Byte>, start: nat, items: seq<Item>, totl: nat) {
    && |was| == |now|
    && totl == start + (if items == [] then 0 else 3 + 4 * |items|) <= |was|
    && now[..start] == was[..start]
    && now[totl..] == was[totl..]
    && (items != [] ==> now[start + 3..totl] == Payload(items))
  }

  lemma PartialGrows(now: seq<Byte>, was: seq<Byte>, start: nat, items: seq<Item>, item: Item, totl: nat, at: nat)
    requires Partial(now, was, start, items, totl)
    requires at == (if items == [] then totl + 3 else totl) && at + 4 <= |now|
    ensures Partial(Splice(Splice(now, at, Pair(item.amp)), at + 2, Pair(item.angle)), was, start, items + [item], at + 4)
  {
    var amp, angle := Pair(item.amp), Pair(item.angle);
    var step, more := Splice(now, at, amp), items + [item];
    var after := Splice(step, at + 2, angle);
    assert more[..|more| - 1] == items;
    PayloadStep(more);
    hide Splice, Pair;
    SpliceKeeps(now, at, amp, 0, start);
    SpliceKeeps(step, at + 2, angle, 0, start);
    SpliceKeeps(now, at, amp, at + 4, |now|);
    SpliceKeeps(step, at + 2, angle, at + 4, |now|);
    assert now[at + 4..] == was[at + 4..] by {
      assert now[totl..][at + 4 - totl..] == was[totl..][at + 4 - totl..];
    }
    SpliceHas(now, at, amp);
    SpliceKeeps(step, at + 2, angle, at, at + 2);
    SpliceHas(step, at + 2, angle);
    Joined(after, at, at + 2, at + 4);
    Joined(after, start + 3, at, at + 4);
    SpliceKeeps(now, at, amp, start + 3, at);
    SpliceKeeps(step, at + 2, angle, start + 3, at);
  }

  /** The items of group t have gone into the buffer between totl and totl'. */
  ghost predicate GroupAdded(now': seq<Byte>, now: seq<Byte>, items: seq<Item>, t: nat, totl: nat, totl': nat) {
    && t < GROUPS && Sorted(items, 15) && |now'| == |now|
    && totl' == totl + (if items == [] then 0 else 3 + 4 * |items|) <= |now|
    && now'[..totl'] == now[..totl] + Emitted(t, items)
    && now'[totl'..] == now[totl'..]
  }

  /** Three bytes written into the gap at `start`, in two pieces. */
  lemma HeadSplices(now: seq<Byte>, start: nat, ph: seq<Byte>, vi: seq<Byte>, totl: nat)
    requires |ph| == 1 && |vi| == 2 && start + 3 <= totl <= |now|
    ensures var after := Splice(Splice(now, start, ph), start + 1, vi);
      after[..totl] == now[..start] + (ph + vi + now[start + 3..totl]) && after[totl..] == now[totl..]
  {
    var step := Splice(now, start, ph);
    var after := Splice(step, start + 1, vi);
    hide Splice;
    SpliceKeeps(now, start, ph, 0, start);
    SpliceKeeps(step, start + 1, vi, 0, start);
    SpliceKeeps(now, start, ph, start + 3, totl);
    SpliceKeeps(step, start + 1, vi, start + 3, totl);
    SpliceKeeps(now, start, ph, totl, |now|);
    SpliceKeeps(step, start + 1, vi, totl, |now|);
    SpliceHas(now, start, ph);
    SpliceKeeps(step, start + 1, vi, start, start + 1);
    SpliceHas(step, start + 1, vi);
    Joined(after, start, start + 1, start + 3);
    Joined(after, start, start + 3, totl);
    Joined(after, 0, start, totl);
  }

  lemma HeadCompletes(now: seq<Byte>, was: seq<Byte>, start: nat, items: seq<Item>, i: nat, j: nat, k: nat, totl: nat)
    requires Partial(now, was, start, items, totl) && items != [] && Sorted(items, 15)
    requires i < 2 && j < 3 && k < 51 && i * 0x8000 + Mask(items) < 0x1_0000
    ensures var after := Splice(Splice(now, start, [(j * 64 + k) as Byte]), start + 1, Pair(i * 0x8000 + Mask(items)));
      GroupAdded(after, was, items, 153 * i + 51 * j + k, start, totl)
  {
    hide Splice, Pair, Payload, Mask, Sorted, Emitted;
    HeadSplices(now, start, [(j * 64 + k) as Byte], Pair(i * 0x8000 + Mask(items)), totl);
    EmittedParts(items, i, j, k);
  }

  lemma EmittedParts(items: seq<Item>, i: nat, j: nat, k: nat)
    requires items != [] && Sorted(items, 15) && i < 2 && j < 3 && k < 51 && i * 0x8000 + Mask(items) < 0x1_0000
    ensures Emitted(153 * i + 51 * j + k, items)
         == [(j * 64 + k) as Byte] + Pair(i * 0x8000 + Mask(items)) + Payload(items)
  {
    PlaceParts(i, j, k, items);
    hide Sorted, Payload, Mask, Pair, Place;
  }

  /** Groups are numbered in the order of the three loops. */
  lemma PlaceParts(i: nat, j: nat, k: nat, items: seq<Item>)
    requires i < 2 && j < 3 && k < 51
    ensures Place(153 * i + 51 * j + k, items) == Group(i, j, k, items)
  {
    var t := 153 * i + 51 * j + k;
    ModuloUnique(t, 153, i, 51 * j + k);
    ModuloUnique(t, 51, 3 * i + j, k);
    ModuloUnique(3 * i + j, 3, i, j);
  }

  lemma ItemsNext(buf: seq<Word>, p: nat, m: nat)
    requires 2 * (p + m + 1) <= |buf|
    ensures var r := Items(buf, p, m);
      Items(buf, p, m + 1) == if buf[2 * (p + m)] != 0 then r + [Item(m, buf[2 * (p + m)], buf[2 * (p + m) + 1])] else r
  {}

  lemma StartsEmpty(was: seq<Byte>, buf: seq<Word>, p: nat, start: nat)
    requires 2 * p <= |buf| && start <= |was|
    ensures Items(buf, p, 0) == [] && Mask([]) == 0 && Partial(was, was, start, [], start)
  {}

  /** The record in the making: t groups have been considered; `was` is the buffer before the first of them. */
  ghost predicate Progress(now: seq<Byte>, was: seq<Byte>, buf: seq<Word>, width: nat, t: nat, totl: nat, grpnum: nat) {
    && 0 < width <= 15 && t <= GROUPS && 2 * Base(t, width) <= |buf|
    && |now| == |was| == CAPACITY && 9 <= totl <= 9 + 63 * t
    && now[..9] == was[..9]
    && now[9..totl] == Body(buf, width, t)
    && now[totl..] == was[totl..]
    && grpnum == |Groups(buf, width, t)|
  }

  lemma ProgressGrows(now: seq<Byte>, now': seq<Byte>, was: seq<Byte>, buf: seq<Word>, width: nat, t: nat,
                      totl: nat, totl': nat, grpnum: nat)
    requires Progress(now, was, buf, width, t, totl, grpnum) && t < GROUPS && 2 * Base(t + 1, width) <= |buf|
    requires GroupAdded(now', now, Items(buf, Base(t, width), width), t, totl, totl')
    ensures Progress(now', was, buf, width, t + 1, totl', if totl' == totl then grpnum else grpnum + 1)
  {
    BodyStep(buf, width, t);
    var items := Items(buf, Base(t, width), width);
    hide Body, Groups, Items, Emitted, Sorted, Base;
    PrefixGrows(now, now', 9, totl, totl', Emitted(t, items));
    SuffixShrinks(now, was, totl, totl');
  }

  lemma TableWidth(reso: nat)
    requires Resolution(reso)
    ensures 7 <= reso - 1 <= 15
  {}

  lemma TableFits(reso: nat)
    requires Resolution(reso)
    ensures 0 < reso - 1 <= 15 && 2 * Base(GROUPS, reso - 1) <= TABLE
  {
    BaseIsProduct(GROUPS, reso - 1);
  }

  lemma ProgressStarts(was: seq<Byte>, buf: seq<Word>, width: nat)
    requires |was| == CAPACITY && 0 < width <= 15
    ensures Base(0, width) == 0 && Progress(was, was, buf, width, 0, 9, 0)
  {}

  lemma Room(now: seq<Byte>, was: seq<Byte>, buf: seq<Word>, width: nat, t: nat, totl: nat, grpnum: nat)
    requires Progress(now, was, buf, width, t, totl, grpnum) && t < GROUPS && 2 * Base(GROUPS, width) <= |buf|
    ensures totl + 3 + 4 * width <= CAPACITY
    ensures Base(t + 1, width) == Base(t, width) + width && 2 * Base(t + 1, width) <= |buf|
  {
    hide Body, Groups;
    BaseMonotone(t + 1, GROUPS, width);
  }

  lemma ProgressAfter(now: seq<Byte>, now': seq<Byte>, was: seq<Byte>, buf: seq<Word>, width: nat, t: nat,
                      totl: nat, totl': nat, grpnum: nat)
    requires Progress(now, was, buf, width, t, totl, grpnum) && t < GROUPS && 2 * Base(t + 1, width) <= |buf|
    requires GroupAdded(now', now, Items(buf, Base(t, width), width), t, totl, totl')
    ensures var items := Items(buf, Base(t, width), width);
      Progress(now', was, buf, width, t + 1, totl', if |items| != 0 then grpnum + 1 else grpnum)
  {
    ProgressGrows(now, now', was, buf, width, t, totl, totl', grpnum);
    hide Progress, Items, Base, Groups, Sorted, Emitted, Place, Body;
  }

  class HarmFunc {
    const interbuf: array<Byte>

    constructor ()
      ensures interbuf.Length == CAPACITY && fresh(interbuf)
    {
      interbuf := new Byte[CAPACITY];
    }

    /** memcpy of a 16-bit number. */
    method PutPair(at: nat, w: Word)
      requires at + 2 <= interbuf.Length
      modifies interbuf
      ensures interbuf[..] == Splice(old(interbuf[..]), at, Pair(w))
    {
      interbuf[at], interbuf[at + 1] := w % 256, w / 256;
    }

    method PutByte(at: nat, b: Byte)
      requires at < interbuf.Length
      modifies interbuf
      ensures interbuf[..] == Splice(old(interbuf[..]), at, [b])
    {
      interbuf[at] := b;
    }

    /** One more item of a group. */
    method PackItem(ghost was: seq<Byte>, ghost start: nat, ghost items: seq<Item>, inter: nat, item: Item, at: nat)
      returns (totl: nat)
      requires Partial(interbuf[..], was, start, items, at) && (inter == 0 <==> items == [])
      requires at + (if items == [] then 7 else 4) <= interbuf.Length
      modifies interbuf
      ensures Partial(interbuf[..], was, start, items + [item], totl)
    {
      ghost var before := interbuf[..];
      totl := at;
      if inter == 0 {
        totl := totl + 3;
      }
      PutPair(totl, item.amp);
      totl := totl + 2;
      PutPair(totl, item.angle);
      totl := totl + 2;
      PartialGrows(before, was, start, items, item, at, totl - 4);
    }

    /** The head of a group goes into the gap in front of its values. */
    method PatchHead(ghost was: seq<Byte>, ghost start: nat, ghost items: seq<Item>, inter: nat, inum: nat,
                     i: nat, j: nat, k: nat, totl: nat)
      requires Partial(interbuf[..], was, start, items, totl) && items != [] && Sorted(items, 15)
      requires inum == |items| && inter == Mask(items) && i < 2 && j < 3 && k < 51
      modifies interbuf
      ensures GroupAdded(interbuf[..], was, items, 153 * i + 51 * j + k, start, totl)
    {
      hide Sorted, Payload, Mask, Pair, GroupAdded, Partial, Splice, Emitted;
      ghost var before := interbuf[..];
      Fifteen(items);
      PartialEnd(before, was, start, items, totl);
      PutByte(totl - inum * 4 - 3, j * 64 + k);
      PutPair(totl - inum * 4 - 2, i * 0x8000 + inter);
      HeadCompletes(before, was, start, items, i, j, k, totl);
    }

    /** The loop over the sub-bins of a group. */
    method PackItems(ghost was: seq<Byte>, buf: seq<Word>, p: nat, width: nat, start: nat)
      returns (totl: nat, inum: nat, inter: nat)
      requires 2 * (p + width) <= |buf| && start + 3 + 4 * width <= interbuf.Length && was == interbuf[..]
      modifies interbuf
      ensures inum == |Items(buf, p, width)| && inter == Mask(Items(buf, p, width))
      ensures Partial(interbuf[..], was, start, Items(buf, p, width), totl)
    {
      hide Items, Sorted, Payload, Mask, Or, Pow2;
      StartsEmpty(was, buf, p, start);
      totl, inum, inter := start, 0, 0;
      for m := 0 to width
        invariant inum == |Items(buf, p, m)| && inter == Mask(Items(buf, p, m))
        invariant Partial(interbuf[..], was, start, Items(buf, p, m), totl)
      {
        ItemsNext(buf, p, m);
        if buf[2 * (p + m)] != 0 {
          var item := Item(m, buf[2 * (p + m)], buf[2 * (p + m) + 1]);
          MaskGrows(Items(buf, p, m), item);
          totl := PackItem(was, start, Items(buf, p, m), inter, item, totl);
          inum := inum + 1;
          inter := Or(inter, Pow2(m));
        }
      }
    }

    /**
     One group: its values go behind a gap of three bytes, which is filled when their number is known.
     i, j and k are the channel, the phase and the order.
     */
    method PackGroup(buf: seq<Word>, p: nat, reso: nat, i: nat, j: nat, k: nat, start: nat)
      returns (totl: nat, inum: nat)
      requires Resolution(reso) && 2 * (p + (reso - 1)) <= |buf| && start + 3 + 4 * (reso - 1) <= interbuf.Length
      requires i < 2 && j < 3 && k < 51
      modifies interbuf
      ensures GroupAdded(interbuf[..], old(interbuf[..]), Items(buf, p, reso - 1), 153 * i + 51 * j + k, start, totl)
      ensures inum == |Items(buf, p, reso - 1)|
    {
      hide Items, Sorted, Payload, Mask, GroupAdded, Partial;
      ghost var was := interbuf[..];
      var inter: nat;
      totl, inum, inter := PackItems(was, buf, p, reso - 1, start);
      ghost var items := Items(buf, p, reso - 1);
      SortedWidens(items, reso - 1, 15);
      if inum == 0 {
        PartialNone(interbuf[..], was, start, items, totl);
        NothingAdded(interbuf[..], was, 153 * i + 51 * j + k, start);
      } else {
        PatchHead(was, start, items, inter, inum, i, j, k, totl);
      }
    }

    /** The body of the loop over orders, for group t. */
    method NextGroup(ghost was: seq<Byte>, buf: seq<Word>, p: nat, reso: nat, ghost t: nat, i: nat, j: nat, k: nat,
                     start: nat, num: nat) returns (totl: nat, grpnum: nat)
      requires Resolution(reso) && i < 2 && j < 3 && k < 51 && t == 153 * i + 51 * j + k
      requires 2 * Base(GROUPS, reso - 1) <= |buf| && p == Base(t, reso - 1)
      requires Progress(interbuf[..], was, buf, reso - 1, t, start, num)
      modifies interbuf
      ensures Progress(interbuf[..], was, buf, reso - 1, t + 1, totl, grpnum)
      ensures p + (reso - 1) == Base(t + 1, reso - 1)
    {
      hide Base, Items, GroupAdded, Groups, Sorted, Emitted, Place, Body;
      ghost var now := interbuf[..];
      assert |now| == CAPACITY;
      TableWidth(reso);
      hide Progress, Resolution;
      Room(now, was, buf, reso - 1, t, start, num);
      var inum: nat;
      totl, inum := PackGroup(buf, p, reso, i, j, k, start);
      grpnum := if inum != 0 then num + 1 else num;
      ProgressAfter(now, interbuf[..], was, buf, reso - 1, t, start, totl, num);
    }

    /** The loop over the orders of a phase. */
    method PackPhase(ghost was: seq<Byte>, buf: seq<Word>, start: nat, reso: nat, i: nat, j: nat,
                     before: nat, num: nat) returns (totl: nat, grpnum: nat)
      requires Resolution(reso) && i < 2 && j < 3 && 2 * Base(GROUPS, reso - 1) <= |buf|
      requires start == Base(153 * i + 51 * j, reso - 1)
      requires Progress(interbuf[..], was, buf, reso - 1, 153 * i + 51 * j, before, num)
      modifies interbuf
      ensures Progress(interbuf[..], was, buf, reso - 1, 153 * i + 51 * (j + 1), totl, grpnum)
      ensures start + 51 * (reso - 1) == Base(153 * i + 51 * (j + 1), reso - 1)
    {
      hide Base, Progress;
      var p := start;
      totl, grpnum := before, num;
      for k := 0 to 51
        invariant p == start + k * (reso - 1) == Base(153 * i + 51 * j + k, reso - 1)
        invariant Progress(interbuf[..], was, buf, reso - 1, 153 * i + 51 * j + k, totl, grpnum)
      {
        totl, grpnum := NextGroup(was, buf, p, reso, 153 * i + 51 * j + k, i, j, k, totl, grpnum);
        p := p + (reso - 1);
      }
    }

    /** The loop over the phases of a channel. */
    method PackChannel(ghost was: seq<Byte>, buf: seq<Word>, start: nat, reso: nat, i: nat,
                       before: nat, num: nat) returns (totl: nat, grpnum: nat)
      requires Resolution(reso) && i < 2 && 2 * Base(GROUPS, reso - 1) <= |buf| && start == Base(153 * i, reso - 1)
      requires Progress(interbuf[..], was, buf, reso - 1, 153 * i, before, num)
      modifies interbuf
      ensures Progress(interbuf[..], was, buf, reso - 1, 153 * (i + 1), totl, grpnum)
      ensures start + 153 * (reso - 1) == Base(153 * (i + 1), reso - 1)
    {
      hide Base, Progress;
      var p := start;
      totl, grpnum := before, num;
      for j := 0 to 3
        invariant p == start + j * (51 * (reso - 1)) == Base(153 * i + 51 * j, reso - 1)
        invariant Progress(interbuf[..], was, buf, reso - 1, 153 * i + 51 * j, totl, grpnum)
      {
        totl, grpnum := PackPhase(was, buf, p, reso, i, j, totl, grpnum);
        p := p + 51 * (reso - 1);
      }
    }

    /** The loops over channels, phases and orders. */
    method PackAll(buf: seq<Word>, reso: nat) returns (totl: nat, grpnum: nat)
      requires Resolution(reso) && |buf| == TABLE && interbuf.Length == CAPACITY
      modifies interbuf
      ensures Progress(interbuf[..], old(interbuf[..]), buf, reso - 1, GROUPS, totl, grpnum)
    {
      ghost var was := interbuf[..];
      TableFits(reso);
      ProgressStarts(was, buf, reso - 1);
      hide Base, Progress;
      totl, grpnum := PackChannel(was, buf, 0, reso, 0, 9, 0);
      totl, grpnum := PackChannel(was, buf, 153 * (reso - 1), reso, 1, totl, grpnum);
    }

    /** The rest of the head of the record: length, resolution and number of groups. */
    method PutHead(ghost was: seq<Byte>, ghost buf: seq<Word>, ghost width: nat, resoId: Byte, totl: nat, grpnum: nat)
      requires Progress(interbuf[..], was, buf, width, GROUPS, totl, grpnum) && was[0..2] == Pair(HEAD)
      modifies interbuf
      ensures Recorded(interbuf[..], was, buf, width, resoId, totl)
    {
      ghost var before, gs := interbuf[..], Groups(buf, width, GROUPS);
      GroupsFit(buf, width, GROUPS);
      hide Groups, Base, Fits, Decode, EmitAll;
      PutPair(4, totl - 7);
      PutByte(6, resoId);
      PutPair(7, grpnum);
      HeadWritten(before, totl, totl - 7, resoId, grpnum);
      SamePart(before, was, 9, 0, 2);
      SamePart(before, was, 9, 2, 4);
      HeadDecodes(interbuf[..], totl, resoId, gs);
    }

    /** The record of the nonzero amplitudes of a table. Bytes 2 and 3 and those behind the record stay. */
    method PackRecord(buf: seq<Word>, reso: nat, resoId: Byte) returns (cnt: nat, ghost len: nat)
      requires Resolution(reso) && |buf| == TABLE && interbuf.Length == CAPACITY
      modifies interbuf
      ensures Recorded(interbuf[..], old(interbuf[..]), buf, reso - 1, resoId, len)
      ensures cnt == if Groups(buf, reso - 1, GROUPS) == [] then 0 else len
    {
      hide Recorded, Progress;
      TableFits(reso);
      ghost var before := interbuf[..];
      PutPair(0, HEAD);
      ghost var was := interbuf[..];
      SpliceHas(before, 0, Pair(HEAD));
      var totl, grpnum := PackAll(buf, reso);
      GroupCount(interbuf[..], was, buf, reso - 1, totl, grpnum);
      PutHead(was, buf, reso - 1, resoId, totl, grpnum);
      RecordedSince(interbuf[..], before, buf, reso - 1, resoId, totl);
      len := totl;
      cnt := if grpnum > 0 then totl else 0;
    }

    /**
     The record of a table: reading it back gives exactly the entries with a nonzero amplitude that the limit
     check passes, and nothing is reported when there are none.
     */
    method MakeInterStruct(frm: seq<Word>, over: Over, highest: nat, resoId: Byte)
      returns (cnt: nat, ghost len: nat, ghost buf: seq<Word>)
      requires |frm| == TABLE && resoId < 3 && interbuf.Length == CAPACITY
      modifies interbuf
      ensures var w := [7, 9, 15][resoId];
        && |Cut(frm, w, GROUPS)| <= |buf| == TABLE && len <= CAPACITY
        && Shown(buf, seq(TABLE, _ => 0), Cut(frm, w, GROUPS), over, w + 1, highest, 300)
        && Decode(interbuf[..len]).Record? && Decode(interbuf[..len]).resoId == resoId
        && Entries(Decode(interbuf[..len]).groups) == Nonzero(buf, w, Base(GROUPS, w))
        && cnt == (if Nonzero(buf, w, Base(GROUPS, w)) == [] then 0 else len)
    {
      var reso := [8, 10, 16][resoId];
      var tobuf := new Word[TABLE](_ => 0);
      assert tobuf[..] == seq(TABLE, _ => 0);
      InterLimitHdl(tobuf, frm, over, reso, highest);
      buf := tobuf[..];
      TableFits(reso);
      hide Shown, Cut, Decode, Nonzero, Groups, Entries, Base;
      cnt, len := PackRecord(tobuf[..], reso, resoId);
      GroupsMeanEntries(buf, reso - 1, GROUPS);
      GroupsAreNonzero(buf, reso - 1, GROUPS);
    }
  }

  lemma GroupCount(now: seq<Byte>, was: seq<Byte>, buf: seq<Word>, width: nat, totl: nat, grpnum: nat)
    requires Progress(now, was, buf, width, GROUPS, totl, grpnum) && 2 * Base(GROUPS, width) <= |buf|
    ensures grpnum == |Groups(buf, width, GROUPS)|
  {}

  /** The first `len` bytes are the record of a table; bytes 2 and 3 and those behind the record are as before. */
  ghost predicate Recorded(now: seq<Byte>, was: seq<Byte>, buf: seq<Word>, width: nat, resoId: Byte, len: nat) {
    && 2 * Base(GROUPS, width) <= |buf| && 9 <= len <= |now| == |was| == CAPACITY
    && Decode(now[..len]) == Record(resoId, Groups(buf, width, GROUPS))
    && now[2..4] == was[2..4] && now[len..] == was[len..]
  }

  lemma RecordedSince(now: seq<Byte>, was: seq<Byte>, buf: seq<Word>, width: nat, resoId: Byte, len: nat)
    requires |was| == CAPACITY && Recorded(now, Splice(was, 0, Pair(HEAD)), buf, width, resoId, len)
    ensures Recorded(now, was, buf, width, resoId, len)
  {
    var s := Splice(was, 0, Pair(HEAD));
    hide Decode, Groups, Base, Splice, Pair;
    SpliceKeeps(was, 0, Pair(HEAD), 2, 4);
    SpliceKeeps(was, 0, Pair(HEAD), len, CAPACITY);
    assert s[len..CAPACITY] == s[len..] && was[len..CAPACITY] == was[len..];
  }

  /** There are groups exactly when there are entries. */
  lemma {:induction false} GroupsMeanEntries(buf: seq<Word>, width: nat, t: nat)
    requires width > 0 && 2 * Base(t, width) <= |buf|
    ensures Groups(buf, width, t) == [] <==> Entries(Groups(buf, width, t)) == []
  {
    hide Groups, Base, Items, Sorted, Nonzero, Entries, Place;
    GroupsStep(buf, width, t);
    EntriesCount(t, []);
    if t > 0 {
      var items := Items(buf, Base(t - 1, width), width);
      EntriesCount(t - 1, items);
      GroupsMeanEntries(buf, width, t - 1);
      EntriesAppend(Groups(buf, width, t - 1), Place(t - 1, items));
    }
  }

  lemma EntriesCount(t: nat, items: seq<Item>)
    ensures Entries([]) == [] && |GroupEntries(Place(t, items))| == |items|
  {}

  lemma HeadKeeps(s: seq<Byte>, len: Word, resoId: Byte, grpnum: Word, lo: nat, hi: nat)
    requires lo <= hi <= |s| && 9 <= |s| && (hi <= 4 || 9 <= lo)
    ensures Splice(Splice(Splice(s, 4, Pair(len)), 6, [resoId]), 7, Pair(grpnum))[lo..hi] == s[lo..hi]
  {
    var t1 := Splice(s, 4, Pair(len));
    var t2 := Splice(t1, 6, [resoId]);
    SpliceKeeps(s, 4, Pair(len), lo, hi);
    SpliceKeeps(t1, 6, [resoId], lo, hi);
    SpliceKeeps(t2, 7, Pair(grpnum), lo, hi);
  }

  lemma HeadWritten(s: seq<Byte>, totl: nat, len: Word, resoId: Byte, grpnum: Word)
    requires 9 <= totl <= |s|
    ensures var t := Splice(Splice(Splice(s, 4, Pair(len)), 6, [resoId]), 7, Pair(grpnum));
      && t[0..2] == s[0..2] && t[2..4] == s[2..4] && t[4..6] == Pair(len) && t[6..7] == [resoId]
      && t[7..9] == Pair(grpnum) && t[9..totl] == s[9..totl] && t[totl..] == s[totl..]
  {
    var t1 := Splice(s, 4, Pair(len));
    var t2 := Splice(t1, 6, [resoId]);
    hide Splice, Pair;
    HeadKeeps(s, len, resoId, grpnum, 0, 2);
    HeadKeeps(s, len, resoId, grpnum, 2, 4);
    HeadKeeps(s, len, resoId, grpnum, 9, totl);
    HeadKeeps(s, len, resoId, grpnum, totl, |s|);
    SpliceHas(s, 4, Pair(len));
    SpliceKeeps(t1, 6, [resoId], 4, 6);
    SpliceKeeps(t2, 7, Pair(grpnum), 4, 6);
    SpliceHas(t1, 6, [resoId]);
    SpliceKeeps(t2, 7, Pair(grpnum), 6, 7);
    SpliceHas(t2, 7, Pair(grpnum));
  }

  lemma HeadDecodes(s: seq<Byte>, totl: nat, resoId: Byte, gs: seq<Group>)
    requires 9 <= totl <= |s| < 0x1_0000 && |gs| < 0x1_0000 && forall g | g in gs :: Fits(g)
    requires s[0..2] == Pair(HEAD) && s[4..6] == Pair(totl - 7) && s[6..7] == [resoId] && s[7..9] == Pair(|gs|)
    requires s[9..totl] == EmitAll(gs)
    ensures Decode(s[..totl]) == Record(resoId, gs)
  {
    assert s[0] == s[0..2][0] && s[1] == s[0..2][1];
    assert s[4] == s[4..6][0] && s[5] == s[4..6][1] && s[6] == s[6..7][0];
    assert s[7] == s[7..9][0] && s[8] == s[7..9][1];
    assert s[..totl][9..] == s[9..totl];
    ParseEmitted(gs, []);
    Neutral(EmitAll(gs));
  }

  lemma PartialEnd(now: seq<Byte>, was: seq<Byte>, start: nat, items: seq<Item>, totl: nat)
    requires Partial(now, was, start, items, totl) && items != []
    ensures totl == start + 3 + 4 * |items| <= |now|
  {}

  lemma PartialNone(now: seq<Byte>, was: seq<Byte>, start: nat, items: seq<Item>, totl: nat)
    requires Partial(now, was, start, items, totl) && |items| == 0
    ensures items == [] && totl == start
  {}

  lemma NothingAdded(now: seq<Byte>, was: seq<Byte>, t: nat, start: nat)
    requires Partial(now, was, start, [], start) && t < GROUPS
    ensures GroupAdded(now, was, [], t, start, start)
  {
    Neutral(was[..start]);
  }

  lemma MaskGrows(items: seq<Item>, item: Item)
    requires Sorted(items, item.sub)
    ensures Or(Mask(items), Pow2(item.sub)) == Mask(items + [item])
  {
    MaskBound(items, item.sub);
    OrDisjoint(1, Mask(items), item.sub);
    OrCommutes(Mask(items), Pow2(item.sub));
    assert (items + [item])[..|items|] == items;
  }
}
