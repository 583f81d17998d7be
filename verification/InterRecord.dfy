/**
 The record of interharmonics: amplitude and angle of every sub-bin with a nonzero amplitude, grouped by
 channel (voltage or current), phase and harmonic order, with a bit mask of the sub-bins of the group.
 */
module InterRecord {
  import opened Bits
  import opened Sequences

  type Word = x: int | 0 <= x < 0x1_0000

  const HEAD: Word := 0xcfce      // INTERH_RCD_HEAD
  const CAPACITY: nat := 19287    // size of interbuf_
  const GROUPS: nat := 306        // 2 channels, 3 phases, orders 0 to 50

  datatype Item = Item(sub: nat, amp: Word, angle: Word)
  datatype Group = Group(channel: nat, phase: nat, order: nat, items: seq<Item>)

  /** An interharmonic with its place, as a reader wants it back. */
  datatype Entry = Entry(channel: nat, phase: nat, order: nat, item: Item)

  // ---- What there is to record ----

  function Place(t: nat, items: seq<Item>): Group {
    Group(t / 153, t / 51 % 3, t % 51, items)
  }

  function At(g: Group, item: Item): Entry {
    Entry(g.channel, g.phase, g.order, item)
  }

  /** The entry that cell n of the table (an amplitude and an angle) stands for; each group has `width` cells. */
  function CellEntry(buf: seq<Word>, width: nat, n: nat): Entry
    requires width > 0 && 2 * n + 1 < |buf|
  {
    At(Place(n / width, []), Item(n % width, buf[2 * n], buf[2 * n + 1]))
  }

  /** The entries of the nonzero amplitudes among the first n cells, in the order of the table. */
  function Nonzero(buf: seq<Word>, width: nat, n: nat): seq<Entry>
    requires width > 0 && 2 * n <= |buf|
  {
    if n == 0 then []
    else Nonzero(buf, width, n - 1) + if buf[2 * n - 2] != 0 then [CellEntry(buf, width, n - 1)] else []
  }

  // ---- Groups ----

  /** The nonzero sub-bins among the first m cells from cell p on. */
  function Items(buf: seq<Word>, p: nat, m: nat): (r: seq<Item>)
    requires 2 * (p + m) <= |buf|
    ensures Sorted(r, m) && |r| <= m
  {
    if m == 0 then [] else
      var r := Items(buf, p, m - 1);
      SortedWidens(r, m - 1, m);
      if buf[2 * (p + m) - 2] != 0 then r + [Item(m - 1, buf[2 * (p + m) - 2], buf[2 * (p + m) - 1])] else r
  }

  /** Sub-bins ascend and stay below m. */
  ghost predicate Sorted(items: seq<Item>, m: nat)
    decreases |items|
  {
    items != [] ==> items[|items| - 1].sub < m && Sorted(items[..|items| - 1], items[|items| - 1].sub)
  }

  lemma SortedWidens(items: seq<Item>, m: nat, n: nat)
    requires Sorted(items, m) && m <= n
    ensures Sorted(items, n)
    ensures forall amp, angle | m < n :: Sorted(items + [Item(m, amp, angle)], n)
  {
    forall amp: Word, angle: Word | m < n ensures Sorted(items + [Item(m, amp, angle)], n) {
      assert (items + [Item(m, amp, angle)])[..|items|] == items;
    }
  }

  /** The first cell of group t. */
  function Base(t: nat, width: nat): nat {
    if t == 0 then 0 else Base(t - 1, width) + width
  }

  lemma {:induction false} CellOf(t: nat, width: nat, m: nat)
    requires m < width
    ensures (Base(t, width) + m) / width == t && (Base(t, width) + m) % width == m
  {
    BaseIsProduct(t, width);
    ModuloUnique(Base(t, width) + m, width, t, m);
  }

  lemma {:induction false} BaseIsProduct(t: nat, width: nat)
    ensures Base(t, width) == width * t
  {
    if t > 0 {
      BaseIsProduct(t - 1, width);
      assert width * t == width * (t - 1) + width;
    }
  }

  /** The groups with a nonzero amplitude among the first t. */
  function Groups(buf: seq<Word>, width: nat, t: nat): (gs: seq<Group>)
    requires 2 * Base(t, width) <= |buf|
    ensures |gs| <= t
  {
    if t == 0 then [] else
      var items := Items(buf, Base(t - 1, width), width);
      Groups(buf, width, t - 1) + if items != [] then [Place(t - 1, items)] else []
  }

  function GroupEntries(g: Group): seq<Entry> {
    seq(|g.items|, n requires 0 <= n < |g.items| => At(g, g.items[n]))
  }

  function Entries(gs: seq<Group>): seq<Entry> {
    if gs == [] then [] else Entries(gs[..|gs| - 1]) + GroupEntries(gs[|gs| - 1])
  }

  /** One group holds the nonzero cells of its part of the table. */
  lemma {:induction false} ItemsAreNonzero(buf: seq<Word>, width: nat, t: nat, m: nat)
    requires width > 0 && m <= width && 2 * (Base(t, width) + m) <= |buf|
    ensures Nonzero(buf, width, Base(t, width) + m)
         == Nonzero(buf, width, Base(t, width)) + GroupEntries(Place(t, Items(buf, Base(t, width), m)))
  {
    var p := Base(t, width);
    NoItems(Nonzero(buf, width, p), buf, p, t);
    hide Base, Place, GroupEntries, Nonzero, Sorted, Items, Cell;
    if m > 0 {
      ItemsAreNonzero(buf, width, t, m - 1);
      NonzeroStep(buf, width, t, m);
      ItemsStep(buf, p, t, m);
      Associates(Nonzero(buf, width, p), GroupEntries(Place(t, Items(buf, p, m - 1))), Cell(buf, p, t, m));
    }
  }

  /** The entry of sub-bin m - 1 in group t, if its amplitude is not zero. */
  function Cell(buf: seq<Word>, p: nat, t: nat, m: nat): seq<Entry>
    requires m > 0 && 2 * (p + m) <= |buf|
  {
    var c := 2 * (p + m) - 2;
    if buf[c] != 0 then [At(Place(t, []), Item(m - 1, buf[c], buf[c + 1]))] else []
  }

  lemma NoItems(before: seq<Entry>, buf: seq<Word>, p: nat, t: nat)
    requires 2 * p <= |buf|
    ensures before + GroupEntries(Place(t, Items(buf, p, 0))) == before
  {
    Neutral(before);
    assert GroupEntries(Place(t, Items(buf, p, 0))) == [];
  }

  lemma ItemsStep(buf: seq<Word>, p: nat, t: nat, m: nat)
    requires m > 0 && 2 * (p + m) <= |buf|
    ensures GroupEntries(Place(t, Items(buf, p, m)))
         == GroupEntries(Place(t, Items(buf, p, m - 1))) + Cell(buf, p, t, m)
  {}

  lemma NonzeroStep(buf: seq<Word>, width: nat, t: nat, m: nat)
    requires 0 < m <= width && 2 * (Base(t, width) + m) <= |buf|
    ensures Nonzero(buf, width, Base(t, width) + m)
         == Nonzero(buf, width, Base(t, width) + (m - 1)) + Cell(buf, Base(t, width), t, m)
  {
    CellOf(t, width, m - 1);
    assert CellEntry(buf, width, Base(t, width) + (m - 1)).item.sub == m - 1;
  }

  lemma EntriesAppend(gs: seq<Group>, g: Group)
    ensures Entries(gs + [g]) == Entries(gs) + GroupEntries(g)
  {
    assert (gs + [g])[..|gs|] == gs;
  }

  /** The groups hold the nonzero cells, each once and in order. */
  lemma {:induction false} GroupsAreNonzero(buf: seq<Word>, width: nat, t: nat)
    requires width > 0 && 2 * Base(t, width) <= |buf|
    ensures Entries(Groups(buf, width, t)) == Nonzero(buf, width, Base(t, width))
  {
    hide Nonzero, Place, Groups, Items, Base, Sorted, GroupEntries, Entries;
    GroupsStep(buf, width, t);
    if t > 0 {
      GroupsAreNonzero(buf, width, t - 1);
      ItemsAreNonzero(buf, width, t - 1, width);
      var gs, items := Groups(buf, width, t - 1), Items(buf, Base(t - 1, width), width);
      EntriesAppend(gs, Place(t - 1, items));
      Neutral(Entries(gs));
    }
  }

  lemma GroupsStep(buf: seq<Word>, width: nat, t: nat)
    requires width > 0 && 2 * Base(t, width) <= |buf|
    ensures t == 0 ==> Groups(buf, width, t) == [] && Entries(Groups(buf, width, t)) == Nonzero(buf, width, Base(t, width))
    ensures t > 0 ==>
      && Base(t, width) == Base(t - 1, width) + width
      && var items := Items(buf, Base(t - 1, width), width);
      && Groups(buf, width, t)
         == (if items != [] then Groups(buf, width, t - 1) + [Place(t - 1, items)] else Groups(buf, width, t - 1))
      && (items == [] ==> GroupEntries(Place(t - 1, items)) == [])
  {}
}
