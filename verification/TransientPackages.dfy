/**
 The packages of transient events, in a ring of event slots: what is to be sent, what overlap with new
 events skips, and the search for the next event with a file. Files are reduced to what decides the course:
 whether an event has one and how many packages it holds.
 */
module TransientPackages {
  import opened Bits
  import opened Sequences

  const WRAP: int := 0x1_0000_0000

  /** The voltage files: the number of packages of each event that has one. */
  type Files = nat -> int

  /** A package of an event; an index from the number of packages on is read past the end of the file. */
  datatype Package = Package(event: nat, index: nat)

  predicate Exists(files: Files, p: nat) {
    files(p) >= 0
  }

  // ---- Slots ----

  /** The slot at which a transfer ends. */
  function Anchor(pos: nat, num: nat, size: nat): (r: nat)
    requires size > 0
    ensures r < size
  {
    (pos + num) % size
  }

  /** The slot after pos. */
  function Next(pos: nat, size: nat): (r: nat)
    requires size > 0
    ensures r < size
  {
    (pos + 1) % size
  }

  /** Event p is being overwritten, or comes next: new events go to slot i. */
  predicate Overlaps(p: nat, i: nat, size: nat)
    requires size > 0 && i < size
  {
    (p + size - i) % size < 2
  }

  /** New events overlap with the slot they go to, and with the one after it. */
  lemma OverlapsTwo(p: nat, i: nat, size: nat)
    requires p < size && i < size
    ensures Overlaps(p, i, size) <==> p == i || p == Next(i, size)
  {
    if p >= i {
      ModuloUnique(p + size - i, size, 1, p - i);
    } else {
      ModuloUnique(p + size - i, size, 0, p + size - i);
    }
    ModuloUnique(i + 1, size, if i + 1 < size then 0 else 1, if i + 1 < size then i + 1 else 0);
  }

  lemma NextKeepsAnchor(pos: nat, num: nat, size: nat)
    requires size > 0 && num > 0
    ensures Anchor(Next(pos, size), num - 1, size) == Anchor(pos, num, size)
  {
    ModuloSum(pos + 1, num - 1, size);
  }

  lemma AnchorTwice(pos: nat, a: nat, b: nat, size: nat)
    requires size > 0
    ensures Anchor(Anchor(pos, a, size), b, size) == Anchor(pos, a + b, size)
  {
    ModuloSum(pos + a, b, size);
  }

  lemma AtAnchor(p: nat, size: nat)
    requires p < size
    ensures Anchor(p, 0, size) == p
  {
    ModuloUnique(p, size, 0, p);
  }

  /** Of the same transfer, events with different numbers of events left lie in different slots. */
  lemma OtherSlot(p: nat, n: nat, p': nat, n': nat, size: nat)
    requires size > 0 && n' < n < n' + size && Anchor(p, n, size) == Anchor(p', n', size)
    ensures p != p'
  {
    if p == p' {
      var q, q' := (p + n) / size, (p + n') / size;
      assert p + n == size * q + Anchor(p, n, size) && p + n' == size * q' + Anchor(p, n', size);
      assert n - n' == size * (q - q');
      SmallMultiple(n - n', size, q - q');
    }
  }

  lemma SmallMultiple(d: int, m: nat, k: int)
    requires 0 - m < d < m && d == m * k
    ensures d == 0
  {
    if k > 0 {
      TimesAtLeast(m, k);
    } else if k < 0 {
      TimesAtLeast(m, 0 - k);
    }
  }

  lemma {:induction false} TimesAtLeast(m: nat, k: nat)
    requires k > 0
    ensures m * k >= m
  {
    if k > 1 {
      TimesAtLeast(m, k - 1);
      assert m * k == m * (k - 1) + m;
    }
  }

  /** Adding k to an anchor moves it unless the ring size divides k. */
  lemma MovesAnchor(anchor: nat, k: nat, size: nat)
    requires size > 0 && anchor < size
    ensures Anchor(anchor, k, size) == anchor <==> k % size == 0
  {
    ModuloSum(k, anchor, size);
    var r := k % size;
    if r + anchor < size {
      ModuloUnique(r + anchor, size, 0, r + anchor);
    } else {
      ModuloUnique(r + anchor, size, 1, r + anchor - size);
    }
  }

  // ---- What is to be sent ----

  /** The packages of event p from number m to number n. */
  function Packages(p: nat, m: nat, n: nat): seq<Package>
    requires m <= n
  {
    seq(n - m, k requires 0 <= k => Package(p, m + k))
  }

  /** All packages of event p, if it has a file. */
  function Event(files: Files, p: nat): seq<Package> {
    if Exists(files, p) then Packages(p, 0, files(p)) else []
  }

  /** The packages of `num` events from slot pos on, in the order of sending. */
  function Todo(files: Files, pos: nat, num: nat, size: nat): seq<Package>
    requires size > 0
    decreases num
  {
    if num == 0 then [] else Event(files, pos) + Todo(files, Next(pos, size), num - 1, size)
  }

  // ---- Skipping ----

  /** The cursor, after skipping the events that overlap with new ones. */
  function Skip(pos: nat, num: nat, i: nat, size: nat): (nat, nat)
    requires size > 0 && i < size
    decreases num
  {
    if num > 0 && Overlaps(pos, i, size) then Skip(Next(pos, size), num - 1, i, size) else (pos, num)
  }

  /** The packages of the events skipped. */
  function Dropped(files: Files, pos: nat, num: nat, i: nat, size: nat): seq<Package>
    requires size > 0 && i < size
    decreases num
  {
    if num > 0 && Overlaps(pos, i, size) then Event(files, pos) + Dropped(files, Next(pos, size), num - 1, i, size)
    else []
  }

  lemma {:induction false} SkipKeepsAnchor(pos: nat, num: nat, i: nat, size: nat)
    requires size > 0 && i < size && pos < size
    ensures var (p, n) := Skip(pos, num, i, size);
      p < size && n <= num && Anchor(p, n, size) == Anchor(pos, num, size)
    decreases num
  {
    if num > 0 && Overlaps(pos, i, size) {
      SkipKeepsAnchor(Next(pos, size), num - 1, i, size);
      NextKeepsAnchor(pos, num, size);
    }
  }

  lemma {:induction false} SkipDrops(files: Files, pos: nat, num: nat, i: nat, size: nat)
    requires size > 0 && i < size
    ensures var (p, n) := Skip(pos, num, i, size);
      Todo(files, pos, num, size) == Dropped(files, pos, num, i, size) + Todo(files, p, n, size)
    decreases num
  {
    hide Event, Next, Overlaps;
    if num > 0 && Overlaps(pos, i, size) {
      SkipDrops(files, Next(pos, size), num - 1, i, size);
      var (p, n) := Skip(pos, num, i, size);
      Associates(Event(files, pos), Dropped(files, Next(pos, size), num - 1, i, size), Todo(files, p, n, size));
    } else {
      Neutral(Todo(files, pos, num, size));
    }
  }

  /** The next event with a file: the counter is decremented before it is tested for zero, and wraps. */
  function Find(files: Files, pos: nat, num: nat, size: nat): (nat, nat, bool)
    requires size > 0 && num < WRAP
    decreases if num == 0 then WRAP else num
  {
    if Exists(files, pos) then (pos, num, true)
    else if num == 1 then (Next(pos, size), 0, false)
    else Find(files, Next(pos, size), if num == 0 then WRAP - 1 else num - 1, size)
  }

  /** With an event left, the search drops only events without a file. */
  lemma {:induction false} FindKeeps(files: Files, pos: nat, num: nat, size: nat)
    requires size > 0 && pos < size && 0 < num < WRAP
    ensures var (p, n, open) := Find(files, pos, num, size);
      && p < size && n <= num && (n > 0 ==> open && Exists(files, p))
      && Anchor(p, n, size) == Anchor(pos, num, size) && Todo(files, p, n, size) == Todo(files, pos, num, size)
    decreases num
  {
    if !Exists(files, pos) {
      NextKeepsAnchor(pos, num, size);
      NoFile(files, pos, num, size);
      hide Todo, Anchor, Next, Exists;
      if num > 1 {
        FindKeeps(files, Next(pos, size), num - 1, size);
      }
    }
  }

  lemma NoFile(files: Files, pos: nat, num: nat, size: nat)
    requires size > 0 && num > 0 && !Exists(files, pos)
    ensures Todo(files, pos, num, size) == Todo(files, Next(pos, size), num - 1, size)
  {
    Neutral(Todo(files, Next(pos, size), num - 1, size));
  }

  /** With no event left, the search stops at once or goes round the ring with a counter of 2^32. */
  lemma FindWraps(files: Files, pos: nat, size: nat)
    requires size > 0 && pos < size
    ensures var (p, n, open) := Find(files, pos, 0, size);
      && p < size && n < WRAP && (n > 0 ==> open && Exists(files, p))
      && (Exists(files, pos) ==> p == pos && n == 0)
      && (!Exists(files, pos) ==> Anchor(p, n, size) == Anchor(pos, WRAP, size))
  {
    if !Exists(files, pos) {
      var all := WRAP;
      NextKeepsAnchor(pos, all, size);
      FindKeeps(files, Next(pos, size), all - 1, size);
    }
  }
}
