/**
 The limit check on interharmonics: the table is cut to the resolution in use, and only what lies in the
 window of an order over the limit is passed on. The comparison with the limit is a parameter.
 */
module InterLimit {
  import opened InterRecord

  const TABLE: nat := 9180    // cells of the full table, 6 * 51 * 30
  const ORDERS: nat := 50     // windows of a phase

  /** Is order k of a channel over the limit, given the amplitudes around it? */
  type Over = (nat, nat, seq<Word>) -> bool

  predicate Resolution(reso: nat) {
    reso == 8 || reso == 10 || reso == 16
  }

  // ---- Cutting the table ----

  /** The first t rows, cut to `width` cells each. */
  function Cut(frm: seq<Word>, width: nat, t: nat): (cut: seq<Word>)
    requires width <= 15 && 30 * t <= |frm|
    ensures |cut| == 2 * Base(t, width)
  {
    if t == 0 then [] else Cut(frm, width, t - 1) + frm[30 * (t - 1)..30 * (t - 1) + 2 * width]
  }

  /** Word b of the cut table, in row t, is word b of that row. */
  lemma {:induction false} CutAt(frm: seq<Word>, width: nat, n: nat, t: nat, b: nat)
    requires width <= 15 && 30 * n <= |frm| && t < n && b < 2 * width
    ensures 2 * Base(t, width) + b < 2 * Base(n, width)
    ensures Cut(frm, width, n)[2 * Base(t, width) + b] == frm[30 * t + b]
  {
    if t < n - 1 {
      CutAt(frm, width, n - 1, t, b);
    }
  }

  // ---- Windows ----

  /** Window s is the one around order s % 50 + 1 of phase s / 50. It starts in this row. */
  function Row(s: nat): nat {
    s / ORDERS * 51 + s % ORDERS
  }

  function Order(s: nat): nat {
    s % ORDERS + 1
  }

  function Gap(reso: nat): nat
    requires reso >= 2
  {
    reso / 2 - 1
  }

  /** The first cell of window s, without widening. */
  function Start(s: nat, reso: nat): nat
    requires reso >= 2
  {
    Base(Row(s), reso - 1) + Gap(reso)
  }

  /** The window of order 1 is widened to the left, that of the highest order to the right. */
  function Lo(s: nat, reso: nat): nat
    requires reso >= 2
  {
    if Order(s) == 1 then Start(s, reso) - Gap(reso) else Start(s, reso)
  }

  function Hi(s: nat, reso: nat, highest: nat): nat
    requires reso >= 2
  {
    Start(s, reso) + reso + if Order(s) == highest && Order(s) != 1 then Gap(reso) else 0
  }

  /** Windows stay in their phase; for an even resolution the widened last one ends exactly where it ends. */
  lemma WindowInPhase(s: nat, reso: nat, highest: nat)
    requires reso >= 2
    ensures Base(s / ORDERS * 51, reso - 1) <= Lo(s, reso) < Hi(s, reso, highest) <= Base(s / ORDERS * 51 + 51, reso - 1)
    ensures Order(s) == ORDERS == highest ==>
      (Hi(s, reso, highest) == Base(s / ORDERS * 51 + 51, reso - 1) <==> reso % 2 == 0)
    ensures Order(s) == 1 ==> Lo(s, reso) == Base(s / ORDERS * 51, reso - 1)
  {
    var first, w := s / ORDERS * 51, reso - 1;
    BaseMonotone(first, Row(s), w);
    BaseMonotone(Row(s) + 2, first + 51, w);
    assert Base(Row(s) + 2, w) == Base(Row(s), w) + 2 * w by {
      assert Base(Row(s) + 2, w) == Base(Row(s) + 1, w) + w;
    }
  }

  /**
     The cell of sub-bin b behind order r stands for the frequency r + (b + 1) / reso, in multiples of the fundamental.
     The window of order k holds those from k - 1/2 to k + 1/2. It begins at 0 if k is 1, and goes on to k + 1 if k is
     the highest order.
   */
  lemma WindowCells(p: nat, k: nat, r: nat, b: nat, reso: nat, highest: nat)
    requires Resolution(reso) && 1 <= k <= 50 && r < 51 && b < reso - 1
    ensures var s, q := 50 * p + (k - 1), Base(51 * p + r, reso - 1) + b;
      var x: int := 2 * (reso * (r - k) + b + 1);
      && (Start(s, reso) <= q < Start(s, reso) + reso <==> 0 - reso <= x <= reso)
      && (Lo(s, reso) <= q < Hi(s, reso, highest) <==>
            (k == 1 || 0 - reso <= x) && (x <= reso || (k == highest && k != 1 && r == k)))
  {
    PlaceOf(p, k);
    var first, w := 51 * p, reso - 1;
    BaseApart(first + (k - 1), first + r, w);
    hide Base, Row, Order;
    RowsApart(r, k, reso);
  }

  lemma RowsApart(r: nat, k: nat, reso: nat)
    requires Resolution(reso)
    ensures r - k >= 1 ==> reso * (r - k) >= reso && (reso - 1) * (r - (k - 1)) >= 2 * (reso - 1)
    ensures r - k <= -2 ==> reso * (r - k) <= -2 * reso && (reso - 1) * (r - (k - 1)) <= 1 - reso
    ensures r == k ==> (reso - 1) * (r - (k - 1)) == reso - 1
  {}

  lemma BaseApart(t: nat, u: nat, width: nat)
    ensures Base(u, width) - Base(t, width) == width * (u - t)
  {
    BaseIsProduct(t, width);
    BaseIsProduct(u, width);
    assert width * u - width * t == width * (u - t);
  }

  lemma {:induction false} BaseMonotone(t: nat, u: nat, width: nat)
    requires t <= u
    ensures Base(t, width) <= Base(u, width)
    decreases u
  {
    if t < u {
      BaseMonotone(t, u - 1, width);
    }
  }

  function Amplitudes(cut: seq<Word>, start: nat, n: nat): (amps: seq<Word>)
    requires 2 * (start + n) <= |cut|
    ensures |amps| == n && forall m | 0 <= m < n :: amps[m] == cut[2 * (start + m)]
  {
    if n == 0 then [] else Amplitudes(cut, start, n - 1) + [cut[2 * (start + n - 1)]]
  }

  /** The cut of a full table. */
  predicate Table(cut: seq<Word>, reso: nat)
    requires reso > 0
  {
    |cut| == 2 * Base(GROUPS, reso - 1)
  }

  /** All windows lie in the table. */
  lemma WindowInTable(s: nat, reso: nat, highest: nat)
    requires reso >= 2 && s < 300
    ensures Start(s, reso) + reso <= Hi(s, reso, highest) <= Base(GROUPS, reso - 1)
  {
    WindowInPhase(s, reso, highest);
    BaseMonotone(s / ORDERS * 51 + 51, GROUPS, reso - 1);
  }

  /** Is the order of window s over the limit? */
  predicate IsOver(cut: seq<Word>, over: Over, reso: nat, s: nat)
    requires reso >= 2 && s < 300 && Table(cut, reso)
  {
    WindowInTable(s, reso, 0);
    over(s / 150, Order(s), Amplitudes(cut, Start(s, reso), reso))
  }

  /** Cell q lies in window s, and its order is over the limit. */
  predicate Shows(cut: seq<Word>, over: Over, reso: nat, highest: nat, s: nat, q: nat)
    requires reso >= 2 && s < 300 && Table(cut, reso)
  {
    Lo(s, reso) <= q < Hi(s, reso, highest) && IsOver(cut, over, reso, s)
  }

  /** Cell q is shown by one of the first n windows. */
  ghost predicate Covered(cut: seq<Word>, over: Over, reso: nat, highest: nat, n: nat, q: nat)
    requires reso >= 2 && n <= 300 && Table(cut, reso)
  {
    exists s | 0 <= s < n :: Shows(cut, over, reso, highest, s, q)
  }

  // ---- The check ----

  /** The table is cut row by row. */
  method CutTable(frm: seq<Word>, reso: nat) returns (cut: seq<Word>)
    requires Resolution(reso) && |frm| == TABLE
    ensures cut == Cut(frm, reso - 1, GROUPS)
  {
    cut := [];
    for t := 0 to GROUPS
      invariant cut == Cut(frm, reso - 1, t)
    {
      var row := [];
      for k := 0 to (reso - 1) * 2
        invariant row == frm[30 * t..30 * t + k]
      {
        row := row + [frm[30 * t + k]];
      }
      cut := cut + row;
    }
  }

  /** memcpy of n cells from one place of the table to the same place of another. */
  method CopyCells(to: array<Word>, from: seq<Word>, at: nat, n: nat)
    requires 2 * (at + n) <= |from| <= to.Length
    modifies to
    ensures forall c | 0 <= c < to.Length :: to[c] == if 2 * at <= c < 2 * (at + n) then from[c] else old(to[c])
  {
    for k := 2 * at to 2 * (at + n)
      invariant forall c | 0 <= c < to.Length :: to[c] == if 2 * at <= c < k then from[c] else old(to[c])
    {
      to[k] := from[k];
    }
  }

  /** What `to` holds after n windows: the cut table where one of them shows it, and as before elsewhere. */
  ghost predicate Shown(to: seq<Word>, was: seq<Word>, cut: seq<Word>, over: Over, reso: nat, highest: nat, n: nat)
    requires reso >= 2 && n <= 300 && Table(cut, reso) && |to| == |was|
  {
    forall c | 0 <= c < |to| ::
      to[c] == if c < |cut| && Covered(cut, over, reso, highest, n, c / 2) then cut[c] else was[c]
  }

  /** One order: if it is over the limit, its window is copied. `pos` is where the source's pointers are. */
  method OneOrder(to: array<Word>, ghost was: seq<Word>, cut: seq<Word>, over: Over, reso: nat, highest: nat,
                  ghost s: nat, i: nat, k: nat, pos: nat)
    requires Resolution(reso) && s < 300 && Table(cut, reso) && |cut| <= to.Length == |was|
    requires i == s / 150 && k == Order(s) && pos == Start(s, reso)
    requires Shown(to[..], was, cut, over, reso, highest, s)
    modifies to
    ensures Shown(to[..], was, cut, over, reso, highest, s + 1)
  {
    WindowInTable(s, reso, highest);
    hide Base, Row;
    ghost var before := to[..];
    var ignore := reso / 2 - 1;
    if over(i, k, Amplitudes(cut, pos, reso)) {
      if k == 1 {
        CopyCells(to, cut, pos - ignore, reso + ignore);
      } else if k == highest {
        CopyCells(to, cut, pos, reso + ignore);
      } else {
        CopyCells(to, cut, pos, reso);
      }
    }
    OneMore(to[..], before, was, cut, over, reso, highest, s);
  }

  lemma OneMore(to: seq<Word>, before: seq<Word>, was: seq<Word>, cut: seq<Word>, over: Over, reso: nat, highest: nat, s: nat)
    requires Resolution(reso) && s < 300 && Table(cut, reso) && |cut| <= |to| == |before| == |was|
    requires Shown(before, was, cut, over, reso, highest, s)
    requires forall c | 0 <= c < |to| ::
      to[c] == if c < |cut| && Shows(cut, over, reso, highest, s, c / 2) then cut[c] else before[c]
    ensures Shown(to, was, cut, over, reso, highest, s + 1)
  {
    hide Shows;
    forall c | 0 <= c < |cut|
      ensures Covered(cut, over, reso, highest, s + 1, c / 2)
         <==> Covered(cut, over, reso, highest, s, c / 2) || Shows(cut, over, reso, highest, s, c / 2)
    {
    }
  }

  lemma PlaceOf(p: nat, k: nat)
    requires 1 <= k <= 50
    ensures var s := 50 * p + (k - 1); Row(s) == 51 * p + (k - 1) && Order(s) == k && s / 150 == p / 3
  {}

  /** The fifty orders of phase p. */
  method OnePhase(to: array<Word>, ghost was: seq<Word>, cut: seq<Word>, over: Over, reso: nat, highest: nat,
                  ghost p: nat, i: nat, start: nat) returns (pos: nat)
    requires Resolution(reso) && p < 6 && Table(cut, reso) && |cut| <= to.Length == |was|
    requires i == p / 3 && start == Base(51 * p, reso - 1) + Gap(reso)
    requires Shown(to[..], was, cut, over, reso, highest, 50 * p)
    modifies to
    ensures pos == Base(51 * (p + 1), reso - 1) + Gap(reso)
    ensures Shown(to[..], was, cut, over, reso, highest, 50 * (p + 1))
  {
    hide Shown, Row, Order;
    pos := start;
    for k := 1 to 51
      invariant pos == Base(51 * p + (k - 1), reso - 1) + Gap(reso)
      invariant Shown(to[..], was, cut, over, reso, highest, 50 * p + (k - 1))
    {
      PlaceOf(p, k);
      OneOrder(to, was, cut, over, reso, highest, 50 * p + (k - 1), i, k, pos);
      pos := pos + (reso - 1);
    }
    pos := pos + (reso - 1);
  }

  /** Every word is that of the cut table where a window over the limit covers it, and as before elsewhere. */
  method InterLimitHdl(to: array<Word>, frm: seq<Word>, over: Over, reso: nat, highest: nat)
    requires Resolution(reso) && |frm| == TABLE && to.Length == TABLE
    modifies to
    ensures |Cut(frm, reso - 1, GROUPS)| <= TABLE
    ensures Shown(to[..], old(to[..]), Cut(frm, reso - 1, GROUPS), over, reso, highest, 300)
  {
    var cut := CutTable(frm, reso);
    BaseIsProduct(GROUPS, reso - 1);
    hide Base, Shows, Cut;
    ghost var was := to[..];
    var pos := reso / 2 - 1;
    FromStart(reso);
    for i := 0 to 2
      invariant pos == Base(51 * (3 * i), reso - 1) + Gap(reso)
      invariant Shown(to[..], was, cut, over, reso, highest, 50 * (3 * i))
    {
      for j := 0 to 3
        invariant pos == Base(51 * (3 * i + j), reso - 1) + Gap(reso)
        invariant Shown(to[..], was, cut, over, reso, highest, 50 * (3 * i + j))
      {
        pos := OnePhase(to, was, cut, over, reso, highest, 3 * i + j, i, pos);
      }
    }
  }

  lemma FromStart(reso: nat)
    requires reso >= 2
    ensures Base(0, reso - 1) == 0
  {}
}
