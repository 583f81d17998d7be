/**
 The circular log of transient events: a capped binary search with a linear finish finds the events
 of a time interval. Events are numbered from the newest, which is number 1.
 */
module TransientLog {
  import opened Bits

  datatype TimeVal = TimeVal(sec: int, usec: int)

  predicate NotAfter(a: TimeVal, b: TimeVal) {
    a.sec < b.sec || (a.sec == b.sec && a.usec <= b.usec)
  }

  /** A time is usual if its microseconds make less than a second. */
  predicate Usual(t: TimeVal) {
    0 <= t.usec < 1_000_000
  }

  function Micros(t: TimeVal): int {
    t.sec * 1_000_000 + t.usec
  }

  /** The comparison of seconds first and microseconds second is that of the whole times. */
  lemma ComparesMicros(a: TimeVal, b: TimeVal)
    requires Usual(a) && Usual(b)
    ensures NotAfter(a, b) <==> a.sec * 1_000_000 + a.usec <= b.sec * 1_000_000 + b.usec
  {}

  /** The ring slot of event num, when the next event goes to slot pos. */
  function Slot(pos: nat, num: nat, size: nat): int {
    if pos >= num then pos - num else pos + size - num
  }

  /** Event num lies num slots before the next one, around the ring. */
  lemma SlotsBack(pos: nat, num: nat, size: nat)
    requires pos < size && 1 <= num <= size
    ensures 0 <= Slot(pos, num, size) < size && (Slot(pos, num, size) + num) % size == pos
  {
    ModuloUnique(Slot(pos, num, size) + num, size, if pos >= num then 0 else 1, pos);
  }

  /** The log: a ring of event times, how many of them are events, and the slot of the next event. */
  datatype Log = Log(times: seq<TimeVal>, tol: nat, pos: nat) {
    predicate Valid() {
      tol <= |times| < 0x1_0000_0000 && pos < |times|
    }

    /** The time of event num. */
    function At(num: nat): TimeVal
      requires Valid() && 1 <= num <= tol
    {
      times[Slot(pos, num, |times|)]
    }

    /** No event has a later time than a newer one. */
    ghost predicate Sorted()
      requires Valid()
    {
      forall a, b | 1 <= a < b <= tol :: NotAfter(At(b), At(a))
    }

    /** No two events have the same time. */
    ghost predicate Distinct()
      requires Valid()
    {
      forall a, b | 1 <= a < b <= tol :: At(a) != At(b)
    }

    /** Twelve halvings are enough, or no search meets the same time twice. */
    ghost predicate Searchable()
      requires Valid()
    {
      Sorted() && (tol <= 4097 || Distinct())
    }
  }

  // ---- What a search finds ----

  /** How many events from 1 to n are later than `time`. */
  function Later(log: Log, time: TimeVal, n: nat): (r: nat)
    requires log.Valid() && n <= log.tol
    ensures r <= n
  {
    if n == 0 then 0 else Later(log, time, n - 1) + if NotAfter(log.At(n), time) then 0 else 1
  }

  /** How many events from 1 to n are not before `time`. */
  function Since(log: Log, time: TimeVal, n: nat): (r: nat)
    requires log.Valid() && n <= log.tol
    ensures Later(log, time, n) <= r <= n
  {
    if n == 0 then 0 else Since(log, time, n - 1) + if NotAfter(time, log.At(n)) then 1 else 0
  }

  /** The events later than a time, and those not before it, are the newest ones. */
  lemma {:induction false} Newest(log: Log, time: TimeVal, n: nat)
    requires log.Valid() && log.Sorted() && n <= log.tol
    ensures forall k | 1 <= k <= n :: !NotAfter(log.At(k), time) <==> k <= Later(log, time, n)
    ensures forall k | 1 <= k <= n :: NotAfter(time, log.At(k)) <==> k <= Since(log, time, n)
  {
    if n > 0 {
      Newest(log, time, n - 1);
    }
  }

  /** The head that is found for a start: of several events at that time, one or two are seen. */
  function Head(log: Log, time: TimeVal): (r: nat)
    requires log.Valid()
    ensures r <= Since(log, time, log.tol)
  {
    var later, since := Later(log, time, log.tol), Since(log, time, log.tol);
    if later == 0 then (if since > 2 then 2 else since) else if since > later then later + 1 else later
  }

  /** Event h is the oldest one not before `time`. */
  predicate Oldest(log: Log, time: TimeVal, h: nat)
    requires log.Valid()
  {
    1 <= h <= log.tol && NotAfter(time, log.At(h)) && forall k | h < k <= log.tol :: !NotAfter(time, log.At(k))
  }

  /** The head is the oldest event not before the start exactly when at most one has that time, or the first two. */
  lemma HeadIsOldest(log: Log, time: TimeVal)
    requires log.Valid() && log.Sorted() && Since(log, time, log.tol) > 0
    ensures var later, since := Later(log, time, log.tol), Since(log, time, log.tol);
      Oldest(log, time, Head(log, time)) <==> since - later <= 1 || (later == 0 && since == 2)
  {
    Newest(log, time, log.tol);
    assert NotAfter(time, log.At(Since(log, time, log.tol)));
  }

  lemma {:induction false} OnceAtMost(log: Log, time: TimeVal, n: nat)
    requires log.Valid() && log.Sorted() && log.Distinct() && n <= log.tol
    ensures Since(log, time, n) <= Later(log, time, n) + 1
  {
    Newest(log, time, n);
    var later := Later(log, time, n);
    if later + 2 <= n {
      assert log.At(later + 1) != log.At(later + 2);
    }
  }

  /** The capped binary search: the last event later than the time, and the one after it, lie from min to max. */
  method Narrow(log: Log, time: TimeVal) returns (min: nat, max: nat)
    requires log.Valid() && log.Searchable() && log.tol > 0
    ensures 1 <= min <= max <= log.tol && (max == min ==> log.tol == 1)
    ensures var later := Later(log, time, log.tol); (min == 1 || min <= later) && (max == log.tol || max > later)
    ensures log.Distinct() || max <= min + 1
  {
    min, max := 1, log.tol;
    var num, i := (min + max) / 2, 0;
    Newest(log, time, log.tol);
    assert Pow2(12) == 4096;
    while i < 12
      invariant 0 <= i <= 12 && 1 <= min <= max <= log.tol && num == (min + max) / 2 && (max == min ==> log.tol == 1)
      invariant min == 1 || min <= Later(log, time, log.tol)
      invariant max == log.tol || max > Later(log, time, log.tol)
      invariant log.tol <= 4097 ==> max - min <= Pow2(12 - i)
    {
      if max - min <= 1 {
        break;
      }
      if NotAfter(log.At(num), time) {
        max := num;
      } else {
        min := num;
      }
      num := (min + max) / 2;
      i := i + 1;
    }
  }

  /** locate_transt_pos: the head for a start time, or with `end` the newest event not after the time. */
  method LocateTranstPos(log: Log, time: TimeVal, end: bool) returns (num: int)
    requires log.Valid() && log.Searchable() && log.tol > 0
    ensures num == if end then Later(log, time, log.tol) + 1 else Head(log, time)
  {
    var min, max := Narrow(log, time);
    Newest(log, time, log.tol);
    hide Later, Since, NotAfter;
    if end {
      num := min;
      while num <= max
        invariant min <= num <= max + 1 && (num > min ==> num <= Later(log, time, log.tol) + 1)
      {
        if NotAfter(log.At(num), time) {
          return;
        }
        num := num + 1;
      }
    } else {
      if log.Distinct() {
        OnceAtMost(log, time, log.tol);
      }
      num := max;
      while num >= min
        invariant min - 1 <= num <= max && (num < max ==> num >= Since(log, time, log.tol))
      {
        if NotAfter(time, log.At(num)) {
          return;
        }
        num := num - 1;
      }
    }
  }

  // ---- What is counted ----

  /** How many events from 1 to n are not before lo and not after hi. */
  function Count(log: Log, lo: TimeVal, hi: TimeVal, n: nat): nat
    requires log.Valid() && n <= log.tol
  {
    if n == 0 then 0
    else Count(log, lo, hi, n - 1) + if NotAfter(lo, log.At(n)) && NotAfter(log.At(n), hi) then 1 else 0
  }

  /** How many events from 1 to n lie strictly between two times. */
  function Between(log: Log, lo: TimeVal, hi: TimeVal, n: nat): nat
    requires log.Valid() && n <= log.tol
  {
    if n == 0 then 0
    else Between(log, lo, hi, n - 1) + if !NotAfter(log.At(n), lo) && !NotAfter(hi, log.At(n)) then 1 else 0
  }

  /** An interval holds the difference of two ranks, and with the ends exchanged the gap does. */
  lemma {:induction false} Tallies(log: Log, lo: TimeVal, hi: TimeVal, n: nat)
    requires log.Valid() && n <= log.tol
    ensures NotAfter(lo, hi) ==>
      && Count(log, lo, hi, n) == Since(log, lo, n) - Later(log, hi, n)
      && Later(log, hi, n) <= Later(log, lo, n)
    ensures !NotAfter(lo, hi) ==>
      Count(log, lo, hi, n) == 0 && Between(log, hi, lo, n) == Later(log, hi, n) - Since(log, lo, n)
  {
    if n > 0 {
      Tallies(log, lo, hi, n - 1);
    }
  }

  /** There is an event not before `lo`, and one not after `hi`. */
  predicate Reached(log: Log, lo: TimeVal, hi: TimeVal)
    requires log.Valid()
  {
    && (exists k :: 1 <= k <= log.tol && NotAfter(lo, log.At(k)))
    && (exists k :: 1 <= k <= log.tol && NotAfter(log.At(k), hi))
  }

  lemma ReachedRanks(log: Log, lo: TimeVal, hi: TimeVal)
    requires log.Valid() && log.Sorted()
    ensures Reached(log, lo, hi) <==> Since(log, lo, log.tol) > 0 && Later(log, hi, log.tol) < log.tol
  {
    Newest(log, lo, log.tol);
    Newest(log, hi, log.tol);
    if Since(log, lo, log.tol) > 0 && Later(log, hi, log.tol) < log.tol {
      assert NotAfter(lo, log.At(1)) && NotAfter(log.At(log.tol), hi);
    }
  }

  /** The events at the start time that the search does not see. */
  function Missed(log: Log, start: TimeVal): nat
    requires log.Valid()
  {
    Since(log, start, log.tol) - Head(log, start)
  }

  /** The 32-bit number that is returned. With the ends exchanged, it is short by the events between them. */
  ghost function Stat(log: Log, start: TimeVal, end: TimeVal): int
    requires log.Valid()
  {
    if NotAfter(start, end) then Count(log, start, end, log.tol) - Missed(log, start)
    else if Reached(log, start, end) then
      (0x1_0000_0000 - Between(log, end, start, log.tol) - Missed(log, start)) % 0x1_0000_0000
    else 0
  }

  /** stat_transt: the number of events of the interval, and the slot of its head. */
  method StatTranst(log: Log, start: TimeVal, end: TimeVal, eventPos: nat) returns (num: nat, eventPos': nat)
    requires log.Valid() && log.Searchable()
    ensures num == Stat(log, start, end) && num < 0x1_0000_0000
    ensures eventPos' ==
      if Reached(log, start, end) then Slot(log.pos, Head(log, start), |log.times|) else eventPos
    ensures Reached(log, start, end) ==> eventPos' < |log.times|
  {
    hide NotAfter, Between, Count, Reached, Stat, Head, Later, Since;
    num, eventPos' := 0, eventPos;
    Difference(log, start, end);
    if log.tol == 0 {
      return;
    }
    var head := LocateTranstPos(log, start, false);
    if head < 1 {
      return;
    }
    var tail := LocateTranstPos(log, end, true);
    if tail > log.tol {
      return;
    }
    num := (head - tail + 1) % 0x1_0000_0000;
    eventPos' := if log.pos >= head then log.pos - head else log.pos + |log.times| - head;
  }

  /** The number returned is the difference of the two ends found. */
  lemma Difference(log: Log, start: TimeVal, end: TimeVal)
    requires log.Valid() && log.Sorted()
    ensures var head, later := Head(log, start), Later(log, end, log.tol);
      && (Reached(log, start, end) <==> head > 0 && later < log.tol)
      && (log.tol == 0 ==> !Reached(log, start, end))
      && head <= log.tol
      && Stat(log, start, end) == if Reached(log, start, end) then (head - later) % 0x1_0000_0000 else 0
  {
    ReachedRanks(log, start, end);
    Tallies(log, start, end, log.tol);
  }

  /** It is the number of events in the interval exactly when the ends are in order and no event is missed. */
  lemma CountsExactly(log: Log, start: TimeVal, end: TimeVal)
    requires log.Valid() && log.Sorted()
    ensures Stat(log, start, end) == Count(log, start, end, log.tol) <==>
            !Reached(log, start, end) ||
            ((NotAfter(start, end) || Between(log, end, start, log.tol) == 0) && Missed(log, start) == 0)
  {
    ReachedRanks(log, start, end);
    Tallies(log, start, end, log.tol);
  }

  /** How many events from 1 to n are not before `lo` and not after `hi`, both in microseconds. */
  function CountMicros(log: Log, lo: int, hi: int, n: nat): nat
    requires log.Valid() && n <= log.tol
  {
    if n == 0 then 0
    else CountMicros(log, lo, hi, n - 1) + if lo <= Micros(log.At(n)) <= hi then 1 else 0
  }

  lemma {:induction false} CountsMicros(log: Log, lo: TimeVal, hi: TimeVal, n: nat)
    requires log.Valid() && n <= log.tol && Usual(lo) && Usual(hi) && forall k | 1 <= k <= n :: Usual(log.At(k))
    ensures Count(log, lo, hi, n) == CountMicros(log, Micros(lo), Micros(hi), n)
  {
    hide NotAfter;
    if n > 0 {
      CountsMicros(log, lo, hi, n - 1);
      ComparesMicros(lo, log.At(n));
      ComparesMicros(log.At(n), hi);
    }
  }

  /** The events of an interval are counted by their times in microseconds, all of them if no two have the same time. */
  lemma StatInMicros(log: Log, start: TimeVal, end: TimeVal)
    requires log.Valid() && log.Sorted() && forall k | 1 <= k <= log.tol :: Usual(log.At(k))
    requires Usual(start) && Usual(end) && Micros(start) <= Micros(end)
    ensures Stat(log, start, end) == CountMicros(log, Micros(start), Micros(end), log.tol) - Missed(log, start)
    ensures log.Distinct() ==> Missed(log, start) == 0
  {
    ComparesMicros(start, end);
    CountsMicros(log, start, end, log.tol);
    if log.Distinct() {
      OnceAtMost(log, start, log.tol);
    }
  }

  /** Two events, with the later one at the earlier microsecond: both are counted. */
  lemma MicrosecondsBelow()
    ensures var log := Log([TimeVal(10, 200), TimeVal(20, 100)], 2, 0);
      log.Valid() && log.Searchable() && Stat(log, TimeVal(5, 500), TimeVal(30, 50)) == 2
  {
    var log := Log([TimeVal(10, 200), TimeVal(20, 100)], 2, 0);
    assert log.At(1) == TimeVal(20, 100) && log.At(2) == TimeVal(10, 200);
    assert Later(log, TimeVal(5, 500), 2) == 2;
    assert Count(log, TimeVal(5, 500), TimeVal(30, 50), 2) == 2;
  }

  /** Between exchanged ends lies one event, and 2^32 - 1 is returned for none. */
  lemma ExchangedEnds()
    ensures var log := Log([TimeVal(1, 0), TimeVal(2, 0), TimeVal(3, 0)], 3, 0);
      && log.Valid() && log.Searchable()
      && Stat(log, TimeVal(3, 0), TimeVal(1, 0)) == 0xffff_ffff && Count(log, TimeVal(3, 0), TimeVal(1, 0), 3) == 0
  {
    var log := Log([TimeVal(1, 0), TimeVal(2, 0), TimeVal(3, 0)], 3, 0);
    assert log.At(1) == TimeVal(3, 0) && log.At(2) == TimeVal(2, 0) && log.At(3) == TimeVal(1, 0);
    ReachedRanks(log, TimeVal(3, 0), TimeVal(1, 0));
  }

  /** Of three events at the start time and one after it, two are counted. */
  lemma EqualTimes()
    ensures var log := Log([TimeVal(1, 0), TimeVal(5, 0), TimeVal(5, 0), TimeVal(5, 0), TimeVal(9, 0)], 5, 0);
      && log.Valid() && log.Searchable() && Head(log, TimeVal(5, 0)) == 2
      && Stat(log, TimeVal(5, 0), TimeVal(9, 0)) == 2 && Count(log, TimeVal(5, 0), TimeVal(9, 0), 5) == 4
  {
    var log := Log([TimeVal(1, 0), TimeVal(5, 0), TimeVal(5, 0), TimeVal(5, 0), TimeVal(9, 0)], 5, 0);
    assert log.At(1) == TimeVal(9, 0) && log.At(2) == log.At(3) == log.At(4) == TimeVal(5, 0);
    assert log.At(5) == TimeVal(1, 0);
    assert Since(log, TimeVal(5, 0), 3) == 3 && Later(log, TimeVal(5, 0), 3) == 1;
    assert Count(log, TimeVal(5, 0), TimeVal(9, 0), 3) == 3;
  }
}
