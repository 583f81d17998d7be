/**
 The mask-indexed ring buffer. Head, tail and reading position are slot numbers that wrap by a
 bitwise AND with the capacity, a number 2^k - 1; one slot of the 2^k always stays free.
 */
module LoopBuffer {
  import opened Bits

  /** The rounding loop of the base constructor: the smallest 2^k - 1 that holds `size`, up to 0x1ffff. */
  method RoundCapacity(size: int) returns (cap: nat, ghost k: nat)
    ensures cap == Pow2(k) - 1
    ensures size <= 0 ==> cap == 0
    ensures 0 < size <= 0x1_ffff ==> cap / 2 < size <= cap
    ensures size > 0x1_ffff ==> cap == 0x1_ffff
  {
    k := 0;
    if size > 0 {
      cap, k := 0xffff, 16;
      Pow2Values();
      while size <= cap
        invariant cap == Pow2(k) - 1 && k <= 16
        invariant cap == 0xffff || size <= 2 * cap + 1
      {
        cap, k := cap / 2, k - 1;
      }
      cap, k := 2 * cap + 1, k + 1;
    } else {
      cap := 0;
    }
  }

  /** Slot i of a ring of n slots, for i within two rounds. */
  function Wrap(i: nat, n: nat): nat {
    if i < n then i else i - n
  }

  /** The slot at an offset from the tail; an offset past the last slot means the last but one. */
  function SeekSlot(tail: nat, offset: int, cap: nat): nat {
    (tail + if offset >= cap then cap - 1 else offset) % (cap + 1)
  }

  lemma SeekWraps(tail: nat, o: nat, cap: nat)
    requires tail <= cap && o < cap
    ensures SeekSlot(tail, o, cap) == Wrap(tail + o, cap + 1)
  {
    ModuloUnique(tail + o, cap + 1, if tail + o <= cap then 0 else 1, Wrap(tail + o, cap + 1));
  }

  /** One operation on a queue of at most cap elements that drops its oldest. */
  datatype Op<T> = Push(data: T) | Pop

  /** The queue, and everything that has left it so far. */
  datatype State<T> = State(queue: seq<T>, gone: seq<T>)

  function Step<T>(s: State<T>, cap: nat, op: Op<T>): State<T> {
    match op
    case Push(x) =>
      var all := s.queue + [x];
      if |s.queue| < cap then State(all, s.gone) else State(all[1..], s.gone + [all[0]])
    case Pop =>
      if s.queue == [] then s else State(s.queue[1..], s.gone + [s.queue[0]])
  }

  /** The slots of a ring from `from` up to, but not including, `to`. */
  function Span<T>(slots: seq<T>, from: nat, to: nat): (s: seq<T>)
    requires from < |slots| && to < |slots|
    ensures |s| == if from <= to then to - from else |slots| + to - from
  {
    seq(if from <= to then to - from else |slots| + to - from,
        i requires 0 <= i < |slots| => slots[Wrap(from + i, |slots|)])
  }

  lemma SpanAt<T>(slots: seq<T>, from: nat, to: nat, i: nat)
    requires from < |slots| && to < |slots| && i < |Span(slots, from, to)|
    ensures Wrap(from + i, |slots|) < |slots| && Wrap(from + i, |slots|) != to
    ensures Span(slots, from, to)[i] == slots[Wrap(from + i, |slots|)]
  {}

  lemma SpanGrows<T>(slots: seq<T>, from: nat, to: nat, x: T)
    requires from < |slots| && to < |slots| && |Span(slots, from, to)| < |slots| - 1
    ensures Span(slots[to := x], from, Wrap(to + 1, |slots|)) == Span(slots, from, to) + [x]
  {
    var l, r := Span(slots[to := x], from, Wrap(to + 1, |slots|)), Span(slots, from, to) + [x];
    forall i | 0 <= i < |l|
      ensures l[i] == r[i]
    {
      SpanAt(slots[to := x], from, Wrap(to + 1, |slots|), i);
      if i < |r| - 1 {
        SpanAt(slots, from, to, i);
      }
    }
  }

  lemma SpanSkips<T>(slots: seq<T>, from: nat, to: nat, o: nat)
    requires from < |slots| && to < |slots| && o <= |Span(slots, from, to)|
    ensures Span(slots, Wrap(from + o, |slots|), to) == Span(slots, from, to)[o..]
  {
    var l, r := Span(slots, Wrap(from + o, |slots|), to), Span(slots, from, to)[o..];
    forall i | 0 <= i < |l|
      ensures l[i] == r[i]
    {
      SpanAt(slots, Wrap(from + o, |slots|), to, i);
      SpanAt(slots, from, to, o + i);
    }
  }

  lemma SpanShrinks<T>(slots: seq<T>, from: nat, to: nat)
    requires from < |slots| && to < |slots| && from != to
    ensures Span(slots, from, to) == [slots[from]] + Span(slots, Wrap(from + 1, |slots|), to)
  {
    SpanSkips(slots, from, to, 1);
    SpanAt(slots, from, to, 0);
  }

  /** Writing into the one free slot moves a full ring on by one element. */
  lemma SpanMoves<T>(slots: seq<T>, from: nat, to: nat, x: T)
    requires from < |slots| && to < |slots| && |Span(slots, from, to)| == |slots| - 1
    ensures Wrap(to + 1, |slots|) == from
    ensures var t := slots[to := x];
            [t[from]] + Span(t, Wrap(from + 1, |slots|), from) == Span(slots, from, to) + [x]
  {
    var t, n := slots[to := x], |slots|;
    var l, r := [t[from]] + Span(t, Wrap(from + 1, n), from), Span(slots, from, to) + [x];
    forall i | 0 <= i < n
      ensures l[i] == r[i]
    {
      if i > 0 {
        SpanAt(t, Wrap(from + 1, n), from, i - 1);
      }
      if i < n - 1 {
        SpanAt(slots, from, to, i);
      }
    }
  }

  /** What writing into the free slot does to a span that ends there. */
  lemma SpanWrites<T>(slots: seq<T>, from: nat, to: nat, x: T)
    requires from < |slots| && to < |slots|
    ensures var t, next := slots[to := x], Wrap(to + 1, |slots|);
            && next < |slots|
            && if |Span(slots, from, to)| < |slots| - 1 then
                 next != from && Span(t, from, next) == Span(slots, from, to) + [x]
               else
                 && next == from && Span(t, from, next) == []
                 && [t[from]] + Span(t, Wrap(from + 1, |slots|), from) == Span(slots, from, to) + [x]
  {
    if |Span(slots, from, to)| < |slots| - 1 {
      SpanGrows(slots, from, to, x);
    } else {
      SpanMoves(slots, from, to, x);
    }
  }

  class Ring<T(0)> {
    const cap: nat        // buf_size_
    ghost const k: nat
    var head: nat
    var tail: nat
    var pos: nat
    var trash: T
    const buffer: array<T>

    ghost predicate Valid()
      reads this, buffer
    {
      && cap == Pow2(k) - 1 && buffer.Length == cap + 1
      && head <= cap && tail <= cap && pos <= cap
    }

    /** The stored elements, oldest first. */
    ghost function Contents(): (s: seq<T>)
      requires Valid()
      reads this, buffer
      ensures |s| <= cap
    {
      Span(buffer[..], tail, head)
    }

    /** What Read will deliver, in order. */
    ghost function Pending(): (s: seq<T>)
      requires Valid()
      reads this, buffer
      ensures |s| <= cap
    {
      Span(buffer[..], pos, head)
    }

    constructor (size: int)
      ensures Valid() && fresh(buffer) && Contents() == [] && Pending() == []
      ensures size <= 0 ==> cap == 0
      ensures 0 < size <= 0x1_ffff ==> cap / 2 < size <= cap
      ensures size > 0x1_ffff ==> cap == 0x1_ffff
    {
      var c, j := RoundCapacity(size);
      cap, k := c, j;
      head, tail, pos := 0, 0, 0;
      trash := *;
      buffer := new T[c + 1];
    }

    /** The slot after i: the successor is masked with the capacity. */
    method Advance(i: nat) returns (j: nat)
      requires Valid() && i <= cap
      ensures j == Wrap(i + 1, cap + 1)
    {
      hide And, Pow2;
      MaskIsModulo(i + 1, k);
      j := And(i + 1, cap);
    }

    method DataNum() returns (n: int)
      requires Valid()
      ensures n == |Contents()|
    {
      var i := head - tail;
      n := if i < 0 then cap + 1 + i else i;
    }

    method Clear()
      requires Valid()
      modifies this`head, this`tail
      ensures Valid() && Contents() == []
    {
      head, tail := 0, 0;
    }

    /** Appends; a full ring gives up its oldest element to the trash slot and reports 1. */
    method Push(data: T) returns (r: int)
      requires Valid()
      modifies this`head, this`tail, this`trash, buffer
      ensures Valid()
      ensures var all := old(Contents()) + [data];
              if |old(Contents())| < cap then
                r == 0 && Contents() == all && trash == old(trash)
              else
                r == 1 && Contents() == all[1..] && trash == all[0]
      ensures Step(State(old(Contents()), []), cap, Op.Push(data)) ==
              State(Contents(), if r == 1 then [trash] else [])
      ensures Pending() == if |old(Pending())| < cap then old(Pending()) + [data] else []
    {
      hide Span, And, Pow2;
      ghost var slots, first := buffer[..], head;
      buffer[head] := data;
      assert buffer[..] == slots[first := data];
      SpanWrites(slots, tail, first, data);
      SpanWrites(slots, pos, first, data);
      head := Advance(head);
      if tail == head {
        trash := buffer[tail];
        tail := Advance(tail);
        return 1;
      }
      return 0;
    }

    method Pop() returns (r: int, data: T)
      requires Valid()
      modifies this`tail
      ensures Valid()
      ensures if old(Contents()) == [] then r == -1 && Contents() == []
              else r == 0 && [data] + Contents() == old(Contents())
      ensures Step(State(old(Contents()), []), cap, Op.Pop) ==
              State(Contents(), if r == 0 then [data] else [])
      ensures Pending() == old(Pending())
    {
      data := *;
      if tail == head {
        return -1, data;
      }
      data := buffer[tail];
      SpanShrinks(buffer[..], tail, head);
      tail := Advance(tail);
      r := 0;
    }

    /** Starts reading at the given offset; an offset past the last slot means the last but one. */
    method Seek(offset: int)
      requires Valid()
      modifies this`pos
      ensures Valid()
      ensures pos == SeekSlot(tail, offset, cap)
      ensures 0 <= offset <= |Contents()| && offset < cap ==> Pending() == Contents()[offset..]
    {
      hide And, Pow2, Span;
      var o := if offset >= cap then cap - 1 else offset;
      MaskIsModulo(tail + o, k);
      pos := And(tail + o, cap);
      if 0 <= o <= |Contents()| && o < cap {
        SeekWraps(tail, o, cap);
        SpanSkips(buffer[..], tail, head, o);
      }
    }

    method Read() returns (r: int, data: T)
      requires Valid()
      modifies this`pos
      ensures Valid()
      ensures if old(Pending()) == [] then r == -1 && Pending() == []
              else r == 0 && [data] + Pending() == old(Pending())
    {
      data := *;
      if pos == head {
        return -1, data;
      }
      data := buffer[pos];
      SpanShrinks(buffer[..], pos, head);
      pos := Advance(pos);
      r := 0;
    }
  }

  function Run<T>(s: State<T>, cap: nat, ops: seq<Op<T>>): State<T> {
    if ops == [] then s else Step(Run(s, cap, ops[..|ops| - 1]), cap, ops[|ops| - 1])
  }

  function Pushed<T>(ops: seq<Op<T>>): seq<T> {
    if ops == [] then [] else
      Pushed(ops[..|ops| - 1]) + match ops[|ops| - 1] case Push(x) => [x] case Pop => []
  }

  /** First in, first out: over any run, what left followed by what is stored is what was pushed. */
  lemma {:induction false} NothingLostOrReordered<T>(s: State<T>, cap: nat, ops: seq<Op<T>>)
    requires |s.queue| <= cap
    ensures var e := Run(s, cap, ops);
            e.gone + e.queue == s.gone + s.queue + Pushed(ops) && |e.queue| <= cap
  {
    if ops != [] {
      NothingLostOrReordered(s, cap, ops[..|ops| - 1]);
      var m := Run(s, cap, ops[..|ops| - 1]);
      var e := Step(m, cap, ops[|ops| - 1]);
      match ops[|ops| - 1]
      case Push(x) =>
        assert e.gone + e.queue == m.gone + m.queue + [x];
      case Pop =>
        assert e.gone + e.queue == m.gone + m.queue;
    }
  }
}
