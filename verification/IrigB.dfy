/**
 IRIG-B decoding. A frame has 100 symbols: position markers P at 0 and at 9, 19, ..., 99, data bits
 elsewhere (IRIG Standard 200-04, chapter 6, format B). The boundary of two frames is the only place
 where two markers are adjacent. The decoder keeps its state between buffers of any size.
 */
module IrigB {
  import opened Bits
  import opened Bytes
  import opened Sequences

  const P: Byte := 82
  const FAULT: Byte := 0xcc

  /** A time as SetIRIGBTime reads it: plain binary second, minute, hour and day of the year. */
  datatype Time = Time(sec: int, min: int, hour: int, yday: int)

  /** Fields of AppPrtclGps that survive between buffers; counters are of type char and wrap at 256. */
  datatype State = State(pCnt: Byte, prFind: bool, element: Byte, seconds: nat, minutes: nat, hours: nat, days: nat)

  function Next(c: Byte): Byte {
    (c as int + 1) % 256
  }

  /** The symbol weighted by << k. */
  function Shifted(b: Byte, k: nat): nat {
    b as int * Pow2(k)
  }

  /** The effect of one data symbol on the accumulators, by its element number. */
  function Accumulate(s: State, b: Byte): State {
    var e := s.element as int;
    if 1 <= e <= 4 then s.(seconds := s.seconds + Shifted(b, e - 1))
    else if 6 <= e <= 8 then s.(seconds := s.seconds + Shifted(b, e - 2))
    else if 10 <= e <= 13 then s.(minutes := s.minutes + Shifted(b, e - 10))
    else if 15 <= e <= 17 then s.(minutes := s.minutes + Shifted(b, e - 11))
    else if 20 <= e <= 23 then s.(hours := s.hours + Shifted(b, e - 20))
    else if 25 <= e <= 26 then s.(hours := s.hours + Shifted(b, e - 21))
    else if 30 <= e <= 33 then s.(days := s.days + Shifted(b, e - 30))
    else if 35 <= e <= 38 then s.(days := s.days + Shifted(b, e - 31))
    else if 40 <= e <= 41 then s.(days := s.days + Shifted(b, e - 32))
    else if e == 98 then s.(prFind := false)
    else s
  }

  /** Binary-coded decimal digits of the accumulators, as SetIRIGBTime unpacks them. */
  function Unpack(s: State): Time {
    Time(s.seconds / 16 * 10 + And(s.seconds, 0xf),
         s.minutes / 16 * 10 + And(s.minutes, 0xf),
         s.hours / 16 * 10 + And(s.hours, 0xf),
         s.days / 256 * 100 + And(s.days / 16, 0xf) * 10 + And(s.days, 0xf))
  }

  /** One symbol. A second result of Some(t) is a call of SetIRIGBTime with time t. */
  datatype Option<T> = None | Some(value: T)

  function Step(s: State, b: Byte): (State, Option<Time>) {
    if !s.prFind then
      if b != P then (s.(pCnt := 0), None)
      else if Next(s.pCnt) == 2 then (State(0, true, 1, 0, 0, 0, 0), Some(Unpack(s)))
      else (s.(pCnt := Next(s.pCnt)), None)
    else if b == FAULT then (s.(prFind := false), None)
    else
      var t := Accumulate(s, b);
      (t.(element := Next(t.element)), None)
  }

  /** A whole stream of symbols, with the times handed over, in order. */
  function Run(s: State, stream: seq<Byte>): (State, seq<Time>) {
    if stream == [] then (s, [])
    else
      var (m, out) := Run(s, stream[..|stream| - 1]);
      var (e, t) := Step(m, stream[|stream| - 1]);
      (e, if t.Some? then out + [t.value] else out)
  }

  /** How the stream is cut into buffers does not matter. */
  lemma {:induction false} RunConcat(s: State, x: seq<Byte>, y: seq<Byte>)
    ensures var (m, out1) := Run(s, x);
            var (e, out2) := Run(m, y);
            Run(s, x + y) == (e, out1 + out2)
  {
    hide Step;
    if y == [] {
      assert x + y == x;
      assert Run(s, x).1 + [] == Run(s, x).1;
    } else {
      var z := y[..|y| - 1];
      RunConcat(s, x, z);
      assert (x + y)[..|x + y| - 1] == x + z && (x + y)[|x + y| - 1] == y[|y| - 1];
      var (m, out1) := Run(s, x);
      var (n, out2) := Run(m, z);
      var (e, t) := Step(n, y[|y| - 1]);
      if t.Some? {
        assert (out1 + out2) + [t.value] == out1 + (out2 + [t.value]);
      }
    }
  }

  /** A frame of the format: markers in their places and bits everywhere else. */
  predicate ValidFrame(f: seq<Byte>) {
    |f| == 100 && forall i | 0 <= i < 100 :: if i == 0 || i % 10 == 9 then f[i] == P else f[i] == 0 || f[i] == 1
  }

  /** Bit j of a frame, once i symbols of it have been received. */
  function Got(f: seq<Byte>, j: nat, i: nat): int
    requires ValidFrame(f) && j < 100
  {
    if j < i then f[j] else 0
  }

  /** The accumulators after i symbols of a frame: binary-coded decimal, four bits a digit. */
  function Seconds(f: seq<Byte>, i: nat): int
    requires ValidFrame(f)
  {
    Got(f, 1, i) + 2 * Got(f, 2, i) + 4 * Got(f, 3, i) + 8 * Got(f, 4, i)
    + 16 * (Got(f, 6, i) + 2 * Got(f, 7, i) + 4 * Got(f, 8, i))
  }

  function Minutes(f: seq<Byte>, i: nat): int
    requires ValidFrame(f)
  {
    Got(f, 10, i) + 2 * Got(f, 11, i) + 4 * Got(f, 12, i) + 8 * Got(f, 13, i)
    + 16 * (Got(f, 15, i) + 2 * Got(f, 16, i) + 4 * Got(f, 17, i))
  }

  function Hours(f: seq<Byte>, i: nat): int
    requires ValidFrame(f)
  {
    Got(f, 20, i) + 2 * Got(f, 21, i) + 4 * Got(f, 22, i) + 8 * Got(f, 23, i)
    + 16 * (Got(f, 25, i) + 2 * Got(f, 26, i))
  }

  function Days(f: seq<Byte>, i: nat): int
    requires ValidFrame(f)
  {
    Got(f, 30, i) + 2 * Got(f, 31, i) + 4 * Got(f, 32, i) + 8 * Got(f, 33, i)
    + 16 * (Got(f, 35, i) + 2 * Got(f, 36, i) + 4 * Got(f, 37, i) + 8 * Got(f, 38, i))
    + 256 * (Got(f, 40, i) + 2 * Got(f, 41, i))
  }

  /** The time a frame encodes, by the decimal weights that the standard gives its bits. */
  function FrameTime(f: seq<Byte>): Time
    requires ValidFrame(f)
  {
    Time(FrameSecond(f), FrameMinute(f), FrameHour(f), FrameDay(f))
  }

  function FrameSecond(f: seq<Byte>): int
    requires ValidFrame(f)
  {
    (f[1] as int) + 2 * (f[2] as int) + 4 * (f[3] as int) + 8 * (f[4] as int)
    + 10 * ((f[6] as int) + 2 * (f[7] as int) + 4 * (f[8] as int))
  }

  function FrameMinute(f: seq<Byte>): int
    requires ValidFrame(f)
  {
    (f[10] as int) + 2 * (f[11] as int) + 4 * (f[12] as int) + 8 * (f[13] as int)
    + 10 * ((f[15] as int) + 2 * (f[16] as int) + 4 * (f[17] as int))
  }

  function FrameHour(f: seq<Byte>): int
    requires ValidFrame(f)
  {
    (f[20] as int) + 2 * (f[21] as int) + 4 * (f[22] as int) + 8 * (f[23] as int)
    + 10 * ((f[25] as int) + 2 * (f[26] as int))
  }

  function FrameDay(f: seq<Byte>): int
    requires ValidFrame(f)
  {
    (f[30] as int) + 2 * (f[31] as int) + 4 * (f[32] as int) + 8 * (f[33] as int)
    + 10 * ((f[35] as int) + 2 * (f[36] as int) + 4 * (f[37] as int) + 8 * (f[38] as int))
    + 100 * ((f[40] as int) + 2 * (f[41] as int))
  }

  /** The accumulators hold what the first i symbols of f say. */
  predicate Holds(s: State, f: seq<Byte>, i: nat)
    requires ValidFrame(f)
  {
    s.seconds == Seconds(f, i) && s.minutes == Minutes(f, i) && s.hours == Hours(f, i) && s.days == Days(f, i)
  }

  /** In step with the stream: symbol i of frame f comes next, 1 <= i <= 99. */
  predicate Aligned(s: State, f: seq<Byte>, i: nat)
    requires ValidFrame(f)
  {
    && Holds(s, f, i) && s.pCnt == 0
    && if i < 99 then s.prFind && s.element == i else !s.prFind
  }

  const SYNCED := State(0, true, 1, 0, 0, 0, 0)

  lemma SmallPowers()
    ensures Pow2(0) == 1 && Pow2(1) == 2 && Pow2(2) == 4 && Pow2(3) == 8 && Pow2(4) == 16
    ensures Pow2(5) == 32 && Pow2(6) == 64 && Pow2(7) == 128 && Pow2(8) == 256 && Pow2(9) == 512
  {}

  lemma SecondsGrow(f: seq<Byte>, i: nat)
    requires ValidFrame(f) && i < 100
    ensures Seconds(f, i + 1) == Seconds(f, i) +
      if 1 <= i <= 4 then Shifted(f[i], i - 1)
      else if 6 <= i <= 8 then Shifted(f[i], i - 2)
      else 0
  {
    SmallPowers();
    hide Pow2;
  }

  lemma MinutesGrow(f: seq<Byte>, i: nat)
    requires ValidFrame(f) && i < 100
    ensures Minutes(f, i + 1) == Minutes(f, i) +
      if 10 <= i <= 13 then Shifted(f[i], i - 10)
      else if 15 <= i <= 17 then Shifted(f[i], i - 11)
      else 0
  {
    SmallPowers();
    hide Pow2;
  }

  lemma HoursGrow(f: seq<Byte>, i: nat)
    requires ValidFrame(f) && i < 100
    ensures Hours(f, i + 1) == Hours(f, i) +
      if 20 <= i <= 23 then Shifted(f[i], i - 20)
      else if 25 <= i <= 26 then Shifted(f[i], i - 21)
      else 0
  {
    SmallPowers();
    hide Pow2;
  }

  lemma DaysGrow(f: seq<Byte>, i: nat)
    requires ValidFrame(f) && i < 100
    ensures Days(f, i + 1) == Days(f, i) +
      if 30 <= i <= 33 then Shifted(f[i], i - 30)
      else if 35 <= i <= 38 then Shifted(f[i], i - 31)
      else if 40 <= i <= 41 then Shifted(f[i], i - 32)
      else 0
  {
    SmallPowers();
    hide Pow2;
  }

  lemma AccumulateFields(s: State, b: Byte)
    ensures var e, t := s.element as int, Accumulate(s, b);
      && t.seconds == s.seconds + (if 1 <= e <= 4 then Shifted(b, e - 1)
          else if 6 <= e <= 8 then Shifted(b, e - 2) else 0)
      && t.minutes == s.minutes + (if 10 <= e <= 13 then Shifted(b, e - 10)
          else if 15 <= e <= 17 then Shifted(b, e - 11) else 0)
      && t.hours == s.hours + (if 20 <= e <= 23 then Shifted(b, e - 20)
          else if 25 <= e <= 26 then Shifted(b, e - 21) else 0)
      && t.days == s.days + (if 30 <= e <= 33 then Shifted(b, e - 30) else if 35 <= e <= 38 then Shifted(b, e - 31)
                             else if 40 <= e <= 41 then Shifted(b, e - 32) else 0)
      && t.pCnt == s.pCnt && t.element == s.element && t.prFind == (s.prFind && e != 98)
  {
    hide Shifted;
  }

  lemma HoldsStep(s: State, f: seq<Byte>, i: nat, e: Byte)
    requires ValidFrame(f) && 1 <= i < 99 && s.element == i && Holds(s, f, i)
    ensures Holds(Accumulate(s, f[i]).(element := e), f, i + 1)
  {
    SecondsGrow(f, i);
    MinutesGrow(f, i);
    HoursGrow(f, i);
    DaysGrow(f, i);
    AccumulateFields(s, f[i]);
    hide Seconds, Minutes, Hours, Days, Shifted, Got, Accumulate, ValidFrame;
  }

  /** One symbol further into the frame. */
  lemma AlignedStep(s: State, f: seq<Byte>, i: nat)
    requires ValidFrame(f) && 1 <= i < 99 && Aligned(s, f, i)
    ensures Step(s, f[i]).1 == None && Aligned(Step(s, f[i]).0, f, i + 1)
  {
    HoldsStep(s, f, i, Next(s.element));
    AccumulateFields(s, f[i]);
    hide Holds, Accumulate, Unpack;
  }

  /** The digits of two binary-coded decimals come apart again. */
  lemma Unpacked(lo: nat, hi: nat)
    requires lo < 16
    ensures (lo + 16 * hi) / 16 == hi && And(lo + 16 * hi, 0xf) == lo
  {
    hide And;
    SmallPowers();
    MaskIsModulo(lo + 16 * hi, 4);
  }

  /** A frame received to the end unpacks to the time it encodes. */
  lemma UnpacksTo(s: State, f: seq<Byte>)
    requires ValidFrame(f) && Holds(s, f, 99)
    ensures Unpack(s) == FrameTime(f)
  {
    hide And;
    var lo, mid := (f[30] as int) + 2 * (f[31] as int) + 4 * (f[32] as int) + 8 * (f[33] as int),
                   (f[35] as int) + 2 * (f[36] as int) + 4 * (f[37] as int) + 8 * (f[38] as int);
    var top := (f[40] as int) + 2 * (f[41] as int);
    Unpacked((f[1] as int) + 2 * (f[2] as int) + 4 * (f[3] as int) + 8 * (f[4] as int),
             (f[6] as int) + 2 * (f[7] as int) + 4 * (f[8] as int));
    Unpacked((f[10] as int) + 2 * (f[11] as int) + 4 * (f[12] as int) + 8 * (f[13] as int),
             (f[15] as int) + 2 * (f[16] as int) + 4 * (f[17] as int));
    Unpacked((f[20] as int) + 2 * (f[21] as int) + 4 * (f[22] as int) + 8 * (f[23] as int),
             (f[25] as int) + 2 * (f[26] as int));
    Unpacked(lo, mid + 16 * top);
    Unpacked(mid, top);
    assert s.days == lo + 16 * (mid + 16 * top);
    assert s.days / 256 == top;
  }

  lemma RunOne(s: State, b: Byte)
    ensures Run(s, [b]) == (Step(s, b).0, if Step(s, b).1.Some? then [Step(s, b).1.value] else [])
  {
    hide Step;
    assert [b][..0] == [] && Run(s, []) == (s, []);
    if Step(s, b).1.Some? {
      assert [] + [Step(s, b).1.value] == [Step(s, b).1.value];
    }
  }

  /** Within a frame the decoder stays in step and hands nothing over. */
  lemma {:induction false} AlignedRun(s: State, f: seq<Byte>, i: nat, j: nat)
    requires ValidFrame(f) && 1 <= i <= j <= 99 && Aligned(s, f, i)
    ensures Run(s, f[i..j]).1 == [] && Aligned(Run(s, f[i..j]).0, f, j)
    decreases j
  {
    hide Step, Aligned;
    if i < j {
      AlignedRun(s, f, i, j - 1);
      assert f[i..j][..j - 1 - i] == f[i..j - 1] && f[i..j][j - 1 - i] == f[j - 1];
      AlignedStep(Run(s, f[i..j - 1]).0, f, j - 1);
    }
  }

  /** Two markers in a row are found, and the accumulators handed over and cleared. */
  lemma Boundary(s: State)
    requires !s.prFind && s.pCnt == 0
    ensures Run(s, [P, P]) == (SYNCED, [Unpack(s)])
  {
    hide Unpack;
    RunOne(s, P);
    var (m, t) := Step(s, P);
    RunOne(m, P);
    RunConcat(s, [P], [P]);
    assert [P] + [P] == [P, P];
    assert Unpack(m) == Unpack(s) by {
      PCountIrrelevant(s, m);
    }
  }

  lemma PCountIrrelevant(s: State, t: State)
    requires t == s.(pCnt := t.pCnt)
    ensures Unpack(s) == Unpack(t)
  {}

  /** In step at the second symbol, the rest of the frame and the next reference marker hand over its time. */
  lemma FrameDecoded(f: seq<Byte>)
    requires ValidFrame(f)
    ensures Run(SYNCED, f[1..] + [P]) == (SYNCED, [FrameTime(f)])
  {
    hide Unpack, FrameTime, Step, Run;
    AlignedRun(SYNCED, f, 1, 99);
    var s := Run(SYNCED, f[1..99]).0;
    assert f[1..] + [P] == f[1..99] + [P, P];
    RunConcat(SYNCED, f[1..99], [P, P]);
    Boundary(s);
    UnpacksTo(s, f);
    assert [] + [FrameTime(f)] == [FrameTime(f)];
  }

  predicate ValidFrames(fs: seq<seq<Byte>>) {
    forall i | 0 <= i < |fs| :: ValidFrame(fs[i])
  }

  function Times(fs: seq<seq<Byte>>): (ts: seq<Time>)
    requires ValidFrames(fs)
    ensures |ts| == |fs|
  {
    seq(|fs|, i requires 0 <= i < |fs| => FrameTime(fs[i]))
  }

  /**
   Round trip: in step just after the reference marker of the first frame, every further reference
   marker hands over exactly the time of the frame that it ends, and the decoder stays in step.
   */
  lemma {:induction false} RoundTrip(fs: seq<seq<Byte>>)
    requires ValidFrames(fs) && fs != []
    ensures Run(SYNCED, Concat(fs)[1..] + [P]) == (SYNCED, Times(fs))
  {
    hide FrameTime, Run, ValidFrame;
    var n := |fs| - 1;
    var last := fs[n];
    FrameDecoded(last);
    if n == 0 {
      assert Concat(fs[..0]) == [];
      assert Concat(fs) == last;
      assert Times(fs) == [FrameTime(last)];
    } else {
      RoundTrip(fs[..n]);
      MarkerFirst(fs[..n]);
      assert ValidFrame(last) ==> last[0] == P && |last| == 100 by {
        FrameShape(last);
      }
      assert Concat(fs)[1..] + [P] == (Concat(fs[..n])[1..] + [P]) + (last[1..] + [P]);
      RunConcat(SYNCED, Concat(fs[..n])[1..] + [P], last[1..] + [P]);
      assert Times(fs) == Times(fs[..n]) + [FrameTime(last)];
    }
  }

  lemma FrameShape(f: seq<Byte>)
    ensures ValidFrame(f) ==> f[0] == P && |f| == 100
  {}

  lemma {:induction false} MarkerFirst(fs: seq<seq<Byte>>)
    requires ValidFrames(fs) && fs != []
    ensures |Concat(fs)| >= 100
  {
    if |fs| > 1 {
      MarkerFirst(fs[..|fs| - 1]);
    }
    FrameShape(fs[|fs| - 1]);
  }

  /** A legal time of day and day of the year. */
  predicate Legal(t: Time) {
    0 <= t.sec < 60 && 0 <= t.min < 60 && 0 <= t.hour < 24 && 1 <= t.yday <= 366
  }

  /** Symbol i of the frame that the standard defines for a time; other fields are zero. */
  function EncodeSymbol(t: Time, i: nat): Byte
    requires Legal(t)
  {
    if i == 0 || i % 10 == 9 then P
    else if 1 <= i <= 4 then Bit(t.sec % 10, i - 1)
    else if 6 <= i <= 8 then Bit(t.sec / 10, i - 6)
    else if 10 <= i <= 13 then Bit(t.min % 10, i - 10)
    else if 15 <= i <= 17 then Bit(t.min / 10, i - 15)
    else if 20 <= i <= 23 then Bit(t.hour % 10, i - 20)
    else if 25 <= i <= 26 then Bit(t.hour / 10, i - 25)
    else if 30 <= i <= 33 then Bit(t.yday % 10, i - 30)
    else if 35 <= i <= 38 then Bit(t.yday / 10 % 10, i - 35)
    else if 40 <= i <= 41 then Bit(t.yday / 100, i - 40)
    else 0
  }

  function Encode(t: Time): (f: seq<Byte>)
    requires Legal(t)
    ensures ValidFrame(f)
  {
    seq(100, i requires 0 <= i < 100 => EncodeSymbol(t, i))
  }

  lemma DigitBits(d: nat)
    requires d < 10
    ensures Bit(d, 0) + 2 * Bit(d, 1) + 4 * Bit(d, 2) + 8 * Bit(d, 3) == d
    ensures d < 8 ==> Bit(d, 0) + 2 * Bit(d, 1) + 4 * Bit(d, 2) == d
    ensures d < 4 ==> Bit(d, 0) + 2 * Bit(d, 1) == d
  {
    SmallPowers();
  }

  /** The frame of a time encodes that time. */
  lemma EncodesTime(t: Time)
    requires Legal(t)
    ensures FrameTime(Encode(t)) == t
  {
    EncodesSecond(t);
    EncodesMinute(t);
    EncodesHour(t);
    EncodesDay(t);
    hide Encode, FrameSecond, FrameMinute, FrameHour, FrameDay;
  }

  lemma EncodesSecond(t: Time)
    requires Legal(t)
    ensures FrameSecond(Encode(t)) == t.sec
  {
    hide Bit;
    var f := Encode(t);
    assert f[1] == Bit(t.sec % 10, 0) && f[2] == Bit(t.sec % 10, 1);
    assert f[3] == Bit(t.sec % 10, 2) && f[4] == Bit(t.sec % 10, 3);
    assert f[6] == Bit(t.sec / 10, 0) && f[7] == Bit(t.sec / 10, 1) && f[8] == Bit(t.sec / 10, 2);
    hide Encode, EncodeSymbol, ValidFrame;
    DigitBits(t.sec % 10);
    DigitBits(t.sec / 10);
  }

  lemma EncodesMinute(t: Time)
    requires Legal(t)
    ensures FrameMinute(Encode(t)) == t.min
  {
    hide Bit;
    var f := Encode(t);
    assert f[10] == Bit(t.min % 10, 0) && f[11] == Bit(t.min % 10, 1);
    assert f[12] == Bit(t.min % 10, 2) && f[13] == Bit(t.min % 10, 3);
    assert f[15] == Bit(t.min / 10, 0) && f[16] == Bit(t.min / 10, 1) && f[17] == Bit(t.min / 10, 2);
    hide Encode, EncodeSymbol, ValidFrame;
    DigitBits(t.min % 10);
    DigitBits(t.min / 10);
  }

  lemma EncodesHour(t: Time)
    requires Legal(t)
    ensures FrameHour(Encode(t)) == t.hour
  {
    hide Bit;
    var f := Encode(t);
    assert f[20] == Bit(t.hour % 10, 0) && f[21] == Bit(t.hour % 10, 1);
    assert f[22] == Bit(t.hour % 10, 2) && f[23] == Bit(t.hour % 10, 3);
    assert f[25] == Bit(t.hour / 10, 0) && f[26] == Bit(t.hour / 10, 1);
    hide Encode, EncodeSymbol, ValidFrame;
    DigitBits(t.hour % 10);
    DigitBits(t.hour / 10);
  }

  lemma EncodesDay(t: Time)
    requires Legal(t)
    ensures FrameDay(Encode(t)) == t.yday
  {
    hide Bit;
    var f := Encode(t);
    assert f[30] == Bit(t.yday % 10, 0) && f[31] == Bit(t.yday % 10, 1);
    assert f[32] == Bit(t.yday % 10, 2) && f[33] == Bit(t.yday % 10, 3);
    assert f[35] == Bit(t.yday / 10 % 10, 0) && f[36] == Bit(t.yday / 10 % 10, 1);
    assert f[37] == Bit(t.yday / 10 % 10, 2) && f[38] == Bit(t.yday / 10 % 10, 3);
    assert f[40] == Bit(t.yday / 100, 0) && f[41] == Bit(t.yday / 100, 1);
    hide Encode, EncodeSymbol, ValidFrame;
    DigitBits(t.yday % 10);
    DigitBits(t.yday / 10 % 10);
    DigitBits(t.yday / 100);
    ThreeDigits(t.yday);
  }

  lemma ThreeDigits(y: nat)
    ensures y == 100 * (y / 100) + 10 * (y / 10 % 10) + y % 10
  {
    var t := y / 10;
    ModuloUnique(y, 100, t / 10, 10 * (t % 10) + y % 10);
  }
}
