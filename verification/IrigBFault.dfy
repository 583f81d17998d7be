/** A symbol that could not be received: what the IRIG-B decoder hands over for the frame it spoils. */
module IrigBFault {
  import opened Bytes
  import opened IrigB
  import opened IrigBSync
  import opened Sequences

  /** Frame f with all data bits from symbol i on set to zero. */
  function UpTo(f: seq<Byte>, i: nat): (g: seq<Byte>)
    requires ValidFrame(f)
    ensures ValidFrame(g)
  {
    seq(100, j requires 0 <= j < 100 => if j < i || j == 0 || j % 10 == 9 then f[j] else 0)
  }

  lemma SameBits(f: seq<Byte>, i: nat, j: nat)
    requires ValidFrame(f) && 0 < j < 99 && j % 10 != 9
    ensures Got(f, j, i) == Got(UpTo(f, i), j, 99)
  {}

  lemma HoldsUpTo(s: State, f: seq<Byte>, i: nat)
    requires ValidFrame(f) && Holds(s, f, i)
    ensures Holds(s, UpTo(f, i), 99)
  {
    forall j | 0 < j < 99 && j % 10 != 9
      ensures Got(f, j, i) == Got(UpTo(f, i), j, 99)
    {
      SameBits(f, i, j);
    }
    hide Got, UpTo, ValidFrame;
  }

  lemma StepOnFault(s: State)
    requires s.prFind
    ensures Step(s, FAULT) == (s.(prFind := false), None)
  {}

  lemma SameAccumulators(s: State, f: seq<Byte>, i: nat)
    requires ValidFrame(f) && Aligned(s, f, i) && 1 <= i <= 98
    ensures s.prFind && s.pCnt == 0 && Holds(s.(prFind := false), f, i)
  {
    hide Seconds, Minutes, Hours, Days, ValidFrame;
  }

  lemma FaultStep(s: State, f: seq<Byte>, i: nat)
    requires ValidFrame(f) && 1 <= i <= 98 && Aligned(s, f, i)
    ensures var t := Step(s, FAULT).0;
      Step(s, FAULT).1 == None && Searching(t) && Unpack(t) == FrameTime(UpTo(f, i))
  {
    SameAccumulators(s, f, i);
    StepOnFault(s);
    hide Step, Holds, FrameTime, UpTo, Unpack, Aligned, ValidFrame;
    HoldsUpTo(s.(prFind := false), f, i);
    UnpacksTo(s.(prFind := false), UpTo(f, i));
  }

  /**
     A fault within a frame: at the next boundary the decoder hands over what it had received up to there, all later
     bits taken as zero, and it is in step.
   */
  lemma FaultInFrame(f: seq<Byte>, i: nat)
    requires ValidFrame(f) && 1 <= i <= 98
    ensures Run(SYNCED, f[1..i] + [FAULT] + f[i + 1..] + [P]) == (SYNCED, [FrameTime(UpTo(f, i))])
  {
    hide Run, Step, Unpack, FrameTime, Aligned, UpTo, Holds, ValidFrame;
    SyncedAligned(f);
    FrameShape(f);
    AlignedRun(SYNCED, f, 1, i);
    var s, tail := Run(SYNCED, f[1..i]).0, f[i + 1..] + [P];
    FaultStep(s, f, i);
    SearchFinds(Step(s, FAULT).0, f, i + 1);
    RunTwo(s, FAULT, tail);
    RunConcat(SYNCED, f[1..i], [FAULT] + tail);
    Neutral([FrameTime(UpTo(f, i))]);
    Associates(f[1..i] + [FAULT], f[i + 1..], [P]);
    Associates(f[1..i], [FAULT], tail);
  }

  lemma SyncedAligned(f: seq<Byte>)
    requires ValidFrame(f)
    ensures Aligned(SYNCED, f, 1)
  {}

  /** At the end of frame f, in front of either boundary marker: a fault, and then the rest of frame g. */
  lemma LateBy(s: State, f: seq<Byte>, g: seq<Byte>, j: nat)
    requires ValidFrame(f) && ValidFrame(g) && j <= 1 && Holds(s, f, 99) && !s.prFind && s.pCnt <= 1
    ensures Run(s, [FAULT] + (g[j..] + [P])) == (SYNCED, [FrameTime(f)])
  {
    UnpacksTo(s, f);
    SecondSymbol(g);
    hide Run, Step, Unpack, FrameTime, Holds, ValidFrame;
    SearchStep(s, FAULT);
    var t := Step(s, FAULT).0;
    PCountIrrelevant(s, t);
    RunTwo(s, FAULT, g[j..] + [P]);
    if j == 0 {
      SearchStep(t, P);
      var u := Step(t, P).0;
      PCountIrrelevant(t, u);
      SearchStep(u, g[1]);
      PCountIrrelevant(u, Step(u, g[1]).0);
      RunTwo(t, P, [g[1]] + (g[2..] + [P]));
      RunTwo(u, g[1], g[2..] + [P]);
      SearchFinds(Step(u, g[1]).0, g, 2);
    } else {
      SearchFinds(t, g, 1);
    }
  }

  lemma SecondSymbol(g: seq<Byte>)
    requires ValidFrame(g)
    ensures |g| == 100 && g[1] != P && g[0..] + [P] == [P] + ([g[1]] + (g[2..] + [P]))
  {}

  /**
     A fault in one of the two markers between frames f and g: the time of f is handed over at the end of g, a
     second late, and that of g never.
   */
  lemma FaultAtBoundary(f: seq<Byte>, g: seq<Byte>)
    requires ValidFrame(f) && ValidFrame(g)
    ensures Run(SYNCED, f[1..99] + [FAULT] + g + [P]) == (SYNCED, [FrameTime(f)])
    ensures Run(SYNCED, f[1..] + [FAULT] + g[1..] + [P]) == (SYNCED, [FrameTime(f)])
  {
    hide Run, Step, Unpack, FrameTime, UpTo, Seconds, Minutes, Hours, Days, ValidFrame;
    SyncedAligned(f);
    FrameShape(f);
    FrameShape(g);
    AlignedRun(SYNCED, f, 1, 99);
    var s := Run(SYNCED, f[1..99]).0;
    Neutral([FrameTime(f)]);
    LateBy(s, f, g, 0);
    SearchStep(s, P);
    LateBy(Step(s, P).0, f, g, 1);
    RunConcat(SYNCED, f[1..99], [FAULT] + (g[0..] + [P]));
    RunTwo(s, P, [FAULT] + (g[1..] + [P]));
    RunConcat(SYNCED, f[1..99], [P] + ([FAULT] + (g[1..] + [P])));
    Pieces(f, g);
  }

  lemma Pieces(f: seq<Byte>, g: seq<Byte>)
    requires ValidFrame(f) && ValidFrame(g)
    ensures f[1..99] + [FAULT] + g + [P] == f[1..99] + ([FAULT] + (g[0..] + [P]))
    ensures f[1..] + [FAULT] + g[1..] + [P] == f[1..99] + ([P] + ([FAULT] + (g[1..] + [P])))
  {}

  // ---- One frame, symbol by symbol ----

  /** 12:34:56 on day 100. */
  function Sample(): (f: seq<Byte>)
    ensures |f| == 100
  {
    seq(100, i requires 0 <= i < 100 =>
      if i == 0 || i % 10 == 9 then 82 else if i in {2, 3, 6, 8, 12, 15, 16, 21, 25, 40} then 1 else 0)
  }

  /** Received whole, it gives its time; with a fault in place of symbol 1 or 5, zero or six seconds. */
  lemma SampleIsDecoded()
    ensures Run(SYNCED, Sample()[1..] + [82]) == (SYNCED, [Time(56, 34, 12, 100)])
    ensures Run(SYNCED, Sample()[1..1] + [0xcc] + Sample()[2..] + [82]) == (SYNCED, [Time(0, 0, 0, 0)])
    ensures Run(SYNCED, Sample()[1..5] + [0xcc] + Sample()[6..] + [82]) == (SYNCED, [Time(6, 0, 0, 0)])
  {
    SampleTimes();
    hide Run, Sample, FrameTime, ValidFrame, UpTo;
    FrameDecoded(Sample());
    FaultInFrame(Sample(), 1);
    FaultInFrame(Sample(), 5);
  }

  lemma SampleTimes()
    ensures ValidFrame(Sample()) && FrameTime(Sample()) == Time(56, 34, 12, 100)
    ensures FrameTime(UpTo(Sample(), 1)) == Time(0, 0, 0, 0) && FrameTime(UpTo(Sample(), 5)) == Time(6, 0, 0, 0)
  {}
}
