/** Self-stabilisation of the IRIG-B decoder: from any state it falls into step and stays there. */
module IrigBSync {
  import opened Bytes
  import opened IrigB
  import opened Sequences

  /** What the decoder's own steps keep: at most one marker counted, and a frame in progress is numbered 1 to 98. */
  predicate Normal(s: State) {
    s.pCnt <= 1 && (s.prFind ==> s.pCnt == 0 && 1 <= s.element <= 98)
  }

  /** An upper bound on the symbols until the state is normal. */
  function Settling(s: State): nat {
    if Normal(s) then 0
    else if s.prFind then 257 + (98 - s.element as int) % 256
    else 256 - s.pCnt as int
  }

  lemma StepSettles(s: State, b: Byte)
    ensures var t := Step(s, b).0; if Normal(s) then Normal(t) else Settling(t) < Settling(s)
  {
    AccumulateFields(s, b);
    hide Accumulate, Unpack;
    if s.element == 98 {
    } else {
      assert (98 - Next(s.element) as int) % 256 == (98 - s.element as int) % 256 - 1 || Next(s.element) == 99;
    }
  }

  /** Whatever the fields were at start-up, 512 symbols of any kind leave a normal state, for good. */
  lemma {:induction false} Settles(s: State, x: seq<Byte>)
    ensures Settling(Run(s, x).0) <= if |x| >= Settling(s) then 0 else Settling(s) - |x|
    ensures |x| >= 512 || Normal(s) ==> Normal(Run(s, x).0)
  {
    hide Step;
    if x != [] {
      Settles(s, x[..|x| - 1]);
      StepSettles(Run(s, x[..|x| - 1]).0, x[|x| - 1]);
    }
  }

  /** Looking for a boundary, no marker counted. */
  predicate Searching(s: State) {
    !s.prFind && s.pCnt == 0
  }

  lemma SearchStep(s: State, b: Byte)
    requires !s.prFind && s.pCnt <= 1
    ensures b != P ==> Step(s, b) == (s.(pCnt := 0), None)
    ensures b == P && s.pCnt == 0 ==> Step(s, b) == (s.(pCnt := 1), None)
    ensures b == P && s.pCnt == 1 ==> Step(s, b) == (SYNCED, Some(Unpack(s)))
  {
    hide Unpack;
  }

  lemma RunTwo(s: State, b: Byte, x: seq<Byte>)
    ensures Run(s, [b] + x).0 == Run(Step(s, b).0, x).0
    ensures Step(s, b).1 == None ==> Run(s, [b] + x) == Run(Step(s, b).0, x)
  {
    hide Step, Run;
    RunConcat(s, [b], x);
    RunOne(s, b);
    Neutral(Run(Step(s, b).0, x).1);
  }

  /**
     Inside a frame no two markers are adjacent, so a search ends exactly at its last boundary. There it hands over
     what the accumulators hold.
   */
  lemma {:induction false} SearchFinds(s: State, f: seq<Byte>, i: nat)
    requires ValidFrame(f) && 1 <= i <= 99 && Searching(s)
    ensures Run(s, f[i..] + [P]) == (SYNCED, [Unpack(s)])
    decreases 99 - i
  {
    hide Run, Step, Unpack;
    SearchStep(s, f[i]);
    var t := Step(s, f[i]).0;
    PCountIrrelevant(s, t);
    assert f[i..] + [P] == [f[i]] + (f[i + 1..] + [P]);
    RunTwo(s, f[i], f[i + 1..] + [P]);
    if i == 99 {
      assert f[100..] + [P] == [P];
      RunOne(t, P);
      SearchStep(t, P);
    } else if f[i] != P {
      SearchFinds(t, f, i + 1);
    } else {
      SearchStep(t, f[i + 1]);
      assert f[i + 1..] + [P] == [f[i + 1]] + (f[i + 2..] + [P]);
      RunTwo(t, f[i + 1], f[i + 2..] + [P]);
      PCountIrrelevant(t, Step(t, f[i + 1]).0);
      SearchFinds(Step(t, f[i + 1]).0, f, i + 2);
    }
  }

  lemma FrameKeepsStep(f: seq<Byte>)
    requires ValidFrame(f)
    ensures Run(SYNCED, f[1..] + [P]).0 == SYNCED
  {
    FrameDecoded(f);
  }

  /** A search in frame f is in step by the start of the frame after the next. */
  lemma SearchTwo(s: State, f: seq<Byte>, i: nat, g: seq<Byte>)
    requires ValidFrame(f) && ValidFrame(g) && 1 <= i <= 99 && Searching(s)
    ensures Run(s, f[i..] + g + [P]).0 == SYNCED
  {
    hide Run;
    SearchFinds(s, f, i);
    FrameKeepsStep(g);
    assert f[i..] + g + [P] == (f[i..] + [P]) + (g[1..] + [P]);
    RunConcat(s, f[i..] + [P], g[1..] + [P]);
  }

  /** Out of step inside a frame, the decoder is deaf until it has counted to 98. */
  lemma {:induction false} Deaf(s: State, x: seq<Byte>)
    requires s.prFind && s.pCnt == 0 && 1 <= s.element <= 98 && |x| <= 99 - s.element as int
    requires FAULT !in x
    ensures var t := Run(s, x).0;
            t.pCnt == 0 && if |x| < 99 - s.element as int then t.prFind && t.element as int == s.element as int + |x| else !t.prFind
  {
    if x != [] {
      var y := x[..|x| - 1];
      Deaf(s, y);
      AccumulateFields(Run(s, y).0, x[|x| - 1]);
      hide Accumulate, Unpack;
    }
  }

  /** Cutting a stream that runs from symbol j of f through g after d symbols. */
  lemma Cut(f: seq<Byte>, j: nat, g: seq<Byte>, d: nat) returns (a: seq<Byte>, b: seq<Byte>)
    requires ValidFrame(f) && ValidFrame(g) && j <= 100 && 1 <= d <= 98
    ensures a + b == f[j..] + g + [P] && |a| == d && FAULT !in a
    ensures b == (if j + d <= 100 then f[j + d..] + g else g[j + d - 100..]) + [P]
  {
    var w := f[j..] + g + [P];
    a, b := w[..d], w[d..];
    forall i | 0 <= i < d
      ensures a[i] != FAULT
    {}
  }

  /** A deaf decoder wakes inside f or g and then finds a boundary. */
  lemma DeafThenFinds(s: State, f: seq<Byte>, j: nat, g: seq<Byte>)
    requires ValidFrame(f) && ValidFrame(g) && j <= 100
    requires s.prFind && s.pCnt == 0 && 1 <= s.element <= 98
    ensures Run(s, f[j..] + g + [P]).0 == SYNCED
  {
    hide Run, Step, ValidFrame;
    FrameShape(f);
    var d := 99 - s.element as int;
    var a, b := Cut(f, j, g, d);
    Deaf(s, a);
    var t := Run(s, a).0;
    RunConcat(s, a, b);
    if j + d <= 99 {
      SearchTwo(t, f, j + d, g);
    } else if j + d == 100 {
      assert b == g + [P];
      SearchFromMarker(t, g);
    } else {
      SearchFinds(t, g, j + d - 100);
    }
  }

  lemma SearchFromMarker(s: State, f: seq<Byte>)
    requires ValidFrame(f) && Searching(s)
    ensures Run(s, f + [P]).0 == SYNCED
  {
    hide Run, Step;
    SearchStep(s, f[0]);
    var t := Step(s, f[0]).0;
    SearchStep(t, f[1]);
    assert f + [P] == [f[0]] + ([f[1]] + (f[2..] + [P]));
    RunTwo(s, f[0], [f[1]] + (f[2..] + [P]));
    RunTwo(t, f[1], f[2..] + [P]);
    SearchFinds(Step(t, f[1]).0, f, 2);
  }

  /** From a normal state, a valid stream joined at any symbol is in step by its second boundary. */
  lemma SecondBoundary(s: State, f: seq<Byte>, j: nat, g: seq<Byte>)
    requires ValidFrame(f) && ValidFrame(g) && j < 100 && Normal(s)
    ensures Run(s, f[j..] + g + [P]).0 == SYNCED
  {
    hide Run, Step;
    if s.prFind {
      DeafThenFinds(s, f, j, g);
    } else if s.pCnt == 0 && j > 0 {
      SearchTwo(s, f, j, g);
    } else if s.pCnt == 0 {
      SearchFromMarker(s, f);
      Continue(s, f, g);
    } else {
      SearchStep(s, f[j]);
      var t := Step(s, f[j]).0;
      assert f[j..] + g + [P] == [f[j]] + (f[j + 1..] + g + [P]);
      RunTwo(s, f[j], f[j + 1..] + g + [P]);
      if f[j] == P {
        DeafThenFinds(t, f, j + 1, g);
      } else {
        SearchTwo(t, f, j + 1, g);
      }
    }
  }

  lemma Continue(s: State, f: seq<Byte>, g: seq<Byte>)
    requires ValidFrame(f) && ValidFrame(g) && Run(s, f + [P]).0 == SYNCED
    ensures Run(s, f[0..] + g + [P]).0 == SYNCED
  {
    hide Run;
    FrameKeepsStep(g);
    assert f[0..] + g + [P] == (f + [P]) + (g[1..] + [P]);
    RunConcat(s, f + [P], g[1..] + [P]);
  }

  /**
   Self-stabilisation and round trip together. After any symbols x that leave a normal state (none, if the
   state already is; any 512, from any state at all), and a valid stream joined at symbol j of a frame f,
   the decoder hands over the exact times of all frames after the next one, and stays in step.
   */
  lemma ExactInTheEnd(s: State, x: seq<Byte>, f: seq<Byte>, j: nat, g: seq<Byte>, fs: seq<seq<Byte>>)
    requires |x| >= 512 || Normal(s)
    requires ValidFrame(f) && ValidFrame(g) && j < 100 && ValidFrames(fs) && fs != []
    ensures var (t, out) := Run(s, x + (f[j..] + g) + Concat(fs) + [P]);
            t == SYNCED && |out| >= |fs| && out[|out| - |fs|..] == Times(fs)
  {
    MarkerFirst(fs);
    StartsWithMarker(fs);
    RoundTrip(fs);
    Settles(s, x);
    hide Run, FrameTime, ValidFrame, Concat, ValidFrames, Normal, Times;
    var head, tail := f[j..] + g + [P], Concat(fs)[1..] + [P];
    Regroup(x, f[j..] + g, Concat(fs));
    SecondBoundary(Run(s, x).0, f, j, g);
    Assemble(s, x, head, tail, Times(fs));
  }

  lemma Assemble(s: State, x: seq<Byte>, head: seq<Byte>, tail: seq<Byte>, ts: seq<Time>)
    requires Run(Run(s, x).0, head).0 == SYNCED && Run(SYNCED, tail) == (SYNCED, ts)
    ensures var (t, out) := Run(s, x + (head + tail));
            t == SYNCED && |out| >= |ts| && out[|out| - |ts|..] == ts
  {
    hide Run;
    var n := Run(s, x).0;
    RunConcat(n, head, tail);
    RunConcat(s, x, head + tail);
    EndsWith(Run(s, x).1, Run(n, head).1, ts);
  }

  lemma Regroup(x: seq<Byte>, h: seq<Byte>, c: seq<Byte>)
    requires c != [] && c[0] == P
    ensures x + h + c + [P] == x + ((h + [P]) + (c[1..] + [P]))
  {}

  lemma EndsWith<T>(a: seq<T>, b: seq<T>, c: seq<T>)
    ensures var w := a + (b + c); w[|w| - |c|..] == c
  {}

  lemma {:induction false} StartsWithMarker(fs: seq<seq<Byte>>)
    requires ValidFrames(fs) && fs != []
    ensures Concat(fs) != [] && Concat(fs)[0] == P
  {
    FrameShape(fs[|fs| - 1]);
    if |fs| > 1 {
      StartsWithMarker(fs[..|fs| - 1]);
    }
  }
}
