/** Two streams of which the receiver of frames loses one. */
module PqbCases {
  import opened Bytes
  import opened PqbFrame
  import opened PhyPrtclPqB
  import opened PqbLoss
  import opened PqbStream
  import opened Sequences

  function Zeros(n: nat): (s: seq<Byte>)
    ensures |s| == n
  {
    seq(n, _ => 0)
  }

  /** A frame for all devices, without a body. */
  function NullFrame(): (p: seq<Byte>)
    ensures |p| == HEADSZ
  {
    [1, 0, 16, 0] + Zeros(16)
  }

  lemma {:induction false} SumOfZeros(n: nat)
    requires n < 65521
    ensures AdlerSums(Zeros(n)) == (1, n)
  {
    if n > 0 {
      SumOfZeros(n - 1);
      assert Zeros(n)[..n - 1] == Zeros(n - 1);
    }
  }

  lemma NullFrameIsAccepted(dev: nat)
    ensures WellFormed(NullFrame()) && Accepts(NullFrame(), dev) && Clean(NullFrame())
  {
    var p := NullFrame();
    SumOfZeros(16);
    assert p[4..] == Zeros(16) && p[0..4] == [1, 0, 16, 0];
    hide AdlerSums, NullFrame;
    assert Adler32(p[4..]) == 0x10_0001 == Word32(p[0..4]);
  }

  /** n such frames. */
  function Frames(n: nat): (fs: seq<seq<Byte>>)
    ensures |fs| == n
  {
    seq(n, _ => NullFrame())
  }

  lemma {:induction false} AllAccepted(n: nat, dev: nat)
    ensures AllWellFormed(Frames(n)) && Accepted(Frames(n), dev) == Frames(n) && |Line(Frames(n))| == 24 * n
  {
    hide NullFrame, Accepts, WellFormed, Wire;
    NullFrameIsAccepted(dev);
    if n > 0 {
      AllAccepted(n - 1, dev);
      assert Frames(n)[1..] == Frames(n - 1) && Frames(n) == [NullFrame()] + Frames(n - 1);
    }
  }

  lemma {:induction false} LineOfMore(m: nat, n: nat)
    ensures Line(Frames(m + n)) == Line(Frames(m)) + Line(Frames(n))
  {
    hide NullFrame, Wire;
    if m > 0 {
      LineOfMore(m - 1, n);
      assert Frames(m + n)[1..] == Frames(m - 1 + n) && Frames(m)[1..] == Frames(m - 1);
      Associates(Wire(NullFrame()), Line(Frames(m - 1)), Line(Frames(n)));
    } else {
      Neutral(Line(Frames(n)));
    }
  }

  function Fresh(): Rx {
    Rx(Zeros(SIZE), 1)
  }

  /** Two frames, the second cut behind its first byte: only the first is accepted. */
  lemma CutBehindOneByte(dev: nat)
    ensures var out := Unpack(Fresh(), dev, Line(Frames(1)) + [0x5c]);
      && out.log == Frames(1) && out.rx.cnt <= KEPT && |out.rx.buf| == SIZE
      && Unpack(out.rx, dev, Wire(NullFrame())[1..]).log == []
  {
    AllAccepted(1, dev);
    NullFrameIsAccepted(dev);
    Neutral(Line(Frames(1)) + [0x5c]);
    hide Line, Unpack, NullFrame, Accepts, WellFormed, Accepted;
    UnpackOver(Fresh(), dev, [], Line(Frames(1)) + [0x5c], Frames(1));
    LostFrame(Unpack(Fresh(), dev, Line(Frames(1)) + [0x5c]).rx, dev, NullFrame());
  }

  lemma TwoFrames()
    ensures Line(Frames(2)) == Wire(NullFrame()) + Wire(NullFrame()) && Frames(8) + [NullFrame()] == Frames(9)
  {
    hide NullFrame, Wire;
    assert Frames(2)[1..] == Frames(1) && Frames(1)[1..] == Frames(0);
    Neutral(Wire(NullFrame()));
  }

  /** Ten frames in one read: nine are accepted, and nothing is kept of the tenth. */
  lemma TenAtOnce(dev: nat)
    ensures Accepted(Frames(10), dev) == Frames(10)
    ensures var out := Unpack(Fresh(), dev, Line(Frames(10))); out.log == Frames(9) && out.rx.cnt == 0
  {
    hide Line, Unpack, NullFrame, Accepts, WellFormed, Accepted, Frames, Wire;
    AllAccepted(8, dev);
    AllAccepted(10, dev);
    NullFrameIsAccepted(dev);
    LineOfMore(8, 2);
    TwoFrames();
    Neutral(Line(Frames(10)));
    NinthFrame(Fresh(), dev, [], Line(Frames(10)), Frames(8), NullFrame(), Wire(NullFrame()));
  }
}
