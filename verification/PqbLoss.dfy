/** When the receiver of frames loses one: the two conditions on reads are needed. */
module PqbLoss {
  import opened Bytes
  import opened PqbFrame
  import opened PhyPrtclPqB
  import opened PqbStream
  import opened Sequences

  // ---- From the start ----

  lemma {:induction false} WholeLine(fs: seq<seq<Byte>>)
    ensures Whole(fs, |Line(fs)|) == |fs|
  {
    LineParts(fs);
    if fs != [] {
      WholeLine(fs[1..]);
    }
  }

  /**
     A fresh receiver, whose count starts at one: if the first read has at least two bytes, a whole line read
     in fair pieces delivers its frames with a matching address and checksum. So any two such splits agree.
   */
  lemma FromTheStart(buf: seq<Byte>, dev: nat, fs: seq<seq<Byte>>, parts: seq<seq<Byte>>)
    requires |buf| == SIZE && AllWellFormed(fs) && Concat(parts) == Line(fs)
    requires Fair(parts, fs, [], dev) && (parts != [] ==> |parts[0]| >= 2)
    ensures Run(Rx(buf, 1), dev, parts).1 == Accepted(fs, dev)
  {
    WholeLine(fs);
    Neutral(Concat(parts));
    Stream(Rx(buf, 1), dev, fs, [], parts);
    assert fs[..|fs|] == fs;
  }

  // ---- A read that ends one byte behind a frame ----

  /** A byte of a preamble in front of one that was never received. */
  ghost predicate Spoilt(rx: Rx, stale: Byte) {
    rx.cnt == 3 <= |rx.buf| && rx.buf[1] == 0x5c && rx.buf[2] == stale
  }

  function OneByte(): seq<Byte> { [0x5c] }

  lemma OverEnd(rx: Rx, dev: nat, j: nat, junk: seq<Byte>, offsets: seq<nat>, log: seq<seq<Byte>>)
    requires Bounded(rx) && j < rx.cnt && rx.buf[j..rx.cnt] == junk + OneByte() && |junk| == 1
    ensures var out := Scan(rx, dev, j, offsets, log);
      out.log == log && Spoilt(out.rx, rx.buf[rx.cnt])
  {
    Behind(rx.buf, j, rx.cnt, junk, [0x5c]);
    hide Round, Find, IsHead;
    RoundAtEnd(rx, dev, j, junk, [0x5c], offsets, log);
    assert rx.buf[j + 1] == rx.buf[j + 1..rx.cnt][0];
  }

  /** The one byte of the next frame is kept in front of a byte that was never received. */
  lemma {:induction false} ScanOver(rx: Rx, dev: nat, j: nat, junk: seq<Byte>, ks: seq<seq<Byte>>,
                                    stale: Byte, offsets: seq<nat>, log: seq<seq<Byte>>)
    requires Bounded(rx) && j < rx.cnt && rx.buf[j..rx.cnt] == junk + (Line(ks) + OneByte()) && |junk| <= 3
    requires stale == rx.buf[rx.cnt]
    requires AllWellFormed(ks) && |offsets| + |Accepted(ks, dev)| <= 8 && (ks == [] ==> |junk| == 1)
    ensures var out := Scan(rx, dev, j, offsets, log);
      out.log == log + Accepted(ks, dev) && Spoilt(out.rx, stale)
    decreases |ks|
  {
    LineStep(ks, OneByte());
    AcceptedStep(ks, dev, log);
    hide Line, Accepted, Reported, Wire, Bounded, Spoilt, Round, OneByte;
    if ks == [] {
      OverEnd(rx, dev, j, junk, offsets, log);
    } else {
      RoundOnFrame(rx, dev, j, junk, ks[0], Line(ks[1..]) + OneByte(), offsets, log);
      var r := Round(rx, dev, j, offsets, log);
      ScanOver(rx, dev, r.j, [ks[0][|ks[0]| - 1]], ks[1..], stale, r.offsets, r.log);
    }
  }

  /** The stream is kept exactly when the byte behind those received happens to be the first of a preamble. */
  lemma UnpackOver(rx: Rx, dev: nat, t0: seq<Byte>, read: seq<Byte>, ks: seq<seq<Byte>>)
    requires |rx.buf| == SIZE && rx.cnt <= KEPT && Holding(rx, t0) && 0 < |read| < RXMAX
    requires t0 + read == Line(ks) + [0x5c] && ks != [] && AllWellFormed(ks) && |Accepted(ks, dev)| <= 8
    ensures var out := Unpack(rx, dev, read);
      && out.log == Accepted(ks, dev) && |out.rx.buf| == SIZE && Spoilt(out.rx, rx.buf[rx.cnt + |read|])
      && (Holding(out.rx, [0x5c]) <==> rx.buf[rx.cnt + |read|] == 0x5c)
  {
    var now := Appended(rx, read);
    AppendedHolds(rx, t0, read);
    UnpackIsSound(rx, dev, read);
    Neutral(Accepted(ks, dev));
    assert now.buf[now.cnt] == rx.buf[rx.cnt + |read|];
    OneHeld(Unpack(rx, dev, read).rx);
    hide Scan, Accepted, Line, Appended, Holding, WellFormed;
    ScanOver(now, dev, 0, rx.buf[..rx.cnt - |t0|], ks, rx.buf[rx.cnt + |read|], [], []);
  }

  lemma OneHeld(rx: Rx)
    ensures rx.cnt == 3 <= |rx.buf| ==> (Holding(rx, [0x5c]) <==> rx.buf[2] == 0x5c)
  {
    if rx.cnt == 3 <= |rx.buf| {
      assert rx.buf[2..3] == [rx.buf[2]];
    }
  }

  /** No preamble inside a payload. */
  ghost predicate Clean(p: seq<Byte>) {
    forall i | 0 <= i <= |p| - 4 :: !IsHead(p, i)
  }

  lemma {:induction false} FindsNothing(buf: seq<Byte>, cnt: nat, j: nat)
    requires cnt <= |buf| && forall i | j <= i <= cnt - 4 :: !IsHead(buf, i)
    ensures Find(buf, cnt, j) + 4 > cnt
    decreases cnt - j
  {
    if j + 4 <= cnt {
      FindsNothing(buf, cnt, j + 1);
    }
  }

  /** No preamble inside it: nothing is accepted of the next frame. */
  lemma LostFrame(rx: Rx, dev: nat, next: seq<Byte>)
    requires |rx.buf| == SIZE && Spoilt(rx, rx.buf[2]) && rx.buf[2] != 0x5c
    requires Clean(next) && 0 < |next| + 3 < RXMAX
    ensures Unpack(rx, dev, Wire(next)[1..]).log == []
  {
    var now := Appended(rx, Wire(next)[1..]);
    assert now.buf[3] == 0x7c && now.buf[4] == 0x3b && now.buf[5] == 0xcf;
    assert forall i | 6 <= i < now.cnt :: now.buf[i] == next[i - 6];
    forall i | 0 <= i <= now.cnt - 4
      ensures !IsHead(now.buf, i)
    {
      if i >= 6 {
        assert !IsHead(next, i - 6);
      }
    }
    FindsNothing(now.buf, now.cnt, 0);
  }

  lemma NoneOfLength(rx: Rx, dev: nat, offsets: seq<nat>, log: seq<seq<Byte>>, n: nat)
    requires rx.cnt <= |rx.buf| && Logged(rx, dev, rx.cnt, offsets, log)
    requires forall h | 0 <= h && h + 4 + n <= rx.cnt :: !IsHead(rx.buf, h)
    ensures |log| == 1 ==> |log[0]| != n
  {}

  /** Whatever is inside it, the next frame is not accepted: it would begin where no preamble is. */
  lemma NotInStep(rx: Rx, dev: nat, next: seq<Byte>)
    requires |rx.buf| == SIZE && Spoilt(rx, rx.buf[2]) && rx.buf[2] != 0x5c && 0 < |next| + 3 < RXMAX
    ensures Unpack(rx, dev, Wire(next)[1..]).log != [next]
  {
    var now, out := Appended(rx, Wire(next)[1..]), Unpack(rx, dev, Wire(next)[1..]);
    UnpackIsSound(rx, dev, Wire(next)[1..]);
    assert now.buf[1] == 0x5c && now.buf[2] != 0x5c && now.buf[3] == 0x7c;
    hide Unpack, Appended, Wire, Accepts, WellFormed;
    NoneOfLength(now, dev, out.offsets, out.log, |next|);
  }

  /**
     After a read that completes frames and ends one byte behind them, the rest of the next frame is read at
     once: it is accepted if and only if the byte behind those received was a 5c.
   */
  lemma OneByteOver(rx: Rx, dev: nat, t0: seq<Byte>, read: seq<Byte>, ks: seq<seq<Byte>>, next: seq<Byte>)
    requires |rx.buf| == SIZE && rx.cnt <= KEPT && Holding(rx, t0) && 0 < |read| < RXMAX
    requires t0 + read == Line(ks) + [0x5c] && ks != [] && AllWellFormed(ks) && |Accepted(ks, dev)| <= 8
    requires WellFormed(next) && Accepts(next, dev) && |next| + 3 < RXMAX
    ensures Unpack(rx, dev, read).rx.cnt <= KEPT && |Unpack(rx, dev, read).rx.buf| == SIZE
    ensures Unpack(Unpack(rx, dev, read).rx, dev, Wire(next)[1..]).log == [next] <==> rx.buf[rx.cnt + |read|] == 0x5c
  {
    UnpackOver(rx, dev, t0, read, ks);
    var after := Unpack(rx, dev, read).rx;
    hide Unpack, Line;
    if rx.buf[rx.cnt + |read|] == 0x5c {
      OneFrame(next, dev);
      UnpackStream(after, dev, [0x5c], Wire(next)[1..], [next], [], EmptyFrame());
    } else {
      NotInStep(after, dev, next);
    }
  }

  lemma OneFrame(next: seq<Byte>, dev: nat)
    requires Accepts(next, dev)
    ensures [0x5c] + Wire(next)[1..] == Line([next]) + [] && Accepted([next], dev) == [next]
  {
    assert Line([next]) == Wire(next) + Line([]);
    assert Wire(next)[0] == 0x5c;
    HeadTail(Wire(next));
    Neutral(Wire(next));
    assert Accepted([next], dev) == [next] + Accepted([], dev);
  }

  // ---- A ninth frame in one read ----

  lemma {:induction false} ScanNinth(rx: Rx, dev: nat, j: nat, junk: seq<Byte>, ks: seq<seq<Byte>>, p: seq<Byte>,
                                     rest: seq<Byte>, offsets: seq<nat>, log: seq<seq<Byte>>)
    requires Bounded(rx) && j < rx.cnt && rx.buf[j..rx.cnt] == junk + (Line(ks) + (Wire(p) + rest)) && |junk| <= 3
    requires AllWellFormed(ks) && WellFormed(p) && Accepts(p, dev) && |offsets| + |Accepted(ks, dev)| == 8
    ensures var out := Scan(rx, dev, j, offsets, log);
      out.log == (log + Accepted(ks, dev)) + [p] && out.rx == Rx(rx.buf, 0)
    decreases |ks|
  {
    LineStep(ks, Wire(p) + rest);
    AcceptedStep(ks, dev, log);
    hide Line, Accepted, Reported, Wire, Accepts, Round, Bounded;
    if ks == [] {
      RoundOnNinth(rx, dev, j, junk, p, rest, offsets, log);
    } else {
      RoundOnFrame(rx, dev, j, junk, ks[0], Line(ks[1..]) + (Wire(p) + rest), offsets, log);
      var r := Round(rx, dev, j, offsets, log);
      ScanNinth(rx, dev, r.j, [ks[0][|ks[0]| - 1]], ks[1..], p, rest, r.offsets, r.log);
    }
  }

  /** Nine frames of a read are reported; what follows the ninth is forgotten, so only nothing may follow it. */
  lemma NinthFrame(rx: Rx, dev: nat, t0: seq<Byte>, read: seq<Byte>, ks: seq<seq<Byte>>, p: seq<Byte>, rest: seq<Byte>)
    requires |rx.buf| == SIZE && rx.cnt <= KEPT && Holding(rx, t0) && 0 < |read| < RXMAX
    requires t0 + read == Line(ks) + (Wire(p) + rest) && AllWellFormed(ks) && WellFormed(p) && Accepts(p, dev)
    requires |Accepted(ks, dev)| == 8
    ensures var out := Unpack(rx, dev, read);
      out.log == Accepted(ks, dev) + [p] && out.rx.cnt == 0 && (Holding(out.rx, rest) <==> rest == [])
  {
    AppendedHolds(rx, t0, read);
    Neutral(Accepted(ks, dev));
    hide Scan, Accepted, Line, Appended, Wire, Accepts, WellFormed;
    ScanNinth(Appended(rx, read), dev, 0, rx.buf[..rx.cnt - |t0|], ks, p, rest, [], []);
  }

  // ---- A first read of one byte ----

  /** A first read of a single byte is kept in front of a byte that was never received, too. */
  lemma FirstByte(buf: seq<Byte>, dev: nat)
    requires |buf| == SIZE
    ensures Holding(Unpack(Rx(buf, 1), dev, [0x5c]).rx, [0x5c]) <==> buf[2] == 0x5c
  {
    var now := Appended(Rx(buf, 1), [0x5c]);
    assert now.buf[1] == 0x5c && now.buf[2] == buf[2];
    FindsHead(now.buf, now.cnt, 0, 1);
    OneHeld(Unpack(Rx(buf, 1), dev, [0x5c]).rx);
  }
}
