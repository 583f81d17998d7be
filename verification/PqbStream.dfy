/** Streams of frames: what is accepted does not depend on how the bytes are split into reads. */
module PqbStream {
  import opened Bytes
  import opened PqbFrame
  import opened PhyPrtclPqB
  import opened Sequences

  // ---- Streams ----

  /** Frames back to back on the line. */
  function Line(fs: seq<seq<Byte>>): seq<Byte> {
    if fs == [] then [] else Wire(fs[0]) + Line(fs[1..])
  }

  /** A frame, if its address and checksum match. */
  function Reported(p: seq<Byte>, dev: nat): (r: seq<seq<Byte>>)
    ensures |r| <= 1
  {
    if Accepts(p, dev) then [p] else []
  }

  /** The frames with a matching address and checksum, in order. */
  function Accepted(fs: seq<seq<Byte>>, dev: nat): (r: seq<seq<Byte>>)
    ensures |r| <= |fs|
  {
    if fs == [] then [] else Reported(fs[0], dev) + Accepted(fs[1..], dev)
  }

  ghost predicate AllWellFormed(fs: seq<seq<Byte>>) {
    forall p | p in fs :: WellFormed(p)
  }

  /** t is the beginning of a frame, but not all of it. */
  ghost predicate Begins(t: seq<Byte>, next: seq<Byte>) {
    t <= Wire(next) && |t| < |Wire(next)|
  }

  /** The buffer holds t, behind at most three bytes of no meaning. */
  ghost predicate Holding(rx: Rx, t: seq<Byte>) {
    |t| <= rx.cnt <= |rx.buf| && rx.cnt <= |t| + 3 && rx.buf[rx.cnt - |t|..rx.cnt] == t
  }

  // ---- The search for a preamble ----

  /** No preamble begins shortly before another one. */
  lemma {:induction false} FindsHead(buf: seq<Byte>, cnt: nat, j: nat, at: nat)
    requires j <= at <= j + 3 && at < cnt <= |buf| && buf[at] == 0x5c
    ensures at + 4 <= cnt && IsHead(buf, at) ==> Find(buf, cnt, j) == at
    ensures at + 4 > cnt ==> Find(buf, cnt, j) == if j + 3 >= cnt then j else cnt - 3
    decreases at - j
  {
    if j < at && j + 4 <= cnt {
      assert !IsHead(buf, j);
      FindsHead(buf, cnt, j + 1, at);
    }
  }

  /** The bytes from j on are junk followed by more. */
  lemma Behind(s: seq<Byte>, j: nat, cnt: nat, junk: seq<Byte>, more: seq<Byte>)
    requires j <= cnt <= |s| && s[j..cnt] == junk + more
    ensures j + |junk| + |more| == cnt && s[j + |junk|..cnt] == more
  {
    assert s[j + |junk|..cnt] == s[j..cnt][|junk|..];
    DropPrefix(junk, more);
  }

  lemma HeadAt(s: seq<Byte>, h: nat, cnt: nat, more: seq<Byte>)
    requires h <= cnt <= |s| && s[h..cnt] == more && more != []
    ensures more[0] == 0x5c ==> s[h] == 0x5c
    ensures Preamble() <= more ==> h + 4 <= cnt && s[h] == 0x5c && IsHead(s, h)
  {
    assert s[h] == s[h..cnt][0];
    if Preamble() <= more {
      assert s[h + 1] == more[1] && s[h + 2] == more[2] && s[h + 3] == more[3];
      assert more[..4] == Preamble();
      assert more[..4][0] == more[0] && more[..4][1] == more[1] && more[..4][2] == more[2] && more[..4][3] == more[3];
    }
  }

  /** The parts of a frame in the buffer. */
  lemma FrameAt(s: seq<Byte>, h: nat, cnt: nat, p: seq<Byte>, more: seq<Byte>)
    requires h <= cnt <= |s| && s[h..cnt] == Wire(p) + more && |p| >= HEADSZ
    ensures var end := h + 4 + |p|;
      && end <= cnt && s[h + 4..h + 4 + HEADSZ] == p[..HEADSZ] && s[h + 4..end] == p
      && s[end - 1..cnt] == [p[|p| - 1]] + more
  {
    var end := h + 4 + |p|;
    Associates(Preamble(), p, more);
    Behind(s, h, cnt, Preamble(), p + more);
    Behind(s, h + 4, cnt, p, more);
    assert s[h + 4..cnt][..|p|] == p;
    assert s[h + 4..end] == s[h + 4..cnt][..|p|];
    assert s[h + 4..h + 4 + HEADSZ] == s[h + 4..end][..HEADSZ];
    assert s[end - 1] == s[h + 4..end][|p| - 1];
    assert s[end - 1..cnt] == [s[end - 1]] + s[end..cnt];
  }

  /** Less than a preamble is left: the last three bytes are kept. */
  lemma RoundAtEnd(rx: Rx, dev: nat, j: nat, junk: seq<Byte>, t: seq<Byte>, offsets: seq<nat>, log: seq<seq<Byte>>)
    requires Bounded(rx) && j < rx.cnt && rx.buf[j..rx.cnt] == junk + t && |junk| <= 3 && t <= Preamble() && |t| < 4
    ensures var h := if j + 3 >= rx.cnt then j else rx.cnt - 3;
      Round(rx, dev, j, offsets, log) == Stop(Out(KeepThree(rx, h), offsets, log))
  {
    Behind(rx.buf, j, rx.cnt, junk, t);
    if t != [] {
      HeadAt(rx.buf, j + |junk|, rx.cnt, t);
      FindsHead(rx.buf, rx.cnt, j, j + |junk|);
    }
  }

  /** A frame has begun but is not complete: it is kept. */
  lemma RoundOnPart(rx: Rx, dev: nat, j: nat, junk: seq<Byte>, t: seq<Byte>, next: seq<Byte>,
                    offsets: seq<nat>, log: seq<seq<Byte>>)
    requires Bounded(rx) && j < rx.cnt && rx.buf[j..rx.cnt] == junk + t && |junk| <= 3
    requires WellFormed(next) && Begins(t, next) && 4 <= |t|
    ensures Round(rx, dev, j, offsets, log) == Stop(Out(KeepTail(rx, j + |junk|), offsets, log))
  {
    var h := j + |junk|;
    Behind(rx.buf, j, rx.cnt, junk, t);
    assert Preamble() <= t;
    HeadAt(rx.buf, h, rx.cnt, t);
    FindsHead(rx.buf, rx.cnt, j, h);
    if |t| >= 4 + HEADSZ {
      assert rx.buf[h + 4..h + 4 + HEADSZ] == rx.buf[h..rx.cnt][4..4 + HEADSZ] == Wire(next)[4..4 + HEADSZ] == next[..HEADSZ];
      SameHead(next, rx.buf[h + 4..h + 4 + HEADSZ]);
    }
  }

  /** A complete frame: it is reported or passed over, and the search goes on at its last byte. */
  lemma RoundOnFrame(rx: Rx, dev: nat, j: nat, junk: seq<Byte>, p: seq<Byte>, more: seq<Byte>,
                     offsets: seq<nat>, log: seq<seq<Byte>>)
    requires Bounded(rx) && j < rx.cnt && rx.buf[j..rx.cnt] == junk + (Wire(p) + more) && |junk| <= 3
    requires WellFormed(p) && |offsets| + |Reported(p, dev)| <= 8
    ensures var r := Round(rx, dev, j, offsets, log);
      && r.Next? && r.j < rx.cnt && rx.buf[r.j..rx.cnt] == [p[|p| - 1]] + more
      && |r.offsets| == |offsets| + |Reported(p, dev)| && r.log == log + Reported(p, dev)
  {
    var h := j + |junk|;
    Behind(rx.buf, j, rx.cnt, junk, Wire(p) + more);
    assert Preamble() <= Wire(p) + more;
    HeadAt(rx.buf, h, rx.cnt, Wire(p) + more);
    Neutral(log);
    hide Wire, Preamble, Accepts, IsHead, BodyLen, Round;
    FindsHead(rx.buf, rx.cnt, j, h);
    FrameAt(rx.buf, h, rx.cnt, p, more);
    RoundReports(rx, dev, j, h, p, offsets, log);
  }

  /** With eight frames reported, one more ends the search, and all that follows is dropped. */
  lemma RoundOnNinth(rx: Rx, dev: nat, j: nat, junk: seq<Byte>, p: seq<Byte>, more: seq<Byte>,
                     offsets: seq<nat>, log: seq<seq<Byte>>)
    requires Bounded(rx) && j < rx.cnt && rx.buf[j..rx.cnt] == junk + (Wire(p) + more) && |junk| <= 3
    requires WellFormed(p) && Accepts(p, dev) && |offsets| == 8
    ensures var r := Round(rx, dev, j, offsets, log);
      r.Stop? && r.out.log == log + [p] && r.out.rx == Rx(rx.buf, 0)
  {
    var h := j + |junk|;
    Behind(rx.buf, j, rx.cnt, junk, Wire(p) + more);
    assert Preamble() <= Wire(p) + more;
    HeadAt(rx.buf, h, rx.cnt, Wire(p) + more);
    hide Wire, Preamble, Accepts, IsHead, BodyLen, Round;
    FindsHead(rx.buf, rx.cnt, j, h);
    FrameAt(rx.buf, h, rx.cnt, p, more);
    RoundReports(rx, dev, j, h, p, offsets, log);
  }

  lemma RoundReports(rx: Rx, dev: nat, j: nat, h: nat, p: seq<Byte>, offsets: seq<nat>, log: seq<seq<Byte>>)
    requires Bounded(rx) && j <= h && h + 4 + |p| <= rx.cnt && Find(rx.buf, rx.cnt, j) == h && WellFormed(p)
    requires rx.buf[h + 4..h + 4 + HEADSZ] == p[..HEADSZ] && rx.buf[h + 4..h + 4 + |p|] == p
    ensures Round(rx, dev, j, offsets, log) ==
      if !Accepts(p, dev) then Next(h + 3 + |p|, offsets, log)
      else if |offsets| < 8 then Next(h + 3 + |p|, offsets + [h + 4], log + [p])
      else Stop(Out(Rx(rx.buf, 0), offsets + [h + 4], log + [p]))
  {
    hide Accepts, IsHead, Find, BodyLen, WellFormed;
    Length(p);
    SameHead(p, p[..HEADSZ]);
  }

  lemma Length(p: seq<Byte>)
    requires WellFormed(p)
    ensures |p| == HEADSZ + BodyLen(p) <= HEADSZ + RXMAX
  {}

  lemma SameHead(p: seq<Byte>, head: seq<Byte>)
    requires |p| >= HEADSZ && head == p[..HEADSZ]
    ensures BodyLen(head) == BodyLen(p)
  {
    assert head[9] == p[9] && head[10] == p[10];
  }

  // ---- A whole call ----

  /** The rest of a search over what is left of a frame. */
  lemma ScanRest(rx: Rx, dev: nat, j: nat, junk: seq<Byte>, t: seq<Byte>, next: seq<Byte>,
                 offsets: seq<nat>, log: seq<seq<Byte>>)
    requires Bounded(rx) && j < rx.cnt && rx.buf[j..rx.cnt] == junk + t && |junk| <= 3
    requires WellFormed(next) && Begins(t, next) && (t == [] || |junk| + |t| >= 3)
    ensures var out := Scan(rx, dev, j, offsets, log);
      out.log == log && Holding(out.rx, t) && out.rx.cnt >= 3
  {
    Behind(rx.buf, j, rx.cnt, junk, t);
    hide Round, Find, KeepTail, KeepThree, WellFormed;
    if |t| < 4 {
      assert t <= Preamble();
      RoundAtEnd(rx, dev, j, junk, t, offsets, log);
      ThreeHold(rx, if j + 3 >= rx.cnt then j else rx.cnt - 3, t);
    } else {
      RoundOnPart(rx, dev, j, junk, t, next, offsets, log);
      TailHolds(rx, j + |junk|, t);
    }
  }

  lemma ThreeHold(rx: Rx, h: nat, t: seq<Byte>)
    requires h + 3 <= |rx.buf| && (t == [] || (|t| <= 3 && h + 3 == rx.cnt && rx.buf[rx.cnt - |t|..rx.cnt] == t))
    ensures Holding(KeepThree(rx, h), t) && KeepThree(rx, h).cnt == 3
  {
    var three := rx.buf[h..h + 3];
    if t != [] {
      assert rx.buf[rx.cnt - |t|..rx.cnt] == three[3 - |t|..];
      assert KeepThree(rx, h).buf[3 - |t|..3] == three[3 - |t|..];
    }
  }

  lemma TailHolds(rx: Rx, h: nat, t: seq<Byte>)
    requires h <= rx.cnt <= |rx.buf| && rx.buf[h..rx.cnt] == t
    ensures Holding(KeepTail(rx, h), t) && KeepTail(rx, h).cnt == |t|
  {}

  /** Complete frames are reported as they should be, and what is left of the next one is kept. */
  lemma {:induction false} ScanStream(rx: Rx, dev: nat, j: nat, junk: seq<Byte>, ks: seq<seq<Byte>>, t: seq<Byte>,
                                      next: seq<Byte>, offsets: seq<nat>, log: seq<seq<Byte>>)
    requires Bounded(rx) && j < rx.cnt && rx.buf[j..rx.cnt] == junk + (Line(ks) + t) && |junk| <= 3
    requires AllWellFormed(ks) && WellFormed(next) && Begins(t, next)
    requires if ks == [] then t == [] || |junk| + |t| >= 3 else |t| != 1
    requires |offsets| + |Accepted(ks, dev)| <= 8
    ensures var out := Scan(rx, dev, j, offsets, log);
      out.log == log + Accepted(ks, dev) && Holding(out.rx, t) && out.rx.cnt >= 3
    decreases |ks|
  {
    LineStep(ks, t);
    AcceptedStep(ks, dev, log);
    hide Line, Accepted, Reported, Wire, Bounded, Holding, Begins, Round;
    if ks == [] {
      ScanRest(rx, dev, j, junk, t, next, offsets, log);
    } else {
      var more := Line(ks[1..]) + t;
      RoundOnFrame(rx, dev, j, junk, ks[0], more, offsets, log);
      var r := Round(rx, dev, j, offsets, log);
      ScanStream(rx, dev, r.j, [ks[0][|ks[0]| - 1]], ks[1..], t, next, r.offsets, r.log);
    }
  }

  lemma LineStep(ks: seq<seq<Byte>>, t: seq<Byte>)
    ensures ks == [] ==> Line(ks) + t == t
    ensures ks != [] ==> Line(ks) + t == Wire(ks[0]) + (Line(ks[1..]) + t)
  {
    Neutral(t);
    if ks != [] {
      Associates(Wire(ks[0]), Line(ks[1..]), t);
    }
  }

  lemma AcceptedStep(ks: seq<seq<Byte>>, dev: nat, log: seq<seq<Byte>>)
    ensures ks == [] ==> Accepted(ks, dev) == [] && log + Accepted(ks, dev) == log
    ensures ks != [] ==>
      && log + Accepted(ks, dev) == (log + Reported(ks[0], dev)) + Accepted(ks[1..], dev)
      && |Accepted(ks, dev)| == |Reported(ks[0], dev)| + |Accepted(ks[1..], dev)|
  {
    hide Reported;
    Neutral(log);
    if ks != [] {
      Associates(log, Reported(ks[0], dev), Accepted(ks[1..], dev));
    }
  }

  /** One read: the complete frames are reported, and the beginning of the next one is kept. */
  lemma UnpackStream(rx: Rx, dev: nat, t0: seq<Byte>, read: seq<Byte>, ks: seq<seq<Byte>>, t: seq<Byte>, next: seq<Byte>)
    requires |rx.buf| == SIZE && rx.cnt <= KEPT && Holding(rx, t0) && 0 < |read| < RXMAX && rx.cnt + |read| >= 3
    requires t0 + read == Line(ks) + t && AllWellFormed(ks) && WellFormed(next) && Begins(t, next)
    requires |Accepted(ks, dev)| <= 8 && (ks != [] ==> |t| != 1)
    ensures var out := Unpack(rx, dev, read);
      && out.log == Accepted(ks, dev) && Holding(out.rx, t) && 3 <= out.rx.cnt <= KEPT && |out.rx.buf| == SIZE
  {
    var now, junk := Appended(rx, read), rx.buf[..rx.cnt - |t0|];
    AppendedHolds(rx, t0, read);
    UnpackIsSound(rx, dev, read);
    LineStep(ks, t);
    Neutral(Accepted(ks, dev));
    hide Appended, Scan, Accepted, Holding, Line, WellFormed, Begins;
    ScanStream(now, dev, 0, junk, ks, t, next, [], []);
  }

  lemma AppendedHolds(rx: Rx, t0: seq<Byte>, read: seq<Byte>)
    requires |rx.buf| == SIZE && rx.cnt <= KEPT && Holding(rx, t0) && |read| < RXMAX
    ensures var now := Appended(rx, read);
      && now.cnt == rx.cnt + |read|
      && now.buf[0..now.cnt] == rx.buf[..rx.cnt - |t0|] + (t0 + read) && rx.cnt - |t0| <= 3
  {
    var now := Appended(rx, read);
    assert rx.buf[..rx.cnt] == rx.buf[..rx.cnt - |t0|] + rx.buf[rx.cnt - |t0|..rx.cnt];
    assert now.buf[0..now.cnt] == rx.buf[..rx.cnt] + read;
    Associates(rx.buf[..rx.cnt - |t0|], t0, read);
  }

  // ---- Runs ----

  /** How many of the frames are complete in the first n bytes of their line. */
  function Whole(fs: seq<seq<Byte>>, n: nat): (k: nat)
    ensures k <= |fs|
  {
    if fs == [] || n < |Wire(fs[0])| then 0 else 1 + Whole(fs[1..], n - |Wire(fs[0])|)
  }

  /** A prefix of a line is a number of complete frames and the beginning of the next one. */
  lemma {:induction false} WholeSplits(fs: seq<seq<Byte>>, s: seq<Byte>)
    requires s <= Line(fs)
    ensures var k := Whole(fs, |s|);
      && Line(fs[..k]) <= s && Line(fs) == Line(fs[..k]) + Line(fs[k..])
      && (if k < |fs| then Begins(s[|Line(fs[..k])|..], fs[k]) else s == Line(fs))
  {
    LineParts(fs);
    if fs != [] {
      PrefixOfSum(Wire(fs[0]), Line(fs[1..]), s);
    }
    if fs != [] && |s| >= |Wire(fs[0])| {
      var rest := s[|Wire(fs[0])|..];
      WholeSplits(fs[1..], rest);
      WholeStep(fs, s);
    }
  }

  lemma LineParts(fs: seq<seq<Byte>>)
    ensures fs != [] ==> Line(fs) == Wire(fs[0]) + Line(fs[1..])
    ensures fs[..0] == [] && fs[0..] == fs && Line([]) == []
  {}

  lemma WholeStep(fs: seq<seq<Byte>>, s: seq<Byte>)
    requires fs != [] && |s| >= |Wire(fs[0])| && s <= Line(fs)
    requires var rest := s[|Wire(fs[0])|..];
      var k := Whole(fs[1..], |rest|);
      Line(fs[1..][..k]) <= rest && Line(fs[1..]) == Line(fs[1..][..k]) + Line(fs[1..][k..])
    ensures var rest, k := s[|Wire(fs[0])|..], Whole(fs, |s|);
      && k > 0 && k - 1 == Whole(fs[1..], |rest|) && (k < |fs| ==> fs[k] == fs[1..][k - 1])
      && Line(fs[..k]) <= s && Line(fs) == Line(fs[..k]) + Line(fs[k..])
      && s[|Line(fs[..k])|..] == rest[|Line(fs[1..][..k - 1])|..]
  {
    var w, k := Wire(fs[0]), Whole(fs, |s|);
    var rest := s[|w|..];
    hide Wire;
    assert fs[..k][1..] == fs[1..][..k - 1] && fs[k..] == fs[1..][k - 1..];
    LineParts(fs);
    LineParts(fs[..k]);
    hide Line;
    PrefixOfSum(w, Line(fs[1..]), s);
    PrefixBehind(w, Line(fs[1..][..k - 1]), rest);
    Associates(w, Line(fs[1..][..k - 1]), Line(fs[k..]));
  }

  /** All payloads accepted during a run of reads, and the state after it. */
  function Run(rx: Rx, dev: nat, parts: seq<seq<Byte>>): (r: (Rx, seq<seq<Byte>>))
    requires |rx.buf| == SIZE && rx.cnt <= KEPT
    ensures |r.0.buf| == SIZE && r.0.cnt <= KEPT
    decreases |parts|
  {
    if parts == [] then (rx, []) else
      var out := Unpack(rx, dev, parts[0]);
      UnpackIsSound(rx, dev, parts[0]);
      var rest := Run(out.rx, dev, parts[1..]);
      (rest.0, out.log + rest.1)
  }

  /**
     Reads that a receiver copes with, when t of the line has been read: of 1 to 2047 bytes, with at most eight
     frames to accept in each, and none that completes a frame and ends exactly one byte behind it.
   */
  ghost predicate Fair(parts: seq<seq<Byte>>, fs: seq<seq<Byte>>, t: seq<Byte>, dev: nat)
    decreases |parts|
  {
    parts != [] ==>
      var s := t + parts[0];
      var k := Whole(fs, |s|);
      && 0 < |parts[0]| < RXMAX && s <= Line(fs) && |Accepted(fs[..k], dev)| <= 8
      && (WholeSplits(fs, s); k > 0 ==> |s| - |Line(fs[..k])| != 1)
      && Fair(parts[1..], fs[k..], s[|Line(fs[..k])|..], dev)
  }

  lemma AcceptedConcat(a: seq<seq<Byte>>, b: seq<seq<Byte>>, dev: nat)
    ensures Accepted(a + b, dev) == Accepted(a, dev) + Accepted(b, dev)
  {
    hide Reported;
    if a == [] {
      Neutral(b);
      Neutral(Accepted(b, dev));
    } else {
      AcceptedConcat(a[1..], b, dev);
      assert (a + b)[0] == a[0] && (a + b)[1..] == a[1..] + b;
      Associates(Reported(a[0], dev), Accepted(a[1..], dev), Accepted(b, dev));
    }
  }

  lemma {:induction false} WholeSkips(fs: seq<seq<Byte>>, k: nat, n: nat)
    requires k <= |fs| && n >= |Line(fs[..k])|
    ensures Whole(fs, n) == k + Whole(fs[k..], n - |Line(fs[..k])|)
    decreases k
  {
    hide Wire, Line;
    LineParts(fs);
    if k > 0 {
      var w := |Wire(fs[0])|;
      LineParts(fs[..k]);
      assert fs[..k][1..] == fs[1..][..k - 1] && fs[k..] == fs[1..][k - 1..];
      WholeSkips(fs[1..], k - 1, n - w);
      assert Whole(fs, n) == 1 + Whole(fs[1..], n - w);
    }
  }

  /** What has been read, seen from the first frame that is not complete. */
  lemma Regroup(t: seq<Byte>, parts: seq<seq<Byte>>, a: seq<Byte>, t': seq<Byte>, b: seq<Byte>)
    requires parts != [] && t + parts[0] == a + t' && t' + Concat(parts[1..]) <= b
    ensures t + Concat(parts) == a + (t' + Concat(parts[1..])) && t + Concat(parts) <= a + b
  {
    ConcatHead(parts);
    Associates(t, parts[0], Concat(parts[1..]));
    Associates(a, t', Concat(parts[1..]));
    PrefixBehind(a, t' + Concat(parts[1..]), b);
  }

  lemma AcceptedSplits(fs: seq<seq<Byte>>, k: nat, l: nat, dev: nat)
    requires k <= k + l <= |fs|
    ensures Accepted(fs[..k + l], dev) == Accepted(fs[..k], dev) + Accepted(fs[k..][..l], dev)
  {
    assert fs[..k + l] == fs[..k] + fs[k..][..l];
    AcceptedConcat(fs[..k], fs[k..][..l], dev);
  }

  /** One step of a run of fair reads. */
  lemma StreamStep(rx: Rx, dev: nat, fs: seq<seq<Byte>>, t: seq<Byte>, parts: seq<seq<Byte>>)
    requires |rx.buf| == SIZE && rx.cnt <= KEPT && Holding(rx, t) && AllWellFormed(fs)
    requires parts != [] && Fair(parts, fs, t, dev) && rx.cnt + |parts[0]| >= 3
    ensures var s, out := t + parts[0], Unpack(rx, dev, parts[0]);
      var k := Whole(fs, |s|);
      && out.log == Accepted(fs[..k], dev) && 3 <= out.rx.cnt <= KEPT && |out.rx.buf| == SIZE
      && Line(fs) == Line(fs[..k]) + Line(fs[k..]) && Line(fs[..k]) <= s
      && var t' := s[|Line(fs[..k])|..];
      && s == Line(fs[..k]) + t' && t' <= Line(fs[k..]) && Whole(fs[k..], |t'|) == 0
      && Holding(out.rx, t') && Fair(parts[1..], fs[k..], t', dev)
  {
    var s := t + parts[0];
    var k := Whole(fs, |s|);
    WholeSplits(fs, s);
    WholeSkips(fs, k, |s|);
    var a := Line(fs[..k]);
    var t' := s[|a|..];
    PrefixOfSum(a, Line(fs[k..]), s);
    assert s <= a + Line(fs[k..]);
    var next := if k < |fs| then fs[k] else EmptyFrame();
    hide Unpack, Holding, Fair, Accepted, Line, WellFormed, Whole;
    assert a + t' == s;
    assert Begins(t', next);
    UnpackStream(rx, dev, t, parts[0], fs[..k], t', next);
  }

  /**
     However a line of frames is split into fair reads, exactly the frames with a matching address and checksum
     that are complete are accepted, each once and in order.
   */
  lemma {:induction false} Stream(rx: Rx, dev: nat, fs: seq<seq<Byte>>, t: seq<Byte>, parts: seq<seq<Byte>>)
    requires |rx.buf| == SIZE && rx.cnt <= KEPT && Holding(rx, t) && AllWellFormed(fs)
    requires t <= Line(fs) && Whole(fs, |t|) == 0 && Fair(parts, fs, t, dev)
    requires parts != [] ==> rx.cnt + |parts[0]| >= 3
    ensures t + Concat(parts) <= Line(fs)
    ensures Run(rx, dev, parts).1 == Accepted(fs[..Whole(fs, |t + Concat(parts)|)], dev)
    decreases |parts|
  {
    hide Unpack, Holding, Accepted, Line, Whole;
    NothingRead(rx, dev, fs, t, parts);
    if parts != [] {
      StreamStep(rx, dev, fs, t, parts);
      var s, out := t + parts[0], Unpack(rx, dev, parts[0]);
      var k := Whole(fs, |s|);
      var t' := s[|Line(fs[..k])|..];
      Stream(out.rx, dev, fs[k..], t', parts[1..]);
      Regroup(t, parts, Line(fs[..k]), t', Line(fs[k..]));
      WholeSkips(fs, k, |t + Concat(parts)|);
      AcceptedSplits(fs, k, Whole(fs[k..], |t' + Concat(parts[1..])|), dev);
    }
  }

  lemma NothingRead(rx: Rx, dev: nat, fs: seq<seq<Byte>>, t: seq<Byte>, parts: seq<seq<Byte>>)
    requires |rx.buf| == SIZE && rx.cnt <= KEPT && Whole(fs, |t|) == 0
    ensures parts == [] ==>
      t + Concat(parts) == t && Run(rx, dev, parts).1 == Accepted(fs[..Whole(fs, |t|)], dev)
  {
    Neutral(t);
  }

  /** A payload without a body. */
  function EmptyFrame(): (p: seq<Byte>)
    ensures WellFormed(p)
  {
    seq(HEADSZ, _ => 0)
  }
}
