/** What single bytes of a frame mean to its receiver: address, length, checksum, and a length that is too great. */
module PqbBytes {
  import opened Arithmetic
  import opened Bits
  import opened Bytes
  import opened PqbFrame
  import opened PhyPrtclPqB
  import opened PqbLoss
  import opened PqbStream
  import opened Sequences

  // ---- The checksum ----

  /** The sum of all prefix sums, each one more than the bytes add up to. */
  function PrefixSums(s: seq<Byte>): int {
    if s == [] then 0 else PrefixSums(s[..|s| - 1]) + 1 + Sum(s)
  }

  /** Reducing after every byte is the same as reducing at the end. */
  lemma {:induction false} AdlerIsReducedOnce(s: seq<Byte>)
    ensures AdlerSums(s) == ((1 + Sum(s)) % 65521, PrefixSums(s) % 65521)
  {
    if s != [] {
      var t, x := s[..|s| - 1], s[|s| - 1];
      AdlerIsReducedOnce(t);
      hide AdlerSums;
      ModuloSum(1 + Sum(t), x, 65521);
      ModuloSum(PrefixSums(t), (1 + Sum(s)) % 65521, 65521);
      ModuloSum(1 + Sum(s), PrefixSums(t), 65521);
    }
  }

  /** The checksum of the letters "abc". */
  lemma KnownSum()
    ensures Adler32([0x61, 0x62, 0x63]) == 0x024d_0127
  {
    var s: seq<Byte> := [0x61, 0x62, 0x63];
    assert s[..2] == [0x61, 0x62] && s[..2][..1] == [0x61] && s[..2][..1][..0] == [];
    assert AdlerSums(s[..2][..1]) == (98, 98);
    assert AdlerSums(s[..2]) == (196, 294);
  }

  // ---- The head ----

  /** The bytes of a head that say which receiver it is for. */
  predicate ForDevice(p: seq<Byte>, d: nat)
    requires |p| >= 20
  {
    (p[4] == d % 256 && p[5] == d / 256) || (p[4] == 0 && p[5] == 0)
  }

  /** The first four bytes, low-order byte first, are the sum over the others, or over those of the head. */
  predicate RightSum(p: seq<Byte>)
    requires |p| >= 20
  {
    (p[0] as int) + 0x100 * (p[1] as int) + 0x1_0000 * (p[2] as int) + 0x100_0000 * (p[3] as int) ==
    Adler32(if p[11] == 0 then p[4..] else p[4..20])
  }

  /** Bytes 4 and 5 are compared with the address of the receiver. */
  lemma AcceptsByBytes(p: seq<Byte>, d: nat)
    requires |p| >= 20 && d < 0x1_0000
    ensures Accepts(p, d) <==> ForDevice(p, d) && RightSum(p)
  {
    hide Adler32, AdlerSums;
    assert p[0..4][0] == p[0] && p[0..4][1] == p[1] && p[0..4][2] == p[2] && p[0..4][3] == p[3];
    var low, high: int := p[4], p[5];
    ModuloUnique(low + 256 * high, 256, high, low);
  }

  /** The number of body bytes that a head states. */
  function Stated(p: seq<Byte>): nat
    requires |p| >= 20
  {
    (p[9] as int) + 256 * (p[10] as int)
  }

  /** A payload has twenty bytes and as many more as bytes 9 and 10 say, but not more than 2048. */
  lemma WellFormedByBytes(p: seq<Byte>)
    ensures WellFormed(p) <==> |p| >= 20 && Stated(p) <= 2048 && |p| == 20 + Stated(p)
  {}

  /** The frames of a line whose address bytes and checksum are right. */
  function Kept(fs: seq<seq<Byte>>, d: nat): seq<seq<Byte>>
    requires forall i | 0 <= i < |fs| :: |fs[i]| >= 20
  {
    if fs == [] then []
    else (if ForDevice(fs[0], d) && RightSum(fs[0]) then [fs[0]] else []) + Kept(fs[1..], d)
  }

  /** They are the frames that a receiver accepts, from any stream. */
  lemma {:induction false} AcceptedByBytes(fs: seq<seq<Byte>>, d: nat)
    requires d < 0x1_0000 && forall i | 0 <= i < |fs| :: |fs[i]| >= 20
    ensures Accepted(fs, d) == Kept(fs, d)
  {
    hide Accepts, ForDevice, RightSum;
    if fs != [] {
      AcceptsByBytes(fs[0], d);
      AcceptedByBytes(fs[1..], d);
    }
  }

  /** A fresh receiver that reads one frame at once logs it exactly if its address bytes and its checksum are right. */
  lemma OneFrameByBytes(buf: seq<Byte>, d: nat, p: seq<Byte>)
    requires |buf| == SIZE && d < 0x1_0000 && |p| >= 20 && |p| == 20 + Stated(p) && |p| + 4 <= 2047
    ensures Unpack(Rx(buf, 1), d, [0x5c, 0x7c, 0x3b, 0xcf] + p).log ==
            if ForDevice(p, d) && RightSum(p) then [p] else []
  {
    WellFormedByBytes(p);
    AcceptedByBytes([p], d);
    hide WellFormed, ForDevice, RightSum, Unpack, Accepted;
    assert Line([p]) == Wire(p) + Line([]) && Kept([p][1..], d) == [];
    Neutral(Wire(p));
    Neutral(Accepted([p], d));
    UnpackStream(Rx(buf, 1), d, [], Wire(p), [p], [], EmptyFrame());
  }

  // ---- A head that states too long a body ----

  lemma RoundOnLong(rx: Rx, dev: nat, j: nat, junk: seq<Byte>, head: seq<Byte>, rest: seq<Byte>,
                    offsets: seq<nat>, log: seq<seq<Byte>>)
    requires Bounded(rx) && j < rx.cnt && rx.buf[j..rx.cnt] == junk + (Wire(head) + rest) && |junk| <= 3
    requires |head| == 20 && Stated(head) > 2048
    ensures Round(rx, dev, j, offsets, log) == Stop(Out(Rx(rx.buf, 0), offsets, log))
  {
    var h := j + |junk|;
    Behind(rx.buf, j, rx.cnt, junk, Wire(head) + rest);
    assert Preamble() <= Wire(head) + rest;
    HeadAt(rx.buf, h, rx.cnt, Wire(head) + rest);
    hide Wire, Preamble, IsHead;
    FindsHead(rx.buf, rx.cnt, j, h);
    FrameAt(rx.buf, h, rx.cnt, head, rest);
    assert head[..HEADSZ] == head;
  }

  lemma {:induction false} ScanLong(rx: Rx, dev: nat, j: nat, junk: seq<Byte>, ks: seq<seq<Byte>>, head: seq<Byte>,
                                    rest: seq<Byte>, offsets: seq<nat>, log: seq<seq<Byte>>)
    requires Bounded(rx) && j < rx.cnt && rx.buf[j..rx.cnt] == junk + (Line(ks) + (Wire(head) + rest)) && |junk| <= 3
    requires AllWellFormed(ks) && |head| == 20 && Stated(head) > 2048 && |offsets| + |Accepted(ks, dev)| <= 8
    ensures var out := Scan(rx, dev, j, offsets, log);
      out.log == log + Accepted(ks, dev) && out.rx == Rx(rx.buf, 0)
    decreases |ks|
  {
    LineStep(ks, Wire(head) + rest);
    AcceptedStep(ks, dev, log);
    hide Line, Accepted, Reported, Wire, Round, Bounded;
    if ks == [] {
      RoundOnLong(rx, dev, j, junk, head, rest, offsets, log);
    } else {
      RoundOnFrame(rx, dev, j, junk, ks[0], Line(ks[1..]) + (Wire(head) + rest), offsets, log);
      var r := Round(rx, dev, j, offsets, log);
      ScanLong(rx, dev, r.j, [ks[0][|ks[0]| - 1]], ks[1..], head, rest, r.offsets, r.log);
    }
  }

  /**
     A head that states more than 2048 bytes: the frames in front of it are reported, and the receiver is empty,
     so whatever follows it in the read is lost. What comes next is received as by a receiver that has kept
     nothing, so a line in fair reads is delivered whole if the first of them has at least three bytes.
   */
  lemma TooLong(rx: Rx, dev: nat, t0: seq<Byte>, read: seq<Byte>, ks: seq<seq<Byte>>, head: seq<Byte>, rest: seq<Byte>,
                fs: seq<seq<Byte>>, parts: seq<seq<Byte>>)
    requires |rx.buf| == SIZE && rx.cnt <= KEPT && Holding(rx, t0) && 0 < |read| < 2048
    requires t0 + read == Line(ks) + (Wire(head) + rest) && AllWellFormed(ks) && |Accepted(ks, dev)| <= 8
    requires |head| == 20 && Stated(head) > 2048
    requires AllWellFormed(fs) && Concat(parts) == Line(fs) && Fair(parts, fs, [], dev)
    requires parts != [] ==> |parts[0]| >= 3
    ensures var out := Unpack(rx, dev, read);
      && out.log == Accepted(ks, dev) && out.rx.cnt == 0 && |out.rx.buf| == SIZE
      && Run(out.rx, dev, parts).1 == Accepted(fs, dev)
  {
    AppendedHolds(rx, t0, read);
    Neutral(Accepted(ks, dev));
    Neutral(Line(fs));
    WholeLine(fs);
    assert fs[..|fs|] == fs;
    hide Scan, Accepted, Line, Appended, Wire, Accepts, WellFormed, Stated, Fair, Run, Whole, Concat;
    ScanLong(Appended(rx, read), dev, 0, rx.buf[..rx.cnt - |t0|], ks, head, rest, [], []);
    NothingWhole(fs);
    Stream(Unpack(rx, dev, read).rx, dev, fs, [], parts);
  }

  lemma NothingWhole(fs: seq<seq<Byte>>)
    ensures Whole(fs, 0) == 0
  {}
}
