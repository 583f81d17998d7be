/** The sender of frames, and the round trip to the receiver. */
module PqbPack {
  import opened Bits
  import opened Bytes
  import opened PhyPrtclPqB
  import opened PqbBytes
  import opened PqbFrame
  import opened PqbLoss
  import opened PqbStream
  import opened Sequences

  const TXBUF: nat := 15360     // TxBufNum

  /** The library function that compresses a body. */
  type Zip = seq<Byte> -> seq<Byte>

  function LittleEndian32(n: nat): (s: seq<Byte>)
    ensures |s| == 4
  {
    [n % 256, n / 256 % 256, n / 0x1_0000 % 256, n / 0x100_0000 % 256]
  }

  lemma WordIsRead(n: nat)
    requires n < 0x1_0000_0000
    ensures Word32(LittleEndian32(n)) == n
  {
    var n1 := n / 256;
    var n2 := n1 / 256;
    var n3 := n2 / 256;
    ModuloUnique(n, 0x1_0000, n2, n1 % 256 * 256 + n % 256);
    ModuloUnique(n, 0x100_0000, n3, n2 % 256 * 0x1_0000 + n1 % 256 * 256 + n % 256);
  }

  lemma {:induction false} AdlerBound(s: seq<Byte>)
    ensures Adler32(s) < 0x1_0000_0000
  {
    if s != [] {
      AdlerBound(s[..|s| - 1]);
    }
  }

  /** The room set aside for a message of n bytes. */
  function Room(n: nat): nat {
    n * 101 / 100 + 20
  }

  /** Messages of up to 15189 bytes get it. */
  lemma RoomFor(n: nat)
    ensures Room(n) <= TXBUF <==> n <= 15189
  {}

  function TxPreamble(): (s: seq<Byte>)
    ensures |s| == 6
  {
    [0xee, 0xee, 0x55, 0xaa, 0x3c, 0xc3]
  }

  /** A message is a head and the body whose length it states. */
  predicate IsMessage(msg: seq<Byte>) {
    |msg| >= HEADSZ && HEADSZ + BodyLen(msg) <= |msg|
  }

  function Body(msg: seq<Byte>): (s: seq<Byte>)
    requires IsMessage(msg)
    ensures |s| == BodyLen(msg)
  {
    msg[HEADSZ..HEADSZ + BodyLen(msg)]
  }

  /** The most bytes that zlib documents for a compressed body of n bytes. */
  function ZipBound(n: nat): nat {
    n + n / 4096 + n / 16384 + 13
  }

  /** The body that is sent. */
  function SentBody(msg: seq<Byte>, zip: Zip): seq<Byte>
    requires IsMessage(msg)
  {
    if Compressed(msg) then zip(Body(msg)) else Body(msg)
  }

  /** The head that is sent, without the checksum: it states the length of the body that is sent. */
  function SentHead(msg: seq<Byte>, n: nat): (s: seq<Byte>)
    requires |msg| >= HEADSZ
    ensures |s| == HEADSZ - 4
  {
    msg[4..9] + [n % 256, n / 256 % 256] + msg[11..HEADSZ]
  }

  /** What goes out behind the preamble. */
  function Payload(msg: seq<Byte>, zip: Zip): (p: seq<Byte>)
    requires IsMessage(msg)
    ensures |p| == HEADSZ + |SentBody(msg, zip)|
  {
    var body := SentBody(msg, zip);
    var head := SentHead(msg, |body|);
    LittleEndian32(Adler32(if Compressed(msg) then head else head + body)) + (head + body)
  }

  /**
     The receiver with the address of the message, or any if that is zero, accepts what was sent, and finds the
     fields of the head and the body in it. Both sides take the checksum over the same bytes.
   */
  lemma RoundTrip(msg: seq<Byte>, zip: Zip, dev: nat)
    requires IsMessage(msg) && |SentBody(msg, zip)| < 0x1_0000
    ensures var p := Payload(msg, zip);
      && p[4..9] == msg[4..9] && p[11..HEADSZ] == msg[11..HEADSZ] && p[HEADSZ..] == SentBody(msg, zip)
      && BodyLen(p) == |SentBody(msg, zip)| && (!Compressed(msg) ==> p[4..] == msg[4..HEADSZ + BodyLen(msg)])
      && (WellFormed(p) <==> |SentBody(msg, zip)| <= RXMAX)
      && (Accepts(p, dev) <==> DevNum(msg) == dev || DevNum(msg) == 0)
  {
    var p, body := Payload(msg, zip), SentBody(msg, zip);
    var head := SentHead(msg, |body|);
    var sum := Adler32(if Compressed(msg) then head else head + body);
    PayloadParts(msg, zip);
    HeadParts(msg, |body|, p);
    AdlerBound(if Compressed(msg) then head else head + body);
    WordIsRead(sum);
    hide AdlerSums, LittleEndian32, SentHead, Payload, SentBody;
    assert Covered(p) == if Compressed(msg) then head else head + body;
  }

  lemma PayloadParts(msg: seq<Byte>, zip: Zip)
    requires IsMessage(msg)
    ensures var p, body := Payload(msg, zip), SentBody(msg, zip);
      var head := SentHead(msg, |body|);
      && p[0..4] == LittleEndian32(Adler32(if Compressed(msg) then head else head + body))
      && p[4..HEADSZ] == head && p[HEADSZ..] == body && p[4..] == head + body
  {
    hide SentHead, SentBody, LittleEndian32, Adler32;
  }

  lemma HeadParts(msg: seq<Byte>, n: nat, p: seq<Byte>)
    requires |msg| >= HEADSZ && n < 0x1_0000 && |p| >= HEADSZ && p[4..HEADSZ] == SentHead(msg, n)
    ensures p[4..9] == msg[4..9] && p[11..HEADSZ] == msg[11..HEADSZ]
    ensures BodyLen(p) == n && DevNum(p) == DevNum(msg) && Compressed(p) == Compressed(msg)
    ensures n == BodyLen(msg) ==> p[4..HEADSZ] == msg[4..HEADSZ]
  {
    var h := SentHead(msg, n);
    forall i | 4 <= i < HEADSZ ensures p[i] == h[i - 4] {
      assert p[4..HEADSZ][i - 4] == p[i];
    }
    assert n == n % 256 + 256 * (n / 256 % 256);
  }

  /** What goes out first: six fixed bytes, and a checksum that is right byte by byte. */
  lemma SentFirst(msg: seq<Byte>, zip: Zip)
    requires IsMessage(msg) && |SentBody(msg, zip)| < 0x1_0000
    ensures TxPreamble() == [0xee, 0xee, 0x55, 0xaa, 0x3c, 0xc3]
    ensures RightSum(Payload(msg, zip)) && Payload(msg, zip)[11] == msg[11]
  {
    var p := Payload(msg, zip);
    RoundTrip(msg, zip, DevNum(msg));
    AcceptsByBytes(p, DevNum(msg));
    hide AdlerSums, Adler32, Payload, SentBody, Accepts, RightSum;
    assert p[11..HEADSZ][0] == p[11] && msg[11..HEADSZ][0] == msg[11];
  }

  /** Messages that a receiver can take. */
  ghost predicate Sendable(ms: seq<seq<Byte>>, zip: Zip) {
    forall m | m in ms :: IsMessage(m) && |SentBody(m, zip)| <= RXMAX
  }

  function Payloads(ms: seq<seq<Byte>>, zip: Zip): seq<seq<Byte>>
    requires forall m | m in ms :: IsMessage(m)
  {
    if ms == [] then [] else [Payload(ms[0], zip)] + Payloads(ms[1..], zip)
  }

  /** The messages for a device, or for all. */
  function For(ms: seq<seq<Byte>>, dev: nat): (r: seq<seq<Byte>>)
    requires forall m | m in ms :: IsMessage(m)
    ensures forall m | m in r :: m in ms
  {
    if ms == [] then [] else
      assert IsMessage(ms[0]);
      (if DevNum(ms[0]) == dev || DevNum(ms[0]) == 0 then [ms[0]] else []) + For(ms[1..], dev)
  }

  lemma {:induction false} SentIsAccepted(ms: seq<seq<Byte>>, zip: Zip, dev: nat)
    requires Sendable(ms, zip)
    ensures AllWellFormed(Payloads(ms, zip)) && Accepted(Payloads(ms, zip), dev) == Payloads(For(ms, dev), zip)
  {
    hide Payload, Accepts, WellFormed, SentBody;
    if ms != [] {
      assert IsMessage(ms[0]);
      SentIsAccepted(ms[1..], zip, dev);
      RoundTrip(ms[0], zip, dev);
      assert Payloads(ms, zip)[1..] == Payloads(ms[1..], zip);
      if DevNum(ms[0]) == dev || DevNum(ms[0]) == 0 {
        assert ([ms[0]] + For(ms[1..], dev))[1..] == For(ms[1..], dev);
      } else {
        Neutral(For(ms[1..], dev));
        Neutral(Accepted(Payloads(ms[1..], zip), dev));
      }
    }
  }

  /**
     From sender to receiver: whatever messages are sent, and however their bytes arrive in fair reads, the
     receiver accepts exactly the payloads of the messages for it, in order.
   */
  lemma EndToEnd(buf: seq<Byte>, dev: nat, ms: seq<seq<Byte>>, zip: Zip, parts: seq<seq<Byte>>)
    requires |buf| == SIZE && Sendable(ms, zip) && Concat(parts) == Line(Payloads(ms, zip))
    requires Fair(parts, Payloads(ms, zip), [], dev) && (parts != [] ==> |parts[0]| >= 2)
    ensures Run(Rx(buf, 1), dev, parts).1 == Payloads(For(ms, dev), zip)
  {
    SentIsAccepted(ms, zip, dev);
    FromTheStart(buf, dev, Payloads(ms, zip), parts);
  }

  class Sender {
    const txBuf: array<Byte>

    constructor ()
      ensures txBuf.Length == TXBUF && fresh(txBuf)
    {
      txBuf := new Byte[TXBUF];
    }

    /** memcpy */
    method Put(at: nat, s: seq<Byte>)
      requires at + |s| <= txBuf.Length
      modifies txBuf
      ensures txBuf[..] == Splice(old(txBuf[..]), at, s)
    {
      for i := 0 to |s|
        invariant forall k | 0 <= k < txBuf.Length ::
          txBuf[k] == if at <= k < at + i then s[k - at] else old(txBuf[k])
      {
        txBuf[at + i] := s[i];
      }
    }

    /** The message goes out behind a preamble, unless it may not fit. */
    method PackData(msg: seq<Byte>, zip: Zip) returns (rc: nat, num: nat)
      requires txBuf.Length == TXBUF && IsMessage(msg)
      requires |zip(Body(msg))| <= ZipBound(BodyLen(msg))
      modifies txBuf
      ensures rc == if Room(|msg|) > TXBUF then 1 else 0
      ensures rc == 1 ==> txBuf[..] == old(txBuf[..])
      ensures rc == 0 ==> num <= TXBUF && txBuf[..num] == TxPreamble() + Payload(msg, zip)
    {
      num := 0;
      if |msg| * 101 / 100 + 20 > TXBUF {
        return 1, num;
      }
      ghost var before := txBuf[..];
      Put(0, TxPreamble());
      var body, i;
      if Compressed(msg) {
        body := zip(Body(msg));
        i := HEADSZ - 4;
      } else {
        body := Body(msg);
        i := HEADSZ - 4 + |body|;
      }
      hide Splice, TxPreamble, Payload, AdlerSums, SentHead, LittleEndian32;
      Put(6 + HEADSZ, body);
      Put(10, SentHead(msg, |body|));
      Checked(before, SentHead(msg, |body|), body);
      var sum := LittleEndian32(Adler32(txBuf[10..10 + i]));
      Put(6, sum);
      Assembled(before, SentHead(msg, |body|), body, sum);
      rc, num := 0, 6 + HEADSZ + |body|;
      assert txBuf[..num] == txBuf[..][0..num];
    }
  }

  /** The buffer when the checksum is taken. */
  function Filled(s: seq<Byte>, head: seq<Byte>, body: seq<Byte>): (t: seq<Byte>)
    requires |head| == HEADSZ - 4 && 6 + HEADSZ + |body| <= |s|
    ensures |t| == |s|
  {
    Splice(Splice(Splice(s, 0, TxPreamble()), 6 + HEADSZ, body), 10, head)
  }

  lemma Checked(s: seq<Byte>, head: seq<Byte>, body: seq<Byte>)
    requires |head| == HEADSZ - 4 && 6 + HEADSZ + |body| <= |s|
    ensures var t := Filled(s, head, body);
      && t[10..6 + HEADSZ] == head && t[10..6 + HEADSZ + |body|] == head + body && t[0..6] == TxPreamble()
  {
    var t1 := Splice(s, 0, TxPreamble());
    var t2 := Splice(t1, 6 + HEADSZ, body);
    var t := Splice(t2, 10, head);
    hide Splice, TxPreamble;
    SpliceHas(t2, 10, head);
    SpliceHas(t1, 6 + HEADSZ, body);
    SpliceKeeps(t2, 10, head, 6 + HEADSZ, 6 + HEADSZ + |body|);
    Joined(t, 10, 6 + HEADSZ, 6 + HEADSZ + |body|);
    SpliceHas(s, 0, TxPreamble());
    SpliceKeeps(t1, 6 + HEADSZ, body, 0, 6);
    SpliceKeeps(t2, 10, head, 0, 6);
  }

  lemma Assembled(s: seq<Byte>, head: seq<Byte>, body: seq<Byte>, sum: seq<Byte>)
    requires |head| == HEADSZ - 4 && 6 + HEADSZ + |body| <= |s| && |sum| == 4
    ensures Splice(Filled(s, head, body), 6, sum)[0..6 + HEADSZ + |body|] == TxPreamble() + (sum + (head + body))
  {
    var t, n := Filled(s, head, body), 6 + HEADSZ + |body|;
    var u := Splice(t, 6, sum);
    Checked(s, head, body);
    hide Filled, Splice, TxPreamble;
    SpliceKeeps(t, 6, sum, 0, 6);
    SpliceHas(t, 6, sum);
    SpliceKeeps(t, 6, sum, 10, n);
    Joined(u, 6, 10, n);
    Joined(u, 0, 6, n);
  }
}
