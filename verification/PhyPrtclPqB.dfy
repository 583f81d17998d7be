/**
 The receiver of frames. Bytes read are appended to what earlier reads left over, and the buffer is searched
 for frames. The specification follows the buffer as a sequence; the class works on the array.
 */
module PhyPrtclPqB {
  import opened Bytes
  import opened PqbFrame
  import opened Sequences

  const SIZE: nat := 8192     // size of the receive buffer
  const KEPT: nat := 2071     // the most bytes carried from one read to the next

  datatype Rx = Rx(buf: seq<Byte>, cnt: nat)

  /** The state after a read, the offsets reported, and the payloads as they were when accepted. */
  datatype Out = Out(rx: Rx, offsets: seq<nat>, log: seq<seq<Byte>>)

  datatype Found = Stop(out: Out) | Next(j: nat, offsets: seq<nat>, log: seq<seq<Byte>>)

  predicate IsHead(buf: seq<Byte>, j: nat)
    requires j + 4 <= |buf|
  {
    buf[j] == 0x5c && buf[j + 1] == 0x7c && buf[j + 2] == 0x3b && buf[j + 3] == 0xcf
  }

  /** The first preamble from j on, or the first position with too few bytes behind it. */
  function Find(buf: seq<Byte>, cnt: nat, j: nat): (h: nat)
    requires cnt <= |buf|
    ensures j <= h && (h == j || h + 3 <= cnt)
    ensures h + 4 <= cnt ==> IsHead(buf, h)
    decreases cnt - j
  {
    if j + 4 <= cnt && !IsHead(buf, j) then Find(buf, cnt, j + 1) else j
  }

  lemma {:induction false} FindsFirst(buf: seq<Byte>, cnt: nat, j: nat, i: nat)
    requires cnt <= |buf| && j <= i < Find(buf, cnt, j)
    ensures i + 4 <= cnt && !IsHead(buf, i)
    decreases i - j
  {
    if j < i {
      FindsFirst(buf, cnt, j + 1, i);
    }
  }

  /** Three bytes from position h move to the front, whether received or not. */
  function KeepThree(rx: Rx, h: nat): Rx
    requires h + 3 <= |rx.buf|
  {
    Rx(rx.buf[h..h + 3] + rx.buf[3..], 3)
  }

  /** An incomplete frame moves to the front. */
  function KeepTail(rx: Rx, h: nat): Rx
    requires h <= rx.cnt <= |rx.buf|
  {
    Rx(rx.buf[h..rx.cnt] + rx.buf[rx.cnt - h..], rx.cnt - h)
  }

  predicate Bounded(rx: Rx) {
    |rx.buf| == SIZE && rx.cnt < KEPT + RXMAX
  }

  /** One round of the search, from position j on. */
  function Round(rx: Rx, dev: nat, j: nat, offsets: seq<nat>, log: seq<seq<Byte>>): (r: Found)
    requires Bounded(rx) && j < rx.cnt
    ensures r.Next? ==> j < r.j < rx.cnt
  {
    var h := Find(rx.buf, rx.cnt, j);
    if h + 4 > rx.cnt then Stop(Out(KeepThree(rx, h), offsets, log))
    else if h + 4 + HEADSZ > rx.cnt then Stop(Out(KeepTail(rx, h), offsets, log))
    else
      var end := h + 4 + HEADSZ + BodyLen(rx.buf[h + 4..h + 4 + HEADSZ]);
      if end > h + 4 + HEADSZ + RXMAX then Stop(Out(Rx(rx.buf, 0), offsets, log))
      else if end > rx.cnt then Stop(Out(KeepTail(rx, h), offsets, log))
      else if !Accepts(rx.buf[h + 4..end], dev) then Next(end - 1, offsets, log)
      else if |offsets| < 8 then Next(end - 1, offsets + [h + 4], log + [rx.buf[h + 4..end]])
      else Stop(Out(Rx(rx.buf, 0), offsets + [h + 4], log + [rx.buf[h + 4..end]]))
  }

  function Scan(rx: Rx, dev: nat, j: nat, offsets: seq<nat>, log: seq<seq<Byte>>): Out
    requires Bounded(rx) && j < rx.cnt
    decreases rx.cnt - j
  {
    match Round(rx, dev, j, offsets, log)
    case Stop(out) => out
    case Next(j', offsets', log') => Scan(rx, dev, j', offsets', log')
  }

  /** The bytes that are in the buffer during a call. */
  function Appended(rx: Rx, read: seq<Byte>): (r: Rx)
    requires |rx.buf| == SIZE && rx.cnt <= KEPT && |read| < RXMAX
    ensures Bounded(r)
  {
    Rx(Splice(rx.buf, rx.cnt, read), rx.cnt + |read|)
  }

  /** One call: reads of no bytes or of 2048 and more are ignored. */
  function Unpack(rx: Rx, dev: nat, read: seq<Byte>): Out
    requires |rx.buf| == SIZE && rx.cnt <= KEPT
  {
    if 0 < |read| < RXMAX then Scan(Appended(rx, read), dev, 0, [], [])
    else Out(rx, [], [])
  }

  // ---- What holds of every call ----

  /** Frames reported so far: each inside the bytes received, accepted, and apart from the ones before. */
  ghost predicate Logged(rx: Rx, dev: nat, limit: nat, offsets: seq<nat>, log: seq<seq<Byte>>)
    requires rx.cnt <= |rx.buf|
  {
    |offsets| == |log| &&
    if log == [] then true else
      var k := |log| - 1;
      && offsets[k] + |log[k]| <= limit <= rx.cnt && 4 <= offsets[k]
      && log[k] == rx.buf[offsets[k]..offsets[k] + |log[k]|]
      && IsHead(rx.buf, offsets[k] - 4) && WellFormed(log[k]) && Accepts(log[k], dev)
      && Logged(rx, dev, offsets[k] - 3, offsets[..k], log[..k])
  }

  /** What is carried to the next read is bounded, and at most nine frames are reported. */
  ghost predicate Sound(out: Out, rx: Rx, dev: nat)
    requires rx.cnt <= |rx.buf|
  {
    |out.rx.buf| == SIZE && out.rx.cnt <= KEPT && |out.log| <= 9 && Logged(rx, dev, rx.cnt, out.offsets, out.log)
  }

  lemma LoggedWidens(rx: Rx, dev: nat, limit: nat, limit': nat, offsets: seq<nat>, log: seq<seq<Byte>>)
    requires rx.cnt <= |rx.buf| && limit <= limit' <= rx.cnt && Logged(rx, dev, limit, offsets, log)
    ensures Logged(rx, dev, limit', offsets, log)
  {}

  lemma RoundIsSound(rx: Rx, dev: nat, j: nat, offsets: seq<nat>, log: seq<seq<Byte>>)
    requires Bounded(rx) && j < rx.cnt && |log| <= 8 && Logged(rx, dev, j + 1, offsets, log)
    ensures match Round(rx, dev, j, offsets, log)
      case Stop(out) => Sound(out, rx, dev)
      case Next(j', offsets', log') => |log'| <= 8 && Logged(rx, dev, j' + 1, offsets', log')
  {
    hide Logged, Accepts, AdlerSums, IsHead;
    var h := Find(rx.buf, rx.cnt, j);
    LoggedWidens(rx, dev, j + 1, rx.cnt, offsets, log);
    if h + 4 + HEADSZ <= rx.cnt {
      var end := h + 4 + HEADSZ + BodyLen(rx.buf[h + 4..h + 4 + HEADSZ]);
      if end <= rx.cnt && end <= h + 4 + HEADSZ + RXMAX {
        LoggedWidens(rx, dev, j + 1, end, offsets, log);
        if Accepts(rx.buf[h + 4..end], dev) {
          LogsOne(rx, dev, j, h, end, offsets, log);
        }
      }
    }
  }

  lemma LogsOne(rx: Rx, dev: nat, j: nat, h: nat, end: nat, offsets: seq<nat>, log: seq<seq<Byte>>)
    requires j <= h && h + 4 + HEADSZ <= end <= rx.cnt <= |rx.buf| && IsHead(rx.buf, h)
    requires end == h + 4 + HEADSZ + BodyLen(rx.buf[h + 4..h + 4 + HEADSZ]) <= h + 4 + HEADSZ + RXMAX
    requires Accepts(rx.buf[h + 4..end], dev) && Logged(rx, dev, j + 1, offsets, log)
    ensures Logged(rx, dev, end, offsets + [h + 4], log + [rx.buf[h + 4..end]])
    ensures end < rx.cnt ==> Logged(rx, dev, rx.cnt, offsets + [h + 4], log + [rx.buf[h + 4..end]])
  {
    hide Accepts, IsHead, WellFormed, BodyLen, Logged;
    LoggedWidens(rx, dev, j + 1, h + 1, offsets, log);
    WholePayload(rx.buf, h + 4, end);
    LogsAppend(rx, dev, h, end, offsets, log);
    LoggedWidens(rx, dev, end, rx.cnt, offsets + [h + 4], log + [rx.buf[h + 4..end]]);
  }

  lemma LogsAppend(rx: Rx, dev: nat, h: nat, end: nat, offsets: seq<nat>, log: seq<seq<Byte>>)
    requires h + 4 <= end <= rx.cnt <= |rx.buf| && IsHead(rx.buf, h) && Logged(rx, dev, h + 1, offsets, log)
    requires WellFormed(rx.buf[h + 4..end]) && Accepts(rx.buf[h + 4..end], dev)
    ensures Logged(rx, dev, end, offsets + [h + 4], log + [rx.buf[h + 4..end]])
  {
    hide Accepts, IsHead, WellFormed, BodyLen;
    DropPrefix(log, [rx.buf[h + 4..end]]);
    DropPrefix(offsets, [h + 4]);
  }

  /** A payload starts with its head. */
  lemma WholePayload(buf: seq<Byte>, at: nat, end: nat)
    requires at + HEADSZ <= end <= |buf|
    ensures BodyLen(buf[at..end]) == BodyLen(buf[at..at + HEADSZ])
    ensures end == at + HEADSZ + BodyLen(buf[at..at + HEADSZ]) <= at + HEADSZ + RXMAX ==> WellFormed(buf[at..end])
  {
    var p, head := buf[at..end], buf[at..at + HEADSZ];
    assert p[9] == buf[at + 9] == head[9] && p[10] == buf[at + 10] == head[10];
  }

  lemma {:induction false} ScanIsSound(rx: Rx, dev: nat, j: nat, offsets: seq<nat>, log: seq<seq<Byte>>)
    requires Bounded(rx) && j < rx.cnt && |log| <= 8 && Logged(rx, dev, j + 1, offsets, log)
    ensures Sound(Scan(rx, dev, j, offsets, log), rx, dev)
    decreases rx.cnt - j
  {
    hide Round, Logged;
    RoundIsSound(rx, dev, j, offsets, log);
    match Round(rx, dev, j, offsets, log)
    case Stop(out) =>
    case Next(j', offsets', log') => ScanIsSound(rx, dev, j', offsets', log');
  }

  /** Every run keeps to the bounds: at most 2071 bytes between reads, 4118 during one, and nine frames a read. */
  lemma UnpackIsSound(rx: Rx, dev: nat, read: seq<Byte>)
    requires |rx.buf| == SIZE && rx.cnt <= KEPT
    ensures Unpack(rx, dev, read).rx.cnt <= KEPT && |Unpack(rx, dev, read).rx.buf| == SIZE
    ensures 0 < |read| < RXMAX ==>
      Appended(rx, read).cnt <= 4118 && Sound(Unpack(rx, dev, read), Appended(rx, read), dev)
  {
    if 0 < |read| < RXMAX {
      ScanIsSound(Appended(rx, read), dev, 0, [], []);
    }
  }
}
