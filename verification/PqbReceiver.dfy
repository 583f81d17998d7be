/** The receiver itself, which works in the caller's buffer. */
module PqbReceiver {
  import opened Bytes
  import opened PqbFrame
  import opened PhyPrtclPqB
  import opened PqbBytes
  import opened PqbLoss
  import opened PqbStream
  import opened Sequences

  class Receiver {
    var rxCnt: nat                    // m_rx_cnt, bytes in the buffer
    const devNum: nat                 // dev_num_
    ghost var log: seq<seq<Byte>>     // payloads as they were when accepted

    constructor (devNum: nat)
      ensures rxCnt == 1 && log == [] && this.devNum == devNum
    {
      rxCnt := 1;
      log := [];
      this.devNum := devNum;
    }

    ghost predicate Valid(rxbuf: array<Byte>)
      reads this
    {
      rxbuf.Length == SIZE && rxCnt <= KEPT
    }

    /** The search for a preamble. */
    method FindHead(rxbuf: array<Byte>, start: nat) returns (j: nat)
      requires rxCnt <= rxbuf.Length
      ensures j == Find(rxbuf[..], rxCnt, start)
    {
      j := start;
      while j + 4 <= rxCnt
        invariant Find(rxbuf[..], rxCnt, j) == Find(rxbuf[..], rxCnt, start)
        decreases rxCnt - j
      {
        if rxbuf[j] == 0x5c && rxbuf[j + 1] == 0x7c && rxbuf[j + 2] == 0x3b && rxbuf[j + 3] == 0xcf {
          break;
        }
        j := j + 1;
      }
    }

    /** The bytes read go behind those that are there. */
    method Append(rxbuf: array<Byte>, rxdata: seq<Byte>)
      requires Valid(rxbuf) && |rxdata| < RXMAX
      modifies this`rxCnt, rxbuf
      ensures Rx(rxbuf[..], rxCnt) == Appended(old(Rx(rxbuf[..], rxCnt)), rxdata)
    {
      for i := 0 to |rxdata|
        modifies rxbuf
        invariant rxbuf[..] == Splice(old(rxbuf[..]), rxCnt, rxdata[..i])
      {
        rxbuf[rxCnt + i] := rxdata[i];
      }
      assert rxdata[..|rxdata|] == rxdata;
      rxCnt := rxCnt + |rxdata|;
    }

    /** An incomplete frame goes to the front. */
    method MoveTail(rxbuf: array<Byte>, j: nat)
      requires j <= rxCnt <= rxbuf.Length
      modifies this`rxCnt, rxbuf
      ensures Rx(rxbuf[..], rxCnt) == KeepTail(old(Rx(rxbuf[..], rxCnt)), j)
    {
      var i := 0;
      while j + i < rxCnt
        modifies rxbuf
        invariant i <= rxCnt - j
        invariant forall k | 0 <= k < rxbuf.Length :: rxbuf[k] == if k < i then old(rxbuf[j + k]) else old(rxbuf[k])
      {
        rxbuf[i] := rxbuf[j + i];
        i := i + 1;
      }
      rxCnt := i;
    }

    method MoveThree(rxbuf: array<Byte>, j: nat)
      requires j + 3 <= rxbuf.Length
      modifies this`rxCnt, rxbuf
      ensures Rx(rxbuf[..], rxCnt) == KeepThree(old(Rx(rxbuf[..], rxCnt)), j) && rxCnt == 3
    {
      rxbuf[0] := rxbuf[j];
      rxbuf[1] := rxbuf[j + 1];
      rxbuf[2] := rxbuf[j + 2];
      rxCnt := 3;
    }

    /** The offset of a frame is reported; after the ninth, everything is dropped. */
    method Report(offset: array<nat>, at: nat, num: nat) returns (retval: nat)
      requires num <= 8 && offset.Length >= 9
      modifies this`rxCnt, offset
      ensures retval == num + 1 && offset[..retval] == old(offset[..num]) + [at]
      ensures rxCnt == if num < 8 then old(rxCnt) else 0
    {
      offset[num] := at;
      retval := num + 1;
      if retval > 8 {
        rxCnt := 0;
      }
    }

    /** One round of the search: a frame is passed over or reported, or what is left goes to the front. */
    method OneRound(rxbuf: array<Byte>, offset: array<nat>, start: nat, num: nat, ghost dealt: seq<seq<Byte>>)
      returns (j: nat, retval: nat, ghost now: seq<seq<Byte>>)
      requires Bounded(Rx(rxbuf[..], rxCnt)) && start < rxCnt && num <= 8 && offset.Length >= 9
      modifies this`rxCnt, rxbuf, offset
      ensures retval <= offset.Length
      ensures match old(Round(Rx(rxbuf[..], rxCnt), devNum, start, offset[..num], dealt))
        case Stop(out) => rxCnt <= j && Rx(rxbuf[..], rxCnt) == out.rx && offset[..retval] == out.offsets && now == out.log
        case Next(j', offsets', log') =>
          && Rx(rxbuf[..], rxCnt) == old(Rx(rxbuf[..], rxCnt))
          && j == j' && offset[..retval] == offsets' && now == log'
    {
      hide KeepThree, KeepTail, Find, Accepts, BodyLen, IsHead;
      retval, now := num, dealt;
      j := FindHead(rxbuf, start);
      if j + 4 > rxCnt {
        MoveThree(rxbuf, j);
        j := 3;
      } else if j + 4 + HEADSZ > rxCnt {
        MoveTail(rxbuf, j);
        j := rxCnt;
      } else {
        var end := j + 4 + HEADSZ;
        var bodyLen := BodyLen(rxbuf[j + 4..end]);
        if bodyLen > RXMAX {
          rxCnt := 0;
        } else if end + bodyLen > rxCnt {
          MoveTail(rxbuf, j);
          j := rxCnt;
        } else {
          if Accepts(rxbuf[j + 4..end + bodyLen], devNum) {
            now := now + [rxbuf[j + 4..end + bodyLen]];
            retval := Report(offset, j + 4, retval);
          }
          j := end + bodyLen - 1;
        }
      }
    }

    /** The state of the loop: `out` is what the rest of the search comes to. */
    ghost predicate Heading(rxbuf: array<Byte>, offset: array<nat>, j: nat, retval: nat, now: seq<seq<Byte>>, out: Out)
      reads this, rxbuf, offset
    {
      && retval <= 9 <= offset.Length
      && if j < rxCnt then
           Bounded(Rx(rxbuf[..], rxCnt)) && retval <= 8 &&
           out == Scan(Rx(rxbuf[..], rxCnt), devNum, j, offset[..retval], now)
         else out == Out(Rx(rxbuf[..], rxCnt), offset[..retval], now)
    }

    /** The body of the loop. */
    method Advance(rxbuf: array<Byte>, offset: array<nat>, start: nat, num: nat, ghost dealt: seq<seq<Byte>>, ghost out: Out)
      returns (j: nat, retval: nat, ghost now: seq<seq<Byte>>)
      requires Heading(rxbuf, offset, start, num, dealt, out) && start < rxCnt
      modifies this`rxCnt, rxbuf, offset
      ensures Heading(rxbuf, offset, j, retval, now, out) && (j < rxCnt ==> start < j && rxCnt == old(rxCnt))
    {
      ghost var rx := Rx(rxbuf[..], rxCnt);
      assert out == match Round(rx, devNum, start, offset[..num], dealt)
        case Stop(o) => o
        case Next(j', offsets', log') => Scan(rx, devNum, j', offsets', log');
      RoundCount(rx, devNum, start, offset[..num], dealt);
      hide Round, Scan;
      j, retval, now := OneRound(rxbuf, offset, start, num, dealt);
      assert |offset[..retval]| == retval;
    }

    /** One call does what the specification says; the log gets the payloads as they are when accepted. */
    method UnpackData(rxdata: seq<Byte>, rxbuf: array<Byte>, offset: array<nat>) returns (retval: nat)
      requires Valid(rxbuf) && offset.Length >= 9
      modifies this`rxCnt, this`log, rxbuf, offset
      ensures Valid(rxbuf) && retval <= 9
      ensures var out := old(Unpack(Rx(rxbuf[..], rxCnt), devNum, rxdata));
        Rx(rxbuf[..], rxCnt) == out.rx && offset[..retval] == out.offsets && log == old(log) + out.log
    {
      ghost var out, now := Unpack(Rx(rxbuf[..], rxCnt), devNum, rxdata), [];
      UnpackIsSound(Rx(rxbuf[..], rxCnt), devNum, rxdata);
      retval := 0;
      if 0 < |rxdata| < RXMAX {
        Append(rxbuf, rxdata);
        var j: nat := 0;
        hide Scan, Splice;
        while j < rxCnt
          modifies this`rxCnt, rxbuf, offset
          invariant Heading(rxbuf, offset, j, retval, now, out)
          decreases if j < rxCnt then rxCnt - j else 0
        {
          j, retval, now := Advance(rxbuf, offset, j, retval, now, out);
        }
      }
      log := log + now;
    }
  }

  /** A ninth frame ends the search. */
  lemma RoundCount(rx: Rx, dev: nat, j: nat, offsets: seq<nat>, log: seq<seq<Byte>>)
    requires Bounded(rx) && j < rx.cnt && |offsets| <= 8
    ensures match Round(rx, dev, j, offsets, log)
      case Stop(out) => |out.offsets| <= 9
      case Next(j', offsets', log') => |offsets'| <= 8
  {}

  /** A run of reads with the same buffer. */
  method ReceiveAll(r: Receiver, parts: seq<seq<Byte>>, rxbuf: array<Byte>, offset: array<nat>)
    requires r.Valid(rxbuf) && offset.Length >= 9
    modifies r, rxbuf, offset
    ensures r.Valid(rxbuf)
    ensures var run := old(Run(Rx(rxbuf[..], r.rxCnt), r.devNum, parts));
      Rx(rxbuf[..], r.rxCnt) == run.0 && r.log == old(r.log) + run.1
    decreases |parts|
  {
    hide Unpack;
    if parts == [] {
      Neutral(r.log);
    } else {
      ghost var rx, log := Rx(rxbuf[..], r.rxCnt), r.log;
      var retval := r.UnpackData(parts[0], rxbuf, offset);
      UnpackIsSound(rx, r.devNum, parts[0]);
      ghost var out := Unpack(rx, r.devNum, parts[0]);
      Associates(log, out.log, Run(out.rx, r.devNum, parts[1..]).1);
      ReceiveAll(r, parts[1..], rxbuf, offset);
    }
  }

  /** A fresh receiver, whatever its buffer holds, takes a line of frames in fair reads. */
  method ReceiveLine(dev: nat, ghost fs: seq<seq<Byte>>, parts: seq<seq<Byte>>, rxbuf: array<Byte>, offset: array<nat>)
    returns (r: Receiver)
    requires rxbuf.Length == SIZE && offset.Length >= 9 && AllWellFormed(fs) && Concat(parts) == Line(fs)
    requires Fair(parts, fs, [], dev) && (parts != [] ==> |parts[0]| >= 2)
    modifies rxbuf, offset
    ensures r.log == Accepted(fs, dev)
    ensures (forall i | 0 <= i < |fs| :: |fs[i]| >= 20) && (dev < 0x1_0000 ==> r.log == Kept(fs, dev))
  {
    assert forall i | 0 <= i < |fs| :: WellFormed(fs[i]);
    hide Run, Line, Fair, Accepted, Concat;
    if dev < 0x1_0000 {
      AcceptedByBytes(fs, dev);
    }
    r := new Receiver(dev);
    FromTheStart(rxbuf[..], dev, fs, parts);
    Neutral(Accepted(fs, dev));
    ReceiveAll(r, parts, rxbuf, offset);
  }

  /** A fresh receiver and one frame in one read: by the bytes of its head and its checksum it is logged or not. */
  method ReceiveFrame(dev: nat, p: seq<Byte>, rxbuf: array<Byte>, offset: array<nat>) returns (r: Receiver)
    requires rxbuf.Length == SIZE && offset.Length >= 9 && dev < 0x1_0000
    requires |p| >= 20 && |p| == 20 + Stated(p) && |p| + 4 <= 2047
    modifies rxbuf, offset
    ensures r.log == if ForDevice(p, dev) && RightSum(p) then [p] else []
  {
    r := new Receiver(dev);
    OneFrameByBytes(rxbuf[..], dev, p);
    hide Unpack;
    var retval := r.UnpackData([0x5c, 0x7c, 0x3b, 0xcf] + p, rxbuf, offset);
    assert [] + (if ForDevice(p, dev) && RightSum(p) then [p] else []) ==
           if ForDevice(p, dev) && RightSum(p) then [p] else [];
  }
}
