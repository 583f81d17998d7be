/**
 tx_trnst_rec and its fields: the cursor over the events of a transfer, moved by the requests in place.
 */
module TransientCursor {
  import opened Bytes
  import opened TransientLog
  import opened TransientPackages
  import opened TransientTransfer

  class Cursor {
    const size: nat       // transt_max
    var eventNum: nat     // events left, a 32-bit counter
    var eventPos: nat     // slot of the current event
    var pkgNum: nat       // packages left of the current event
    var read: nat         // packages read from its file
    var open: bool        // its file is open
    var fetchSn: Byte     // number of the latest request

    function Now(): State
      reads this
    {
      State(eventNum, eventPos, pkgNum, read, open, fetchSn)
    }

    constructor (size: nat)
      requires size > 0
      ensures this.size == size && Valid(Now(), size) && eventNum == 0
    {
      this.size := size;
      eventNum, eventPos, pkgNum, read, open, fetchSn := 0, 0, 0, 0, false, 0;
    }

    /** The first request: count the events of an interval and place the cursor. */
    method Begin(log: Log, start: TimeVal, end: TimeVal, sn: Byte)
      requires Valid(Now(), size) && log.Valid() && log.Searchable() && |log.times| == size
      modifies this
      ensures Valid(Now(), size) && eventNum == Stat(log, start, end) && !Midway(Now())
      ensures fetchSn == (if sn < 252 then sn + 4 else sn - 252) && fetchSn != sn
      ensures Reached(log, start, end) ==> eventPos == Slot(log.pos, Head(log, start), size)
    {
      eventNum, eventPos := StatTranst(log, start, end, eventPos);
      pkgNum := 0;
      fetchSn := (sn as int + 4) % 256;
    }

    /** The loop that passes over events which new ones are overwriting. */
    method SkipOverlaps(i: nat)
      requires Valid(Now(), size) && i < size
      modifies this`eventNum, this`eventPos
      ensures eventPos < size && (eventPos, eventNum) == Skip(old(eventPos), old(eventNum), i, size)
      ensures eventNum <= old(eventNum)
    {
      while (eventPos + size - i) % size < 2 && eventNum > 0
        invariant eventPos < size && eventNum <= old(eventNum)
        invariant Skip(eventPos, eventNum, i, size) == Skip(old(eventPos), old(eventNum), i, size)
        decreases eventNum
      {
        eventNum := eventNum - 1;
        eventPos := Next(eventPos, size);
      }
    }

    /** The loop that looks for the next event with a file. It decrements before it tests for zero. */
    method FindFile(files: Files)
      requires size > 0 && eventPos < size && eventNum < WRAP
      modifies this`eventNum, this`eventPos, this`open
      ensures (eventPos, eventNum, open) == Find(files, old(eventPos), old(eventNum), size)
    {
      ghost var found := Find(files, eventPos, eventNum, size);
      ghost var more := if eventNum == 0 then WRAP else eventNum;
      while true
        invariant eventNum < WRAP && Find(files, eventPos, eventNum, size) == found
        invariant more == if eventNum == 0 then WRAP else eventNum
        decreases more
      {
        open := Exists(files, eventPos);
        if open {
          break;
        }
        eventNum := (eventNum - 1) % WRAP;
        eventPos := Next(eventPos, size);
        if eventNum == 0 {
          break;
        }
        more := more - 1;
      }
    }

    /** The part of a request that opens the next event. */
    method OpenNext(i: nat, files: Files)
      requires Valid(Now(), size) && i < size
      modifies this`eventNum, this`eventPos, this`open, this`pkgNum, this`read
      ensures Now() == Opened(old(Now()), Demand(fetchSn, i, files), size)
    {
      hide Skip, Find;
      SkipOverlaps(i);
      FindFile(files);
      read := 0;
      if eventNum > 0 && Exists(files, eventPos) {
        pkgNum := files(eventPos);
      }
    }

    /** The end of a request: send one package, and leave an event that is done. */
    method SendPackage() returns (sent: seq<Package>)
      requires size > 0
      modifies this`eventNum, this`eventPos, this`open, this`pkgNum, this`read
      ensures Reply(Now(), sent) == Send(old(Now()), size)
    {
      sent := [];
      if eventNum != 0 && pkgNum != 0 {
        sent := [Package(eventPos, read)];
        pkgNum := pkgNum - 1;
        read := read + 1;
      }
      if pkgNum == 0 && eventNum != 0 {
        open := false;
        eventNum := eventNum - 1;
        eventPos := Next(eventPos, size);
      }
    }

    /** One request: it does what the function of the state says, and keeps the anchor unless it overruns. */
    method Serve(sn: Byte, i: nat, files: Files) returns (sent: seq<Package>)
      requires Valid(Now(), size) && i < size
      modifies this
      ensures Reply(Now(), sent) == Request(old(Now()), Demand(sn, i, files), size)
      ensures Valid(Now(), size)
      ensures Anchor(eventPos, eventNum, size) ==
        Anchor(old(Anchor(eventPos, eventNum, size)),
               if Overrun(old(Now()), Demand(sn, i, files), size) then WRAP else 0, size)
    {
      RequestKeepsAnchor(Now(), Demand(sn, i, files), size);
      hide Opened, Send, Overrun, Anchor;
      if eventNum != 0 {
        if pkgNum == 0 || !open {
          OpenNext(i, files);
        }
        if fetchSn == sn {
          if read > 0 {
            read := read - 1;
          }
          pkgNum := pkgNum + 1;
        } else {
          fetchSn := sn;
        }
      }
      sent := SendPackage();
    }

    /** A whole transfer: what is sent, and the state at the end, are those of the run. */
    method ServeAll(ds: seq<Demand>) returns (sent: seq<Package>)
      requires Valid(Now(), size) && InRing(ds, size)
      modifies this
      ensures Reply(Now(), sent) == Run(old(Now()), ds, size) && Valid(Now(), size)
      decreases |ds|
    {
      if ds == [] {
        sent := [];
      } else {
        hide Request, Anchor, Overrun;
        var first := Serve(ds[0].sn, ds[0].slot, ds[0].files);
        var rest := ServeAll(ds[1..]);
        sent := first + rest;
      }
    }
  }
}
