/**
 The transfer of transient records: each request sends one package of the event at the cursor, skips
 events that new ones are overwriting and events without a file, and moves on when an event is done.
 */
module TransientTransfer {
  import opened Bytes
  import opened Sequences
  import opened TransientPackages

  /** Events left, slot of the current one, its packages left and read, whether its file is open; latest request. */
  datatype State = State(num: nat, pos: nat, pkg: nat, read: nat, open: bool, sn: Byte)

  /** A request: its number, the slot that the next new event goes to, and the files there are. */
  datatype Demand = Demand(sn: Byte, slot: nat, files: Files)

  /** The state after a request, and the package sent, if any. */
  datatype Reply = Reply(state: State, sent: seq<Package>)

  /** An event is being sent. */
  predicate Midway(s: State) {
    s.open && s.pkg > 0 && s.num > 0
  }

  predicate Valid(s: State, size: nat) {
    size > 0 && s.pos < size && s.num < WRAP && (Midway(s) ==> s.read > 0)
  }

  /** The packages still to be sent. */
  function Left(s: State, files: Files, size: nat): seq<Package>
    requires size > 0
  {
    if Midway(s) then Due(s, files, size) else Todo(files, s.pos, s.num, size)
  }

  /** The packages left of the open file and those of the events after it. */
  function Due(s: State, files: Files, size: nat): seq<Package>
    requires size > 0
  {
    if s.num > 0 then
      Packages(s.pos, s.read, s.read + s.pkg) + Todo(files, Next(s.pos, size), s.num - 1, size)
    else []
  }

  // ---- One request ----

  /** The next event is opened, if there is one. */
  function Opened(s: State, d: Demand, size: nat): State
    requires Valid(s, size) && d.slot < size
  {
    SkipKeepsAnchor(s.pos, s.num, d.slot, size);
    var (p, n) := Skip(s.pos, s.num, d.slot, size);
    var (pos, num, open) := Find(d.files, p, n, size);
    s.(num := num, pos := pos, open := open, read := 0,
       pkg := if num > 0 && Exists(d.files, pos) then d.files(pos) else s.pkg)
  }

  /**
     A request with the number of the latest one asks for its package again: the file is set back by a
     package, if one has been read, and the counter goes up in any case.
   */
  function Counted(s: State, sn: Byte): State {
    if s.sn == sn then s.(pkg := s.pkg + 1, read := if s.read > 0 then s.read - 1 else 0) else s.(sn := sn)
  }

  /** A package is sent, and an event that is done is left. */
  function Send(s: State, size: nat): Reply
    requires size > 0
  {
    var t := if s.num > 0 && s.pkg > 0 then s.(pkg := s.pkg - 1, read := s.read + 1) else s;
    Reply(if t.pkg == 0 && t.num > 0 then t.(open := false, num := t.num - 1, pos := Next(t.pos, size)) else t,
          if s.num > 0 && s.pkg > 0 then [Package(s.pos, s.read)] else [])
  }

  function Request(s: State, d: Demand, size: nat): Reply
    requires Valid(s, size) && d.slot < size
  {
    if s.num == 0 then Send(s, size)
    else Send(Counted(if s.pkg == 0 || !s.open then Opened(s, d, size) else s, d.sn), size)
  }

  /** All that was left overlaps with new events, and the event after the window has no file. */
  predicate Overrun(s: State, d: Demand, size: nat)
    requires size > 0 && d.slot < size
  {
    s.num > 0 && !Midway(s) &&
    var (p, n) := Skip(s.pos, s.num, d.slot, size);
    n == 0 && !Exists(d.files, p)
  }

  /** What opening the next event keeps. */
  lemma OpenedKeeps(s: State, d: Demand, size: nat)
    requires Valid(s, size) && d.slot < size && s.num > 0 && !Midway(s)
    ensures var (p, n), t := Skip(s.pos, s.num, d.slot, size), Opened(s, d, size);
      && t.pos < size && t.num < WRAP && t.read == 0 && t.sn == s.sn
      && (t.num > 0 ==> t.open && Exists(d.files, t.pos) && t.pkg == d.files(t.pos))
      && Anchor(t.pos, t.num, size) ==
           Anchor(Anchor(s.pos, s.num, size), if Overrun(s, d, size) then WRAP else 0, size)
      && (!Overrun(s, d, size) ==> t.num <= n <= s.num && Due(t, d.files, size) == Todo(d.files, p, n, size))
  {
    SkipKeepsAnchor(s.pos, s.num, d.slot, size);
    var (p, n) := Skip(s.pos, s.num, d.slot, size);
    AtAnchor(Anchor(s.pos, s.num, size), size);
    if n > 0 {
      FindKeeps(d.files, p, n, size);
    } else {
      FindWraps(d.files, p, size);
      AtAnchor(p, size);
    }
  }

  lemma SendKeeps(s: State, files: Files, size: nat)
    requires size > 0 && s.pos < size && s.num < WRAP && (s.num > 0 ==> s.open)
    ensures var r := Send(s, size);
      && Valid(r.state, size) && r.state.num <= s.num && r.state.sn == s.sn
      && Anchor(r.state.pos, r.state.num, size) == Anchor(s.pos, s.num, size)
      && r.sent + Left(r.state, files, size) == Due(s, files, size)
  {
    if s.num > 0 {
      NextKeepsAnchor(s.pos, s.num, size);
      var next := Todo(files, Next(s.pos, size), s.num - 1, size);
      OnePackage(s.pos, s.read, s.pkg, next);
      hide Todo, Anchor, Next;
    }
  }

  lemma OnePackage(p: nat, m: nat, k: nat, rest: seq<Package>)
    ensures k > 0 ==> Packages(p, m, m + k) + rest == [Package(p, m)] + (Packages(p, m + 1, m + k) + rest)
    ensures Packages(p, m, m) + rest == rest && [] + rest == rest
    ensures k == 1 ==> Packages(p, m + 1, m + k) + rest == rest
  {
    Neutral(rest);
    assert Packages(p, m, m) == [];
    if k > 0 {
      assert Packages(p, m, m + k) == [Package(p, m)] + Packages(p, m + 1, m + k);
      Associates([Package(p, m)], Packages(p, m + 1, m + k), rest);
    }
  }

  /** A request keeps the anchor, or moves it by 2^32 slots when the window is overrun. */
  lemma RequestKeepsAnchor(s: State, d: Demand, size: nat)
    requires Valid(s, size) && d.slot < size
    ensures var r := Request(s, d, size);
      && Valid(r.state, size) && (!Overrun(s, d, size) ==> r.state.num <= s.num)
      && Anchor(r.state.pos, r.state.num, size) ==
           Anchor(Anchor(s.pos, s.num, size), if Overrun(s, d, size) then WRAP else 0, size)
      && (s.num == 0 ==> r == Reply(s, [])) && (s.num > 0 ==> r.state.sn == d.sn)
  {
    AtAnchor(Anchor(s.pos, s.num, size), size);
    if s.num > 0 {
      var t := if Midway(s) then s else Opened(s, d, size);
      if !Midway(s) {
        OpenedKeeps(s, d, size);
      }
      hide Anchor, Opened, Overrun;
      SendKeeps(Counted(t, d.sn), d.files, size);
    }
  }

  /** The packages that a request skips over. */
  function Skipped(s: State, d: Demand, size: nat): seq<Package>
    requires size > 0 && d.slot < size
  {
    if s.num > 0 && !Midway(s) then Dropped(d.files, s.pos, s.num, d.slot, size) else []
  }

  /** Opening the next event passes over what it skips. */
  lemma OpenedSkips(s: State, d: Demand, size: nat)
    requires Valid(s, size) && d.slot < size && s.num > 0 && !Midway(s) && !Overrun(s, d, size)
    ensures var t := Opened(s, d, size);
      && t.pos < size && t.num < WRAP && t.read == 0 && t.sn == s.sn && (t.num > 0 ==> t.open)
      && Left(s, d.files, size) == Skipped(s, d, size) + Due(t, d.files, size)
  {
    OpenedKeeps(s, d, size);
    SkipDrops(d.files, s.pos, s.num, d.slot, size);
    hide Opened, Due, Todo, Dropped, Skip;
  }

  /** A new request: what it skips, what it sends and what is left then are what was left. */
  lemma NewRequest(s: State, d: Demand, size: nat)
    requires Valid(s, size) && d.slot < size && d.sn != s.sn && !Overrun(s, d, size)
    ensures var r := Request(s, d, size);
      Skipped(s, d, size) + (r.sent + Left(r.state, d.files, size)) == Left(s, d.files, size)
  {
    hide Overrun, Opened, Todo, Next, Dropped, Send, Due;
    if s.num == 0 {
      NoneLeft(s, d, size);
      Neutral(Left(s, d.files, size));
    } else {
      var t := if Midway(s) then s else Opened(s, d, size);
      if !Midway(s) {
        OpenedSkips(s, d, size);
      }
      SendKeeps(Counted(t, d.sn), d.files, size);
      SameDue(t, Counted(t, d.sn), d.files, size);
      Neutral(Due(t, d.files, size));
    }
  }

  lemma NoneLeft(s: State, d: Demand, size: nat)
    requires Valid(s, size) && d.slot < size && s.num == 0
    ensures Request(s, d, size) == Reply(s, [])
  {}

  lemma SameDue(s: State, t: State, files: Files, size: nat)
    requires size > 0 && s.(sn := t.sn) == t
    ensures Due(s, files, size) == Due(t, files, size) && (Midway(s) ==> Left(s, files, size) == Due(s, files, size))
  {}

  /** A repeat while an event is being sent sends the package before the next one, and uses nothing up. */
  lemma Resend(s: State, d: Demand, size: nat)
    requires Valid(s, size) && d.slot < size && d.sn == s.sn && Midway(s)
    ensures var r := Request(s, d, size);
      r.sent == [Package(s.pos, s.read - 1)] && Left(r.state, d.files, size) == Left(s, d.files, size)
  {
    hide Todo, Next;
  }

  /**
     A repeat between two events takes the first package of the next event, whose count is then one too many:
     a package is read past the end of its file.
   */
  lemma BoundaryRepeat(s: State, d: Demand, size: nat)
    requires Valid(s, size) && d.slot < size && d.sn == s.sn && s.num > 0 && !Midway(s) && !Overrun(s, d, size)
    ensures var r, t := Request(s, d, size), Opened(s, d, size);
      if t.num == 0 then r.sent == [] && Left(s, d.files, size) == Skipped(s, d, size) else
        var n, later := d.files(t.pos), Todo(d.files, Next(t.pos, size), t.num - 1, size);
        && n >= 0 && r.sent == [Package(t.pos, 0)]
        && Left(s, d.files, size) == Skipped(s, d, size) + (Packages(t.pos, 0, n) + later)
        && r.sent + Left(r.state, d.files, size) == Packages(t.pos, 0, n + 1) + later
  {
    var t := Opened(s, d, size);
    OpenedKeeps(s, d, size);
    SkipDrops(d.files, s.pos, s.num, d.slot, size);
    SendKeeps(Counted(t, d.sn), d.files, size);
    hide Todo, Next, Opened, Overrun, Dropped, Skip, Packages;
    Neutral(Skipped(s, d, size));
  }

  /** An event whose file holds no package takes a request of its own, for which nothing is sent. */
  lemma EmptyEvent(s: State, d: Demand, size: nat)
    requires Valid(s, size) && d.slot < size && d.sn != s.sn && !Midway(s)
    requires var (p, n) := Skip(s.pos, s.num, d.slot, size); n > 0 && d.files(p) == 0
    ensures var (p, n) := Skip(s.pos, s.num, d.slot, size);
      Request(s, d, size) == Reply(State(n - 1, Next(p, size), 0, 0, false, d.sn), [])
  {
    SkipKeepsAnchor(s.pos, s.num, d.slot, size);
    hide Skip, Next;
  }

  /** Request d1, then one with the same number: it gets the same package if and only if the event goes on. */
  lemma RepeatResends(s: State, d1: Demand, d2: Demand, size: nat)
    requires Valid(s, size) && s.num <= size && d1.slot < size && d2.slot < size && d1.sn == d2.sn
    requires !Overrun(s, d1, size) && Valid(Request(s, d1, size).state, size)
    requires !Overrun(Request(s, d1, size).state, d2, size)
    ensures var r := Request(s, d1, size);
      r.sent != [] && Request(r.state, d2, size).sent == r.sent <==> Midway(r.state)
  {
    var r := Request(s, d1, size);
    RequestKeepsAnchor(s, d1, size);
    SentAt(s, d1, size);
    if Midway(r.state) {
      Resend(r.state, d2, size);
    } else if r.sent != [] && r.state.num > 0 {
      var t := Opened(r.state, d2, size);
      OpenedKeeps(r.state, d2, size);
      BoundaryRepeat(r.state, d2, size);
      AtAnchor(Anchor(s.pos, s.num, size), size);
      hide Request, Opened, Overrun, Todo, Next, Anchor;
      if t.num > 0 {
        OtherSlot(r.sent[0].event, r.state.num + 1, t.pos, t.num, size);
      }
    }
  }

  /** Which package a request sends, and where the event lies in the transfer. */
  lemma SentAt(s: State, d: Demand, size: nat)
    requires Valid(s, size) && d.slot < size && !Overrun(s, d, size)
    ensures var r := Request(s, d, size);
      && (s.num == 0 ==> r.sent == [] && r.state == s)
      && (r.sent == [] ==> !Midway(r.state))
      && (r.sent != [] ==> |r.sent| == 1)
      && (Midway(r.state) ==> r.sent == [Package(r.state.pos, r.state.read - 1)])
      && (r.sent != [] && !Midway(r.state) ==>
            r.state.num < s.num && Anchor(r.sent[0].event, r.state.num + 1, size) == Anchor(s.pos, s.num, size))
  {
    if s.num > 0 {
      AtAnchor(Anchor(s.pos, s.num, size), size);
      if !Midway(s) {
        OpenedKeeps(s, d, size);
      }
      hide Anchor, Opened, Overrun, Next;
    }
  }

  // ---- A whole transfer ----

  predicate InRing(ds: seq<Demand>, size: nat) {
    forall k | 0 <= k < |ds| :: ds[k].slot < size
  }

  /** A run of requests: the state after it, and all packages sent. */
  function Run(s: State, ds: seq<Demand>, size: nat): Reply
    requires Valid(s, size) && InRing(ds, size)
    decreases |ds|
  {
    hide Overrun, Anchor, Request;
    if ds == [] then Reply(s, []) else
      RequestKeepsAnchor(s, ds[0], size);
      var r := Request(s, ds[0], size);
      var rest := Run(r.state, ds[1..], size);
      Reply(rest.state, r.sent + rest.sent)
  }

  /** How many requests of a run overrun the window. */
  function Overruns(s: State, ds: seq<Demand>, size: nat): nat
    requires Valid(s, size) && InRing(ds, size)
    decreases |ds|
  {
    hide Overrun, Anchor, Request;
    if ds == [] then 0 else
      RequestKeepsAnchor(s, ds[0], size);
      (if Overrun(s, ds[0], size) then 1 else 0) + Overruns(Request(s, ds[0], size).state, ds[1..], size)
  }

  /** Over any run, each overrun moves the anchor by 2^32 slots, and nothing else moves it. */
  lemma {:induction false} RunMovesAnchor(s: State, ds: seq<Demand>, size: nat)
    requires Valid(s, size) && InRing(ds, size)
    ensures var r := Run(s, ds, size);
      && Valid(r.state, size)
      && Anchor(r.state.pos, r.state.num, size) ==
           Anchor(Anchor(s.pos, s.num, size), Overruns(s, ds, size) * WRAP, size)
    decreases |ds|
  {
    AtAnchor(Anchor(s.pos, s.num, size), size);
    hide Anchor, Request, Overrun;
    if ds != [] {
      RequestKeepsAnchor(s, ds[0], size);
      var t := Request(s, ds[0], size).state;
      RunMovesAnchor(t, ds[1..], size);
      AnchorTwice(Anchor(s.pos, s.num, size), if Overrun(s, ds[0], size) then WRAP else 0,
                  Overruns(t, ds[1..], size) * WRAP, size);
    }
  }

  /** A run keeps the anchor if and only if the ring size divides 2^32 times the number of overruns. */
  lemma RunKeepsAnchor(s: State, ds: seq<Demand>, size: nat)
    requires Valid(s, size) && InRing(ds, size)
    ensures var t := Run(s, ds, size).state;
      Anchor(t.pos, t.num, size) == Anchor(s.pos, s.num, size) <==> (Overruns(s, ds, size) * WRAP) % size == 0
  {
    RunMovesAnchor(s, ds, size);
    MovesAnchor(Anchor(s.pos, s.num, size), Overruns(s, ds, size) * WRAP, size);
  }

  /** No request overruns the window, and none repeats the latest one between two events. */
  predicate Orderly(s: State, ds: seq<Demand>, size: nat)
    requires Valid(s, size) && InRing(ds, size)
    decreases |ds|
  {
    hide Overrun, Anchor, Request;
    ds == [] || (
      RequestKeepsAnchor(s, ds[0], size);
      && !Overrun(s, ds[0], size)
      && (ds[0].sn == s.sn ==> Midway(s) || s.num == 0)
      && Orderly(Request(s, ds[0], size).state, ds[1..], size))
  }

  /** What a run skips and sends, in order, each resent package once. */
  function Passed(s: State, ds: seq<Demand>, size: nat): seq<Package>
    requires Valid(s, size) && InRing(ds, size)
    decreases |ds|
  {
    hide Overrun, Anchor, Request;
    if ds == [] then [] else
      RequestKeepsAnchor(s, ds[0], size);
      var r := Request(s, ds[0], size);
      Skipped(s, ds[0], size) + ((if ds[0].sn == s.sn then [] else r.sent) + Passed(r.state, ds[1..], size))
  }

  /** Wherever new events go meanwhile, what a run passes, followed by what is left then, is what was left. */
  lemma {:induction false} RunPasses(s: State, ds: seq<Demand>, files: Files, size: nat)
    requires Valid(s, size) && InRing(ds, size) && Orderly(s, ds, size)
    requires forall k | 0 <= k < |ds| :: ds[k].files == files
    ensures Passed(s, ds, size) + Left(Run(s, ds, size).state, files, size) == Left(s, files, size)
    decreases |ds|
  {
    hide Skipped, Left, Request, Overrun, Anchor;
    if ds == [] {
      Neutral(Left(s, files, size));
    } else {
      var d := ds[0];
      RequestKeepsAnchor(s, d, size);
      var r := Request(s, d, size);
      RunPasses(r.state, ds[1..], files, size);
      var sent := if d.sn == s.sn then [] else r.sent;
      OneRequest(s, d, size);
      var rest, end := Passed(r.state, ds[1..], size), Left(Run(r.state, ds[1..], size).state, files, size);
      Associates(Skipped(s, d, size), sent + rest, end);
      Associates(sent, rest, end);
    }
  }

  lemma OneRequest(s: State, d: Demand, size: nat)
    requires Valid(s, size) && d.slot < size && !Overrun(s, d, size) && (d.sn == s.sn ==> Midway(s) || s.num == 0)
    ensures var r := Request(s, d, size);
      Skipped(s, d, size) + ((if d.sn == s.sn then [] else r.sent) + Left(r.state, d.files, size)) ==
        Left(s, d.files, size)
  {
    hide Request, Left, Overrun;
    if d.sn != s.sn {
      NewRequest(s, d, size);
    } else {
      Neutral(Left(s, d.files, size));
      if Midway(s) {
        Resend(s, d, size);
      } else {
        RequestKeepsAnchor(s, d, size);
      }
    }
  }
}
