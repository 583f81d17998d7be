/** The protocol object: symbols arrive in buffers, times pass a plausibility gate before they set the clock. */
module AppPrtclGps {
  import opened Bits
  import opened Bytes
  import opened IrigB
  import opened Sequences

  function SecondOfDay(t: Time): int {
    t.hour * 3600 + t.min * 60 + t.sec
  }

  /** sec_old_ and right_cnt_ */
  datatype Gate = Gate(secOld: int, rightCnt: nat)

  /** The gate at the top of SetIRIGBTime, and whether it lets the time through. */
  function Pass(g: Gate, t: Time): (Gate, bool) {
    var sec := SecondOfDay(t);
    var cnt := if sec != g.secOld + 1 then 0 else g.rightCnt;
    if cnt < 4 then (Gate(sec, cnt + 1), false) else (Gate(sec, cnt), true)
  }

  function PassAll(g: Gate, ts: seq<Time>): Gate {
    if ts == [] then g else Pass(PassAll(g, ts[..|ts| - 1]), ts[|ts| - 1]).0
  }

  /** Time n follows the one before it by a second. */
  predicate Follows(ts: seq<Time>, n: nat)
    requires 0 < n < |ts|
  {
    SecondOfDay(ts[n]) == SecondOfDay(ts[n - 1]) + 1
  }

  /** The last k steps of the list are all by one second. */
  predicate Regular(ts: seq<Time>, k: nat)
    requires k < |ts|
  {
    forall n | |ts| - k <= n < |ts| :: Follows(ts, n)
  }

  /** After a list of times, right_cnt_ counts its regular tail, up to four. */
  lemma {:induction false} CountsRegular(ts: seq<Time>)
    requires ts != []
    ensures var g := PassAll(Gate(0, 0), ts);
            && g.secOld == SecondOfDay(ts[|ts| - 1]) && 1 <= g.rightCnt <= 4 && g.rightCnt <= |ts|
            && Regular(ts, g.rightCnt - 1)
            && (g.rightCnt < 4 && g.rightCnt < |ts| ==> !Follows(ts, |ts| - g.rightCnt))
  {
    var n := |ts| - 1;
    if n > 0 {
      var us := ts[..n];
      CountsRegular(us);
      var g, h := PassAll(Gate(0, 0), us), PassAll(Gate(0, 0), ts);
      forall i | 0 < i < n
        ensures Follows(us, i) == Follows(ts, i)
      {}
      assert Follows(ts, n) <==> SecondOfDay(ts[n]) == g.secOld + 1;
      forall i | |ts| - (h.rightCnt - 1) <= i < |ts|
        ensures Follows(ts, i)
      {
        if i < n {
          assert Follows(us, i);
        }
      }
    }
  }

  lemma CountIsFour(ts: seq<Time>)
    requires ts != []
    ensures PassAll(Gate(0, 0), ts).rightCnt == 4 <==> |ts| >= 4 && Regular(ts, 3)
  {
    hide PassAll, Follows;
    CountsRegular(ts);
  }

  lemma RegularGrows(ts: seq<Time>, t: Time)
    requires |ts| >= 4
    ensures Regular(ts + [t], 4) <==> Regular(ts, 3) && Follows(ts + [t], |ts|)
  {
    var us := ts + [t];
    assert forall i | 0 < i < |ts| :: Follows(us, i) == Follows(ts, i);
  }

  /** A time sets the clock exactly when it is at least the fifth and the last four steps were one second each. */
  lemma GateOpens(ts: seq<Time>, t: Time)
    ensures Pass(PassAll(Gate(0, 0), ts), t).1 <==> |ts| >= 4 && Regular(ts + [t], 4)
  {
    if ts != [] {
      CountsRegular(ts);
      CountIsFour(ts);
      if |ts| >= 4 {
        RegularGrows(ts, t);
      }
    }
  }

  class Protocol {
    var pCnt: Byte
    var prFind: bool
    var elementId: Byte
    var seconds: nat
    var minutes: nat
    var hours: nat
    var days: nat
    var secOld: int
    var rightCnt: nat
    ghost var handed: seq<Time>  // every time given to SetIRIGBTime
    var clock: seq<Time>         // every time that passed the gate, one second on: the settings of the clock

    ghost function Decoder(): State
      reads this
    {
      State(pCnt, prFind, elementId, seconds, minutes, hours, days)
    }

    ghost predicate Valid()
      reads this
    {
      Gate(secOld, rightCnt) == PassAll(Gate(0, 0), handed)
    }

    /** The decoder's fields start with whatever the memory holds. */
    constructor (garbage: State)
      ensures Valid() && Decoder() == garbage && handed == [] && clock == []
    {
      pCnt, prFind, elementId := garbage.pCnt, garbage.prFind, garbage.element;
      seconds, minutes, hours, days := garbage.seconds, garbage.minutes, garbage.hours, garbage.days;
      secOld, rightCnt := 0, 0;
      handed, clock := [], [];
    }

    /** SetIRIGBTime up to the point where it computes the new clock setting. */
    method SetIRIGBTime()
      requires Valid()
      modifies this`secOld, this`rightCnt, this`handed, this`clock
      ensures Valid() && handed == old(handed) + [Unpack(Decoder())]
      ensures var t := Unpack(Decoder());
              clock == old(clock) + if |old(handed)| >= 4 && Regular(handed, 4) then [t.(sec := t.sec + 1)] else []
    {
      hide And;
      GateOpens(handed, Unpack(Decoder()));
      handed := handed + [Unpack(Decoder())];
      assert handed[..|handed| - 1] == old(handed);
      var sec := seconds / 16 * 10 + And(seconds, 0xf);
      var min := minutes / 16 * 10 + And(minutes, 0xf);
      var hour := hours / 16 * 10 + And(hours, 0xf);
      var yday := days / 256 * 100 + And(days / 16, 0xf) * 10 + And(days, 0xf);
      var secNew := hour * 3600 + min * 60 + sec;
      if secNew != secOld + 1 {
        rightCnt := 0;
      }
      secOld := secNew;
      if rightCnt < 4 {
        rightCnt := rightCnt + 1;
        return;
      }
      clock := clock + [Time(sec + 1, min, hour, yday)];
    }

    /** One turn of the loop of CmdReceive; bCode says that the configured signal carries IRIG-B. */
    method Symbol(b: Byte, bCode: bool)
      requires Valid()
      modifies this
      ensures Valid()
      ensures var (t, out) := Step(old(Decoder()), b);
              Decoder() == t && handed == old(handed) + if bCode && out.Some? then [out.value] else []
    {
      hide Unpack, Shifted, And, PassAll, Pass, Regular, Follows;
      if !prFind {
        if b == P {
          pCnt := Next(pCnt);
        } else {
          pCnt := 0;
          return;
        }
        if pCnt == 2 {
          PCountIrrelevant(old(Decoder()), old(Decoder()).(pCnt := 0));
          pCnt := 0;
          if bCode {
            SetIRIGBTime();
          }
          prFind := true;
          elementId := 1;
          seconds, minutes, hours, days := 0, 0, 0, 0;
        }
      } else {
        if b == FAULT {
          prFind := false;
          return;
        }
        Weigh(b);
        elementId := Next(elementId);
      }
    }

    /** The switch over the element number. */
    method Weigh(b: Byte)
      modifies this`seconds, this`minutes, this`hours, this`days, this`prFind
      ensures Decoder() == Accumulate(old(Decoder()), b)
    {
      hide Shifted;
      var e: int := elementId;
      if 1 <= e <= 4 {
        seconds := seconds + Shifted(b, e - 1);
      } else if 6 <= e <= 8 {
        seconds := seconds + Shifted(b, e - 2);
      } else if 10 <= e <= 13 {
        minutes := minutes + Shifted(b, e - 10);
      } else if 15 <= e <= 17 {
        minutes := minutes + Shifted(b, e - 11);
      } else if 20 <= e <= 23 {
        hours := hours + Shifted(b, e - 20);
      } else if 25 <= e <= 26 {
        hours := hours + Shifted(b, e - 21);
      } else if 30 <= e <= 33 {
        days := days + Shifted(b, e - 30);
      } else if 35 <= e <= 38 {
        days := days + Shifted(b, e - 31);
      } else if 40 <= e <= 41 {
        days := days + Shifted(b, e - 32);
      } else if e == 98 {
        prFind := false;
      }
    }

    /** CmdReceive: rbuf[0] symbols follow in rbuf[1..]. */
    method CmdReceive(rbuf: array<Byte>, bCode: bool)
      requires Valid() && rbuf.Length > 0 && rbuf[0] < rbuf.Length
      modifies this
      ensures Valid()
      ensures var (t, out) := Run(old(Decoder()), rbuf[1..rbuf[0] + 1]);
              Decoder() == t && handed == old(handed) + if bCode then out else []
    {
      hide Step;
      var cnt: int := rbuf[0];
      var i := 1;
      while i <= cnt
        invariant 1 <= i <= cnt + 1 && Valid()
        invariant var (t, out) := Run(old(Decoder()), rbuf[1..i]);
                  Decoder() == t && handed == old(handed) + if bCode then out else []
      {
        assert rbuf[1..i + 1][..i - 1] == rbuf[1..i];
        Symbol(rbuf[i], bCode);
        i := i + 1;
      }
    }
  }

  /** A link: the symbols come in reads of at most 255, cut anywhere. */
  method Receive(gps: Protocol, cuts: seq<seq<Byte>>)
    requires gps.Valid() && forall k | 0 <= k < |cuts| :: |cuts[k]| <= 255
    modifies gps
    ensures gps.Valid()
    ensures var (t, out) := Run(old(gps.Decoder()), Concat(cuts));
            gps.Decoder() == t && gps.handed == old(gps.handed) + out
  {
    hide Run;
    RunNothing(gps.Decoder());
    var rbuf := new Byte[256](_ => 0);
    var k := 0;
    while k < |cuts|
      invariant 0 <= k <= |cuts| && gps.Valid()
      invariant var (t, out) := Run(old(gps.Decoder()), Concat(cuts[..k]));
                gps.Decoder() == t && gps.handed == old(gps.handed) + out
    {
      rbuf[0] := |cuts[k]|;
      forall i | 0 <= i < |cuts[k]| {
        rbuf[i + 1] := cuts[k][i];
      }
      assert rbuf[1..rbuf[0] + 1] == cuts[k];
      gps.CmdReceive(rbuf, true);
      RunConcat(old(gps.Decoder()), Concat(cuts[..k]), cuts[k]);
      assert cuts[..k + 1][..k] == cuts[..k];
      k := k + 1;
    }
    assert cuts[..k] == cuts;
  }

  lemma RunNothing(s: State)
    ensures Run(s, []) == (s, [])
  {}
}
