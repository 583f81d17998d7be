/**
 Two transfers in which the packages sent are not those of the events: a repeat between two events, and new
 events that reach the window.
 */
module TransientCases {
  import opened TransientPackages
  import opened TransientTransfer

  /** Every event has one package. */
  function OneEach(p: nat): int {
    1
  }

  /**
     Two events are left, and the second request repeats the first: the package of event 8 is not sent again,
     and a second package of event 9 is sent, which has one.
   */
  lemma RepeatBetweenEvents()
    ensures var s, d1, d2 := State(2, 8, 0, 0, false, 0), Demand(1, 500, OneEach), Demand(2, 500, OneEach);
      Run(s, [d1, d1, d2], 1000) == Reply(State(0, 10, 0, 2, false, 2), [Package(8, 0), Package(9, 0), Package(9, 1)])
  {
    var s, d1, d2 := State(2, 8, 0, 0, false, 0), Demand(1, 500, OneEach), Demand(2, 500, OneEach);
    var t, u := State(1, 9, 0, 1, false, 1), State(1, 9, 1, 1, true, 1);
    assert Request(s, d1, 1000) == Reply(t, [Package(8, 0)]);
    assert Request(t, d1, 1000) == Reply(u, [Package(9, 0)]);
    assert Request(u, d2, 1000) == Reply(State(0, 10, 0, 2, false, 2), [Package(9, 1)]);
    assert [d1, d1, d2][1..] == [d1, d2] && [d1, d2][1..] == [d2] && [d2][1..] == [];
    hide Request;
    assert Run(u, [d2], 1000) == Reply(State(0, 10, 0, 2, false, 2), [Package(9, 1)]);
    assert Run(t, [d1, d2], 1000) == Reply(State(0, 10, 0, 2, false, 2), [Package(9, 0), Package(9, 1)]);
  }

  /** Every event but that in slot 9 has one package. */
  function NotNine(p: nat): int {
    if p == 9 then -1 else 1
  }

  /**
     One event is left in slot 8, new events go to slot 7, and slot 9 has no file: the counter wraps, an event
     that was not asked for is sent, and 2^32 - 2 are said to be left.
   */
  lemma WindowOverrun()
    ensures var s, d := State(1, 8, 0, 0, false, 0), Demand(1, 7, NotNine);
      && Overrun(s, d, 1000)
      && Request(s, d, 1000) == Reply(State(WRAP - 2, 11, 0, 1, false, 1), [Package(10, 0)])
      && Anchor(s.pos, s.num, 1000) == 9 && Anchor(11, WRAP - 2, 1000) == 305
  {
    var d := Demand(1, 7, NotNine);
    assert Skip(8, 1, 7, 1000) == (9, 0);
    assert Find(NotNine, 9, 0, 1000) == (10, WRAP - 1, true);
  }
}
