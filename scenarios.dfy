/**
 * Client code of the strategy: the usage scenarios its documentation
 * describes, with what a caller can conclude from the contracts alone.
 * Gremlins are characters, the horde context and the executor's errors are
 * the unit value.
 */
module Scenarios {
  import opened Optional
  import opened Timeline
  import opened BySpecies

  /** Gremlins [A, B] with nb(2): calls (A, 1), (A, 2), (B, 1), (B, 2), then the run resolves. */
  method TwoSpeciesTwice()
  {
    var strategy := new Strategy();
    strategy := strategy.SetNb(2);
    var gremlins := new char[2];
    gremlins[0], gremlins[1] := 'A', 'B';
    var trace, outcome := strategy.Run<char, (), (), ()>(gremlins, None, (), [], []);

    FirstHaltUnique<()>([], [], 0, 4, 4);
    assert gremlins[..] == ['A', 'B'] && ['A', 'B'][..1] == ['A'];
    assert trace == [Wait(10), Execute(['A'], [], (), 10), Wait(10), Execute(['A'], [], (), 10),
                     Wait(10), Execute(['B'], [], (), 10), Wait(10), Execute(['B'], [], (), 10)];
    assert outcome == Resolved && !strategy.stopped;
  }

  /** Default policy, stop() right after the call and before the first wait ends: no executor call. */
  method StopRightAway()
  {
    var strategy := new Strategy();
    var gremlins := new char[1];
    gremlins[0] := 'A';
    var trace, outcome := strategy.Run<char, (), (), ()>(gremlins, None, (), [true], []);

    StopBeforeFirstWait<char, (), (), ()>(gremlins[..], 200, 10, (), [true], []);
    assert trace == [Wait(10)] && Calls(trace) == 0;
    assert outcome == Resolved && strategy.stopped;
  }

  /** nb(50) configured, one run with params { nb: 1 }, then one without: 1 call per gremlin, then 50. */
  method OverrideForOneRun(gremlins: array<char>)
  {
    var strategy := new Strategy();
    strategy := strategy.SetNb(50);
    var n := gremlins.Length;

    var first, _ := strategy.Run<char, (), (), ()>(gremlins, Some(Params(Some(1), None)), (), [], []);
    FirstHaltUnique<()>([], [], 0, n, n);
    CallsOfSchedule<char, (), ()>(gremlins[..], 1, 10, ());
    assert Calls(first) == n;
    assert strategy.nb == 50;

    var second, _ := strategy.Run<char, (), (), ()>(gremlins, None, (), [], []);
    FirstHaltUnique<()>([], [], 0, n * 50, n * 50);
    CallsOfSchedule<char, (), ()>(gremlins[..], 50, 10, ());
    assert Calls(second) == n * 50;
  }

  /** An override of 0 is falsy: the configured value is used. */
  method ZeroOverrideFallsBack(gremlins: array<char>)
  {
    var strategy := new Strategy();
    var n := gremlins.Length;
    var trace, _ := strategy.Run<char, (), (), ()>(gremlins, Some(Params(Some(0), Some(0))), (), [], []);
    FirstHaltUnique<()>([], [], 0, n * 200, n * 200);
    assert trace == Schedule<char, (), ()>(gremlins[..], 200, 10, ());
  }

  /**
   * A strategy stopped mid-run, or stopped before the next invocation, runs to
   * completion when invoked again: the flag is reset at the start of the run.
   */
  method RerunAfterStop(gremlins: array<char>)
  {
    var strategy := new Strategy();
    strategy := strategy.SetNb(3);
    var n := gremlins.Length;

    var _, _ := strategy.Run<char, (), (), ()>(gremlins, None, (), [false, true], []);
    strategy.Stop();
    assert strategy.stopped;

    var trace, outcome := strategy.Run<char, (), (), ()>(gremlins, None, (), [], []);
    FirstHaltUnique<()>([], [], 0, n * 3, n * 3);
    CallsOfSchedule<char, (), ()>(gremlins[..], 3, 10, ());
    assert Calls(trace) == n * 3;
    assert outcome == Resolved && !strategy.stopped;
  }

  /** The first executor rejection ends the run with that error; the calls before it all happened. */
  method FirstFailureAborts()
  {
    var strategy := new Strategy();
    strategy := strategy.SetNb(2);
    var gremlins := new char[2];
    gremlins[0], gremlins[1] := 'A', 'B';
    var trace, outcome := strategy.Run<char, (), (), int>(gremlins, None, (), [], [None, None, Some(7), Some(8)]);

    FirstHaltUnique<int>([], [None, None, Some(7), Some(8)], 0, 2, 4);
    CallsOfPartialRun<char, (), ()>(gremlins[..], 2, 10, (), 2);
    assert Calls(trace) == 3;
    assert outcome == Rejected(7) && !strategy.stopped;
  }

  /**
   * stop() called while the last executor call runs: the run still completes,
   * and the flag stays raised afterwards, as it does when the stop comes
   * during a call that rejects.
   */
  method StopDuringLastCall()
  {
    var strategy := new Strategy();
    strategy := strategy.SetNb(1);
    var gremlins := new char[1];
    gremlins[0] := 'A';
    var trace, outcome := strategy.Run<char, (), (), int>(gremlins, None, (), [false, true], []);
    FirstHaltUnique<int>([false, true], [], 0, 1, 1);
    CallsOfSchedule<char, (), ()>(gremlins[..], 1, 10, ());
    assert Calls(trace) == 1;
    assert outcome == Resolved && strategy.stopped;

    trace, outcome := strategy.Run<char, (), (), int>(gremlins, None, (), [false, true], [Some(3)]);
    FirstHaltUnique<int>([false, true], [Some(3)], 0, 0, 1);
    assert outcome == Rejected(3) && strategy.stopped;
  }
}
