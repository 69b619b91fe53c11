/**
 * The by-species strategy: a strategy object holding a mutable policy
 * (`delay`, `nb`) and a shared cancellation flag (`stopped`), and a run that
 * fires each gremlin `nb` times in collection order, with a pacing wait and a
 * cancellation check before every call of the series executor.
 *
 * What happens outside the run's own control flow is given to `Run` as data:
 * - `stopCalls[t]` holds when `stop()` was called after the run began and
 *   before checkpoint t was reached (during the wait before it or during the
 *   previous executor call);
 * - `errors[t]` is the rejection, if any, of the executor call made at
 *   checkpoint t.
 * Positions past the end of either sequence mean "no stop" and "no error".
 * A stop during the call at the last checkpoint reached is `stopCalls[t + 1]`
 * (`stopCalls[total]` after the last call of a complete run).
 */
module BySpecies {
  import opened Optional
  import opened Timeline

  const DefaultDelay: int := 10
  const DefaultNb: int := 200

  /** The optional per-call overrides `{ nb?, delay? }`. */
  datatype Params = Params(nb: Option<int>, delay: Option<int>)

  /** How a run's promise settles: resolved (completed or stopped), or rejected with the executor's error. */
  datatype Outcome<E> = Resolved | Rejected(error: E)

  /** JavaScript truthiness of an optional number: present and non-zero. */
  predicate Truthy(v: Option<int>)
  {
    v.Some? && v.value != 0
  }

  /** `params && params.nb ? params.nb : config.nb` */
  function EffectiveNb(params: Option<Params>, configured: int): (r: int)
    ensures params.Some? && Truthy(params.value.nb) ==> r == params.value.nb.value
    ensures params.None? || !Truthy(params.value.nb) ==> r == configured
    ensures params.Some? && params.value.nb in {None, Some(0)} ==> r == configured
  {
    if params.Some? && Truthy(params.value.nb) then params.value.nb.value else configured
  }

  /** `params && params.delay ? params.delay : config.delay` */
  function EffectiveDelay(params: Option<Params>, configured: int): (r: int)
    ensures params.Some? && Truthy(params.value.delay) ==> r == params.value.delay.value
    ensures params.None? || !Truthy(params.value.delay) ==> r == configured
    ensures params.Some? && params.value.delay in {None, Some(0)} ==> r == configured
  {
    if params.Some? && Truthy(params.value.delay) then params.value.delay.value else configured
  }

  /** Whether `stop()` had been called by the time checkpoint t was reached. */
  function StopRequested(stopCalls: seq<bool>, t: nat): bool
  {
    t < |stopCalls| && stopCalls[t]
  }

  /** The rejection of the executor call made at checkpoint t, if any. */
  function ExecutorError<E>(errors: seq<Option<E>>, t: nat): Option<E>
  {
    if t < |errors| then errors[t] else None
  }

  /** Checkpoint t ends the run: either it observes the flag, or its executor call rejects. */
  predicate Halts<E>(stopCalls: seq<bool>, errors: seq<Option<E>>, t: nat)
  {
    StopRequested(stopCalls, t) || ExecutorError(errors, t).Some?
  }

  /** The first checkpoint in [from, total) that ends the run, or `total` when none does. */
  function FirstHalt<E>(stopCalls: seq<bool>, errors: seq<Option<E>>, from: nat, total: nat): (h: nat)
    requires from <= total
    ensures from <= h <= total
    decreases total - from
  {
    if from == total || Halts(stopCalls, errors, from) then from
    else FirstHalt(stopCalls, errors, from + 1, total)
  }

  /** `FirstHalt` is the least halting checkpoint: none before it halts, and it halts unless it is `total`. */
  lemma {:induction false} FirstHaltIsLeast<E>(stopCalls: seq<bool>, errors: seq<Option<E>>, from: nat, total: nat)
    requires from <= total
    ensures var h := FirstHalt(stopCalls, errors, from, total);
      && (forall u :: from <= u < h ==> !Halts(stopCalls, errors, u))
      && (h < total ==> Halts(stopCalls, errors, h))
    decreases total - from
  {
    if from < total && !Halts(stopCalls, errors, from) {
      FirstHaltIsLeast(stopCalls, errors, from + 1, total);
    }
  }

  /** Conversely, a checkpoint that halts (or `total`) with no halting checkpoint before it is `FirstHalt`. */
  lemma {:induction false} FirstHaltUnique<E>(stopCalls: seq<bool>, errors: seq<Option<E>>, from: nat, t: nat, total: nat)
    requires from <= t <= total
    requires forall u :: from <= u < t ==> !Halts(stopCalls, errors, u)
    requires t == total || Halts(stopCalls, errors, t)
    ensures FirstHalt(stopCalls, errors, from, total) == t
    decreases t - from
  {
    if from < t {
      FirstHaltUnique(stopCalls, errors, from + 1, t, total);
    }
  }

  /**
   * A stop issued before the first pacing wait is over halts the run at its
   * first checkpoint: the run shows one wait and calls the executor zero times.
   */
  lemma StopBeforeFirstWait<G, M, C, E>(gs: seq<G>, reps: nat, delay: int, horde: C,
                                       stopCalls: seq<bool>, errors: seq<Option<E>>)
    requires StopRequested(stopCalls, 0)
    ensures var total := |gs| * reps;
      var full := Schedule<G, M, C>(gs, reps, delay, horde);
      && FirstHalt(stopCalls, errors, 0, total) == 0
      && (total > 0 ==> full[..1] == [Wait(delay)] && Calls(full[..1]) == 0)
  {
    var total := |gs| * reps;
    FirstHaltUnique(stopCalls, errors, 0, 0, total);
    if total > 0 {
      var full := Schedule<G, M, C>(gs, reps, delay, horde);
      CheckpointAt<G, M, C>(gs, reps, delay, horde, 0);
      CallsOfPartialRun<G, M, C>(gs, reps, delay, horde, 0);
      assert full[..1] == [full[0]];
    }
  }

  /**
   * How a run ends, given the complete trace `full` of its `total` checkpoints
   * and h the first checkpoint that halts:
   * - none halts: the whole trace, resolved, and the flag raised exactly when
   *   `stop()` came during the last executor call;
   * - checkpoint h observes a stop: the trace up to the wait of h, resolved,
   *   with the flag raised;
   * - the call at checkpoint h rejects: the trace up to that call, rejected
   *   with exactly that error, and the flag raised exactly when `stop()` came
   *   during that call.
   * In every case the trace is a prefix of the complete one.
   */
  ghost predicate Settled<G, M, C, E>(full: seq<Event<G, M, C>>, total: nat,
                                      stopCalls: seq<bool>, errors: seq<Option<E>>,
                                      trace: seq<Event<G, M, C>>, outcome: Outcome<E>, stopped: bool)
    requires |full| == 2 * total
  {
    var h := FirstHalt(stopCalls, errors, 0, total);
    && trace <= full
    && (h == total ==>
          trace == full && outcome == Resolved
          && stopped == (total > 0 && StopRequested(stopCalls, total)))
    && (h < total && StopRequested(stopCalls, h) ==>
          trace == full[..2 * h + 1] && outcome == Resolved && stopped)
    && (h < total && !StopRequested(stopCalls, h) ==>
          trace == full[..2 * h + 2] && stopped == StopRequested(stopCalls, h + 1)
          && outcome.Rejected? && ExecutorError(errors, h) == Some(outcome.error))
  }

  /** A run that passes every checkpoint without halting settles as complete. */
  lemma SettledComplete<G, M, C, E>(full: seq<Event<G, M, C>>, total: nat,
                                    stopCalls: seq<bool>, errors: seq<Option<E>>)
    requires |full| == 2 * total
    requires forall u :: 0 <= u < total ==> !Halts(stopCalls, errors, u)
    ensures Settled(full, total, stopCalls, errors, full, Resolved,
                    total > 0 && StopRequested(stopCalls, total))
  {
    FirstHaltUnique(stopCalls, errors, 0, total, total);
  }

  /** A run whose first halting checkpoint t observes a stop settles with the trace up to the wait of t. */
  lemma SettledStopped<G, M, C, E>(full: seq<Event<G, M, C>>, total: nat,
                                   stopCalls: seq<bool>, errors: seq<Option<E>>, t: nat)
    requires |full| == 2 * total && t < total
    requires forall u :: 0 <= u < t ==> !Halts(stopCalls, errors, u)
    requires StopRequested(stopCalls, t)
    ensures Settled(full, total, stopCalls, errors, full[..2 * t + 1], Resolved, true)
  {
    FirstHaltUnique(stopCalls, errors, 0, t, total);
  }

  /** A run whose first halting checkpoint t rejects with e settles with the trace up to the call of t. */
  lemma SettledRejected<G, M, C, E>(full: seq<Event<G, M, C>>, total: nat,
                                    stopCalls: seq<bool>, errors: seq<Option<E>>, t: nat, e: E)
    requires |full| == 2 * total && t < total
    requires forall u :: 0 <= u < t ==> !Halts(stopCalls, errors, u)
    requires !StopRequested(stopCalls, t) && ExecutorError(errors, t) == Some(e)
    ensures Settled(full, total, stopCalls, errors, full[..2 * t + 2], Rejected(e),
                    StopRequested(stopCalls, t + 1))
  {
    FirstHaltUnique(stopCalls, errors, 0, t, total);
  }

  /**
   * The strategy object: its policy fields and its cancellation flag. JavaScript
   * leaves `stopped` undefined until the first run; the model starts it false,
   * which every test of it treats alike.
   */
  class Strategy {
    var delay: int
    var nb: int
    var stopped: bool

    /** The factory: a fresh strategy with the default policy. */
    constructor ()
      ensures delay == DefaultDelay && nb == DefaultNb && !stopped
    {
      delay := DefaultDelay;
      nb := DefaultNb;
      stopped := false;
    }

    /** `strategy.delay(ms)`: sets the pacing delay, unchecked, and returns the strategy for chaining. */
    method SetDelay(ms: int) returns (self: Strategy)
      modifies this`delay
      ensures self == this
      ensures delay == ms && nb == old(nb) && stopped == old(stopped)
    {
      delay := ms;
      self := this;
    }

    /** `strategy.nb(count)`: sets the repetition count, unchecked, and returns the strategy for chaining. */
    method SetNb(count: int) returns (self: Strategy)
      modifies this`nb
      ensures self == this
      ensures nb == count && delay == old(delay) && stopped == old(stopped)
    {
      nb := count;
      self := this;
    }

    /** `strategy.stop()`: raises the flag and touches nothing else. */
    method Stop()
      modifies this`stopped
      ensures stopped && delay == old(delay) && nb == old(nb)
    {
      stopped := true;
    }

    /**
     * One invocation `strategy(newGremlins, params)` with context `horde`. The
     * run performs the checkpoints of the complete species-major trace up to
     * the first that halts, and settles as `Settled` describes: the wait and
     * nothing after it on a stop, everything up to the call on a rejection,
     * the whole trace otherwise. The flag is reset at the start, so a flag
     * raised before the invocation does not matter; the policy never changes.
     */
    method Run<G, M, C, E>(newGremlins: array<G>, params: Option<Params>, horde: C,
                           stopCalls: seq<bool>, errors: seq<Option<E>>)
      returns (trace: seq<Event<G, M, C>>, outcome: Outcome<E>)
      modifies this`stopped
      ensures delay == old(delay) && nb == old(nb)
      ensures
        var reps := Repetitions(EffectiveNb(params, nb));
        Settled(Schedule<G, M, C>(newGremlins[..], reps, EffectiveDelay(params, delay), horde),
                Checkpoints(newGremlins.Length, reps), stopCalls, errors, trace, outcome, stopped)
    {
      var effNb := EffectiveNb(params, nb);
      var effDelay := EffectiveDelay(params, delay);
      var gremlins := newGremlins[..];  // the run's private copy
      ghost var reps := Repetitions(effNb);
      ghost var total := Checkpoints(|gremlins|, reps);
      ghost var full := Schedule<G, M, C>(gremlins, reps, effDelay, horde);

      stopped := false;
      trace, outcome := [], Resolved;
      var t := 0;  // checkpoints passed so far
      var k := 0;
      while k < |gremlins|
        invariant 0 <= k <= |gremlins|
        invariant t == k * reps && t <= total
        invariant trace == full[..2 * t]
        invariant stopped == (t > 0 && StopRequested(stopCalls, t)) && outcome == Resolved
        invariant forall u :: 0 <= u < t ==> !Halts(stopCalls, errors, u)
      {
        var gremlin := gremlins[k];
        var i := 0;
        while i < effNb
          invariant 0 <= i <= reps
          invariant t == k * reps + i && t <= total
          invariant trace == full[..2 * t]
          invariant stopped == (t > 0 && StopRequested(stopCalls, t)) && outcome == Resolved
          invariant forall u :: 0 <= u < t ==> !Halts(stopCalls, errors, u)
        {
          Step<G, M, C>(gremlins, reps, effDelay, horde, k, i, t);

          // await wait(delay)
          trace := trace + [Wait(effDelay)];
          if StopRequested(stopCalls, t) {
            Stop();
          }
          if stopped {
            SettledStopped(full, total, stopCalls, errors, t);
            return;
          }
          // await executeInSeries([gremlin], [], horde, delay)
          trace := trace + [Execute([gremlin], [], horde, effDelay)];
          if StopRequested(stopCalls, t + 1) {
            Stop();  // stop() called while the executor was running
          }
          var err := ExecutorError(errors, t);
          if err.Some? {
            SettledRejected(full, total, stopCalls, errors, t, err.value);
            outcome := Rejected(err.value);
            return;
          }
          t := t + 1;
          i := i + 1;
        }
        assert (k + 1) * reps == k * reps + reps;
        k := k + 1;
      }
      assert full[..2 * t] == full;
      SettledComplete(full, total, stopCalls, errors);
    }
  }
}
