# The by-species strategy of gremlins.js, modelled in Dafny

gremlins.js is a monkey-testing library. A horde of gremlins (disruptive
test agents) is unleashed on a web page, and a *strategy* decides when and
how often each gremlin acts. This project models the **by-species strategy**
(`src/strategies/bySpecies.js`).

A strategy object holds a policy (`delay`, default 10 ms; `nb`, default
200) that chainable setters change. It also holds a cancellation flag that
`stop()` raises. Each invocation works as follows:

1. It resolves the per-call overrides `params.nb` and `params.delay`. An
   override wins only when it is truthy.
2. It copies the gremlin list and lowers the flag.
3. For each gremlin in order, it repeats `nb` times: wait `delay`; return if
   the flag is raised; otherwise await the series executor on `[gremlin]`,
   with no mutators, the horde context and the delay.

The project has four modules:

- `Optional` (`optional.dfy`): the `Option` type, used for JavaScript's
  `undefined`.
- `Timeline` (`timeline.dfy`): the reference trace of a complete run. A run
  is a sequence of `Event`s, where `Wait(ms)` is a pacing wait and
  `Execute(gremlins, mutators, horde, delay)` is one executor call.
  `Schedule(gs, reps, delay, horde)` is the species-major,
  repetition-minor trace. It is built block by block, and the lemmas give its
  shape pointwise as well: the i-th repetition of gremlin k is checkpoint
  `k * reps + i`. `Calls` counts the executor calls in a trace.
- `BySpecies` (`by_species.dfy`): the resolution of overrides and the class
  `Strategy`, with fields `delay`, `nb` and `stopped`. `Run` is the two
  nested loops of the source. Two inputs describe what happens outside the
  run's own control flow:
  - `stopCalls[t]` says that `stop()` was called before checkpoint t was
    reached, during the wait before it or during the previous executor call
    (`stopCalls[total]` is a stop during the last call of a complete run);
  - `errors[t]` is the rejection, if any, of the executor call at checkpoint t.

  `FirstHalt` is the first checkpoint that observes a stop or whose call
  rejects. `Run`'s postcondition, the predicate `Settled`, says the trace is
  exactly the prefix of `Schedule` up to that checkpoint. It also gives the
  outcome (resolved, or rejected with that very error) and the final flag.
- `Scenarios` (`scenarios.dfy`): client methods for the documented usage,
  checked from the contracts alone. They cover these cases:
  - gremlins [A, B] with `nb(2)` give (A,1), (A,2), (B,1), (B,2);
  - a stop before the first wait ends gives no call;
  - a `{ nb: 1 }` override applies to one run only;
  - an override of 0 falls back to the configured value;
  - a stopped strategy runs to completion when invoked again;
  - the first rejection aborts the run;
  - a stop during the last or the failing executor call leaves the flag
    raised.

The horde context is an explicit parameter `horde` of `Run`, forwarded
unchanged to every executor call (see the deviation listed under
"Left out").

## Model

| member | source | states |
|---|---|---|
| `BySpecies.Strategy.constructor` | src/strategies/bySpecies.js:39-45 | a fresh strategy has delay 10, nb 200 and the flag lowered |
| `BySpecies.Strategy.SetDelay` | src/strategies/bySpecies.js:15 | sets the delay to the given value without validation, leaves nb and the flag unchanged, and returns the same strategy for chaining |
| `BySpecies.Strategy.SetNb` | src/strategies/bySpecies.js:16 | sets nb to the given value without validation, leaves delay and the flag unchanged, and returns the same strategy for chaining |
| `BySpecies.Strategy.Stop` | src/strategies/bySpecies.js:70-72 | raises the flag and changes neither delay nor nb |
| `BySpecies.Strategy.Run` | src/strategies/bySpecies.js:47-68 | the policy is unchanged and the flag is reset whatever its value before the run; the run settles as `Settled` says over the complete species-major trace of n·reps checkpoints (n gremlins): no halt gives the whole trace, resolved, with the flag raised exactly when `stop()` came during the last call; a stop at the first halting checkpoint h gives the trace up to the wait of h, resolved, flag raised; a rejection at h gives the trace up to the call of h, rejected with exactly that error, flag raised exactly when `stop()` came during that call; in every case the trace is a prefix of the complete one |
| `BySpecies.SettledComplete` | src/strategies/bySpecies.js:57-67 | when no checkpoint halts, the whole trace, resolved, with the flag left as a stop during the last call set it, is the settled result |
| `BySpecies.SettledStopped` | src/strategies/bySpecies.js:60-62 | when the first halting checkpoint t observes a stop, the trace up to the wait of t, resolved, with the flag raised, is the settled result |
| `BySpecies.SettledRejected` | src/strategies/bySpecies.js:64-72 | when the call at the first halting checkpoint t rejects with e, the trace up to that call, rejected with e, with the flag raised exactly when `stop()` came during that call, is the settled result |
| `BySpecies.EffectiveNb` | src/strategies/bySpecies.js:49 | the run's nb is the override when params exist and their nb is truthy (non-zero), and the configured nb otherwise; in particular a missing override or an override of 0 gives the configured nb |
| `BySpecies.EffectiveDelay` | src/strategies/bySpecies.js:50 | the run's delay is the override when params exist and their delay is truthy (non-zero), and the configured delay otherwise; in particular a missing override or an override of 0 gives the configured delay |
| `BySpecies.FirstHaltIsLeast` | src/strategies/bySpecies.js:59-64 | no checkpoint before the first halting one stops or fails, and that one does halt unless the run completed |
| `BySpecies.FirstHaltUnique` | src/strategies/bySpecies.js:59-64 | conversely, any checkpoint that halts (or the end) with no halting checkpoint before it is the first halting checkpoint |
| `BySpecies.StopBeforeFirstWait` | src/strategies/bySpecies.js:60-63 | a stop issued before the first wait ends halts the run at checkpoint 0; the run then shows one wait and zero executor calls |
| `Timeline.Schedule` | src/strategies/bySpecies.js:57-66 | a complete run over gs with reps repetitions has 2·n·reps events (n the number of gremlins) |
| `Timeline.Burst` | src/strategies/bySpecies.js:59-65 | the repetitions of one gremlin contribute two events each |
| `Timeline.BurstPrefix` | src/strategies/bySpecies.js:59-65 | the first i repetitions of a gremlin are a prefix of all its repetitions |
| `Timeline.ScheduleSplit` | src/strategies/bySpecies.js:57-66 | the trace over a + b is the whole trace over a followed by the whole trace over b: species in collection order, never interleaved |
| `Timeline.SchedulePrefix` | src/strategies/bySpecies.js:57-66 | all repetitions of gremlins 0..k-1 followed by the first i repetitions of gremlin k are exactly the first k·reps + i checkpoints of the complete run |
| `Timeline.ScheduleAt` | src/strategies/bySpecies.js:57-64 | checkpoint k·reps + i is a wait of the effective delay followed by a call of the executor with exactly [gremlin k], an empty mutator list, the context and the delay |
| `Timeline.CheckpointAt` | src/strategies/bySpecies.js:57-64 | checkpoint t < n·reps (n gremlins) belongs to gremlin t / reps; waits and calls alternate, each call preceded by its wait |
| `Timeline.Step` | src/strategies/bySpecies.js:59-64 | one repetition of the loop extends the first t checkpoints by the wait, then by the call on the current gremlin, staying a prefix of the complete run |
| `Timeline.CallsOfBurst` | src/strategies/bySpecies.js:59-65 | reps repetitions of one gremlin call the executor reps times |
| `Timeline.CallsOfSchedule` | src/strategies/bySpecies.js:57-66 | a complete run calls the executor exactly n·reps times for n gremlins, and zero times when nb ≤ 0 |
| `Timeline.CallsOfPrefix` | src/strategies/bySpecies.js:57-66 | the first t checkpoints of a complete run hold exactly t executor calls |
| `Timeline.CallsOfPartialRun` | src/strategies/bySpecies.js:60-64 | a run stopped at checkpoint h made h calls; a run whose call at h rejected made h + 1 |

## Left out

- `wait(delay)` (`src/utils/wait`) is not part of this model. A wait is the
  event `Wait(delay)` at a checkpoint, with no notion of time. Calls of
  `stop()` during the wait reach the run through `stopCalls`.
- `executeInSeries` (`src/utils/executeInSeries`) is not part of this model.
  A call is the event `Execute([gremlin], [], horde, delay)`. Its success or
  rejection is the input `errors`.
- `configurable` (`src/utils/configurable`) is not part of this model. Only
  the setter behaviour described in the doc comment (lines 15-16) is
  modelled, as `SetDelay` and `SetNb`. Whatever else `configurable`
  attaches to the strategy is not modelled.
- `console.log('by species called')` is I/O and is omitted.
- Two overlapping invocations of one strategy share the flag. This is a
  concurrency interleaving, and `Run` models one invocation at a time.
- Policy values are integers. Non-numeric values, `NaN` and fractional
  counts are not modelled. In JavaScript a fractional `nb` runs ceil(nb)
  times, and `NaN` is a falsy override.
- The copy `[...newGremlins]` is the sequence `newGremlins[..]`. `Run` has no
  frame on the caller's array, so the array is unchanged. A gremlin that
  mutates the horde's array mid-run has no counterpart, because the executor
  is opaque.
- `for ... in` over the copied array visits indices in ascending order. An
  enumerable property added to `Array.prototype` would also be visited, and
  this is not modelled.
- `BySpecies.Strategy.Run`: the horde context deviates from the source.
  There it is `const horde = this` inside a top-level arrow function
  (`src/strategies/bySpecies.js:53`), so every executor call receives the
  module's lexical `this` (`undefined`), not the horde that invokes the
  strategy. The model follows the evident intent and forwards the caller's
  context `horde` unchanged.
- `BySpecies.Strategy.Run`: runs that never end are not modelled. The model
  always ends after at most n·reps calls. Two cases in the source never end.
  First, an `nb` of `Infinity`, as an override or through the setter, keeps
  `i < nb` (line 59) true forever, and so does any `nb` above 2^53, where
  `i++` stops increasing. The first gremlin then fires until `stop()` and no
  later gremlin ever runs. Second, an executor call that never settles
  (line 64) stalls the run forever.
- `BySpecies.Strategy.Run`: the executor-call counts of the three outcomes
  are not in its postcondition. They follow from the trace it does state,
  by `Timeline.CallsOfSchedule` and `Timeline.CallsOfPartialRun`.
