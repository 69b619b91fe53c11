/**
 * The order in which the by-species strategy fires its gremlins when nothing
 * stops it: species-major, repetition-minor. Every repetition is one pacing
 * wait followed by one call of the series executor on that gremlin alone.
 *
 * `Schedule` is the reference trace of a complete run. Its shape is stated
 * twice: structurally (one block of repetitions per gremlin, blocks in
 * collection order: `ScheduleSplit`, `SchedulePrefix`) and pointwise (the
 * i-th repetition of the k-th gremlin is checkpoint k * reps + i:
 * `ScheduleAt`).
 */
module Timeline {

  /** One observable step of a run: a pacing wait, or one call of the series executor. */
  datatype Event<G, M, C> =
    | Wait(ms: int)
    | Execute(gremlins: seq<G>, mutators: seq<M>, horde: C, delay: int)

  /** How many times the loop `for (i = 0; i < nb; i++)` runs for an integer `nb`. */
  function Repetitions(nb: int): nat
  {
    if nb > 0 then nb else 0
  }

  /** The number of checkpoints of a complete run: `reps` for each of `n` gremlins. */
  function Checkpoints(n: nat, reps: nat): nat
  {
    n * reps
  }

  /** The first `reps` repetitions for gremlin `g`. */
  function Burst<G, M, C>(g: G, reps: nat, delay: int, horde: C): (r: seq<Event<G, M, C>>)
    ensures |r| == 2 * reps
  {
    if reps == 0 then []
    else Burst<G, M, C>(g, reps - 1, delay, horde) + [Wait(delay), Execute([g], [], horde, delay)]
  }

  /** The complete trace of a run over `gs` that nobody stops and no executor call rejects. */
  function Schedule<G, M, C>(gs: seq<G>, reps: nat, delay: int, horde: C): (r: seq<Event<G, M, C>>)
    ensures |r| == 2 * (|gs| * reps)
  {
    if gs == [] then []
    else
      var n := |gs| - 1;
      assert (n + 1) * reps == n * reps + reps;
      Schedule<G, M, C>(gs[..n], reps, delay, horde) + Burst(gs[n], reps, delay, horde)
  }

  /** The number of executor calls in a trace. */
  function Calls<G, M, C>(trace: seq<Event<G, M, C>>): (n: nat)
    ensures n <= |trace|
  {
    if trace == [] then 0
    else Calls(trace[..|trace| - 1]) + (if trace[|trace| - 1].Execute? then 1 else 0)
  }

  /** Taking one more element of a sequence appends that element. */
  lemma PrefixGrows<T>(s: seq<T>, j: nat)
    requires j < |s|
    ensures s[..j + 1] == s[..j] + [s[j]] && s[..j + 1] <= s
  {
  }

  /** A prefix that ends with the pair x, y has x and y at those positions. */
  lemma PairAfterPrefix<T>(s: seq<T>, before: seq<T>, x: T, y: T)
    requires |before| + 2 <= |s| && s[..|before| + 2] == before + [x, y]
    ensures s[|before|] == x && s[|before| + 1] == y
  {
    assert s[|before|] == s[..|before| + 2][|before|];
    assert s[|before| + 1] == s[..|before| + 2][|before| + 1];
  }

  /** Counting calls distributes over concatenation. */
  lemma {:induction false} CallsSplit<G, M, C>(a: seq<Event<G, M, C>>, b: seq<Event<G, M, C>>)
    ensures Calls(a + b) == Calls(a) + Calls(b)
  {
    if b != [] {
      var b' := b[..|b| - 1];
      assert (a + b)[..|a + b| - 1] == a + b';
      CallsSplit(a, b');
    } else {
      assert a + b == a;
    }
  }

  /** A block of `reps` repetitions calls the executor exactly `reps` times. */
  lemma {:induction false} CallsOfBurst<G, M, C>(g: G, reps: nat, delay: int, horde: C)
    ensures Calls(Burst<G, M, C>(g, reps, delay, horde)) == reps
  {
    if reps > 0 {
      var prev := Burst<G, M, C>(g, reps - 1, delay, horde);
      var step: seq<Event<G, M, C>> := [Wait(delay), Execute([g], [], horde, delay)];
      CallsOfBurst<G, M, C>(g, reps - 1, delay, horde);
      CallsSplit(prev, step);
      assert step[..1] == [Wait(delay)];
      assert step[..1][..0] == [];
    }
  }

  /** A complete run calls the executor exactly |gs| * reps times. */
  lemma {:induction false} CallsOfSchedule<G, M, C>(gs: seq<G>, reps: nat, delay: int, horde: C)
    ensures Calls(Schedule<G, M, C>(gs, reps, delay, horde)) == |gs| * reps
  {
    if gs != [] {
      var n := |gs| - 1;
      var head := Schedule<G, M, C>(gs[..n], reps, delay, horde);
      var block := Burst<G, M, C>(gs[n], reps, delay, horde);
      assert Schedule<G, M, C>(gs, reps, delay, horde) == head + block;
      CallsOfSchedule<G, M, C>(gs[..n], reps, delay, horde);
      CallsOfBurst<G, M, C>(gs[n], reps, delay, horde);
      CallsSplit(head, block);
      assert Calls(head + block) == n * reps + reps;
      assert (n + 1) * reps == n * reps + reps;
    }
  }

  /** Fewer repetitions of one gremlin are a prefix of more repetitions of it. */
  lemma {:induction false} BurstPrefix<G, M, C>(g: G, i: nat, reps: nat, delay: int, horde: C)
    requires i <= reps
    ensures Burst<G, M, C>(g, i, delay, horde) == Burst<G, M, C>(g, reps, delay, horde)[..2 * i]
  {
    if i < reps {
      BurstPrefix<G, M, C>(g, i, reps - 1, delay, horde);
      var prev := Burst<G, M, C>(g, reps - 1, delay, horde);
      assert Burst<G, M, C>(g, reps, delay, horde)[..2 * i] == prev[..2 * i];
    }
  }

  /**
   * No interleaving between species: the trace of a run over `a + b` is every
   * call for the gremlins of `a`, then every call for those of `b`.
   */
  lemma {:induction false} ScheduleSplit<G, M, C>(a: seq<G>, b: seq<G>, reps: nat, delay: int, horde: C)
    ensures Schedule<G, M, C>(a + b, reps, delay, horde)
         == Schedule<G, M, C>(a, reps, delay, horde) + Schedule<G, M, C>(b, reps, delay, horde)
  {
    if b == [] {
      assert a + b == a;
    } else {
      var b', last := b[..|b| - 1], b[|b| - 1];
      assert (a + b)[..|a + b| - 1] == a + b';
      assert (a + b)[|a + b| - 1] == last;
      var block := Burst<G, M, C>(last, reps, delay, horde);
      assert Schedule<G, M, C>(a + b, reps, delay, horde) == Schedule<G, M, C>(a + b', reps, delay, horde) + block;
      ScheduleSplit<G, M, C>(a, b', reps, delay, horde);
      assert Schedule<G, M, C>(b, reps, delay, horde) == Schedule<G, M, C>(b', reps, delay, horde) + block;
    }
  }

  /**
   * The state of a run after the first i repetitions of gremlin k: the calls
   * for all gremlins before k, then the first i repetitions of gremlin k, are
   * exactly the first k * reps + i checkpoints of the complete trace.
   */
  lemma SchedulePrefix<G, M, C>(gs: seq<G>, reps: nat, delay: int, horde: C, k: nat, i: nat)
    requires k < |gs| && i <= reps
    ensures k * reps + i <= |gs| * reps
    ensures Schedule<G, M, C>(gs[..k], reps, delay, horde) + Burst<G, M, C>(gs[k], i, delay, horde)
         == Schedule<G, M, C>(gs, reps, delay, horde)[..2 * (k * reps + i)]
  {
    var head := Schedule<G, M, C>(gs[..k], reps, delay, horde);
    var block := Burst<G, M, C>(gs[k], reps, delay, horde);
    var tail := Schedule<G, M, C>(gs[k + 1..], reps, delay, horde);
    assert gs == gs[..k + 1] + gs[k + 1..];
    assert gs[..k + 1][..k] == gs[..k];
    ScheduleSplit<G, M, C>(gs[..k + 1], gs[k + 1..], reps, delay, horde);
    assert Schedule<G, M, C>(gs, reps, delay, horde) == head + block + tail;
    BurstPrefix<G, M, C>(gs[k], i, reps, delay, horde);
    assert (head + block + tail)[..2 * (k * reps + i)] == head + block[..2 * i];
    assert (k + 1) * reps <= |gs| * reps;
  }

  /**
   * Species-major, repetition-minor: checkpoint k * reps + i of a complete run
   * is a wait of the effective delay followed by one executor call that gets
   * exactly gremlin k, an empty mutator list, the context and the delay.
   */
  lemma ScheduleAt<G, M, C>(gs: seq<G>, reps: nat, delay: int, horde: C, k: nat, i: nat)
    requires k < |gs| && i < reps
    ensures k * reps + i < |gs| * reps
    ensures Schedule<G, M, C>(gs, reps, delay, horde)[2 * (k * reps + i)] == Wait(delay)
    ensures Schedule<G, M, C>(gs, reps, delay, horde)[2 * (k * reps + i) + 1] == Execute([gs[k]], [], horde, delay)
  {
    SchedulePrefix<G, M, C>(gs, reps, delay, horde, k, i + 1);
    var t := k * reps + i;
    var before := Schedule<G, M, C>(gs[..k], reps, delay, horde) + Burst<G, M, C>(gs[k], i, delay, horde);
    assert |before| == 2 * t;
    PairAfterPrefix(Schedule<G, M, C>(gs, reps, delay, horde), before, Wait(delay), Execute([gs[k]], [], horde, delay));
  }

  /**
   * The same fact indexed by checkpoint alone: checkpoint t belongs to gremlin
   * t / reps, so the waits and the calls alternate, each call preceded by its wait.
   */
  lemma CheckpointAt<G, M, C>(gs: seq<G>, reps: nat, delay: int, horde: C, t: nat)
    requires t < |gs| * reps
    ensures reps > 0 && t / reps < |gs|
    ensures Schedule<G, M, C>(gs, reps, delay, horde)[2 * t] == Wait(delay)
    ensures Schedule<G, M, C>(gs, reps, delay, horde)[2 * t + 1] == Execute([gs[t / reps]], [], horde, delay)
  {
    var k, i := t / reps, t % reps;
    assert t == k * reps + i;
    if k >= |gs| {
      assert false;
    }
    ScheduleAt<G, M, C>(gs, reps, delay, horde, k, i);
  }

  /** The first t checkpoints of a complete run hold exactly t executor calls. */
  lemma {:induction false} CallsOfPrefix<G, M, C>(gs: seq<G>, reps: nat, delay: int, horde: C, t: nat)
    requires t <= |gs| * reps
    ensures Calls(Schedule<G, M, C>(gs, reps, delay, horde)[..2 * t]) == t
  {
    var full := Schedule<G, M, C>(gs, reps, delay, horde);
    if t == 0 {
      assert full[..0] == [];
    } else {
      CallsOfPrefix<G, M, C>(gs, reps, delay, horde, t - 1);
      CheckpointAt<G, M, C>(gs, reps, delay, horde, t - 1);
      PrefixGrows(full, 2 * t - 2);
      PrefixGrows(full, 2 * t - 1);
      CallsSplit(full[..2 * t - 2], [full[2 * t - 2]]);
      CallsSplit(full[..2 * t - 1], [full[2 * t - 1]]);
      assert [full[2 * t - 1]][..0] == [];
    }
  }

  /**
   * One repetition of the run loop, as the loop sees it: with t the checkpoint
   * of repetition i of gremlin k, the first t checkpoints of the complete run
   * grow by a wait and then by the call on gremlin k.
   */
  lemma Step<G, M, C>(gs: seq<G>, reps: nat, delay: int, horde: C, k: nat, i: nat, t: nat)
    requires k < |gs| && i < reps && t == k * reps + i
    ensures t < |gs| * reps
    ensures var full := Schedule<G, M, C>(gs, reps, delay, horde);
      && full[..2 * t] + [Wait(delay)] == full[..2 * t + 1]
      && full[..2 * t + 1] + [Execute([gs[k]], [], horde, delay)] == full[..2 * t + 2]
      && full[..2 * t + 1] <= full && full[..2 * t + 2] <= full
  {
    var full := Schedule<G, M, C>(gs, reps, delay, horde);
    ScheduleAt<G, M, C>(gs, reps, delay, horde, k, i);
    PrefixGrows(full, 2 * t);
    PrefixGrows(full, 2 * t + 1);
  }

  /**
   * A run cut short at checkpoint h: up to and including the wait of h there
   * are h executor calls; up to and including the call of h there are h + 1.
   */
  lemma CallsOfPartialRun<G, M, C>(gs: seq<G>, reps: nat, delay: int, horde: C, h: nat)
    requires h < |gs| * reps
    ensures var full := Schedule<G, M, C>(gs, reps, delay, horde);
      Calls(full[..2 * h + 1]) == h && Calls(full[..2 * h + 2]) == h + 1
  {
    var full := Schedule<G, M, C>(gs, reps, delay, horde);
    CallsOfPrefix<G, M, C>(gs, reps, delay, horde, h);
    CheckpointAt<G, M, C>(gs, reps, delay, horde, h);
    PrefixGrows(full, 2 * h);
    PrefixGrows(full, 2 * h + 1);
    CallsSplit(full[..2 * h], [full[2 * h]]);
    CallsSplit(full[..2 * h + 1], [full[2 * h + 1]]);
    assert [full[2 * h]][..0] == [] && [full[2 * h + 1]][..0] == [];
  }
}
