/** Durable exponential backoff: delays, ticks, restarts and what a restart must not change. */
module BackoffRuns {
  import opened Wrappers
  import opened Reals

  /** Delays and clock readings are in milliseconds. */
  datatype BackoffPolicy = BackoffPolicy(
    baseMs: real, maxMs: real, factor: real, startAfterFailures: nat, jitterRatio: real)
  {
    /** What the constructor insists on. */
    predicate Accepted() {
      && baseMs > 0.0 && maxMs >= baseMs && factor >= 1.0 && startAfterFailures >= 1
      && 0.0 <= jitterRatio <= 1.0
    }
  }

  datatype BackoffState = BackoffState(
    consecutiveFailures: nat, nextAttemptAt: real, lastError: Option<string>, updatedAt: real)

  const EMPTY := BackoffState(0, 0.0, None, 0.0)

  function Pow(x: real, n: nat): real {
    if n == 0 then 1.0 else x * Pow(x, n - 1)
  }

  function MinReal(a: real, b: real): real {
    if a <= b then a else b
  }

  function MaxReal(a: real, b: real): real {
    if a <= b then b else a
  }

  /** Rounding to the nearest integer, halves upward. */
  function Round(x: real): int {
    (x + 0.5).Floor
  }

  /** The delay before jitter. */
  function RawDelay(failures: nat, policy: BackoffPolicy): real
    requires failures >= policy.startAfterFailures
  {
    MinReal(policy.maxMs, policy.baseMs * Pow(policy.factor, failures - policy.startAfterFailures))
  }

  function Jittered(raw: real, ratio: real, random: real): real {
    raw * (1.0 - ratio * random)
  }

  /** Delay after a number of consecutive failures; `random` lies in [0, 1). */
  function BackoffDelayMs(failures: nat, policy: BackoffPolicy, random: real): int {
    if failures < policy.startAfterFailures then 0
    else
      var jittered := Jittered(RawDelay(failures, policy), policy.jitterRatio, random);
      if Round(jittered) < 1 then 1 else Round(jittered)
  }

  // ---------- the ceiling ----------

  /** No delay exceeds `maxMs`, whatever the failures and the randomness. */
  ghost predicate CeilingHolds(policy: BackoffPolicy) {
    forall failures: nat, random: real :: 0.0 <= random < 1.0 ==>
      BackoffDelayMs(failures, policy, random) as real <= policy.maxMs
  }

  lemma {:induction false} PowAtLeastOne(x: real, n: nat)
    requires x >= 1.0
    ensures Pow(x, n) >= 1.0
  {
    if n > 0 {
      PowAtLeastOne(x, n - 1);
      ProductAtLeast(x, Pow(x, n - 1));
    }
  }

  lemma ProductAtLeast(x: real, y: real)
    requires x >= 1.0 && y >= 1.0
    ensures x * y >= y
  {
    NonNegativeProduct(x - 1.0, y);
    assert x * y - y == (x - 1.0) * y;
  }

  /** Bernoulli: powers of a factor above one grow at least linearly. */
  lemma {:induction false} PowGrows(x: real, n: nat)
    requires x >= 1.0
    ensures Pow(x, n) >= 1.0 + n as real * (x - 1.0)
  {
    if n > 0 {
      PowGrows(x, n - 1);
      PowAtLeastOne(x, n - 1);
      var p := Pow(x, n - 1);
      NonNegativeProduct(x - 1.0, p - 1.0);
      assert x * p == p + (x - 1.0) + (x - 1.0) * (p - 1.0);
      assert n as real * (x - 1.0) == (n - 1) as real * (x - 1.0) + (x - 1.0);
    }
  }

  lemma RawDelayBounds(failures: nat, policy: BackoffPolicy)
    requires policy.Accepted() && failures >= policy.startAfterFailures
    ensures 0.0 < RawDelay(failures, policy) <= policy.maxMs
    ensures policy.factor == 1.0 ==> RawDelay(failures, policy) == policy.baseMs
  {
    var n := failures - policy.startAfterFailures;
    PowAtLeastOne(policy.factor, n);
    if policy.factor == 1.0 {
      PowOfOne(n);
    }
  }

  lemma {:induction false} PowOfOne(n: nat)
    ensures Pow(1.0, n) == 1.0
  {
    if n > 0 {
      PowOfOne(n - 1);
    }
  }

  /** With a factor above one some number of failures reaches the maximum before jitter. */
  lemma MaximumIsReached(policy: BackoffPolicy) returns (failures: nat)
    requires policy.Accepted() && policy.factor > 1.0
    ensures failures >= policy.startAfterFailures && RawDelay(failures, policy) == policy.maxMs
  {
    var step := PositiveProduct(policy.baseMs, policy.factor - 1.0);
    var n: nat := (policy.maxMs / step).Floor + 1;
    failures := policy.startAfterFailures + n;
    PowGrows(policy.factor, n);
    var p := Pow(policy.factor, n);
    LargeEnough(policy.maxMs, step, n);
    BaseTimesPow(policy.baseMs, policy.factor, n, p);
  }

  lemma LargeEnough(max: real, step: real, n: nat)
    requires step > 0.0 && max > 0.0 && n as real >= max / step
    ensures n as real * step >= max
  {
    var q := max / step;
    assert q * step == max;
    assert n as real * step - q * step == (n as real - q) * step;
  }

  lemma BaseTimesPow(base: real, factor: real, n: nat, p: real)
    requires base > 0.0 && p >= 1.0 + n as real * (factor - 1.0)
    ensures base * p >= n as real * (base * (factor - 1.0))
  {
    var lower := 1.0 + n as real * (factor - 1.0);
    assert base * p - base * lower == base * (p - lower);
    assert base * lower == base + n as real * (base * (factor - 1.0));
  }

  /** The largest delay before jitter and rounding: the base when the factor is one, else the maximum. */
  function LargestRaw(policy: BackoffPolicy): real {
    if policy.factor == 1.0 then policy.baseMs else policy.maxMs
  }

  /** Rounding up half a millisecond past the maximum is the one way to break the ceiling. */
  predicate RoundsWithinMax(policy: BackoffPolicy) {
    policy.maxMs >= 1.0 && Round(LargestRaw(policy)) as real <= policy.maxMs
  }

  lemma JitterOnlyShortens(raw: real, ratio: real, random: real)
    requires 0.0 <= raw && 0.0 <= ratio <= 1.0 && 0.0 <= random < 1.0
    ensures 0.0 <= Jittered(raw, ratio, random) <= raw
    ensures random == 0.0 ==> Jittered(raw, ratio, random) == raw
  {
    var cut := ratio * random;
    NonNegativeProduct(ratio, random);
    NonNegativeProduct(1.0 - ratio, random);
    assert random - cut == (1.0 - ratio) * random;
    NonNegativeProduct(raw, cut);
    NonNegativeProduct(raw, 1.0 - cut);
    assert raw - raw * (1.0 - cut) == raw * cut;
  }

  lemma RawAtMostLargest(failures: nat, policy: BackoffPolicy)
    requires policy.Accepted() && failures >= policy.startAfterFailures
    ensures 0.0 < RawDelay(failures, policy) <= LargestRaw(policy)
  {
    RawDelayBounds(failures, policy);
  }

  /** Some number of failures reaches the largest raw delay. */
  lemma LargestIsReached(policy: BackoffPolicy) returns (failures: nat)
    requires policy.Accepted()
    ensures failures >= policy.startAfterFailures && RawDelay(failures, policy) == LargestRaw(policy)
  {
    failures := policy.startAfterFailures;
    RawDelayBounds(failures, policy);
    if policy.factor > 1.0 {
      failures := MaximumIsReached(policy);
    }
  }

  lemma CeilingNeedsRounding(policy: BackoffPolicy)
    requires policy.Accepted() && CeilingHolds(policy)
    ensures RoundsWithinMax(policy)
  {
    var failures := LargestIsReached(policy);
    JitterOnlyShortens(LargestRaw(policy), policy.jitterRatio, 0.0) by { RawDelayBounds(failures, policy); }
    hide RawDelay, Jittered;
    assert BackoffDelayMs(failures, policy, 0.0) as real <= policy.maxMs;
  }

  lemma WholeMaximumRoundsWithin(policy: BackoffPolicy)
    requires policy.Accepted() && policy.maxMs >= 1.0 && policy.maxMs.Floor as real == policy.maxMs
    ensures RoundsWithinMax(policy)
  {
    RoundIsMonotone(LargestRaw(policy), policy.maxMs);
    RoundOfWhole(policy.maxMs.Floor);
    hide Round;
  }

  lemma RoundOfWhole(n: int)
    ensures Round(n as real) == n
  {
  }

  /**
   The documented hard ceiling holds exactly for policies whose largest raw delay does not round
   above the maximum; every whole-millisecond maximum of at least one qualifies.
   */
  lemma CeilingHoldsExactly(policy: BackoffPolicy)
    requires policy.Accepted()
    ensures CeilingHolds(policy) <==> RoundsWithinMax(policy)
    ensures policy.maxMs >= 1.0 && policy.maxMs.Floor as real == policy.maxMs ==> CeilingHolds(policy)
  {
    hide BackoffDelayMs;
    if policy.maxMs >= 1.0 && policy.maxMs.Floor as real == policy.maxMs {
      WholeMaximumRoundsWithin(policy);
    }
    if RoundsWithinMax(policy) {
      forall failures: nat, random: real | 0.0 <= random < 1.0
        ensures BackoffDelayMs(failures, policy, random) as real <= policy.maxMs
      {
        DelayWithinMax(failures, policy, random);
      }
    }
    if CeilingHolds(policy) {
      CeilingNeedsRounding(policy);
    }
  }

  lemma DelayWithinMax(failures: nat, policy: BackoffPolicy, random: real)
    requires policy.Accepted() && RoundsWithinMax(policy) && 0.0 <= random < 1.0
    ensures 0 <= BackoffDelayMs(failures, policy, random)
    ensures BackoffDelayMs(failures, policy, random) as real <= policy.maxMs
    ensures failures >= policy.startAfterFailures ==> BackoffDelayMs(failures, policy, random) >= 1
  {
    hide RawDelay, Jittered;
    if failures >= policy.startAfterFailures {
      RawAtMostLargest(failures, policy);
      JitterOnlyShortens(RawDelay(failures, policy), policy.jitterRatio, random);
      RoundIsMonotone(Jittered(RawDelay(failures, policy), policy.jitterRatio, random), LargestRaw(policy));
    }
  }

  lemma {:induction false} PowIsMonotone(x: real, m: nat, n: nat)
    requires x >= 1.0 && m <= n
    ensures Pow(x, m) <= Pow(x, n)
    decreases n
  {
    if m < n {
      PowIsMonotone(x, m, n - 1);
      PowAtLeastOne(x, n - 1);
      ProductAtLeast(x, Pow(x, n - 1));
    }
  }

  /** With the same randomness more failures never wait less, and only too few failures do not wait at all. */
  lemma DelayGrows(failures1: nat, failures2: nat, policy: BackoffPolicy, random: real)
    requires policy.Accepted() && failures1 <= failures2 && 0.0 <= random < 1.0
    ensures BackoffDelayMs(failures1, policy, random) <= BackoffDelayMs(failures2, policy, random)
    ensures BackoffDelayMs(failures1, policy, random) == 0 <==> failures1 < policy.startAfterFailures
  {
    if failures1 >= policy.startAfterFailures {
      var p1 := Pow(policy.factor, failures1 - policy.startAfterFailures);
      var p2 := Pow(policy.factor, failures2 - policy.startAfterFailures);
      PowIsMonotone(policy.factor, failures1 - policy.startAfterFailures, failures2 - policy.startAfterFailures);
      NonNegativeProduct(policy.baseMs, p2 - p1);
      assert policy.baseMs * p2 - policy.baseMs * p1 == policy.baseMs * (p2 - p1);
      RawDelayBounds(failures1, policy);
      var raw1, raw2 := RawDelay(failures1, policy), RawDelay(failures2, policy);
      JitterKeepsOrder(raw1, raw2, policy.jitterRatio, random);
      RoundIsMonotone(Jittered(raw1, policy.jitterRatio, random), Jittered(raw2, policy.jitterRatio, random));
      hide RawDelay, Jittered, Round;
    }
  }

  /** A delay that starts at the base and grows by the factor with every step, before cap and jitter. */
  ghost predicate Grows(policy: BackoffPolicy, delays: seq<real>) {
    && delays != [] && delays[0] == policy.baseMs
    && forall i :: 0 < i < |delays| ==> delays[i] == policy.factor * delays[i - 1]
  }

  lemma {:induction false} GrowthIsPower(policy: BackoffPolicy, delays: seq<real>, n: nat)
    requires Grows(policy, delays) && n < |delays|
    ensures delays[n] == policy.baseMs * Pow(policy.factor, n)
  {
    if n > 0 {
      GrowthIsPower(policy, delays, n - 1);
      var p := Pow(policy.factor, n - 1);
      assert policy.factor * (policy.baseMs * p) == policy.baseMs * (policy.factor * p);
    }
  }

  /**
   The delay is the grown one, capped at `maxMs` and cut by at most the jitter's share, to the nearest
   millisecond and never less than one. `delays` grows once per failure from the first that backs off.
   */
  lemma DelayIsGrown(failures: nat, policy: BackoffPolicy, random: real, delays: seq<real>)
    requires failures >= policy.startAfterFailures && Grows(policy, delays)
    requires |delays| == failures - policy.startAfterFailures + 1
    ensures
      var grown := delays[failures - policy.startAfterFailures];
      var exact := (if grown <= policy.maxMs then grown else policy.maxMs) * (1.0 - policy.jitterRatio * random);
      var delay := BackoffDelayMs(failures, policy, random);
      && delay >= 1
      && ((delay == 1 && exact < 0.5) || exact - 0.5 < delay as real <= exact + 0.5)
  {
    GrowthIsPower(policy, delays, failures - policy.startAfterFailures);
    var raw := RawDelay(failures, policy);
    RoundIsNearest(Jittered(raw, policy.jitterRatio, random));
    hide Pow, Round;
  }

  lemma RoundIsNearest(x: real)
    ensures x - 0.5 < Round(x) as real <= x + 0.5
  {
  }

  lemma JitterKeepsOrder(raw1: real, raw2: real, ratio: real, random: real)
    requires raw1 <= raw2 && 0.0 <= ratio <= 1.0 && 0.0 <= random < 1.0
    ensures Jittered(raw1, ratio, random) <= Jittered(raw2, ratio, random)
  {
    var cut := ratio * random;
    NonNegativeProduct(1.0 - ratio, random);
    assert random - cut == (1.0 - ratio) * random;
    NonNegativeProduct(raw2 - raw1, 1.0 - cut);
    assert raw2 * (1.0 - cut) - raw1 * (1.0 - cut) == (raw2 - raw1) * (1.0 - cut);
  }

  lemma RoundIsMonotone(a: real, b: real)
    requires a <= b
    ensures Round(a) <= Round(b)
  {
  }

  /** A maximum with half a millisecond breaks the ceiling at once. */
  lemma HalfMillisecondBreaksCeiling(policy: BackoffPolicy)
    requires policy == BackoffPolicy(1.5, 1.5, 2.0, 1, 0.0)
    ensures policy.Accepted() && BackoffDelayMs(1, policy, 0.0) == 2
  {
    assert RawDelay(1, policy) == 1.5 by { assert Pow(2.0, 0) == 1.0; }
  }

  // ---------- ticks and restarts ----------

  /** A keeper process and its store; `loaded` says that the process has restored its state. */
  datatype Keeper = Keeper(state: BackoffState, loaded: bool, saved: Option<BackoffState>)

  datatype Task = Succeeds | Fails(message: string)

  datatype TickResult = Skipped(waitMs: real) | Ran | RanAndFailed(delayMs: int)

  /** The three clock readings of one tick, its task and its randomness. */
  datatype TickInput = TickInput(initAt: real, checkAt: real, recordAt: real, task: Task, random: real)

  /** Restore the saved state once, capping a wait that lies too far in the future. */
  function Init(policy: BackoffPolicy, k: Keeper, now: real): Keeper {
    if k.loaded then k
    else
      match k.saved
      case None => k.(loaded := true)
      case Some(s) =>
        k.(loaded := true,
           state := s.(nextAttemptAt := MaxReal(0.0, MinReal(s.nextAttemptAt, now + policy.maxMs))))
  }

  function RecordSuccess(k: Keeper, now: real): Keeper {
    if k.state.consecutiveFailures == 0 && k.state.nextAttemptAt == 0.0 then k
    else
      var s := BackoffState(0, 0.0, None, now);
      k.(state := s, saved := Some(s))
  }

  function FailedState(policy: BackoffPolicy, s: BackoffState, now: real, message: string, random: real): BackoffState {
    var failures := s.consecutiveFailures + 1;
    var delay := BackoffDelayMs(failures, policy, random);
    BackoffState(failures, if delay > 0 then now + delay as real else 0.0,
                 Some(if |message| > 300 then message[..300] else message), now)
  }

  function Tick(policy: BackoffPolicy, k: Keeper, t: TickInput): (Keeper, TickResult) {
    var r := Init(policy, k, t.initAt);
    var wait := MaxReal(0.0, r.state.nextAttemptAt - t.checkAt);
    if wait > 0.0 then (r, Skipped(wait))
    else
      match t.task
      case Succeeds => (RecordSuccess(r, t.recordAt), Ran)
      case Fails(message) =>
        var s := FailedState(policy, r.state, t.recordAt, message, t.random);
        (r.(state := s, saved := Some(s)),
         RanAndFailed(BackoffDelayMs(r.state.consecutiveFailures + 1, policy, t.random)))
  }

  /** A new process on the same store. */
  function Restart(k: Keeper): Keeper {
    Keeper(EMPTY, false, k.saved)
  }

  datatype Op = TickOp(input: TickInput) | RestartOp

  function Apply(policy: BackoffPolicy, k: Keeper, op: Op): Keeper {
    match op
    case TickOp(t) => Tick(policy, k, t).0
    case RestartOp => Restart(k)
  }

  function Run(policy: BackoffPolicy, k: Keeper, ops: seq<Op>): Keeper {
    if ops == [] then k else Apply(policy, Run(policy, k, ops[..|ops| - 1]), ops[|ops| - 1])
  }

  /** What the ticks of a run reported, in order. */
  function Results(policy: BackoffPolicy, k: Keeper, ops: seq<Op>): seq<TickResult> {
    if ops == [] then []
    else
      var init, last := ops[..|ops| - 1], ops[|ops| - 1];
      Results(policy, k, init)
      + if last.TickOp? then [Tick(policy, Run(policy, k, init), last.input).1] else []
  }

  function WithoutRestarts(ops: seq<Op>): seq<Op> {
    if ops == [] then []
    else WithoutRestarts(ops[..|ops| - 1]) + if ops[|ops| - 1].RestartOp? then [] else [ops[|ops| - 1]]
  }

  /** The state a tick of this process acts on, once restored. */
  function Current(k: Keeper): BackoffState {
    if k.loaded then k.state else if k.saved.Some? then k.saved.value else EMPTY
  }

  /** The clock of a run never goes back. */
  ghost predicate ClockForward(ops: seq<Op>, start: real) {
    ops != [] ==>
      var init, last := ops[..|ops| - 1], ops[|ops| - 1];
      && ClockForward(init, start)
      && (last.TickOp? ==>
            && Clock(init, start) <= last.input.initAt <= last.input.checkAt <= last.input.recordAt
            && 0.0 <= last.input.random < 1.0)
  }

  ghost function Clock(ops: seq<Op>, start: real): real {
    if ops == [] then start
    else if ops[|ops| - 1].TickOp? then ops[|ops| - 1].input.recordAt
    else Clock(ops[..|ops| - 1], start)
  }

  /**
   Memory and store agree, and no stored wait reaches further than one maximum past `clock`: what a
   run with working saves keeps.
   */
  ghost predicate Durable(policy: BackoffPolicy, k: Keeper, clock: real) {
    && clock >= 0.0
    && (k.loaded || k.state == EMPTY)
    && (k.loaded ==> k.state == if k.saved.Some? then k.saved.value else EMPTY)
    && 0.0 <= Current(k).nextAttemptAt <= clock + policy.maxMs
  }

  lemma RestoreIsFaithful(policy: BackoffPolicy, k: Keeper, clock: real, now: real)
    requires policy.Accepted() && Durable(policy, k, clock) && clock <= now
    ensures Init(policy, k, now).state == Current(k)
    ensures Init(policy, k, now).saved == k.saved
  {
  }

  lemma TickStaysDurable(policy: BackoffPolicy, k: Keeper, clock: real, t: TickInput)
    requires policy.Accepted() && CeilingHolds(policy) && Durable(policy, k, clock)
    requires clock <= t.initAt <= t.checkAt <= t.recordAt && 0.0 <= t.random < 1.0
    ensures Durable(policy, Tick(policy, k, t).0, t.recordAt)
  {
    RestoreIsFaithful(policy, k, clock, t.initAt);
    var failures := Current(k).consecutiveFailures + 1;
    assert BackoffDelayMs(failures, policy, t.random) as real <= policy.maxMs;
  }

  /** A tick depends on the process only through the state it acts on. */
  lemma TickSeesCurrent(policy: BackoffPolicy, k1: Keeper, k2: Keeper, clock: real, t: TickInput)
    requires policy.Accepted() && CeilingHolds(policy)
    requires Durable(policy, k1, clock) && Durable(policy, k2, clock) && Current(k1) == Current(k2)
    requires clock <= t.initAt <= t.checkAt <= t.recordAt && 0.0 <= t.random < 1.0
    ensures Tick(policy, k1, t).1 == Tick(policy, k2, t).1
    ensures Current(Tick(policy, k1, t).0) == Current(Tick(policy, k2, t).0)
  {
    RestoreIsFaithful(policy, k1, clock, t.initAt);
    RestoreIsFaithful(policy, k2, clock, t.initAt);
  }

  lemma {:induction false} RunStaysDurable(policy: BackoffPolicy, k: Keeper, start: real, ops: seq<Op>)
    requires policy.Accepted() && CeilingHolds(policy) && Durable(policy, k, start) && ClockForward(ops, start)
    ensures Durable(policy, Run(policy, k, ops), Clock(ops, start))
  {
    if ops != [] {
      var init, last := ops[..|ops| - 1], ops[|ops| - 1];
      RunStaysDurable(policy, k, start, init);
      if last.TickOp? {
        TickStaysDurable(policy, Run(policy, k, init), Clock(init, start), last.input);
      }
    }
  }

  lemma {:induction false} ClockWithoutRestarts(ops: seq<Op>, start: real)
    requires ClockForward(ops, start)
    ensures ClockForward(WithoutRestarts(ops), start)
    ensures Clock(WithoutRestarts(ops), start) == Clock(ops, start)
  {
    if ops != [] {
      var init, last := ops[..|ops| - 1], ops[|ops| - 1];
      ClockWithoutRestarts(init, start);
      var w := WithoutRestarts(ops);
      if last.TickOp? {
        assert w[..|w| - 1] == WithoutRestarts(init);
      } else {
        assert w == WithoutRestarts(init);
      }
    }
  }

  /** Restarts between ticks change neither what any tick reports nor the state that remains. */
  lemma {:induction false} RestartsAreInvisible(policy: BackoffPolicy, k: Keeper, start: real, ops: seq<Op>)
    requires policy.Accepted() && CeilingHolds(policy) && Durable(policy, k, start) && ClockForward(ops, start)
    ensures Results(policy, k, ops) == Results(policy, k, WithoutRestarts(ops))
    ensures Current(Run(policy, k, ops)) == Current(Run(policy, k, WithoutRestarts(ops)))
  {
    if ops != [] {
      var init, last := ops[..|ops| - 1], ops[|ops| - 1];
      RestartsAreInvisible(policy, k, start, init);
      RunStaysDurable(policy, k, start, init);
      ClockWithoutRestarts(init, start);
      RunStaysDurable(policy, k, start, WithoutRestarts(init));
      var w := WithoutRestarts(ops);
      if last.TickOp? {
        assert w[..|w| - 1] == WithoutRestarts(init);
        TickSeesCurrent(policy, Run(policy, k, init), Run(policy, k, WithoutRestarts(init)), Clock(init, start),
                        last.input);
      } else {
        assert w == WithoutRestarts(init);
        assert Results(policy, k, ops) == Results(policy, k, init);
      }
    }
  }

  // ---------- spacing ----------

  /** The tick at position `i` reported this. */
  ghost function ResultAt(policy: BackoffPolicy, k: Keeper, ops: seq<Op>, i: nat): TickResult
    requires i < |ops| && ops[i].TickOp?
  {
    Tick(policy, Run(policy, k, ops[..i]), ops[i].input).1
  }

  ghost predicate RanAt(policy: BackoffPolicy, k: Keeper, ops: seq<Op>, i: nat) {
    i < |ops| && ops[i].TickOp? && !ResultAt(policy, k, ops, i).Skipped?
  }

  lemma {:induction false} ClockOfPrefix(ops: seq<Op>, start: real, i: nat)
    requires ClockForward(ops, start) && i <= |ops|
    ensures ClockForward(ops[..i], start) && Clock(ops[..i], start) <= Clock(ops, start)
    ensures i < |ops| && ops[i].TickOp? ==>
              Clock(ops[..i], start) <= ops[i].input.initAt <= ops[i].input.checkAt <= ops[i].input.recordAt
              && 0.0 <= ops[i].input.random < 1.0 && ops[i].input.recordAt <= Clock(ops, start)
    decreases |ops|
  {
    if i < |ops| {
      var init := ops[..|ops| - 1];
      assert init[..i] == ops[..i];
      if i < |init| {
        ClockOfPrefix(init, start, i);
      }
    } else {
      assert ops[..i] == ops;
    }
  }

  /** From a backing-off failure on, no tick runs before its wait is over. */
  lemma {:induction false} WaitIsHonoured(policy: BackoffPolicy, k: Keeper, start: real, ops: seq<Op>, i: nat, j: nat)
    requires policy.Accepted() && CeilingHolds(policy) && Durable(policy, k, start) && ClockForward(ops, start)
    requires i < j <= |ops| && RanAt(policy, k, ops, i) && ResultAt(policy, k, ops, i).RanAndFailed?
    requires ResultAt(policy, k, ops, i).delayMs > 0
    ensures
      var due := ops[i].input.recordAt + ResultAt(policy, k, ops, i).delayMs as real;
      Clock(ops[..j], start) >= due || Current(Run(policy, k, ops[..j])).nextAttemptAt == due
    decreases j
  {
    var due := ops[i].input.recordAt + ResultAt(policy, k, ops, i).delayMs as real;
    var n := j - 1;
    assert ops[..j][..n] == ops[..n];
    ClockOfPrefix(ops, start, n);
    ClockOfPrefix(ops, start, j);
    RunStaysDurable(policy, k, start, ops[..n]);
    var before := Run(policy, k, ops[..n]);
    if ops[n].TickOp? {
      RestoreIsFaithful(policy, before, Clock(ops[..n], start), ops[n].input.initAt);
    }
    if n > i {
      WaitIsHonoured(policy, k, start, ops, i, n);
    }
  }

  /** Two ticks that ran, with a backing-off failure at the first, are at least its delay apart. */
  lemma ExecutedTicksAreSpaced(policy: BackoffPolicy, k: Keeper, start: real, ops: seq<Op>, i: nat, j: nat)
    requires policy.Accepted() && CeilingHolds(policy) && Durable(policy, k, start) && ClockForward(ops, start)
    requires i < j && RanAt(policy, k, ops, i) && RanAt(policy, k, ops, j)
    requires ResultAt(policy, k, ops, i).RanAndFailed?
    ensures ops[j].input.checkAt >= ops[i].input.recordAt + ResultAt(policy, k, ops, i).delayMs as real
  {
    ClockOfPrefix(ops, start, j);
    ClockOfPrefix(ops[..j], start, i);
    assert ops[..j][..i] == ops[..i];
    RunStaysDurable(policy, k, start, ops[..j]);
    RestoreIsFaithful(policy, Run(policy, k, ops[..j]), Clock(ops[..j], start), ops[j].input.initAt);
    if ResultAt(policy, k, ops, i).delayMs > 0 {
      WaitIsHonoured(policy, k, start, ops, i, j);
    }
  }

  // ---------- counting failures ----------

  /** Failures reported since the last success; skipped ticks do not count. */
  function FailuresInARow(results: seq<TickResult>): nat {
    if results == [] then 0
    else
      var init, last := results[..|results| - 1], results[|results| - 1];
      if last.Ran? then 0 else FailuresInARow(init) + if last.RanAndFailed? then 1 else 0
  }

  /** What one tick does to the state in force, for a process and store that agree. */
  lemma TickIsExact(policy: BackoffPolicy, k: Keeper, clock: real, t: TickInput)
    requires policy.Accepted() && Durable(policy, k, clock) && clock <= t.initAt
    ensures
      var (k', result), before := Tick(policy, k, t), Current(k);
      var after := Current(k');
      && (result.Skipped? <==> before.nextAttemptAt > t.checkAt)
      && (result.Skipped? ==> result.waitMs == before.nextAttemptAt - t.checkAt && after == before)
      && (!result.Skipped? ==> (result.Ran? <==> t.task.Succeeds?))
      && (result.Ran? ==>
            && after.consecutiveFailures == 0 && after.nextAttemptAt == 0.0
            && (after == before || (after.lastError == None && after.updatedAt == t.recordAt)))
      && (result.RanAndFailed? ==>
            && after.consecutiveFailures == before.consecutiveFailures + 1 && after.updatedAt == t.recordAt
            && t.task.Fails? && after.lastError.Some? && after.lastError.value <= t.task.message
            && |after.lastError.value| == (if |t.task.message| > 300 then 300 else |t.task.message|)
            && result.delayMs == BackoffDelayMs(before.consecutiveFailures + 1, policy, t.random)
            && after.nextAttemptAt == if result.delayMs > 0 then t.recordAt + result.delayMs as real else 0.0)
      && (!result.Skipped? && after != before ==> k'.saved == Some(after))
  {
    RestoreIsFaithful(policy, k, clock, t.initAt);
    hide BackoffDelayMs;
  }

  /** Over any run with working saves, restarts included, the state counts exactly the failures in a row. */
  lemma {:induction false} FailuresAreCounted(policy: BackoffPolicy, k: Keeper, start: real, ops: seq<Op>)
    requires policy.Accepted() && CeilingHolds(policy) && Durable(policy, k, start) && ClockForward(ops, start)
    requires Current(k).consecutiveFailures == 0
    ensures Current(Run(policy, k, ops)).consecutiveFailures == FailuresInARow(Results(policy, k, ops))
  {
    if ops != [] {
      hide Tick, Durable, CeilingHolds, Current;
      var init, last := ops[..|ops| - 1], ops[|ops| - 1];
      FailuresAreCounted(policy, k, start, init);
      RunStaysDurable(policy, k, start, init);
      var before := Run(policy, k, init);
      if last.TickOp? {
        TickIsExact(policy, before, Clock(init, start), last.input);
        var results := Results(policy, k, ops);
        assert results[..|results| - 1] == Results(policy, k, init);
      } else {
        RestartKeepsCurrent(policy, before, Clock(init, start));
        assert Results(policy, k, ops) == Results(policy, k, init);
      }
    }
  }

  lemma RestartKeepsCurrent(policy: BackoffPolicy, k: Keeper, clock: real)
    requires Durable(policy, k, clock)
    ensures Current(Restart(k)) == Current(k)
  {
  }

  /** The n-th failure in a row waits the n-th delay. */
  lemma NthFailureWaitsNthDelay(policy: BackoffPolicy, k: Keeper, start: real, ops: seq<Op>)
    requires policy.Accepted() && CeilingHolds(policy) && Durable(policy, k, start) && ClockForward(ops, start)
    requires Current(k).consecutiveFailures == 0
    requires ops != [] && ops[|ops| - 1].TickOp?
    requires Tick(policy, Run(policy, k, ops[..|ops| - 1]), ops[|ops| - 1].input).1.RanAndFailed?
    ensures
      var n := FailuresInARow(Results(policy, k, ops));
      Tick(policy, Run(policy, k, ops[..|ops| - 1]), ops[|ops| - 1].input).1.delayMs
      == BackoffDelayMs(n, policy, ops[|ops| - 1].input.random)
  {
    hide Tick, Durable, CeilingHolds, Current, BackoffDelayMs;
    var init, last := ops[..|ops| - 1], ops[|ops| - 1];
    RunStaysDurable(policy, k, start, init);
    FailuresAreCounted(policy, k, start, init);
    TickIsExact(policy, Run(policy, k, init), Clock(init, start), last.input);
    var results := Results(policy, k, ops);
    assert results[..|results| - 1] == Results(policy, k, init);
  }

  /** A skipped tick changes neither the state in force nor the store. */
  lemma SkippedTickChangesNothing(policy: BackoffPolicy, k: Keeper, clock: real, t: TickInput)
    requires policy.Accepted() && Durable(policy, k, clock) && clock <= t.initAt
    requires Tick(policy, k, t).1.Skipped?
    ensures Current(Tick(policy, k, t).0) == Current(k) && Tick(policy, k, t).0.saved == k.saved
  {
    RestoreIsFaithful(policy, k, clock, t.initAt);
  }
}
