/** The rebalance engine: pool outflow pacing, execution, capped history and circuit breakers. */
module RebalanceEngine {
  import opened Wrappers
  import opened Integers
  import opened PacingWindows
  import opened Breakers

  datatype EngineError = Paused | TransferFailed

  datatype RebalanceProposal = RebalanceProposal(
    fromPool: Address, toPool: Address, amountA: int, amountB: int, minOutput: int)

  datatype RebalancePacing = RebalancePacing(maxAmountPerWindow: int, windowSeconds: nat)
  {
    predicate Enabled() {
      maxAmountPerWindow > 0 && windowSeconds > 0
    }
  }

  datatype PoolWindowUsage = PoolWindowUsage(windowActive: bool, windowStartedAt: nat, amountMoved: int)

  /** An amount that left a pool in a successful rebalance. */
  datatype Move = Move(pool: Address, amount: int, now: nat)

  type Usages = map<Address, PoolWindowUsage>

  function UsageOf(usages: Usages, pool: Address): PoolWindowUsage {
    if pool in usages then usages[pool] else PoolWindowUsage(false, 0, 0)
  }

  /** A pool's usage as a budget window. */
  function WindowOf(usages: Usages, pacing: RebalancePacing, pool: Address): Window {
    var u := UsageOf(usages, pool);
    Window(u.windowActive, u.windowStartedAt, u.amountMoved, pacing.maxAmountPerWindow)
  }

  /** The pool has a window that is open and not a full length old. */
  predicate LiveAt(usages: Usages, pacing: RebalancePacing, pool: Address, now: nat) {
    && pool in usages && usages[pool].windowActive && pacing.windowSeconds > 0
    && now - usages[pool].windowStartedAt < pacing.windowSeconds
  }

  /** What counts against the pool's budget now. */
  function UsedAt(usages: Usages, pacing: RebalancePacing, pool: Address, now: nat): int {
    if LiveAt(usages, pacing, pool, now) then usages[pool].amountMoved else 0
  }

  /** Admission in numbers: what was moved in the live window and the new amount fit the budget. */
  lemma MoveIsAdmittedExactly(usages: Usages, pacing: RebalancePacing, m: Move)
    ensures MoveAdmitted(usages, pacing, m)
            <==> UsedAt(usages, pacing, m.pool, m.now) + m.amount <= pacing.maxAmountPerWindow
  {
  }

  ghost predicate MoveAdmitted(usages: Usages, pacing: RebalancePacing, m: Move) {
    Admits(WindowOf(usages, pacing, m.pool), pacing.windowSeconds, m.now, pacing.maxAmountPerWindow, m.amount)
  }

  ghost function AfterMove(usages: Usages, pacing: RebalancePacing, m: Move): Usages {
    var w := Charged(WindowOf(usages, pacing, m.pool), pacing.windowSeconds, m.now, pacing.maxAmountPerWindow, m.amount);
    usages[m.pool := PoolWindowUsage(w.open, w.startedAt, w.used)]
  }

  ghost function UsagesAfter(base: Usages, pacing: RebalancePacing, moves: seq<Move>): Usages {
    if moves == [] then base
    else AfterMove(UsagesAfter(base, pacing, moves[..|moves| - 1]), pacing, moves[|moves| - 1])
  }

  /** Each move was positive, made at a time not before the previous one, and within the budget when made. */
  ghost predicate AllAdmitted(base: Usages, pacing: RebalancePacing, moves: seq<Move>, start: nat) {
    moves != [] ==>
      var init, last := moves[..|moves| - 1], moves[|moves| - 1];
      && AllAdmitted(base, pacing, init, start)
      && last.amount > 0 && LastTime(init, start) <= last.now
      && MoveAdmitted(UsagesAfter(base, pacing, init), pacing, last)
  }

  ghost function LastTime(moves: seq<Move>, start: nat): nat {
    if moves == [] then start else moves[|moves| - 1].now
  }

  /** Usages as they can stand at time `start`: nothing opened in the future, nothing negative. */
  ghost predicate PlausibleAt(usages: Usages, start: nat) {
    forall p :: p in usages ==> usages[p].windowStartedAt <= start && usages[p].amountMoved >= 0
  }

  /** What left `pool` at times in the half-open interval. */
  ghost function Outflow(moves: seq<Move>, pool: Address, from: nat, to: nat): int {
    if moves == [] then 0
    else
      var m := moves[|moves| - 1];
      Outflow(moves[..|moves| - 1], pool, from, to) + if m.pool == pool && from <= m.now < to then m.amount else 0
  }

  ghost function PoolLog(base: Usages, pacing: RebalancePacing, moves: seq<Move>, pool: Address): seq<Charge> {
    if moves == [] then []
    else
      var init, m := moves[..|moves| - 1], moves[|moves| - 1];
      PoolLog(base, pacing, init, pool)
      + if m.pool != pool then []
        else [ChargeAt(WindowOf(UsagesAfter(base, pacing, init), pacing, pool), pacing.windowSeconds, m.now,
                       pacing.maxAmountPerWindow, m.amount)]
  }

  lemma AdmittedExtends(base: Usages, pacing: RebalancePacing, moves: seq<Move>, start: nat, m: Move)
    requires AllAdmitted(base, pacing, moves, start) && m.amount > 0 && LastTime(moves, start) <= m.now
    requires MoveAdmitted(UsagesAfter(base, pacing, moves), pacing, m)
    ensures AllAdmitted(base, pacing, moves + [m], start) && LastTime(moves + [m], start) == m.now
    ensures UsagesAfter(base, pacing, moves + [m]) == AfterMove(UsagesAfter(base, pacing, moves), pacing, m)
  {
    assert (moves + [m])[..|moves + [m]| - 1] == moves;
    hide MoveAdmitted, AfterMove;
  }

  lemma AfterMoveIsPlausible(usages: Usages, pacing: RebalancePacing, clock: nat, m: Move)
    requires PlausibleAt(usages, clock) && clock <= m.now && m.amount > 0
    ensures PlausibleAt(AfterMove(usages, pacing, m), m.now)
  {
  }

  lemma LaterIsPlausible(usages: Usages, clock: nat, now: nat)
    requires PlausibleAt(usages, clock) && clock <= now
    ensures PlausibleAt(usages, now)
  {
  }

  /** How one more move extends a pool's charges and window. */
  lemma PoolLogStep(base: Usages, pacing: RebalancePacing, init: seq<Move>, m: Move, pool: Address)
    ensures
      var w, w' := WindowOf(UsagesAfter(base, pacing, init), pacing, pool),
                   WindowOf(UsagesAfter(base, pacing, init + [m]), pacing, pool);
      var log, log' := PoolLog(base, pacing, init, pool), PoolLog(base, pacing, init + [m], pool);
      var length, cap := pacing.windowSeconds, pacing.maxAmountPerWindow;
      if m.pool != pool then w' == w && log' == log
      else w' == Charged(w, length, m.now, cap, m.amount) && log' == log + [ChargeAt(w, length, m.now, cap, m.amount)]
  {
    assert (init + [m])[..|init|] == init;
    assert PoolLog(base, pacing, init, pool) + [] == PoolLog(base, pacing, init, pool);
  }

  lemma {:induction false} PoolLogIsTracked(base: Usages, pacing: RebalancePacing, moves: seq<Move>, start: nat,
                                            pool: Address)
    requires pacing.Enabled() && PlausibleAt(base, start) && AllAdmitted(base, pacing, moves, start)
    ensures Tracks(PoolLog(base, pacing, moves, pool), WindowOf(UsagesAfter(base, pacing, moves), pacing, pool),
                   pacing.windowSeconds, LastTime(moves, start), WindowOf(base, pacing, pool))
  {
    if moves != [] {
      hide Tracks, Charged, ChargeAt, AfterMove, Admits, PoolLog;
      var init, m := moves[..|moves| - 1], moves[|moves| - 1];
      PoolLogIsTracked(base, pacing, init, start, pool);
      assert moves == init + [m];
      PoolLogStep(base, pacing, init, m, pool);
      var log, w := PoolLog(base, pacing, init, pool), WindowOf(UsagesAfter(base, pacing, init), pacing, pool);
      TrackStep(log, w, pacing, LastTime(init, start), m, pool, WindowOf(base, pacing, pool));
    }
  }

  lemma TrackStep(log: seq<Charge>, w: Window, pacing: RebalancePacing, before: nat, m: Move, pool: Address,
                  base: Window)
    requires Tracks(log, w, pacing.windowSeconds, before, base) && pacing.Enabled()
    requires before <= m.now && m.amount > 0
    requires m.pool == pool ==> Admits(w, pacing.windowSeconds, m.now, pacing.maxAmountPerWindow, m.amount)
    ensures
      var length, cap := pacing.windowSeconds, pacing.maxAmountPerWindow;
      if m.pool != pool then Tracks(log, w, length, m.now, base)
      else Tracks(log + [ChargeAt(w, length, m.now, cap, m.amount)], Charged(w, length, m.now, cap, m.amount), length,
                  m.now, base)
  {
    if m.pool == pool {
      ChargeIsTracked(log, w, pacing.windowSeconds, before, m.now, pacing.maxAmountPerWindow, m.amount, base);
    }
  }

  lemma {:induction false} LogSumIsOutflow(base: Usages, pacing: RebalancePacing, moves: seq<Move>, pool: Address,
                                           from: nat, to: nat)
    ensures SumBetween(PoolLog(base, pacing, moves, pool), from, to) == Outflow(moves, pool, from, to)
    ensures forall i :: 0 <= i < |PoolLog(base, pacing, moves, pool)| ==>
              PoolLog(base, pacing, moves, pool)[i].cap == pacing.maxAmountPerWindow
  {
    if moves != [] {
      var init, m := moves[..|moves| - 1], moves[|moves| - 1];
      LogSumIsOutflow(base, pacing, init, pool, from, to);
      var log, log' := PoolLog(base, pacing, init, pool), PoolLog(base, pacing, moves, pool);
      if m.pool == pool {
        assert log'[..|log'| - 1] == log;
      } else {
        assert log' == log;
      }
    }
  }

  /** With the limits fixed, any interval of one window length sees at most twice the budget leave a pool. */
  lemma OutflowBound(base: Usages, pacing: RebalancePacing, moves: seq<Move>, start: nat, pool: Address, from: nat)
    requires pacing.maxAmountPerWindow > 0 && pacing.windowSeconds > 0 && PlausibleAt(base, start) && AllAdmitted(base, pacing, moves, start)
    ensures Outflow(moves, pool, from, from + pacing.windowSeconds) <= 2 * pacing.maxAmountPerWindow
  {
    PoolLogIsTracked(base, pacing, moves, start, pool);
    LogSumIsOutflow(base, pacing, moves, pool, from, from + pacing.windowSeconds);
    IntervalBound(PoolLog(base, pacing, moves, pool), pacing.windowSeconds, from);
  }

  /**
   The recorded usage of an open window is the exact amount moved out of the pool from the time it
   opened on, which are the moves charged to it, and what it had used before when it was already open
   at the start.
   */
  lemma RecordedUsageIsExact(base: Usages, pacing: RebalancePacing, moves: seq<Move>, start: nat, pool: Address)
    requires pacing.maxAmountPerWindow > 0 && pacing.windowSeconds > 0 && PlausibleAt(base, start) && AllAdmitted(base, pacing, moves, start)
    ensures
      var u, u0 := UsageOf(UsagesAfter(base, pacing, moves), pool), UsageOf(base, pool);
      var carried := if u0.windowActive && u0.windowStartedAt == u.windowStartedAt then u0.amountMoved else 0;
      u.windowActive ==>
        && u.amountMoved == Outflow(moves, pool, u.windowStartedAt, LastTime(moves, start) + 1) + carried
        && u.amountMoved == WindowSum(PoolLog(base, pacing, moves, pool), u.windowStartedAt) + carried
  {
    PoolLogIsTracked(base, pacing, moves, start, pool);
    var w := WindowOf(UsagesAfter(base, pacing, moves), pacing, pool);
    if w.open {
      WindowSumIsSinceOpened(PoolLog(base, pacing, moves, pool), w, WindowOf(base, pacing, pool), pacing.windowSeconds,
                             LastTime(moves, start));
      LogSumIsOutflow(base, pacing, moves, pool, w.startedAt, LastTime(moves, start) + 1);
    }
    hide Outflow, PoolLog, UsagesAfter, WindowSum;
  }

  /** No window at all, as for every pool of a new engine. */
  const CLOSED := Window(false, 0, 0, 0)

  /** Every pool's recorded usage is the sum of all its charges ever made to the window now open. */
  ghost predicate AllExact(charges: map<Address, seq<Charge>>, usages: Usages, pacing: RebalancePacing, clock: nat) {
    forall p: Address :: Exact(ChargesOf(charges, p), WindowOf(usages, pacing, p), CLOSED, clock)
  }

  ghost function ChargesOf(charges: map<Address, seq<Charge>>, pool: Address): seq<Charge> {
    if pool in charges then charges[pool] else []
  }

  /** One more charge of a pool, recorded. */
  ghost function ChargesAfter(charges: map<Address, seq<Charge>>, usages: Usages, pacing: RebalancePacing, m: Move)
    : map<Address, seq<Charge>>
  {
    charges[m.pool := ChargesOf(charges, m.pool)
                      + [ChargeAt(WindowOf(usages, pacing, m.pool), pacing.windowSeconds, m.now,
                                  pacing.maxAmountPerWindow, m.amount)]]
  }

  lemma ChargingStaysExact(charges: map<Address, seq<Charge>>, usages: Usages, pacing: RebalancePacing, clock: nat, m: Move)
    requires AllExact(charges, usages, pacing, clock) && pacing.Enabled() && clock <= m.now
    ensures AllExact(ChargesAfter(charges, usages, pacing, m), AfterMove(usages, pacing, m), pacing, m.now)
  {
    hide Charged, ChargeAt;
    var charges', usages' := ChargesAfter(charges, usages, pacing, m), AfterMove(usages, pacing, m);
    forall p: Address ensures Exact(ChargesOf(charges', p), WindowOf(usages', pacing, p), CLOSED, m.now) {
      assert Exact(ChargesOf(charges, p), WindowOf(usages, pacing, p), CLOSED, clock);
      if p == m.pool {
        ChargeStaysExact(ChargesOf(charges, p), WindowOf(usages, pacing, p), CLOSED, pacing.windowSeconds, clock, m.now,
                         pacing.maxAmountPerWindow, m.amount);
        ChargedOpens(WindowOf(usages, pacing, p), pacing.windowSeconds, m.now, pacing.maxAmountPerWindow, m.amount);
        SameButCap(ChargesOf(charges', p), AfterCharge(usages, pacing, m), WindowOf(usages', pacing, p), m.now, m.now);
      } else {
        SameButCap(ChargesOf(charges, p), WindowOf(usages, pacing, p), WindowOf(usages', pacing, p), clock, m.now);
      }
    }
  }

  ghost function AfterCharge(usages: Usages, pacing: RebalancePacing, m: Move): Window {
    Charged(WindowOf(usages, pacing, m.pool), pacing.windowSeconds, m.now, pacing.maxAmountPerWindow, m.amount)
  }

  lemma ChargedOpens(w: Window, length: nat, now: nat, cap: int, amount: int)
    ensures Charged(w, length, now, cap, amount).open
  {
  }

  lemma SameButCap(log: seq<Charge>, w: Window, w': Window, clock: nat, now: nat)
    requires Exact(log, w, CLOSED, clock) && clock <= now && w' == w.(cap := w'.cap)
    ensures Exact(log, w', CLOSED, now)
  {
  }

  /** Neither new limits nor the passing of time touches the record. */
  lemma LimitsKeepExact(charges: map<Address, seq<Charge>>, usages: Usages, before: RebalancePacing, after: RebalancePacing,
                        clock: nat, now: nat)
    requires AllExact(charges, usages, before, clock) && clock <= now
    ensures AllExact(charges, usages, after, now)
  {
    forall p: Address ensures Exact(ChargesOf(charges, p), WindowOf(usages, after, p), CLOSED, now) {
      assert Exact(ChargesOf(charges, p), WindowOf(usages, before, p), CLOSED, clock);
      SameButCap(ChargesOf(charges, p), WindowOf(usages, before, p), WindowOf(usages, after, p), clock, now);
    }
  }

  class RebalanceEngine {
    const admin: Address
    var paused: bool
    var pacing: RebalancePacing
    var usages: Usages
    var history: seq<HistoryEntry>
    var maxSlippageBps: nat
    var cooldownPeriod: nat
    var lastRebalanceTimes: map<Address, nat>
    var excludedFeeds: set<Address>
    var poolThresholds: map<Address, nat>
    var strategyThresholds: map<nat, nat>
    var strategies: map<nat, seq<Address>>

    /** Every entry ever recorded. */
    ghost var log: seq<HistoryEntry>
    /** Usages, time and moves since the pacing limits were last set. */
    ghost var base: Usages
    ghost var baseTime: nat
    ghost var moves: seq<Move>
    /** Every charge ever made to a pool's windows, whatever the limits were. */
    ghost var charges: map<Address, seq<Charge>>
    /** Latest ledger time seen. */
    ghost var clock: nat

    ghost predicate Valid()
      reads this
    {
      && history == Suffix(log, HISTORY_CAPACITY)
      && (forall p :: p in poolThresholds ==> poolThresholds[p] > 0)
      && (forall s :: s in strategyThresholds ==> strategyThresholds[s] > 0)
      && PlausibleAt(base, baseTime)
      && PlausibleAt(usages, clock)
      && LastTime(moves, baseTime) <= clock
      && (pacing.Enabled() ==> AllAdmitted(base, pacing, moves, baseTime))
      && (usages == if pacing.Enabled() then UsagesAfter(base, pacing, moves) else base)
      && AllExact(charges, usages, pacing, clock)
    }

    constructor (admin: Address)
      ensures this.admin == admin && Valid() && history == [] && log == [] && usages == map[] && moves == [] && !pacing.Enabled()
    {
      this.admin := admin;
      paused, pacing, usages, history, maxSlippageBps := false, RebalancePacing(0, 0), map[], [], 50;
      cooldownPeriod, lastRebalanceTimes, excludedFeeds := 86_400, map[], {};
      poolThresholds, strategyThresholds, strategies := map[], map[], map[];
      log, base, baseTime, moves, charges, clock := [], map[], 0, [], map[], 0;
    }

    /** In every reachable state, since the limits were last set. */
    lemma OutflowStaysBounded(pool: Address, from: nat)
      requires Valid() && pacing.maxAmountPerWindow > 0 && pacing.windowSeconds > 0
      ensures Outflow(moves, pool, from, from + pacing.windowSeconds) <= 2 * pacing.maxAmountPerWindow
    {
      OutflowBound(base, pacing, moves, baseTime, pool, from);
    }

    /**
     In every reachable state a pool's recorded usage is the exact sum of all charges to the window
     now open, over the whole life of the engine; and it is what left the pool from the time that
     window opened on, together with what it had used by the last limit change.
     */
    lemma UsageStaysExact(pool: Address)
      requires Valid() && UsageOf(usages, pool).windowActive
      ensures
        var u, u0 := UsageOf(usages, pool), UsageOf(base, pool);
        && u.amountMoved == WindowSum(ChargesOf(charges, pool), u.windowStartedAt)
        && (pacing.Enabled() ==>
              u.amountMoved
              == Outflow(moves, pool, u.windowStartedAt, LastTime(moves, baseTime) + 1)
                 + if u0.windowActive && u0.windowStartedAt == u.windowStartedAt then u0.amountMoved else 0)
    {
      if pacing.Enabled() {
        RecordedUsageIsExact(base, pacing, moves, baseTime, pool);
      }
      assert Exact(ChargesOf(charges, pool), WindowOf(usages, pacing, pool), CLOSED, clock);
    }

    // ---------- pacing ----------

    /** New limits start a new accounting period; open windows carry over. */
    method SetRebalancePacing(caller: Address, maxAmountPerWindow: int, windowSeconds: nat) returns (ok: bool)
      requires Valid()
      modifies this`pacing, this`base, this`baseTime, this`moves
      ensures Valid()
      ensures ok <==> caller == admin && maxAmountPerWindow >= 0 && (maxAmountPerWindow == 0 || windowSeconds > 0)
      ensures ok ==> pacing == RebalancePacing(maxAmountPerWindow, windowSeconds)
      ensures !ok ==> pacing == old(pacing)
    {
      if caller != admin {
        return false;
      }
      if maxAmountPerWindow < 0 || !(maxAmountPerWindow == 0 || windowSeconds > 0) {
        return false;
      }
      LimitsKeepExact(charges, usages, pacing, RebalancePacing(maxAmountPerWindow, windowSeconds), clock, clock);
      pacing := RebalancePacing(maxAmountPerWindow, windowSeconds);
      base, baseTime, moves := usages, clock, [];
      return true;
    }

    method PacingAllows(pool: Address, amount: int, now: nat) returns (allowed: bool)
      ensures allowed <==> pacing.Enabled() ==> MoveAdmitted(usages, pacing, Move(pool, amount, now))
      ensures allowed <==> || pacing.maxAmountPerWindow <= 0 || pacing.windowSeconds == 0
                           || UsedAt(usages, pacing, pool, now) + amount <= pacing.maxAmountPerWindow
    {
      if pacing.maxAmountPerWindow <= 0 || pacing.windowSeconds == 0 {
        return true;
      }
      var usage := UsageOf(usages, pool);
      var used := 0;
      if usage.windowActive && SaturatingSub(now, usage.windowStartedAt) < pacing.windowSeconds {
        used := usage.amountMoved;
      }
      return used + amount <= pacing.maxAmountPerWindow;
    }

    method RecordPacing(pool: Address, amount: int, now: nat)
      modifies this`usages
      ensures usages == if pacing.Enabled() then AfterMove(old(usages), pacing, Move(pool, amount, now)) else old(usages)
      ensures usages == if pacing.maxAmountPerWindow <= 0 || pacing.windowSeconds == 0 then old(usages)
                        else old(usages)[pool := PoolWindowUsage(
                               true, if LiveAt(old(usages), pacing, pool, now) then old(usages)[pool].windowStartedAt else now,
                               UsedAt(old(usages), pacing, pool, now) + amount)]
    {
      if pacing.maxAmountPerWindow <= 0 || pacing.windowSeconds == 0 {
        return;
      }
      var usage := UsageOf(usages, pool);
      if !usage.windowActive || SaturatingSub(now, usage.windowStartedAt) >= pacing.windowSeconds {
        usage := PoolWindowUsage(true, now, 0);
      }
      usage := usage.(amountMoved := usage.amountMoved + amount);
      usages := usages[pool := usage];
    }

    /** Charge an admitted positive move and extend the record of moves. */
    method Charge(pool: Address, amount: int, now: nat)
      requires Valid() && clock <= now && amount > 0
      requires pacing.Enabled() ==> MoveAdmitted(usages, pacing, Move(pool, amount, now))
      modifies this`usages, this`moves, this`charges, this`clock
      ensures Valid() && clock == now
      ensures moves == old(moves) + if pacing.Enabled() then [Move(pool, amount, now)] else []
      ensures charges == if pacing.Enabled()
                         then ChargesAfter(old(charges), old(usages), pacing, Move(pool, amount, now)) else old(charges)
    {
      hide AllExact, ChargesAfter, MoveAdmitted, AfterMove, AllAdmitted, UsagesAfter, PlausibleAt, UsedAt, LiveAt;
      hide LastTime;
      if pacing.Enabled() {
        AdmittedExtends(base, pacing, moves, baseTime, Move(pool, amount, now));
        AfterMoveIsPlausible(usages, pacing, clock, Move(pool, amount, now));
        ChargingStaysExact(charges, usages, pacing, clock, Move(pool, amount, now));
        charges := ChargesAfter(charges, usages, pacing, Move(pool, amount, now));
      } else {
        LimitsKeepExact(charges, usages, pacing, pacing, clock, now);
        LaterIsPlausible(usages, clock, now);
      }
      RecordPacing(pool, amount, now);
      clock := now;
      if pacing.Enabled() {
        moves := moves + [Move(pool, amount, now)];
      }
    }

    method SlippageAllows(proposal: RebalanceProposal) returns (allowed: bool)
      ensures allowed <==> 0 < proposal.minOutput <= proposal.amountB
    {
      if proposal.minOutput <= 0 {
        return false;
      }
      var realised := proposal.amountB;
      if realised < proposal.minOutput {
        return false;
      }
      var quoted := proposal.amountB;
      if quoted <= 0 {
        return false;
      }
      var shortfall := quoted - realised;
      return shortfall * 10_000 / quoted <= maxSlippageBps;
    }

    method AddToHistory(entry: HistoryEntry)
      requires Valid()
      modifies this`history, this`log
      ensures Valid() && log == old(log) + [entry]
      ensures history == if |log| <= 1000 then log else log[|log| - 1000..]
    {
      history := history + [entry];
      log := log + [entry];
      if |history| > HISTORY_CAPACITY {
        var start := |history| - HISTORY_CAPACITY;
        var trimmed := [];
        for i := start to |history|
          invariant trimmed == history[start..i]
        {
          trimmed := trimmed + [history[i]];
        }
        history := trimmed;
      }
    }

    /**
     Execute a proposal. A refusal by pacing or slippage changes nothing; otherwise the attempt is
     recorded, and only a success is charged to the source pool.
     */
    method ExecuteRebalance(proposal: RebalanceProposal, now: nat, transfersSucceed: bool)
      returns (result: Result<bool, EngineError>)
      requires Valid() && clock <= now
      modifies this`usages, this`moves, this`charges, this`clock, this`history, this`log
      ensures Valid()
      ensures result == Failure(Paused) <==> paused
      ensures result.Failure? ==> usages == old(usages) && log == old(log) && moves == old(moves)
      ensures
        var moved := proposal.amountA + proposal.amountB;
        var admitted := moved <= 0 || (pacing.Enabled() ==>
                                         MoveAdmitted(old(usages), pacing, Move(proposal.fromPool, moved, now)));
        var bounded := 0 < proposal.minOutput <= proposal.amountB;
        !paused ==>
          && (result == Failure(TransferFailed) <==> admitted && bounded && proposal.amountA > 0 && !transfersSucceed)
          && (result == Success(true) <==> admitted && bounded && proposal.amountA > 0 && transfersSucceed)
          && (result.Success? ==>
                log == old(log) + if admitted && bounded
                                  then [HistoryEntry(now, proposal.fromPool, proposal.toPool, moved, result.value)]
                                  else [])
      ensures moves == old(moves) + if result == Success(true) && pacing.Enabled()
                                    then [Move(proposal.fromPool, proposal.amountA + proposal.amountB, now)] else []
      ensures result != Success(true) ==> usages == old(usages) && charges == old(charges)
    {
      hide AllExact, AllAdmitted, UsagesAfter, PlausibleAt, MoveAdmitted, LastTime;
      if paused {
        return Failure(Paused);
      }
      var moved := proposal.amountA + proposal.amountB;
      if moved > 0 {
        var allowed := PacingAllows(proposal.fromPool, moved, now);
        if !allowed {
          return Success(false);
        }
      }
      var bounded := SlippageAllows(proposal);
      if !bounded {
        return Success(false);
      }
      var success := false;
      if !(proposal.amountA <= 0 || proposal.amountB <= 0) {
        if !transfersSucceed {
          return Failure(TransferFailed);
        }
        success := true;
        Charge(proposal.fromPool, moved, now);
      }
      AddToHistory(HistoryEntry(now, proposal.fromPool, proposal.toPool, moved, success));
      return Success(success);
    }

    /** A vault is in its cooldown until a full period has passed since its last flash rebalance. */
    predicate InCooldown(vault: Address, now: nat)
      reads this
    {
      vault in lastRebalanceTimes
      && SaturatingSub(cooldownPeriod, SaturatingSub(now, lastRebalanceTimes[vault])) > 0
    }

    /**
     Move `amount` of each token out of the vault's pool and into another in one transaction. Both
     legs count against the source pool's budget; a refusal changes nothing, and two successes of
     one vault are a cooldown apart.
     */
    method ExecuteFlashRebalance(vault: Address, currentPool: Address, targetPool: Address, amount: int, now: nat,
                                 transfersSucceed: bool)
      returns (result: Result<bool, EngineError>)
      requires Valid() && clock <= now
      modifies this`usages, this`moves, this`charges, this`clock, this`lastRebalanceTimes
      ensures Valid()
      ensures result == Failure(Paused) <==> paused
      ensures
        var admitted := && targetPool !in excludedFeeds && amount > 0
                        && (vault in old(lastRebalanceTimes) ==>
                              now - old(lastRebalanceTimes[vault]) >= cooldownPeriod || cooldownPeriod == 0)
                        && (pacing.Enabled() ==>
                              MoveAdmitted(old(usages), pacing, Move(currentPool, 2 * amount, now)));
        !paused ==>
          && (result == Failure(TransferFailed) <==> admitted && !transfersSucceed)
          && (result == Success(true) <==> admitted && transfersSucceed)
      ensures moves == old(moves) + if result == Success(true) && pacing.Enabled()
                                    then [Move(currentPool, 2 * amount, now)] else []
      ensures lastRebalanceTimes == if result == Success(true) then old(lastRebalanceTimes)[vault := now]
                                    else old(lastRebalanceTimes)
      ensures result != Success(true) ==> usages == old(usages) && charges == old(charges)
    {
      if paused {
        return Failure(Paused);
      }
      if targetPool in excludedFeeds || InCooldown(vault, now) {
        return Success(false);
      }
      var moved := amount * 2;
      if moved > 0 {
        var allowed := PacingAllows(currentPool, moved, now);
        if !allowed {
          return Success(false);
        }
      }
      if amount <= 0 {
        return Success(false);
      }
      if !transfersSucceed {
        return Failure(TransferFailed);
      }
      Charge(currentPool, moved, now);
      lastRebalanceTimes := lastRebalanceTimes[vault := now];
      return Success(true);
    }

    // ---------- breakers ----------

    method GetPoolHistory(pool: Address, limit: nat) returns (matching: seq<HistoryEntry>)
      ensures |matching| == Min(limit, |Touching(history, {pool})|)
      ensures forall i :: 0 <= i < |matching| ==>
                matching[i] == Touching(history, {pool})[|Touching(history, {pool})| - 1 - i]
    {
      if limit == 0 {
        return [];
      }
      matching := [];
      ghost var t := Touching(history, {pool});
      var len := |history|;
      assert history[..len] == history;
      for i := 0 to len
        invariant |matching| < limit
        invariant |matching| + |Touching(history[..len - i], {pool})| == |t|
        invariant Touching(history[..len - i], {pool}) == t[..|t| - |matching|]
        invariant forall k :: 0 <= k < |matching| ==> matching[k] == t[|t| - 1 - k]
      {
        var entry := history[len - 1 - i];
        assert history[..len - i][..len - i - 1] == history[..len - i - 1];
        if entry.fromPool == pool || entry.toPool == pool {
          matching := matching + [entry];
          if |matching| >= limit {
            break;
          }
        }
      }
    }

    method IsPoolEmergencyStopTriggered(pool: Address) returns (trips: bool)
      requires Valid()
      ensures trips <==> Trips(history, {pool}, if pool in poolThresholds then poolThresholds[pool] else 3)
    {
      var threshold := PoolThreshold(pool);
      var entries := GetPoolHistory(pool, threshold);
      ghost var t := Touching(history, {pool});
      if |entries| < threshold {
        return false;
      }
      for i := 0 to |entries|
        invariant forall k :: 0 <= k < i ==> !entries[k].success
      {
        if entries[i].success {
          assert t[|t| - 1 - i].success;
          return false;
        }
      }
      assert forall k :: |t| - threshold <= k < |t| ==> t[k] == entries[|t| - 1 - k];
      return true;
    }

    method Belongs(entry: HistoryEntry, allocations: seq<Address>) returns (belongs: bool)
      ensures belongs <==> entry.Touches(PoolsOf(allocations))
    {
      belongs := false;
      for a := 0 to |allocations|
        invariant belongs <==> entry.fromPool in allocations[..a] || entry.toPool in allocations[..a]
      {
        if entry.fromPool == allocations[a] || entry.toPool == allocations[a] {
          return true;
        }
      }
    }

    method IsStrategyBreakerTripped(strategyId: nat) returns (trips: bool)
      requires Valid()
      ensures trips <==>
              && strategyId in strategies
              && Trips(history, PoolsOf(strategies[strategyId]),
                       if strategyId in strategyThresholds then strategyThresholds[strategyId] else 3)
    {
      hide AllExact, AllAdmitted, UsagesAfter, PlausibleAt, LastTime;
      if strategyId !in strategies {
        return false;
      }
      var allocations := strategies[strategyId];
      var threshold := StrategyThreshold(strategyId);
      hide Scanned, Trips, HistoryEntry.Touches;
      ghost var pools := PoolsOf(allocations);
      NothingScanned(history, pools);
      var count := 0;
      var len := |history|;
      for i := 0 to len
        invariant count < threshold && Scanned(history, pools, i, count)
      {
        var entry := history[len - 1 - i];
        var belongs := Belongs(entry, allocations);
        OneMoreScanned(history, pools, i, count);
        if belongs {
          if entry.success {
            SuccessEndsScan(history, pools, i, count, threshold);
            return false;
          }
          count := count + 1;
          if count >= threshold {
            EnoughScanned(history, pools, i + 1, count);
            return true;
          }
        }
      }
      AllScanned(history, pools, count, threshold);
      return false;
    }

    method IsEmergencyStopTriggered() returns (trips: bool)
      requires Valid()
      ensures trips <==> GlobalTrips(log)
      ensures trips <==>
              |log| >= 3 && !log[|log| - 1].success && !log[|log| - 2].success && !log[|log| - 3].success
    {
      GlobalTripIgnoresDropped(log);
      var newest := |history|;
      if newest < EMERGENCY_STOP_WINDOW {
        return false;
      }
      return !history[newest - 1].success && !history[newest - 2].success && !history[newest - 3].success;
    }

    function PoolThreshold(pool: Address): nat
      reads this
    {
      if pool in poolThresholds then poolThresholds[pool] else EMERGENCY_STOP_WINDOW
    }

    function StrategyThreshold(strategyId: nat): nat
      reads this
    {
      if strategyId in strategyThresholds then strategyThresholds[strategyId] else EMERGENCY_STOP_WINDOW
    }

    method SetPoolBreakerThreshold(caller: Address, pool: Address, threshold: nat) returns (ok: bool)
      requires Valid()
      modifies this`poolThresholds
      ensures Valid() && (ok <==> caller == admin && threshold > 0)
      ensures poolThresholds == if ok then old(poolThresholds)[pool := threshold] else old(poolThresholds)
    {
      ok := caller == admin && threshold > 0;
      if ok {
        poolThresholds := poolThresholds[pool := threshold];
      }
    }

    method SetStrategyBreakerThreshold(caller: Address, strategyId: nat, threshold: nat) returns (ok: bool)
      requires Valid()
      modifies this`strategyThresholds
      ensures Valid() && (ok <==> caller == admin && threshold > 0)
      ensures strategyThresholds == if ok then old(strategyThresholds)[strategyId := threshold]
                                    else old(strategyThresholds)
    {
      ok := caller == admin && threshold > 0;
      if ok {
        strategyThresholds := strategyThresholds[strategyId := threshold];
      }
    }
  }
}
