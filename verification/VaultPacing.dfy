/** Withdrawal pacing over whole runs of the vault, for one user and for the vault as a whole. */
module VaultPacing {
  import opened Wrappers
  import opened Integers
  import opened TokenLedger
  import opened PacingWindows
  import opened VaultState

  /** Whose withdrawals are measured. */
  datatype Party = User(user: Address) | Everyone

  function Bps(pacing: WithdrawPacing, party: Party): nat {
    if party.User? then pacing.userMaxBps else pacing.vaultMaxBps
  }

  /** Withdrawals are paced as soon as there is a window and one of the two limits. */
  predicate Limited(pacing: WithdrawPacing) {
    pacing.windowSeconds > 0 && (pacing.userMaxBps > 0 || pacing.vaultMaxBps > 0)
  }

  function Recorded(v: Vault, party: Party): WithdrawWindow {
    if party.User? then v.gate.UserWindow(party.user) else v.gate.vaultWindow
  }

  /** Shares the party holds now. */
  function Held(v: Vault, party: Party): int {
    if party.User? then v.book.Position(party.user).shares else v.book.totalShares
  }

  function Measures(party: Party, call: Call): bool {
    call.WithdrawCall? && (party.User? ==> call.user == party.user)
  }

  /** A recorded window as a budget window: open once it has starting shares, capped by their allowance. */
  function AsWindow(w: WithdrawWindow, bps: nat): Window {
    Window(w.windowStartShares != 0, w.windowStartedAt, w.sharesWithdrawn, Allowance(w.windowStartShares, bps))
  }

  function WindowOf(v: Vault, party: Party): Window {
    AsWindow(Recorded(v, party), Bps(v.gate.pacing, party))
  }

  /** The cap of a window that opens now. */
  function FreshCap(v: Vault, party: Party): int {
    Allowance(Held(v, party), Bps(v.gate.pacing, party))
  }

  // ---------- one step ----------

  /** Only successful withdrawals and limit changes touch the pacing state. */
  lemma GateAfterStep(v: Vault, t: Timed)
    ensures t.call.WithdrawCall? && Perform(v, t).Success? ==>
              var p := v.book.Position(t.call.user).shares;
              && 0 < t.call.shares <= p && v.book.totalShares > 0
              && ConsumePacing(v.gate, t.call.user, t.call.shares, p, v.book.totalShares, t.now)
                 == Some(Step(v, t).gate)
    ensures t.call.SetPacingCall? ==> Step(v, t).gate == v.gate.(pacing := Step(v, t).gate.pacing)
    ensures !t.call.SetPacingCall? && !(t.call.WithdrawCall? && Perform(v, t).Success?) ==> Step(v, t).gate == v.gate
  {
    hide Redeem, MintedShares, ConsumePacing, PayOut, Transfer, TransferPositive;
  }

  /** A successful withdrawal charges the windows it is measured by, within the allowances that are limited. */
  lemma WithdrawalCharges(v: Vault, t: Timed, party: Party)
    requires t.call.WithdrawCall? && Perform(v, t).Success? && Limited(v.gate.pacing)
    ensures Step(v, t).gate.pacing == v.gate.pacing && t.call.shares > 0
    ensures Measures(party, t.call) ==>
              && Held(v, party) > 0
              && (Bps(v.gate.pacing, party) > 0 ==>
                    Admits(WindowOf(v, party), v.gate.pacing.windowSeconds, t.now, FreshCap(v, party), t.call.shares))
              && WindowOf(Step(v, t), party)
                 == Charged(WindowOf(v, party), v.gate.pacing.windowSeconds, t.now, FreshCap(v, party), t.call.shares)
              && Recorded(Step(v, t), party).windowStartShares
                 == if Expired(WindowOf(v, party), v.gate.pacing.windowSeconds, t.now) then Held(v, party)
                    else Recorded(v, party).windowStartShares
    ensures !Measures(party, t.call) ==> Recorded(Step(v, t), party) == Recorded(v, party)
  {
    GateAfterStep(v, t);
    hide Perform, Step, Allowance;
  }

  /** The allowance is rounded up: never nothing for shares held, and never more than those shares. */
  lemma AllowanceIsCeiling(held: int, bps: nat)
    requires held > 0 && 0 < bps <= 10_000
    ensures 1 <= Allowance(held, bps) <= held
    ensures held * bps <= Allowance(held, bps) * 10_000 < held * bps + 10_000
  {
    MulMonotone(1, held, bps);
    MulMonotone(bps, 10_000, held);
  }

  /** The window is open and not a full length old. */
  predicate Live(w: WithdrawWindow, length: nat, now: nat) {
    w.windowStartShares != 0 && length > 0 && now - w.windowStartedAt < length
  }

  /**
   With these shares added, more than `bps` of what was held when the window opened, rounded up, would
   have been withdrawn in it.
   */
  predicate Exceeds(w: WithdrawWindow, held: int, bps: nat, length: nat, now: nat, shares: int) {
    var used, start := if Live(w, length, now) then w.sharesWithdrawn else 0,
                       if Live(w, length, now) then w.windowStartShares else held;
    (used + shares - 1) * 10_000 >= start * bps
  }

  /** A rounded-up allowance is exceeded exactly when one share less would still reach it. */
  lemma BeyondAllowance(n: int, start: int, bps: nat)
    requires start >= 0
    ensures n > Allowance(start, bps) <==> (n - 1) * 10_000 >= start * bps
  {
    MulNonNegative(start, bps);
    DivisionBounds(start * bps + 9_999, 10_000);
  }

  /** Pacing refuses a withdrawal exactly when a limited window cannot take it. */
  lemma PacingRefusesExactly(v: Vault, user: Address, shares: int, now: nat)
    ensures ConsumePacing(v.gate, user, shares, v.book.Position(user).shares, v.book.totalShares, now).None?
            <==> v.gate.pacing.windowSeconds > 0
                 && exists party :: && party in {User(user), Everyone} && Bps(v.gate.pacing, party) > 0
                                    && !Admits(WindowOf(v, party), v.gate.pacing.windowSeconds, now,
                                               FreshCap(v, party), shares)
  {
    hide Allowance;
    var byUser := Admits(WindowOf(v, User(user)), v.gate.pacing.windowSeconds, now, FreshCap(v, User(user)), shares);
    var byVault := Admits(WindowOf(v, Everyone), v.gate.pacing.windowSeconds, now, FreshCap(v, Everyone), shares);
    assert User(user) in {User(user), Everyone} && Everyone in {User(user), Everyone};
  }

  /** No holding is negative, now or when the party's window opened: so in every vault that is reached. */
  ghost predicate HoldsNothingNegative(v: Vault, party: Party) {
    Held(v, party) >= 0 && Recorded(v, party).windowStartShares >= 0
  }

  /** The same in numbers: it exceeds the user's or the vault's limit, where a limit of zero is none. */
  lemma PacingRefusesInNumbers(v: Vault, user: Address, shares: int, now: nat)
    requires HoldsNothingNegative(v, User(user)) && HoldsNothingNegative(v, Everyone)
    ensures
      var pacing, held := v.gate.pacing, v.book.Position(user).shares;
      ConsumePacing(v.gate, user, shares, held, v.book.totalShares, now).None?
      <==> pacing.windowSeconds > 0
           && ((pacing.userMaxBps > 0
                && Exceeds(v.gate.UserWindow(user), held, pacing.userMaxBps, pacing.windowSeconds, now, shares))
               || (pacing.vaultMaxBps > 0
                   && Exceeds(v.gate.vaultWindow, v.book.totalShares, pacing.vaultMaxBps, pacing.windowSeconds, now,
                              shares)))
  {
    var pacing := v.gate.pacing;
    ExceedsExactly(v.gate.UserWindow(user), v.book.Position(user).shares, pacing.userMaxBps, pacing.windowSeconds, now,
                   shares);
    ExceedsExactly(v.gate.vaultWindow, v.book.totalShares, pacing.vaultMaxBps, pacing.windowSeconds, now, shares);
    hide Exceeds, Allowance, RolledWindow;
  }

  lemma ExceedsExactly(w: WithdrawWindow, held: int, bps: nat, length: nat, now: nat, shares: int)
    requires w.windowStartShares >= 0 && held >= 0
    ensures
      var r := RolledWindow(w, length, now, held);
      Exceeds(w, held, bps, length, now, shares) <==> r.sharesWithdrawn + shares > Allowance(r.windowStartShares, bps)
  {
    var r := RolledWindow(w, length, now, held);
    assert r.sharesWithdrawn == (if Live(w, length, now) then w.sharesWithdrawn else 0)
           && r.windowStartShares == if Live(w, length, now) then w.windowStartShares else held;
    BeyondAllowance(r.sharesWithdrawn + shares, r.windowStartShares, bps);
    hide Allowance;
  }

  /**
   What a successful withdrawal leaves in the windows: while one of the limits is set, the user's and
   the vault's window both take the shares, a live one on top of its usage and any other by opening
   now on the shares held; nobody else's window changes. Without limits nothing is recorded.
   */
  lemma WithdrawalChargesExactly(v: Vault, t: Timed, party: Party)
    requires t.call.WithdrawCall? && Perform(v, t).Success?
    ensures !Limited(v.gate.pacing) ==> Step(v, t).gate == v.gate
    ensures
      var w, length := Recorded(v, party), v.gate.pacing.windowSeconds;
      Limited(v.gate.pacing) ==>
        && Step(v, t).gate.pacing == v.gate.pacing
        && Recorded(Step(v, t), party)
           == if party.User? && party.user != t.call.user then w
              else if Live(w, length, t.now)
              then WithdrawWindow(w.windowStartedAt, w.sharesWithdrawn + t.call.shares, w.windowStartShares)
              else WithdrawWindow(t.now, t.call.shares, Held(v, party))
  {
    GateAfterStep(v, t);
    hide Perform, Step, Allowance;
  }

  // ---------- runs ----------

  /** The party's withdrawal at this call succeeds. */
  ghost predicate Withdraws(v: Vault, t: Timed, party: Party) {
    Measures(party, t.call) && Perform(v, t).Success?
  }

  /** Times never decrease and none precedes `start`. */
  ghost predicate OrderedFrom(trace: seq<Timed>, start: nat) {
    trace != [] ==>
      && OrderedFrom(trace[..|trace| - 1], start)
      && LastNow(trace[..|trace| - 1], start) <= trace[|trace| - 1].now
  }

  ghost function LastNow(trace: seq<Timed>, start: nat): nat {
    if trace == [] then start else trace[|trace| - 1].now
  }

  /** The party's window as it can stand at time `start`. */
  ghost predicate PlausibleAt(v: Vault, party: Party, start: nat) {
    var w := Recorded(v, party);
    w.windowStartShares != 0 ==> w.windowStartedAt <= start && w.sharesWithdrawn >= 0
  }

  /** Shares the party withdrew at times in the half-open interval. */
  ghost function Withdrawn(v: Vault, trace: seq<Timed>, party: Party, from: nat, to: nat): int {
    if trace == [] then 0
    else
      var init, t := trace[..|trace| - 1], trace[|trace| - 1];
      Withdrawn(v, init, party, from, to)
      + if Withdraws(Run(v, init), t, party) && from <= t.now < to then t.call.shares else 0
  }

  /** The charges to the party's windows, made whenever pacing is enabled. */
  ghost function ChargeLog(v: Vault, trace: seq<Timed>, party: Party): seq<Charge> {
    if trace == [] then []
    else
      var init, t := trace[..|trace| - 1], trace[|trace| - 1];
      var before := Run(v, init);
      if Withdraws(before, t, party) && Limited(before.gate.pacing) then
        ChargeLog(v, init, party) + [StepCharge(before, t, party)]
      else ChargeLog(v, init, party)
  }

  ghost function StepCharge(v: Vault, t: Timed, party: Party): Charge
    requires t.call.WithdrawCall?
  {
    ChargeAt(WindowOf(v, party), v.gate.pacing.windowSeconds, t.now, FreshCap(v, party), t.call.shares)
  }

  /** Every other step leaves the party's window alone; only its cap follows the limits. */
  lemma UnchargedKeepsWindow(v: Vault, t: Timed, party: Party)
    requires !(Withdraws(v, t, party) && Limited(v.gate.pacing))
    ensures Recorded(Step(v, t), party) == Recorded(v, party)
  {
    GateAfterStep(v, t);
    if t.call.WithdrawCall? && Perform(v, t).Success? && Limited(v.gate.pacing) {
      WithdrawalCharges(v, t, party);
    }
    hide Perform, Step, Allowance;
  }

  lemma ChargedStaysPlausible(w: Window, length: nat, before: nat, now: nat, cap: int, amount: int)
    requires amount >= 0 && before <= now && (w.open ==> w.startedAt <= before && w.used >= 0)
    ensures
      var w' := Charged(w, length, now, cap, amount);
      w'.startedAt <= now && w'.used >= 0
  {
  }

  /** A window that can stand at the start of a run stays one over every run, limit changes included. */
  lemma {:induction false} PlausibleOverRuns(v: Vault, trace: seq<Timed>, party: Party, start: nat)
    requires PlausibleAt(v, party, start) && OrderedFrom(trace, start)
    ensures PlausibleAt(Run(v, trace), party, LastNow(trace, start))
  {
    if trace != [] {
      var init, t := trace[..|trace| - 1], trace[|trace| - 1];
      var before := Run(v, init);
      PlausibleOverRuns(v, init, party, start);
      hide Perform, Step, Allowance, Charged, Expired;
      if Withdraws(before, t, party) && Limited(before.gate.pacing) {
        WithdrawalCharges(before, t, party);
        ChargedStaysPlausible(WindowOf(before, party), before.gate.pacing.windowSeconds, LastNow(init, start), t.now,
                              FreshCap(before, party), t.call.shares);
      } else {
        UnchargedKeepsWindow(before, t, party);
      }
    }
  }

  /** Windows only ever open on positive holdings. */
  lemma {:induction false} StartSharesOverRuns(v: Vault, trace: seq<Timed>, party: Party)
    requires Recorded(v, party).windowStartShares >= 0
    ensures Recorded(Run(v, trace), party).windowStartShares >= 0
  {
    if trace != [] {
      var init, t := trace[..|trace| - 1], trace[|trace| - 1];
      StartSharesOverRuns(v, init, party);
      hide Perform, Step, Allowance, Charged, Expired;
      if Withdraws(Run(v, init), t, party) && Limited(Run(v, init).gate.pacing) {
        WithdrawalCharges(Run(v, init), t, party);
      } else {
        UnchargedKeepsWindow(Run(v, init), t, party);
      }
    }
  }

  lemma ExactLater(log: seq<Charge>, w: Window, w': Window, base: Window, before: nat, now: nat)
    requires Exact(log, w, base, before) && before <= now && w' == w.(cap := w'.cap)
    ensures Exact(log, w', base, now)
  {
  }

  lemma {:induction false} ChargesStayExact(v: Vault, trace: seq<Timed>, party: Party, start: nat)
    requires PlausibleAt(v, party, start) && OrderedFrom(trace, start)
    ensures Exact(ChargeLog(v, trace, party), WindowOf(Run(v, trace), party), WindowOf(v, party), LastNow(trace, start))
  {
    if trace != [] {
      hide Perform, Step, Allowance, Charged, ChargeAt, Expired, Exact;
      var init, t := trace[..|trace| - 1], trace[|trace| - 1];
      var before := Run(v, init);
      ChargesStayExact(v, init, party, start);
      var log, w := ChargeLog(v, init, party), WindowOf(before, party);
      if Withdraws(before, t, party) && Limited(before.gate.pacing) {
        WithdrawalCharges(before, t, party);
        ChargeStaysExact(log, w, WindowOf(v, party), before.gate.pacing.windowSeconds, LastNow(init, start), t.now,
                         FreshCap(before, party), t.call.shares);
      } else {
        UnchargedKeepsWindow(before, t, party);
        ExactLater(log, w, WindowOf(Run(v, trace), party), WindowOf(v, party), LastNow(init, start), t.now);
      }
    } else {
      assert Exact([], WindowOf(v, party), WindowOf(v, party), start);
    }
  }

  /**
   Over any run, limit changes included, the recorded usage is the exact sum of the shares charged
   since the window opened, and what it had used before the run when it is the window the run started
   with.
   */
  lemma RecordedWithdrawalsAreExact(v: Vault, trace: seq<Timed>, party: Party, start: nat)
    requires PlausibleAt(v, party, start) && OrderedFrom(trace, start)
    ensures
      var w, w0 := Recorded(Run(v, trace), party), Recorded(v, party);
      w.windowStartShares != 0 ==>
        w.sharesWithdrawn
        == WindowSum(ChargeLog(v, trace, party), w.windowStartedAt)
           + if w0.windowStartShares != 0 && w0.windowStartedAt == w.windowStartedAt then w0.sharesWithdrawn else 0
  {
    ChargesStayExact(v, trace, party, start);
  }

  // ---------- runs with fixed limits ----------

  ghost predicate LimitsFixed(trace: seq<Timed>) {
    forall i :: 0 <= i < |trace| ==> !trace[i].call.SetPacingCall?
  }

  lemma {:induction false} LimitsStay(v: Vault, trace: seq<Timed>)
    requires LimitsFixed(trace)
    ensures Run(v, trace).gate.pacing == v.gate.pacing
  {
    if trace != [] {
      var init, t := trace[..|trace| - 1], trace[|trace| - 1];
      LimitsStay(v, init);
      GateAfterStep(Run(v, init), t);
      hide Perform, Step;
    }
  }

  lemma {:induction false} ChargesAreTracked(v: Vault, trace: seq<Timed>, party: Party, start: nat)
    requires v.gate.pacing.windowSeconds > 0 && Bps(v.gate.pacing, party) > 0 && LimitsFixed(trace)
    requires PlausibleAt(v, party, start) && OrderedFrom(trace, start)
    ensures Tracks(ChargeLog(v, trace, party), WindowOf(Run(v, trace), party), v.gate.pacing.windowSeconds,
                   LastNow(trace, start), WindowOf(v, party))
  {
    if trace != [] {
      hide Perform, Step, Charged, Admits, Allowance, ChargeAt, Tracks, Expired;
      var init, t := trace[..|trace| - 1], trace[|trace| - 1];
      var before := Run(v, init);
      ChargesAreTracked(v, init, party, start);
      LimitsStay(v, init);
      LimitsStay(v, trace);
      var log, w := ChargeLog(v, init, party), WindowOf(before, party);
      if Withdraws(before, t, party) {
        WithdrawalCharges(before, t, party);
        ChargeIsTracked(log, w, v.gate.pacing.windowSeconds, LastNow(init, start), t.now, FreshCap(before, party),
                        t.call.shares, WindowOf(v, party));
      } else {
        UnchargedKeepsWindow(before, t, party);
        TracksLater(log, w, v.gate.pacing.windowSeconds, LastNow(init, start), t.now, WindowOf(v, party));
      }
    }
  }

  lemma TracksLater(log: seq<Charge>, w: Window, length: nat, before: nat, now: nat, base: Window)
    requires Tracks(log, w, length, before, base) && before <= now
    ensures Tracks(log, w, length, now, base)
  {
  }

  lemma {:induction false} LogSumIsWithdrawn(v: Vault, trace: seq<Timed>, party: Party, from: nat, to: nat)
    requires Limited(v.gate.pacing) && LimitsFixed(trace)
    ensures SumBetween(ChargeLog(v, trace, party), from, to) == Withdrawn(v, trace, party, from, to)
  {
    if trace != [] {
      hide Perform, Step, Run, WindowOf, FreshCap;
      var init := trace[..|trace| - 1];
      LogSumIsWithdrawn(v, init, party, from, to);
      LimitsStay(v, init);
      var log, log' := ChargeLog(v, init, party), ChargeLog(v, trace, party);
      if log' != log {
        assert log'[..|log'| - 1] == log;
      }
    }
  }

  lemma {:induction false} ChargesStayLabelled(v: Vault, trace: seq<Timed>, party: Party, start: nat)
    requires Limited(v.gate.pacing) && LimitsFixed(trace)
    requires PlausibleAt(v, party, start) && OrderedFrom(trace, start)
    ensures Labelled(ChargeLog(v, trace, party), WindowOf(Run(v, trace), party), v.gate.pacing.windowSeconds)
  {
    if trace != [] {
      hide Perform, Step, Allowance, Charged, ChargeAt, Expired, Exact, Labelled;
      var init, t := trace[..|trace| - 1], trace[|trace| - 1];
      var before := Run(v, init);
      ChargesStayLabelled(v, init, party, start);
      ChargesStayExact(v, init, party, start);
      LimitsStay(v, init);
      LimitsStay(v, trace);
      var log, w := ChargeLog(v, init, party), WindowOf(before, party);
      if Withdraws(before, t, party) {
        WithdrawalCharges(before, t, party);
        ChargeStaysLabelled(log, w, WindowOf(v, party), v.gate.pacing.windowSeconds, LastNow(init, start), t.now,
                            FreshCap(before, party), t.call.shares);
      } else {
        UnchargedKeepsWindow(before, t, party);
      }
    }
  }

  /**
   While the limits stay fixed the recorded usage is what the party withdrew from the time its window
   opened on, and what it had used before the run when it is the window the run started with.
   */
  lemma RecordedIsWithdrawnSinceOpened(v: Vault, trace: seq<Timed>, party: Party, start: nat)
    requires Limited(v.gate.pacing) && LimitsFixed(trace)
    requires PlausibleAt(v, party, start) && OrderedFrom(trace, start)
    ensures
      var w, w0 := Recorded(Run(v, trace), party), Recorded(v, party);
      w.windowStartShares != 0 ==>
        w.sharesWithdrawn
        == Withdrawn(v, trace, party, w.windowStartedAt, LastNow(trace, start) + 1)
           + if w0.windowStartShares != 0 && w0.windowStartedAt == w.windowStartedAt then w0.sharesWithdrawn else 0
  {
    hide Run, ChargeLog, Withdrawn, Exact, Labelled, Allowance;
    var w := WindowOf(Run(v, trace), party);
    RecordedWithdrawalsAreExact(v, trace, party, start);
    if w.open {
      ChargesStayExact(v, trace, party, start);
      ChargesStayLabelled(v, trace, party, start);
      WindowSumIsSinceOpened(ChargeLog(v, trace, party), w, WindowOf(v, party), v.gate.pacing.windowSeconds,
                             LastNow(trace, start));
      LogSumIsWithdrawn(v, trace, party, w.startedAt, LastNow(trace, start) + 1);
    }
  }

  // ---------- when windows opened, and for how many shares ----------

  /** The party's withdrawal succeeds and finds no window open, or the last one expired. */
  ghost predicate OpensWindow(v: Vault, t: Timed, party: Party) {
    && Withdraws(v, t, party) && Limited(v.gate.pacing)
    && Expired(WindowOf(v, party), v.gate.pacing.windowSeconds, t.now)
  }

  /**
   A window of the party opened at `openedAt` on `held` shares: the window it came with, or one opened
   by a withdrawal that found none open, or the last one expired, while it held exactly those shares.
   */
  ghost predicate Opened(v: Vault, trace: seq<Timed>, party: Party, openedAt: nat, held: int) {
    || (held != 0 && held == Recorded(v, party).windowStartShares && openedAt == Recorded(v, party).windowStartedAt)
    || exists k :: 0 <= k < |trace| && OpenedBy(v, trace, party, k, openedAt, held)
  }

  ghost predicate OpenedBy(v: Vault, trace: seq<Timed>, party: Party, k: nat, openedAt: nat, held: int)
    requires k < |trace|
  {
    var before := Run(v, trace[..k]);
    OpensWindow(before, trace[k], party) && trace[k].now == openedAt && Held(before, party) == held
  }

  lemma OpenedInLonger(v: Vault, trace: seq<Timed>, party: Party, openedAt: nat, held: int)
    requires trace != [] && Opened(v, trace[..|trace| - 1], party, openedAt, held)
    ensures Opened(v, trace, party, openedAt, held)
  {
    hide Withdraws, Run;
    var init := trace[..|trace| - 1];
    if k :| 0 <= k < |init| && OpenedBy(v, init, party, k, openedAt, held) {
      assert init[..k] == trace[..k];
      assert OpenedBy(v, trace, party, k, openedAt, held);
    }
  }

  lemma OpenedNow(v: Vault, trace: seq<Timed>, party: Party)
    requires trace != [] && OpensWindow(Run(v, trace[..|trace| - 1]), trace[|trace| - 1], party)
    ensures Opened(v, trace, party, trace[|trace| - 1].now, Held(Run(v, trace[..|trace| - 1]), party))
  {
    hide Withdraws, Run, Expired;
    assert OpenedBy(v, trace, party, |trace| - 1, trace[|trace| - 1].now, Held(Run(v, trace[..|trace| - 1]), party));
  }

  /** The recorded window was opened when it says and on the shares it says. */
  lemma {:induction false} RecordedWasOpened(v: Vault, trace: seq<Timed>, party: Party)
    ensures
      var w := Recorded(Run(v, trace), party);
      w.windowStartShares != 0 ==> Opened(v, trace, party, w.windowStartedAt, w.windowStartShares)
  {
    if trace != [] {
      hide Perform, Step, Allowance, Opened;
      var init, t := trace[..|trace| - 1], trace[|trace| - 1];
      var before := Run(v, init);
      var w := Recorded(before, party);
      RecordedWasOpened(v, init, party);
      if w.windowStartShares != 0 {
        OpenedInLonger(v, trace, party, w.windowStartedAt, w.windowStartShares);
      }
      if Withdraws(before, t, party) && Limited(before.gate.pacing) {
        WithdrawalCharges(before, t, party);
        if Expired(WindowOf(before, party), before.gate.pacing.windowSeconds, t.now) {
          OpenedNow(v, trace, party);
        }
      } else {
        UnchargedKeepsWindow(before, t, party);
      }
    }
  }

  /** The charge went to a window that opened when it says, capped by the allowance of the shares then held. */
  ghost predicate ChargedToOpened(v: Vault, trace: seq<Timed>, party: Party, c: Charge) {
    exists held :: Opened(v, trace, party, c.openedAt, held) && c.cap == Allowance(held, Bps(v.gate.pacing, party))
  }

  lemma ChargedInLonger(v: Vault, trace: seq<Timed>, party: Party, c: Charge)
    requires trace != [] && ChargedToOpened(v, trace[..|trace| - 1], party, c)
    ensures ChargedToOpened(v, trace, party, c)
  {
    hide Opened, Allowance;
    var held :| Opened(v, trace[..|trace| - 1], party, c.openedAt, held)
                && c.cap == Allowance(held, Bps(v.gate.pacing, party));
    OpenedInLonger(v, trace, party, c.openedAt, held);
  }

  lemma LastChargedToOpened(v: Vault, trace: seq<Timed>, party: Party)
    requires trace != [] && Withdraws(Run(v, trace[..|trace| - 1]), trace[|trace| - 1], party)
    requires Run(v, trace[..|trace| - 1]).gate.pacing == v.gate.pacing && Limited(v.gate.pacing)
    ensures ChargedToOpened(v, trace, party, StepCharge(Run(v, trace[..|trace| - 1]), trace[|trace| - 1], party))
  {
    hide Opened, Allowance, Run, Withdraws;
    var before := Run(v, trace[..|trace| - 1]);
    var w := Recorded(before, party);
    if Expired(WindowOf(before, party), before.gate.pacing.windowSeconds, trace[|trace| - 1].now) {
      OpenedNow(v, trace, party);
    }
    RecordedWasOpened(v, trace[..|trace| - 1], party);
    if w.windowStartShares != 0 {
      OpenedInLonger(v, trace, party, w.windowStartedAt, w.windowStartShares);
    }
  }

  lemma {:induction false} ChargesGoToOpened(v: Vault, trace: seq<Timed>, party: Party)
    requires LimitsFixed(trace) && Limited(v.gate.pacing)
    ensures forall i :: 0 <= i < |ChargeLog(v, trace, party)| ==>
              ChargedToOpened(v, trace, party, ChargeLog(v, trace, party)[i])
  {
    if trace != [] {
      hide Withdraws, Allowance, ChargedToOpened, StepCharge, Run;
      var init := trace[..|trace| - 1];
      ChargesGoToOpened(v, init, party);
      LimitsStay(v, init);
      var log, log' := ChargeLog(v, init, party), ChargeLog(v, trace, party);
      forall i | 0 <= i < |log'| ensures ChargedToOpened(v, trace, party, log'[i]) {
        if i < |log| {
          ChargedInLonger(v, trace, party, log[i]);
        } else {
          LastChargedToOpened(v, trace, party);
        }
      }
    }
  }

  // ---------- the bound ----------

  /** A window opened at `openedAt` and the interval from `from` overlap, both of this length. */
  predicate Meets(openedAt: nat, from: nat, length: nat) {
    openedAt < from + length && from < openedAt + length
  }

  /** A total fits the allowances of at most two windows that opened on those shares and meet the interval. */
  ghost predicate WithinAllowances(v: Vault, trace: seq<Timed>, party: Party, from: nat, total: int) {
    var length, bps := v.gate.pacing.windowSeconds, Bps(v.gate.pacing, party);
    exists o1, held1, o2, held2 ::
      && Opened(v, trace, party, o1, held1) && Meets(o1, from, length)
      && Opened(v, trace, party, o2, held2) && Meets(o2, from, length)
      && total <= Allowance(held1, bps) + if o1 == o2 then 0 else Allowance(held2, bps)
  }

  /**
   With the limits fixed, what a party withdraws in any interval of one window length fits the
   rounded-up allowances of at most two windows, each opened around that interval on shares the party
   held when it opened; one allowance if only one window meets the interval.
   */
  lemma WithdrawalBound(v: Vault, trace: seq<Timed>, party: Party, start: nat, from: nat)
    requires v.gate.pacing.windowSeconds > 0 && Bps(v.gate.pacing, party) > 0 && LimitsFixed(trace)
    requires PlausibleAt(v, party, start) && OrderedFrom(trace, start)
    ensures
      var total := Withdrawn(v, trace, party, from, from + v.gate.pacing.windowSeconds);
      total <= 0 || WithinAllowances(v, trace, party, from, total)
  {
    hide Allowance, Run, Withdraws, Withdrawn, ChargeLog, ChargedToOpened, WithinAllowances, SumBetween, WindowOf;
    hide Exact, Separate, WindowSum;
    var length := v.gate.pacing.windowSeconds;
    ChargesAreTracked(v, trace, party, start);
    LogSumIsWithdrawn(v, trace, party, from, from + length);
    ChargesGoToOpened(v, trace, party);
    var log := ChargeLog(v, trace, party);
    IntervalBound(log, length, from);
    var total := SumBetween(log, from, from + length);
    if total > 0 {
      var i, j :| && 0 <= i < |log| && 0 <= j < |log|
                  && from <= log[i].time < from + length && from <= log[j].time < from + length
                  && total <= if log[i].openedAt == log[j].openedAt then log[i].cap else log[i].cap + log[j].cap;
      TwoChargesBound(v, trace, party, from, log[i], log[j], total);
    }
  }

  lemma TwoChargesBound(v: Vault, trace: seq<Timed>, party: Party, from: nat, c: Charge, d: Charge, total: int)
    requires ChargedToOpened(v, trace, party, c) && ChargedToOpened(v, trace, party, d)
    requires InsideWindow(c, v.gate.pacing.windowSeconds) && from <= c.time < from + v.gate.pacing.windowSeconds
    requires InsideWindow(d, v.gate.pacing.windowSeconds) && from <= d.time < from + v.gate.pacing.windowSeconds
    requires total <= if c.openedAt == d.openedAt then c.cap else c.cap + d.cap
    ensures WithinAllowances(v, trace, party, from, total)
  {
    hide Allowance, Opened;
    var bps := Bps(v.gate.pacing, party);
    var held1 :| Opened(v, trace, party, c.openedAt, held1) && c.cap == Allowance(held1, bps);
    var held2 :| Opened(v, trace, party, d.openedAt, held2) && d.cap == Allowance(held2, bps);
    assert Meets(c.openedAt, from, v.gate.pacing.windowSeconds) && Meets(d.openedAt, from, v.gate.pacing.windowSeconds);
  }

  /** Nobody has a window, as in a vault that was just initialized. */
  predicate NoWindows(v: Vault) {
    v.gate.userWindows == map[] && v.gate.vaultWindow == NO_WINDOW
  }

  /**
   The bound and the exact record hold in every vault an initialized one can have become: `before` is
   the run so far, with any changes of the limits, and `trace` a stretch with the limits it left.
   */
  lemma ReachedVaultsArePaced(v: Vault, before: seq<Timed>, trace: seq<Timed>, party: Party, from: nat)
    requires NoWindows(v) && OrderedFrom(before, 0) && OrderedFrom(trace, LastNow(before, 0)) && LimitsFixed(trace)
    requires Run(v, before).gate.pacing.windowSeconds > 0 && Bps(Run(v, before).gate.pacing, party) > 0
    ensures
      var reached := Run(v, before);
      var total := Withdrawn(reached, trace, party, from, from + reached.gate.pacing.windowSeconds);
      total <= 0 || WithinAllowances(reached, trace, party, from, total)
    ensures
      var w := Recorded(Run(v, before), party);
      w.windowStartShares != 0 ==> w.sharesWithdrawn == WindowSum(ChargeLog(v, before, party), w.windowStartedAt)
  {
    hide Run, WithinAllowances, Withdrawn, ChargeLog;
    PlausibleOverRuns(v, before, party, 0);
    RecordedWithdrawalsAreExact(v, before, party, 0);
    WithdrawalBound(Run(v, before), trace, party, LastNow(before, 0), from);
  }
}
