/** What the timelock guarantees over whole runs of the vault, starting with an empty queue. */
module VaultTimelock {
  import opened Wrappers
  import opened Integers
  import opened TokenLedger
  import opened VaultState

  ghost predicate Ordered(trace: seq<Timed>) {
    forall i, j :: 0 <= i <= j < |trace| ==> trace[i].now <= trace[j].now
  }

  /** The state in which the call at position `k` runs. */
  ghost function StateAt(v: Vault, trace: seq<Timed>, k: nat): Vault
    requires k <= |trace|
  {
    Run(v, trace[..k])
  }

  ghost predicate Succeeds(v: Vault, trace: seq<Timed>, k: nat) {
    k < |trace| && Perform(StateAt(v, trace, k), trace[k]).Success?
  }

  lemma NextState(v: Vault, trace: seq<Timed>, k: nat)
    requires k < |trace|
    ensures StateAt(v, trace, k + 1) == Step(StateAt(v, trace, k), trace[k])
  {
    assert trace[..k + 1][..k] == trace[..k];
  }

  /** Identifiers are handed out in increasing order and queued under their own number. */
  ghost predicate QueueIsNumbered(a: Admin) {
    forall id :: id in a.pending ==> id < a.nextActionId
  }

  /** An identifier that was handed out and is no longer queued. */
  ghost predicate Retired(a: Admin, id: nat) {
    id < a.nextActionId && id !in a.pending
  }

  // ---------- what each administrative call does ----------

  /** The action's own fields take its values; every other parameter and price stays. */
  ghost predicate Sets(before: Admin, action: AdminAction, after: Admin) {
    var p := before.params;
    match action
    case Prices(x, y) =>
      after.prices == (x, y) && after.params == p
    case MinDepositAmounts(x, y) =>
      after.prices == before.prices && after.params == Params(x, y, p.minWithdrawShares, p.treasury, p.timelockDelay)
    case MinWithdrawShares(n) =>
      after.prices == before.prices && after.params == Params(p.minDepositA, p.minDepositB, n, p.treasury, p.timelockDelay)
    case Treasury(t) =>
      && after.prices == before.prices
      && after.params == Params(p.minDepositA, p.minDepositB, p.minWithdrawShares, t, p.timelockDelay)
    case TimelockDelay(d) =>
      && after.prices == before.prices
      && after.params == Params(p.minDepositA, p.minDepositB, p.minWithdrawShares, p.treasury, d)
  }

  /** The owner can execute a queued action exactly from its time on; that removes it and sets its values. */
  lemma ExecutionIsExact(v: Vault, caller: Address, id: nat, now: nat)
    ensures
      var a, out := v.admin, Execute(v, caller, id, now);
      && (out.Success? <==> caller == a.owner && id in a.pending && now >= a.pending[id].executableAt)
      && (out.Success? ==>
            var a' := out.value.admin;
            && out.value == v.(admin := a')
            && Sets(a, a.pending[id].action, a')
            && a'.pending == a.pending - {id} && a'.nextActionId == a.nextActionId && a'.owner == a.owner)
  {
  }

  /**
   The owner's proposals are accepted exactly with nonnegative prices and minima and a positive minimum
   withdrawal, and queued under the next id for the delay in force, at most until the end of time.
   */
  lemma ProposalIsExact(v: Vault, caller: Address, action: AdminAction, now: nat)
    ensures
      var a, out := v.admin, Propose(v, caller, action, now);
      && (out.Success?
          <==> && caller == a.owner
               && (action.Prices? ==> action.priceA >= 0 && action.priceB >= 0)
               && (action.MinDepositAmounts? ==> action.minA >= 0 && action.minB >= 0)
               && (action.MinWithdrawShares? ==> action.minShares > 0))
      && (out.Success? ==>
            var a', due := out.value.admin, now + a.params.timelockDelay;
            && out.value == v.(admin := a')
            && a'.pending
               == a.pending[a.nextActionId := PendingAction(action, if due <= U64_MAX then due else U64_MAX)]
            && a'.nextActionId == a.nextActionId + 1
            && a'.owner == a.owner && a'.params == a.params && a'.prices == a.prices)
  {
  }

  /** The owner can cancel what is queued, which only removes it. */
  lemma CancellationIsExact(v: Vault, caller: Address, id: nat)
    ensures
      var a, out := v.admin, Cancel(v, caller, id);
      && (out.Success? <==> caller == a.owner && id in a.pending)
      && (out.Success? ==>
            var a' := out.value.admin;
            && out.value == v.(admin := a')
            && a'.pending == a.pending - {id} && a'.nextActionId == a.nextActionId
            && a'.owner == a.owner && a'.params == a.params && a'.prices == a.prices)
  {
  }

  /**
   The owner's withdrawal limits are accepted exactly when neither exceeds 100% and a limit comes with a
   window; both limits and the window are stored as given, and open windows stay.
   */
  lemma LimitsAreExact(v: Vault, caller: Address, userMaxBps: nat, vaultMaxBps: nat, windowSeconds: nat)
    ensures
      var out := SetWithdrawPacing(v, caller, WithdrawPacing(userMaxBps, vaultMaxBps, windowSeconds));
      && (out.Success?
          <==> && caller == v.admin.owner && userMaxBps <= 10_000 && vaultMaxBps <= 10_000
               && (userMaxBps > 0 || vaultMaxBps > 0 ==> windowSeconds > 0))
      && (out.Success? ==>
            var gate := out.value.gate;
            && out.value == v.(gate := gate)
            && gate.pacing.userMaxBps == userMaxBps && gate.pacing.vaultMaxBps == vaultMaxBps
            && gate.pacing.windowSeconds == windowSeconds
            && gate.userWindows == v.gate.userWindows && gate.vaultWindow == v.gate.vaultWindow)
  {
  }

  /** The owner sets prices directly and pauses; a paused vault moves no tokens. */
  lemma DirectSettingsAreExact(v: Vault, caller: Address, priceA: int, priceB: int, paused: bool)
    ensures
      var priced, stopped := SetPrices(v, caller, priceA, priceB), SetPaused(v, caller, paused);
      && (priced.Success? <==> caller == v.admin.owner && priceA >= 0 && priceB >= 0)
      && (priced.Success? ==> priced.value == v.(admin := v.admin.(prices := (priceA, priceB))))
      && (stopped.Success? <==> caller == v.admin.owner)
      && (stopped.Success? ==> stopped.value == v.(paused := paused))
  {
  }

  /** How one step can change the administrative state. */
  lemma AdminAfterStep(v: Vault, t: Timed)
    ensures
      var a, a' := v.admin, Step(v, t).admin;
      match t.call
      case ProposeCall(_, action) =>
        a' == if Perform(v, t).Failure? then a
              else a.(nextActionId := a.nextActionId + 1,
                      pending := a.pending[a.nextActionId :=
                                             PendingAction(action, SaturatingAdd64(t.now, a.params.timelockDelay))])
      case ExecuteCall(_, id) =>
        if Perform(v, t).Failure? then a' == a
        else id in a.pending && t.now >= a.pending[id].executableAt
             && a' == ApplyAction(a.(pending := a.pending - {id}), a.pending[id].action)
      case CancelCall(_, id) =>
        if Perform(v, t).Failure? then a' == a else id in a.pending && a' == a.(pending := a.pending - {id})
      case SetPricesCall(_, x, y) => a' == if Perform(v, t).Failure? then a else a.(prices := (x, y))
      case _ => a' == a
  {
    hide Redeem, MintedShares, ConsumePacing, PayOut, Transfer, TransferPositive;
  }

  /** Parameters change only when an execution succeeds. */
  lemma OnlyExecutionChangesParams(v: Vault, t: Timed)
    requires Step(v, t).admin.params != v.admin.params
    ensures t.call.ExecuteCall? && Perform(v, t).Success?
  {
    AdminAfterStep(v, t);
  }

  lemma QueueStaysNumbered(v: Vault, t: Timed)
    requires QueueIsNumbered(v.admin)
    ensures QueueIsNumbered(Step(v, t).admin)
    ensures Step(v, t).admin.nextActionId >= v.admin.nextActionId
    ensures forall id :: Retired(v.admin, id) ==> Retired(Step(v, t).admin, id)
  {
    hide Perform, Step;
    AdminAfterStep(v, t);
  }

  lemma {:induction false} RetiredForever(v: Vault, trace: seq<Timed>, i: nat, k: nat, id: nat)
    requires QueueIsNumbered(v.admin) && i <= k <= |trace|
    ensures QueueIsNumbered(StateAt(v, trace, k).admin)
    ensures Retired(StateAt(v, trace, i).admin, id) ==> Retired(StateAt(v, trace, k).admin, id)
  {
    if i < k {
      RetiredForever(v, trace, i, k - 1, id);
      QueueStaysNumbered(StateAt(v, trace, k - 1), trace[k - 1]);
      NextState(v, trace, k - 1);
    } else if k > 0 {
      RetiredForever(v, trace, k - 1, k - 1, id);
      QueueStaysNumbered(StateAt(v, trace, k - 1), trace[k - 1]);
      NextState(v, trace, k - 1);
    }
  }

  /** A call that executes or cancels the given identifier. */
  predicate Settles(call: Call, id: nat) {
    (call.ExecuteCall? || call.CancelCall?) && call.id == id
  }

  lemma SettlingRetires(v: Vault, t: Timed, id: nat)
    requires QueueIsNumbered(v.admin) && Settles(t.call, id) && Perform(v, t).Success?
    ensures Retired(Step(v, t).admin, id)
  {
    AdminAfterStep(v, t);
  }

  lemma RetiredCannotSettle(v: Vault, t: Timed, id: nat)
    requires Retired(v.admin, id) && Settles(t.call, id)
    ensures Perform(v, t).Failure?
  {
  }

  /** No identifier is settled twice: neither executed twice, nor executed after being cancelled. */
  lemma SettledOnce(v: Vault, trace: seq<Timed>, i: nat, k: nat, id: nat)
    requires QueueIsNumbered(v.admin) && i < k < |trace|
    requires Settles(trace[i].call, id) && Settles(trace[k].call, id) && Succeeds(v, trace, i)
    ensures !Succeeds(v, trace, k)
  {
    RetiredForever(v, trace, i, i, id);
    SettlingRetires(StateAt(v, trace, i), trace[i], id);
    NextState(v, trace, i);
    RetiredForever(v, trace, i + 1, k, id);
    RetiredCannotSettle(StateAt(v, trace, k), trace[k], id);
  }

  /** Position `j` proposed the queue entry `id` under the delay in force at that moment. */
  ghost predicate ProposedAt(v: Vault, trace: seq<Timed>, j: nat, id: nat, entry: PendingAction) {
    && Succeeds(v, trace, j) && trace[j].call.ProposeCall?
    && StateAt(v, trace, j).admin.nextActionId == id
    && entry == PendingAction(trace[j].call.action,
                              SaturatingAdd64(trace[j].now, StateAt(v, trace, j).admin.params.timelockDelay))
  }

  lemma ProposedInLonger(v: Vault, trace: seq<Timed>, n: nat, j: nat, id: nat, entry: PendingAction)
    requires n <= |trace| && ProposedAt(v, trace[..n], j, id, entry)
    ensures ProposedAt(v, trace, j, id, entry)
  {
    assert trace[..n][..j] == trace[..j];
  }

  /** Everything in the queue was proposed earlier in the run. */
  lemma {:induction false} QueuedWasProposed(v: Vault, trace: seq<Timed>, id: nat)
    requires v.admin.pending == map[] && id in Run(v, trace).admin.pending
    ensures exists j :: ProposedAt(v, trace, j, id, Run(v, trace).admin.pending[id])
    decreases |trace|
  {
    var n := |trace| - 1;
    var before, last := Run(v, trace[..n]), trace[n];
    AdminAfterStep(before, last);
    assert trace[..n] == trace[..|trace| - 1];
    var entry := Run(v, trace).admin.pending[id];
    if id in before.admin.pending && before.admin.pending[id] == entry {
      QueuedWasProposed(v, trace[..n], id);
      var j :| ProposedAt(v, trace[..n], j, id, entry);
      ProposedInLonger(v, trace, n, j, id, entry);
    } else {
      assert ProposedAt(v, trace, n, id, entry);
    }
  }

  /**
   A parameter changes only by executing an action proposed earlier in the run, at least the delay
   then in force before (or at the very end of 64-bit time, where the addition saturates).
   */
  lemma ChangeWasQueued(v: Vault, trace: seq<Timed>, i: nat)
    requires v.admin.pending == map[] && i < |trace|
    requires StateAt(v, trace, i + 1).admin.params != StateAt(v, trace, i).admin.params
    ensures Succeeds(v, trace, i) && trace[i].call.ExecuteCall?
    ensures exists j, entry ::
              && 0 <= j < i && ProposedAt(v, trace, j, trace[i].call.id, entry)
              && trace[i].now >= SaturatingAdd64(trace[j].now, StateAt(v, trace, j).admin.params.timelockDelay)
              && Sets(StateAt(v, trace, i).admin, trace[j].call.action, StateAt(v, trace, i + 1).admin)
  {
    hide Perform, Step;
    var before := StateAt(v, trace, i);
    NextState(v, trace, i);
    OnlyExecutionChangesParams(before, trace[i]);
    AdminAfterStep(before, trace[i]);
    var id := trace[i].call.id;
    QueuedWasProposed(v, trace[..i], id);
    var entry := before.admin.pending[id];
    var j :| ProposedAt(v, trace[..i], j, id, entry);
    ProposedInLonger(v, trace, i, j, id, entry);
  }

  /**
   No parameter, the delay itself included, changes sooner than the initial delay after the first
   proposal, even if the delay is shortened on the way.
   */
  lemma {:induction false} NothingChangesEarly(v: Vault, trace: seq<Timed>, firstProposal: nat)
    requires v.admin.pending == map[] && Ordered(trace)
    requires forall i :: 0 <= i < |trace| && trace[i].call.ProposeCall? ==> firstProposal <= trace[i].now
    requires Run(v, trace).admin.params != v.admin.params
    ensures trace != []
    ensures trace[|trace| - 1].now >= SaturatingAdd64(firstProposal, v.admin.params.timelockDelay)
    decreases |trace|
  {
    hide Perform, Step;
    var n := |trace| - 1;
    var init := trace[..n];
    if Run(v, init).admin.params != v.admin.params {
      NothingChangesEarly(v, init, firstProposal);
    } else {
      assert trace[..n + 1] == trace;
      ChangeWasQueued(v, trace, n);
      var j, entry :|
        && 0 <= j < n && ProposedAt(v, trace, j, trace[n].call.id, entry)
        && trace[n].now >= SaturatingAdd64(trace[j].now, StateAt(v, trace, j).admin.params.timelockDelay);
      if StateAt(v, trace, j).admin.params != v.admin.params {
        NothingChangesEarly(v, trace[..j], firstProposal);
      }
    }
  }
}
