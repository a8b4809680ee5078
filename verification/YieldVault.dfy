/**
 The vault contract object. Each entry point either fails and leaves every field as it was, or
 performs exactly the transition the state machine prescribes.
 */
module YieldVault {
  import opened Wrappers
  import opened Integers
  import opened TokenLedger
  import opened VaultState
  import VaultAccounting
  import VaultPacing

  class YieldVault {
    const info: VaultInfo
    const owner: Address

    var paused: bool
    // metrics and positions
    var totalShares: int
    var totalAmountA: int
    var totalAmountB: int
    var positions: map<Address, UserPosition>
    // the two token contracts' balances
    var tokenA: Balances
    var tokenB: Balances
    // withdrawal pacing
    var pacing: WithdrawPacing
    var userWindows: map<Address, WithdrawWindow>
    var vaultWindow: WithdrawWindow
    // economic parameters and their timelock
    var params: Params
    var prices: (int, int)
    var nextActionId: nat
    var pending: map<nat, PendingAction>

    ghost function State(): Vault
      reads this
    {
      Vault(info, paused, Book(totalShares, totalAmountA, totalAmountB, positions, tokenA, tokenB),
            Gate(pacing, userWindows, vaultWindow), Admin(owner, params, prices, nextActionId, pending))
    }

    constructor (owner: Address, info: VaultInfo, treasury: Address, tokenA: Balances, tokenB: Balances)
      requires info.Valid() && BalanceOf(tokenA, info.self) >= 0 && BalanceOf(tokenB, info.self) >= 0
      ensures VaultAccounting.Valid(State()) && State().admin.pending == map[] && VaultPacing.NoWindows(State())
      ensures params == Params(0, 0, 1, treasury, 172_800) && nextActionId == 1
      ensures totalShares == 0 && !pacing.Enabled() && vaultWindow == NO_WINDOW && userWindows == map[]
      ensures !paused && totalAmountA == 0 && totalAmountB == 0 && positions == map[]
      ensures this.info == info && this.owner == owner && this.tokenA == tokenA && this.tokenB == tokenB
    {
      this.info, this.owner, paused := info, owner, false;
      totalShares, totalAmountA, totalAmountB, positions := 0, 0, 0, map[];
      this.tokenA, this.tokenB := tokenA, tokenB;
      pacing, userWindows, vaultWindow := WithdrawPacing(0, 0, 0), map[], NO_WINDOW;
      params, prices, nextActionId, pending := Params(0, 0, 1, treasury, DEFAULT_TIMELOCK_DELAY), (0, 0), 1, map[];
      new;
      assert VaultAccounting.ShareMap(positions) == map[];
    }

    /** Shares for a deposit of this combined value. */
    method CalculateShares(value: int) returns (shares: int)
      ensures shares == MintedShares(State().book, value)
    {
      if totalShares == 0 {
        return value;
      }
      var totalValue := totalAmountA + totalAmountB;
      if totalValue <= 0 {
        return 0;
      }
      return TruncDiv(value * totalShares, totalValue);
    }

    method Deposit(user: Address, amountA: int, amountB: int, minShares: int) returns (result: Result<int, VaultError>)
      modifies this
      ensures
        var expected := VaultState.Deposit(old(State()), user, amountA, amountB, minShares);
        match result
        case Success(shares) => expected == Success((State(), shares))
        case Failure(e) => expected == Failure(e) && State() == old(State())
    {
      hide MintedShares, SettleDeposit;
      if paused {
        return Failure(Paused);
      }
      if amountA < params.minDepositA || amountB < params.minDepositB {
        return Failure(AmountBelowMinimum);
      }
      if amountA + amountB <= 0 {
        return Failure(DepositMustBePositive);
      }
      var shares := CalculateShares(amountA + amountB);
      if shares <= 0 {
        return Failure(DepositTooSmall);
      }
      if shares < minShares {
        return Failure(InsufficientSharesReceived);
      }
      var settled := CreditDeposit(user, amountA, amountB, shares);
      if !settled {
        return Failure(TransferFailed);
      }
      return Success(shares);
    }

    /** Take both legs from the user, then credit the position and the totals. */
    method CreditDeposit(user: Address, amountA: int, amountB: int, shares: int) returns (ok: bool)
      modifies this
      ensures
        var expected := SettleDeposit(old(State()), user, amountA, amountB, shares);
        if ok then expected == Success(State()) else expected == Failure(TransferFailed) && State() == old(State())
    {
      hide Transfer;
      var receivedA := Transfer(tokenA, user, info.self, amountA);
      var receivedB := Transfer(tokenB, user, info.self, amountB);
      if receivedA.None? || receivedB.None? {
        return false;
      }
      tokenA, tokenB := receivedA.value, receivedB.value;
      var position := if user in positions then positions[user] else UserPosition(0, 0, 0);
      position := UserPosition(position.shares + shares, position.depositedA + amountA, position.depositedB + amountB);
      positions := positions[user := position];
      totalShares := totalShares + shares;
      totalAmountA := totalAmountA + amountA;
      totalAmountB := totalAmountB + amountB;
      return true;
    }

    /** Charge a withdrawal to both windows, or refuse it; nothing is stored before the whole call succeeds. */
    method ConsumeWithdrawPacing(user: Address, shares: int, positionShares: int, total: int, now: nat)
      returns (charged: Option<Gate>)
      ensures charged == ConsumePacing(Gate(pacing, userWindows, vaultWindow), user, shares, positionShares, total, now)
    {
      if pacing.windowSeconds == 0 || (pacing.userMaxBps == 0 && pacing.vaultMaxBps == 0) {
        return Some(Gate(pacing, userWindows, vaultWindow));
      }
      var userWindow := if user in userWindows then userWindows[user] else NO_WINDOW;
      if WindowExpired(userWindow, pacing.windowSeconds, now) {
        userWindow := WithdrawWindow(now, 0, positionShares);
      }
      var window := vaultWindow;
      if WindowExpired(window, pacing.windowSeconds, now) {
        window := WithdrawWindow(now, 0, total);
      }
      if pacing.userMaxBps > 0 {
        var allowance := Allowance(userWindow.windowStartShares, pacing.userMaxBps);
        if userWindow.sharesWithdrawn + shares > allowance {
          return None;
        }
      }
      if pacing.vaultMaxBps > 0 {
        var allowance := Allowance(window.windowStartShares, pacing.vaultMaxBps);
        if window.sharesWithdrawn + shares > allowance {
          return None;
        }
      }
      userWindow := userWindow.(sharesWithdrawn := userWindow.sharesWithdrawn + shares);
      window := window.(sharesWithdrawn := window.sharesWithdrawn + shares);
      return Some(Gate(pacing, userWindows[user := userWindow], window));
    }

    /** Amounts and fees of a withdrawal, token by token. */
    method CalculateRedemption(ghost user: Address, position: UserPosition, shares: int) returns (r: Redemption)
      requires totalShares > 0 && State().book.Position(user) == position
      ensures r == Redeem(State(), user, shares)
    {
      var isFullExit := shares == position.shares;
      var withdrawA := TruncDiv(shares * totalAmountA, totalShares);
      var withdrawB := TruncDiv(shares * totalAmountB, totalShares);
      if isFullExit {
        var leftoverA := totalAmountA - withdrawA;
        if leftoverA <= DUST_THRESHOLD {
          withdrawA := withdrawA + leftoverA;
        }
        var leftoverB := totalAmountB - withdrawB;
        if leftoverB <= DUST_THRESHOLD {
          withdrawB := withdrawB + leftoverB;
        }
      }
      var feeA := TruncDiv(withdrawA * info.withdrawalFee, 10_000);
      var feeB := TruncDiv(withdrawB * info.withdrawalFee, 10_000);
      var performance := PerformanceFee(info, position, withdrawA, withdrawB, shares);
      var performanceA := 0;
      if withdrawA + withdrawB > 0 {
        performanceA := TruncDiv(performance * withdrawA, withdrawA + withdrawB);
      }
      return Redemption(withdrawA, withdrawB, feeA, feeB, performanceA, performance - performanceA);
    }

    method Withdraw(user: Address, shares: int, minAmountA: int, minAmountB: int, now: nat)
      returns (result: Result<(int, int), VaultError>)
      modifies this
      ensures
        var expected := VaultState.Withdraw(old(State()), user, shares, minAmountA, minAmountB, now);
        match result
        case Success(paid) =>
          && expected.Success? && expected.value.0 == State()
          && paid == (expected.value.1.PayoutA(), expected.value.1.PayoutB())
        case Failure(e) => expected == Failure(e) && State() == old(State())
    {
      hide Redeem, ConsumePacing, Settle;
      if paused {
        return Failure(Paused);
      }
      if shares <= 0 {
        return Failure(SharesMustBePositive);
      }
      if shares < params.minWithdrawShares {
        return Failure(WithdrawalBelowMinimum);
      }
      var position := if user in positions then positions[user] else UserPosition(0, 0, 0);
      if position.shares < shares {
        return Failure(InsufficientShares);
      }
      if totalShares <= 0 {
        return Failure(NoSharesOutstanding);
      }
      var r := CalculateRedemption(user, position, shares);
      if shares != position.shares && !(r.redeemedA > 0 || r.redeemedB > 0) {
        return Failure(WithdrawalTooSmall);
      }
      var finalA, finalB := r.redeemedA - r.feeA - r.performanceA, r.redeemedB - r.feeB - r.performanceB;
      if finalA < minAmountA {
        return Failure(InsufficientAmountA);
      }
      if finalB < minAmountB {
        return Failure(InsufficientAmountB);
      }
      var charged := ConsumeWithdrawPacing(user, shares, position.shares, totalShares, now);
      if charged.None? {
        return Failure(PacingLimit);
      }
      PacingKeepsLimits(State().gate, user, shares, position.shares, totalShares, now);
      var settled := SettleWithdrawal(user, shares, position, r, charged.value);
      if !settled {
        return Failure(TransferFailed);
      }
      return Success((finalA, finalB));
    }

    /** Store the new windows, position and totals, and pay the user and the treasury. */
    method SettleWithdrawal(user: Address, shares: int, position: UserPosition, r: Redemption, gate: Gate)
      returns (ok: bool)
      requires State().book.Position(user) == position && gate.pacing == pacing
      modifies this
      ensures
        var expected := Settle(old(State()), user, shares, r, gate);
        if ok then expected == Success(State()) else expected == Failure(TransferFailed) && State() == old(State())
    {
      var paidA := PayOut(tokenA, info.self, user, params.treasury, r.PayoutA(), r.performanceA, r.feeA);
      var paidB := PayOut(tokenB, info.self, user, params.treasury, r.PayoutB(), r.performanceB, r.feeB);
      hide PayOut;
      if paidA.None? || paidB.None? {
        return false;
      }
      userWindows, vaultWindow := gate.userWindows, gate.vaultWindow;
      positions := positions[user := UserPosition(position.shares - shares, position.depositedA - r.redeemedA,
                                                  position.depositedB - r.redeemedB)];
      totalShares := totalShares - shares;
      totalAmountA := totalAmountA - r.redeemedA;
      totalAmountB := totalAmountB - r.redeemedB;
      tokenA, tokenB := paidA.value, paidB.value;
      return true;
    }

    method Harvest(rewardA: nat, rewardB: nat) returns (result: Result<(), VaultError>)
      modifies this
      ensures
        var expected := VaultState.Harvest(old(State()), rewardA, rewardB);
        match result
        case Success(_) => expected == Success(State())
        case Failure(e) => expected == Failure(e) && State() == old(State())
    {
      if paused {
        return Failure(Paused);
      }
      var feeA, feeB := rewardA * info.harvestFee / 10_000, rewardB * info.harvestFee / 10_000;
      var afterA := TransferPositive(Credit(tokenA, info.self, rewardA), info.self, params.treasury, feeA);
      var afterB := TransferPositive(Credit(tokenB, info.self, rewardB), info.self, params.treasury, feeB);
      if afterA.None? || afterB.None? {
        return Failure(TransferFailed);
      }
      totalAmountA := totalAmountA + rewardA - feeA;
      totalAmountB := totalAmountB + rewardB - feeB;
      tokenA, tokenB := afterA.value, afterB.value;
      return Success(());
    }

    method SetWithdrawPacing(caller: Address, userMaxBps: nat, vaultMaxBps: nat, windowSeconds: nat)
      returns (result: Result<(), VaultError>)
      modifies this`pacing
      ensures
        var expected := VaultState.SetWithdrawPacing(old(State()), caller,
                                                     WithdrawPacing(userMaxBps, vaultMaxBps, windowSeconds));
        match result
        case Success(_) => expected == Success(State())
        case Failure(e) => expected == Failure(e) && State() == old(State())
    {
      if caller != owner {
        return Failure(Unauthorized);
      }
      var enabled := userMaxBps > 0 || vaultMaxBps > 0;
      if userMaxBps > 10_000 || vaultMaxBps > 10_000 || (enabled && windowSeconds == 0) {
        return Failure(InvalidPacing);
      }
      pacing := WithdrawPacing(userMaxBps, vaultMaxBps, windowSeconds);
      return Success(());
    }

    /** Queue an action under the next identifier and the delay in force now. */
    method Enqueue(action: AdminAction, now: nat) returns (id: nat)
      modifies this`nextActionId, this`pending
      ensures id == old(nextActionId) && nextActionId == old(nextActionId) + 1
      ensures pending == old(pending)[id := PendingAction(action, SaturatingAdd64(now, params.timelockDelay))]
    {
      id := nextActionId;
      nextActionId := nextActionId + 1;
      var executableAt := SaturatingAdd64(now, params.timelockDelay);
      pending := pending[id := PendingAction(action, executableAt)];
    }

    method Propose(caller: Address, action: AdminAction, now: nat) returns (result: Result<nat, VaultError>)
      modifies this`nextActionId, this`pending
      ensures
        var expected := VaultState.Propose(old(State()), caller, action, now);
        match result
        case Success(id) => expected == Success(State()) && id == old(nextActionId)
        case Failure(e) => expected == Failure(e) && State() == old(State())
    {
      if caller != owner {
        return Failure(Unauthorized);
      }
      var error := ProposalError(action);
      if error.Some? {
        return Failure(error.value);
      }
      var id := Enqueue(action, now);
      return Success(id);
    }

    method ExecutePendingAction(caller: Address, id: nat, now: nat) returns (result: Result<(), VaultError>)
      modifies this`pending, this`params, this`prices
      ensures
        var expected := Execute(old(State()), caller, id, now);
        match result
        case Success(_) => expected == Success(State())
        case Failure(e) => expected == Failure(e) && State() == old(State())
    {
      if caller != owner {
        return Failure(Unauthorized);
      }
      if id !in pending {
        return Failure(NoSuchAction);
      }
      var entry := pending[id];
      if now < entry.executableAt {
        return Failure(StillTimelocked);
      }
      pending := pending - {id};
      match entry.action {
        case Prices(priceA, priceB) => prices := (priceA, priceB);
        case MinDepositAmounts(minA, minB) => params := params.(minDepositA := minA, minDepositB := minB);
        case MinWithdrawShares(minShares) => params := params.(minWithdrawShares := minShares);
        case Treasury(treasury) => params := params.(treasury := treasury);
        case TimelockDelay(delay) => params := params.(timelockDelay := delay);
      }
      return Success(());
    }

    method CancelPendingAction(caller: Address, id: nat) returns (result: Result<(), VaultError>)
      modifies this`pending
      ensures
        var expected := Cancel(old(State()), caller, id);
        match result
        case Success(_) => expected == Success(State())
        case Failure(e) => expected == Failure(e) && State() == old(State())
    {
      if caller != owner {
        return Failure(Unauthorized);
      }
      if id !in pending {
        return Failure(NoSuchAction);
      }
      pending := pending - {id};
      return Success(());
    }
  }

  /** Charging a withdrawal never changes the limits themselves. */
  lemma PacingKeepsLimits(gate: Gate, user: Address, shares: int, positionShares: int, totalShares: int, now: nat)
    ensures
      var charged := ConsumePacing(gate, user, shares, positionShares, totalShares, now);
      charged.Some? ==> charged.value.pacing == gate.pacing
  {
  }
}
