/**
 The vault as a state machine: every entry point as a function from the state before a call to
 either an error or the state after it. A failing call leaves no trace, as the ledger rolls it back.
 */
module VaultState {
  import opened Wrappers
  import opened Integers
  import opened TokenLedger

  /** A leftover at or below this is swept into a full exit. */
  const DUST_THRESHOLD: int := 1

  const DEFAULT_TIMELOCK_DELAY: nat := 48 * 60 * 60

  datatype VaultError =
    | Unauthorized | Paused | AmountBelowMinimum | DepositMustBePositive | DepositTooSmall
    | InsufficientSharesReceived | SharesMustBePositive | WithdrawalBelowMinimum | InsufficientShares
    | NoSharesOutstanding | WithdrawalTooSmall | InsufficientAmountA | InsufficientAmountB
    | NegativeMinimumDeposit | MinSharesMustBePositive | NegativePrice
    | PacingLimit | TransferFailed | NoSuchAction | StillTimelocked | InvalidPacing

  /** Fixed at initialization; `self` is the vault's own address. Fees are in basis points. */
  datatype VaultInfo = VaultInfo(self: Address, feeRate: nat, harvestFee: nat, withdrawalFee: nat)
  {
    predicate Valid() {
      feeRate <= 10_000 && harvestFee <= 10_000 && withdrawalFee <= 10_000
    }
  }

  datatype UserPosition = UserPosition(shares: int, depositedA: int, depositedB: int)

  /** Share and token accounting, with the balances both token contracts record. */
  datatype Book = Book(
    totalShares: int, totalA: int, totalB: int, positions: map<Address, UserPosition>,
    tokenA: Balances, tokenB: Balances)
  {
    function Position(user: Address): UserPosition {
      if user in positions then positions[user] else UserPosition(0, 0, 0)
    }

    function Value(): int {
      totalA + totalB
    }
  }

  datatype WithdrawPacing = WithdrawPacing(userMaxBps: nat, vaultMaxBps: nat, windowSeconds: nat)
  {
    predicate Enabled() {
      windowSeconds != 0 && (userMaxBps != 0 || vaultMaxBps != 0)
    }
  }

  datatype WithdrawWindow = WithdrawWindow(windowStartedAt: nat, sharesWithdrawn: int, windowStartShares: int)

  const NO_WINDOW := WithdrawWindow(0, 0, 0)

  datatype Gate = Gate(pacing: WithdrawPacing, userWindows: map<Address, WithdrawWindow>, vaultWindow: WithdrawWindow)
  {
    function UserWindow(user: Address): WithdrawWindow {
      if user in userWindows then userWindows[user] else NO_WINDOW
    }
  }

  datatype AdminAction =
    | Prices(priceA: int, priceB: int)
    | MinDepositAmounts(minA: int, minB: int)
    | MinWithdrawShares(minShares: int)
    | Treasury(treasury: Address)
    | TimelockDelay(delay: nat)

  datatype PendingAction = PendingAction(action: AdminAction, executableAt: nat)

  /** The parameters that only the timelock may change. */
  datatype Params = Params(
    minDepositA: int, minDepositB: int, minWithdrawShares: int, treasury: Address, timelockDelay: nat)

  datatype Admin = Admin(
    owner: Address, params: Params, prices: (int, int), nextActionId: nat, pending: map<nat, PendingAction>)

  datatype Vault = Vault(info: VaultInfo, paused: bool, book: Book, gate: Gate, admin: Admin)

  // ---------- deposit ----------

  /** Shares minted for a combined deposit value: one to one first, then in proportion, rounded down. */
  function MintedShares(book: Book, value: int): int {
    if book.totalShares == 0 then value
    else if book.Value() <= 0 then 0
    else TruncDiv(value * book.totalShares, book.Value())
  }

  /** Take both legs into the vault's balances and credit the shares. */
  function SettleDeposit(v: Vault, user: Address, amountA: int, amountB: int, shares: int): Result<Vault, VaultError> {
    var b := v.book;
    var tokenA := Transfer(b.tokenA, user, v.info.self, amountA);
    var tokenB := Transfer(b.tokenB, user, v.info.self, amountB);
    if tokenA.None? || tokenB.None? then Failure(TransferFailed)
    else
      var p := b.Position(user);
      var p' := UserPosition(p.shares + shares, p.depositedA + amountA, p.depositedB + amountB);
      Success(v.(book := Book(b.totalShares + shares, b.totalA + amountA, b.totalB + amountB,
                              b.positions[user := p'], tokenA.value, tokenB.value)))
  }

  function Deposit(v: Vault, user: Address, amountA: int, amountB: int, minShares: int)
    : Result<(Vault, int), VaultError>
  {
    var shares := MintedShares(v.book, amountA + amountB);
    if v.paused then Failure(Paused)
    else if amountA < v.admin.params.minDepositA || amountB < v.admin.params.minDepositB then Failure(AmountBelowMinimum)
    else if amountA + amountB <= 0 then Failure(DepositMustBePositive)
    else if shares <= 0 then Failure(DepositTooSmall)
    else if shares < minShares then Failure(InsufficientSharesReceived)
    else
      match SettleDeposit(v, user, amountA, amountB, shares)
      case Success(v') => Success((v', shares))
      case Failure(e) => Failure(e)
  }

  // ---------- withdrawal ----------

  /** What a withdrawal redeems per token and how that splits into fees and payout. */
  datatype Redemption = Redemption(
    redeemedA: int, redeemedB: int, feeA: int, feeB: int, performanceA: int, performanceB: int)
  {
    function PayoutA(): int {
      redeemedA - feeA - performanceA
    }

    function PayoutB(): int {
      redeemedB - feeB - performanceB
    }
  }

  /** The proportional part of one token's total, with a dust leftover swept in on a full exit. */
  function RedeemedAmount(total: int, shares: int, totalShares: int, fullExit: bool): int
    requires totalShares > 0
  {
    var part := TruncDiv(shares * total, totalShares);
    if fullExit && total - part <= DUST_THRESHOLD then total else part
  }

  /** Performance fee on the gain over the proportional historical deposits. */
  function PerformanceFee(info: VaultInfo, position: UserPosition, redeemedA: int, redeemedB: int, shares: int): int {
    if info.feeRate == 0 || position.shares <= 0 then 0
    else
      var costA := TruncDiv(position.depositedA * shares, position.shares);
      var costB := TruncDiv(position.depositedB * shares, position.shares);
      var gain := redeemedA + redeemedB - (costA + costB);
      if gain > 0 then TruncDiv(gain * info.feeRate, 10_000) else 0
  }

  function Redeem(v: Vault, user: Address, shares: int): Redemption
    requires v.book.totalShares > 0
  {
    var b, p := v.book, v.book.Position(user);
    var fullExit := shares == p.shares;
    var redeemedA := RedeemedAmount(b.totalA, shares, b.totalShares, fullExit);
    var redeemedB := RedeemedAmount(b.totalB, shares, b.totalShares, fullExit);
    var performance := PerformanceFee(v.info, p, redeemedA, redeemedB, shares);
    var performanceA :=
      if redeemedA + redeemedB > 0 then TruncDiv(performance * redeemedA, redeemedA + redeemedB) else 0;
    Redemption(redeemedA, redeemedB,
               TruncDiv(redeemedA * v.info.withdrawalFee, 10_000), TruncDiv(redeemedB * v.info.withdrawalFee, 10_000),
               performanceA, performance - performanceA)
  }

  /** An allowance in basis points of the shares held when the window opened, rounded up. */
  function Allowance(startShares: int, bps: nat): int {
    TruncDiv(startShares * bps + 9_999, 10_000)
  }

  function WindowExpired(w: WithdrawWindow, length: nat, now: nat): bool {
    w.windowStartShares == 0 || SaturatingSub(now, w.windowStartedAt) >= length
  }

  function RolledWindow(w: WithdrawWindow, length: nat, now: nat, held: int): WithdrawWindow {
    if WindowExpired(w, length, now) then WithdrawWindow(now, 0, held) else w
  }

  predicate WithinAllowance(w: WithdrawWindow, bps: nat, shares: int) {
    bps > 0 ==> w.sharesWithdrawn + shares <= Allowance(w.windowStartShares, bps)
  }

  /** Charge a withdrawal to the user's and the vault's window; None when either allowance is exceeded. */
  function ConsumePacing(gate: Gate, user: Address, shares: int, positionShares: int, totalShares: int, now: nat)
    : Option<Gate>
  {
    var pacing := gate.pacing;
    if !pacing.Enabled() then Some(gate)
    else
      var u := RolledWindow(gate.UserWindow(user), pacing.windowSeconds, now, positionShares);
      var w := RolledWindow(gate.vaultWindow, pacing.windowSeconds, now, totalShares);
      if !WithinAllowance(u, pacing.userMaxBps, shares) || !WithinAllowance(w, pacing.vaultMaxBps, shares) then None
      else
        Some(gate.(userWindows := gate.userWindows[user := u.(sharesWithdrawn := u.sharesWithdrawn + shares)],
                   vaultWindow := w.(sharesWithdrawn := w.sharesWithdrawn + shares)))
  }

  /** Payout to the user, then the performance fee and the withdrawal fee to the treasury. */
  function PayOut(balances: Balances, self: Address, user: Address, treasury: Address, payout: int,
                  performance: int, fee: int): Option<Balances>
  {
    var paid :- Transfer(balances, self, user, payout);
    var afterPerformance :- TransferPositive(paid, self, treasury, performance);
    TransferPositive(afterPerformance, self, treasury, fee)
  }

  /** Pay a redemption out of the vault's balances and retire its shares. */
  function Settle(v: Vault, user: Address, shares: int, r: Redemption, gate: Gate): Result<Vault, VaultError> {
    var b, p, treasury := v.book, v.book.Position(user), v.admin.params.treasury;
    var tokenA := PayOut(b.tokenA, v.info.self, user, treasury, r.PayoutA(), r.performanceA, r.feeA);
    var tokenB := PayOut(b.tokenB, v.info.self, user, treasury, r.PayoutB(), r.performanceB, r.feeB);
    if tokenA.None? || tokenB.None? then Failure(TransferFailed)
    else
      var p' := UserPosition(p.shares - shares, p.depositedA - r.redeemedA, p.depositedB - r.redeemedB);
      Success(v.(gate := gate,
                 book := Book(b.totalShares - shares, b.totalA - r.redeemedA, b.totalB - r.redeemedB,
                              b.positions[user := p'], tokenA.value, tokenB.value)))
  }

  function Withdraw(v: Vault, user: Address, shares: int, minAmountA: int, minAmountB: int, now: nat)
    : Result<(Vault, Redemption), VaultError>
  {
    var b, p := v.book, v.book.Position(user);
    if v.paused then Failure(Paused)
    else if shares <= 0 then Failure(SharesMustBePositive)
    else if shares < v.admin.params.minWithdrawShares then Failure(WithdrawalBelowMinimum)
    else if p.shares < shares then Failure(InsufficientShares)
    else if b.totalShares <= 0 then Failure(NoSharesOutstanding)
    else
      var r := Redeem(v, user, shares);
      if shares != p.shares && r.redeemedA <= 0 && r.redeemedB <= 0 then Failure(WithdrawalTooSmall)
      else if r.PayoutA() < minAmountA then Failure(InsufficientAmountA)
      else if r.PayoutB() < minAmountB then Failure(InsufficientAmountB)
      else
        var gate := ConsumePacing(v.gate, user, shares, p.shares, b.totalShares, now);
        if gate.None? then Failure(PacingLimit)
        else
          match Settle(v, user, shares, r, gate.value)
          case Success(v') => Success((v', r))
          case Failure(e) => Failure(e)
  }

  // ---------- harvest ----------

  /** Rewards arrive in the vault's balance; the fee goes to the treasury, the rest is reinvested. */
  function Harvest(v: Vault, rewardA: nat, rewardB: nat): Result<Vault, VaultError> {
    var b := v.book;
    var feeA, feeB := rewardA * v.info.harvestFee / 10_000, rewardB * v.info.harvestFee / 10_000;
    var treasury := v.admin.params.treasury;
    if v.paused then Failure(Paused)
    else
      var tokenA := TransferPositive(Credit(b.tokenA, v.info.self, rewardA), v.info.self, treasury, feeA);
      var tokenB := TransferPositive(Credit(b.tokenB, v.info.self, rewardB), v.info.self, treasury, feeB);
      if tokenA.None? || tokenB.None? then Failure(TransferFailed)
      else
        Success(v.(book := b.(totalA := b.totalA + rewardA - feeA, totalB := b.totalB + rewardB - feeB,
                              tokenA := tokenA.value, tokenB := tokenB.value)))
  }

  // ---------- administration ----------

  function SetWithdrawPacing(v: Vault, caller: Address, pacing: WithdrawPacing): Result<Vault, VaultError> {
    if caller != v.admin.owner then Failure(Unauthorized)
    else if pacing.userMaxBps > 10_000 || pacing.vaultMaxBps > 10_000
            || ((pacing.userMaxBps > 0 || pacing.vaultMaxBps > 0) && pacing.windowSeconds == 0) then
      Failure(InvalidPacing)
    else Success(v.(gate := v.gate.(pacing := pacing)))
  }

  /** The checks each proposal makes before it is queued. */
  function ProposalError(action: AdminAction): Option<VaultError> {
    match action
    case Prices(a, b) => if a < 0 || b < 0 then Some(NegativePrice) else None
    case MinDepositAmounts(a, b) => if a < 0 || b < 0 then Some(NegativeMinimumDeposit) else None
    case MinWithdrawShares(s) => if s <= 0 then Some(MinSharesMustBePositive) else None
    case _ => None
  }

  function Propose(v: Vault, caller: Address, action: AdminAction, now: nat): Result<Vault, VaultError> {
    var a := v.admin;
    if caller != a.owner then Failure(Unauthorized)
    else if ProposalError(action).Some? then Failure(ProposalError(action).value)
    else
      var entry := PendingAction(action, SaturatingAdd64(now, a.params.timelockDelay));
      Success(v.(admin := a.(nextActionId := a.nextActionId + 1, pending := a.pending[a.nextActionId := entry])))
  }

  function ApplyAction(a: Admin, action: AdminAction): Admin {
    match action
    case Prices(x, y) => a.(prices := (x, y))
    case MinDepositAmounts(x, y) => a.(params := a.params.(minDepositA := x, minDepositB := y))
    case MinWithdrawShares(s) => a.(params := a.params.(minWithdrawShares := s))
    case Treasury(t) => a.(params := a.params.(treasury := t))
    case TimelockDelay(d) => a.(params := a.params.(timelockDelay := d))
  }

  function Execute(v: Vault, caller: Address, id: nat, now: nat): Result<Vault, VaultError> {
    var a := v.admin;
    if caller != a.owner then Failure(Unauthorized)
    else if id !in a.pending then Failure(NoSuchAction)
    else if now < a.pending[id].executableAt then Failure(StillTimelocked)
    else Success(v.(admin := ApplyAction(a.(pending := a.pending - {id}), a.pending[id].action)))
  }

  function Cancel(v: Vault, caller: Address, id: nat): Result<Vault, VaultError> {
    var a := v.admin;
    if caller != a.owner then Failure(Unauthorized)
    else if id !in a.pending then Failure(NoSuchAction)
    else Success(v.(admin := a.(pending := a.pending - {id})))
  }

  function SetPrices(v: Vault, caller: Address, priceA: int, priceB: int): Result<Vault, VaultError> {
    if caller != v.admin.owner then Failure(Unauthorized)
    else if priceA < 0 || priceB < 0 then Failure(NegativePrice)
    else Success(v.(admin := v.admin.(prices := (priceA, priceB))))
  }

  function SetPaused(v: Vault, caller: Address, paused: bool): Result<Vault, VaultError> {
    if caller != v.admin.owner then Failure(Unauthorized) else Success(v.(paused := paused))
  }

  // ---------- runs ----------

  datatype Call =
    | DepositCall(user: Address, amountA: int, amountB: int, minShares: int)
    | WithdrawCall(user: Address, shares: int, minAmountA: int, minAmountB: int)
    | HarvestCall(rewardA: nat, rewardB: nat)
    | SetPacingCall(caller: Address, pacing: WithdrawPacing)
    | ProposeCall(caller: Address, action: AdminAction)
    | ExecuteCall(caller: Address, id: nat)
    | CancelCall(caller: Address, id: nat)
    | SetPricesCall(caller: Address, priceA: int, priceB: int)
    | SetPausedCall(caller: Address, paused: bool)
    | OutsideTransfer(from: Address, to: Address, amountA: int, amountB: int)

  /** A call and the ledger time at which it runs. */
  datatype Timed = Timed(now: nat, call: Call)

  function Perform(v: Vault, t: Timed): Result<Vault, VaultError> {
    match t.call
    case DepositCall(user, a, b, m) =>
      (match Deposit(v, user, a, b, m) case Success(out) => Success(out.0) case Failure(e) => Failure(e))
    case WithdrawCall(user, s, a, b) =>
      (match Withdraw(v, user, s, a, b, t.now) case Success(out) => Success(out.0) case Failure(e) => Failure(e))
    case HarvestCall(a, b) => Harvest(v, a, b)
    case SetPacingCall(caller, pacing) => SetWithdrawPacing(v, caller, pacing)
    case ProposeCall(caller, action) => Propose(v, caller, action, t.now)
    case ExecuteCall(caller, id) => Execute(v, caller, id, t.now)
    case CancelCall(caller, id) => Cancel(v, caller, id)
    case SetPricesCall(caller, a, b) => SetPrices(v, caller, a, b)
    case SetPausedCall(caller, paused) => SetPaused(v, caller, paused)
    case OutsideTransfer(from, to, a, b) =>
      var tokenA, tokenB := Transfer(v.book.tokenA, from, to, a), Transfer(v.book.tokenB, from, to, b);
      if tokenA.None? || tokenB.None? then Failure(TransferFailed)
      else Success(v.(book := v.book.(tokenA := tokenA.value, tokenB := tokenB.value)))
  }

  function Step(v: Vault, t: Timed): Vault {
    match Perform(v, t)
    case Success(v') => v'
    case Failure(_) => v
  }

  function Run(v: Vault, trace: seq<Timed>): Vault {
    if trace == [] then v else Step(Run(v, trace[..|trace| - 1]), trace[|trace| - 1])
  }

  /**
   The vault account never acts as a caller of its own: it makes no deposit and no transfer outside
   the vault's own code.
   */
  predicate External(v: Vault, call: Call) {
    match call
    case DepositCall(user, _, _, _) => user != v.info.self
    case OutsideTransfer(from, _, _, _) => from != v.info.self
    case _ => true
  }

  ghost predicate AllExternal(v: Vault, trace: seq<Timed>) {
    forall i :: 0 <= i < |trace| ==> External(v, trace[i].call)
  }
}
