/** Conservation, solvency, share price and round trips of the vault, call by call and over whole runs. */
module VaultAccounting {
  import opened Wrappers
  import opened Integers
  import opened TokenLedger
  import opened VaultState

  // ---------- invariant ----------

  ghost function ShareMap(positions: map<Address, UserPosition>): map<Address, int> {
    map u | u in positions :: positions[u].shares
  }

  /**
   Shares add up, nobody holds a negative amount, and the vault really holds, in both token
   contracts, at least what it tracks.
   */
  ghost predicate Solvent(self: Address, b: Book) {
    && 0 <= b.totalA <= BalanceOf(b.tokenA, self)
    && 0 <= b.totalB <= BalanceOf(b.tokenB, self)
    && 0 <= b.totalShares == Total(ShareMap(b.positions))
    && forall u :: u in b.positions ==> b.positions[u].shares >= 0
  }

  ghost predicate SaneAction(action: AdminAction) {
    action.MinDepositAmounts? ==> action.minA >= 0 && action.minB >= 0
  }

  ghost predicate Valid(v: Vault) {
    && v.info.Valid()
    && Solvent(v.info.self, v.book)
    && v.admin.params.minDepositA >= 0 && v.admin.params.minDepositB >= 0
    && forall id :: id in v.admin.pending ==> SaneAction(v.admin.pending[id].action)
  }

  // ---------- arithmetic of minting and redeeming ----------

  lemma MintIsFair(value: int, shares: int, total: int)
    requires value > 0 && shares > 0 && total > 0
    ensures TruncDiv(value * shares, total) >= 0
    ensures TruncDiv(value * shares, total) * total <= value * shares
  {
    MulNonNegative(value, shares);
    DivisionBounds(value * shares, total);
    QuotientAtLeast(value * shares, total, 0);
  }

  lemma PartIsFair(total: int, shares: int, totalShares: int)
    requires 0 <= total && 0 < shares <= totalShares
    ensures 0 <= TruncDiv(shares * total, totalShares) <= total
    ensures TruncDiv(shares * total, totalShares) * totalShares <= shares * total
  {
    MulNonNegative(shares, total);
    DivisionBounds(shares * total, totalShares);
    QuotientAtLeast(shares * total, totalShares, 0);
    MulMonotone(shares, totalShares, total);
    assert (total + 1) * totalShares == totalShares * total + totalShares;
    QuotientAtMost(shares * total, totalShares, total);
  }

  /** What a sweep adds to the proportional part of one token. */
  ghost function Swept(total: int, shares: int, totalShares: int, fullExit: bool): int
    requires totalShares > 0
  {
    RedeemedAmount(total, shares, totalShares, fullExit) - TruncDiv(shares * total, totalShares)
  }

  lemma RedeemedBounds(total: int, shares: int, totalShares: int, fullExit: bool)
    requires 0 <= total && 0 < shares <= totalShares
    ensures 0 <= RedeemedAmount(total, shares, totalShares, fullExit) <= total
    ensures 0 <= Swept(total, shares, totalShares, fullExit) <= if fullExit then DUST_THRESHOLD else 0
    ensures (RedeemedAmount(total, shares, totalShares, fullExit) - Swept(total, shares, totalShares, fullExit))
            * totalShares <= shares * total
  {
    PartIsFair(total, shares, totalShares);
  }

  /** A basis-point fee of a nonnegative amount is between zero and the amount. */
  lemma FeeBounds(amount: int, bps: nat)
    requires 0 <= amount && bps <= 10_000
    ensures 0 <= TruncDiv(amount * bps, 10_000) <= amount
    ensures TruncDiv(amount * bps, 10_000) * 10_000 <= amount * bps
  {
    MulNonNegative(amount, bps);
    MulMonotone(bps, 10_000, amount);
  }

  lemma PerformanceFeeNonNegative(info: VaultInfo, p: UserPosition, redeemedA: int, redeemedB: int, shares: int)
    ensures PerformanceFee(info, p, redeemedA, redeemedB, shares) >= 0
  {
    if info.feeRate != 0 && p.shares > 0 {
      var gain := redeemedA + redeemedB
        - (TruncDiv(p.depositedA * shares, p.shares) + TruncDiv(p.depositedB * shares, p.shares));
      if gain > 0 {
        MulNonNegative(gain, info.feeRate);
      }
    }
  }

  /** The proportional share of a fee lies between zero and the fee. */
  lemma SplitBounds(fee: int, part: int, whole: int)
    requires 0 <= fee && 0 <= part <= whole && 0 < whole
    ensures 0 <= TruncDiv(fee * part, whole) <= fee
  {
    MulNonNegative(fee, part);
    MulMonotone(part, whole, fee);
    QuotientAtLeast(fee * part, whole, 0);
    assert (fee + 1) * whole == whole * fee + whole;
    QuotientAtMost(fee * part, whole, fee);
  }

  ghost predicate CanRedeem(v: Vault, user: Address, shares: int) {
    && v.info.Valid() && v.book.totalA >= 0 && v.book.totalB >= 0
    && 0 < shares <= v.book.Position(user).shares <= v.book.totalShares
  }

  /** Redemptions and all four fees are in range, and each token's payout and fees add up to what it redeems. */
  lemma RedemptionRanges(v: Vault, user: Address, shares: int)
    requires CanRedeem(v, user, shares)
    ensures
      var r := Redeem(v, user, shares);
      && 0 <= r.redeemedA <= v.book.totalA && 0 <= r.redeemedB <= v.book.totalB
      && 0 <= r.feeA <= r.redeemedA && 0 <= r.feeB <= r.redeemedB
      && 0 <= r.performanceA && 0 <= r.performanceB
      && r.PayoutA() + r.feeA + r.performanceA == r.redeemedA
      && r.PayoutB() + r.feeB + r.performanceB == r.redeemedB
      && r.performanceA + r.performanceB
         == PerformanceFee(v.info, v.book.Position(user), r.redeemedA, r.redeemedB, shares)
  {
    var b, p := v.book, v.book.Position(user);
    var fullExit := shares == p.shares;
    var r := Redeem(v, user, shares);
    RedeemedBounds(b.totalA, shares, b.totalShares, fullExit);
    RedeemedBounds(b.totalB, shares, b.totalShares, fullExit);
    FeeBounds(r.redeemedA, v.info.withdrawalFee);
    FeeBounds(r.redeemedB, v.info.withdrawalFee);
    PerformanceFeeNonNegative(v.info, p, r.redeemedA, r.redeemedB, shares);
    if r.redeemedA + r.redeemedB > 0 {
      SplitBounds(r.performanceA + r.performanceB, r.redeemedA, r.redeemedA + r.redeemedB);
    }
  }

  // ---------- token movements of a withdrawal ----------

  /**
   Paying out never fails for lack of funds: with enough balance it fails exactly when the payout
   is negative. The token supply is kept, and the vault gives up at most the three amounts.
   */
  lemma PayOutConserves(balances: Balances, self: Address, user: Address, treasury: Address, payout: int,
                        performance: int, fee: int)
    requires 0 <= performance && 0 <= fee && payout + performance + fee <= BalanceOf(balances, self)
    ensures PayOut(balances, self, user, treasury, payout, performance, fee).None? <==> payout < 0
    ensures
      var after := PayOut(balances, self, user, treasury, payout, performance, fee);
      after.Some? ==>
        && Total(after.value) == Total(balances)
        && BalanceOf(after.value, self) >= BalanceOf(balances, self) - payout - performance - fee
        && (user != self && treasury != self ==>
              BalanceOf(after.value, self) == BalanceOf(balances, self) - payout - performance - fee)
  {
    if payout >= 0 {
      TransferConserves(balances, self, user, payout);
      var paid := Transfer(balances, self, user, payout).value;
      if performance > 0 { TransferConserves(paid, self, treasury, performance); }
      var after := TransferPositive(paid, self, treasury, performance).value;
      if fee > 0 { TransferConserves(after, self, treasury, fee); }
    }
  }

  // ---------- each call keeps the invariant ----------

  lemma {:induction false} PartOfTotal(m: map<Address, int>, k: Address)
    requires k in m && forall j :: j in m ==> m[j] >= 0
    ensures 0 <= m[k] <= Total(m)
  {
    TotalWithout(m, k);
    TotalNonNegative(m - {k});
  }

  lemma {:induction false} TotalNonNegative(m: map<Address, int>)
    requires forall j :: j in m ==> m[j] >= 0
    ensures Total(m) >= 0
    decreases |m|
  {
    if m != map[] {
      var k :| k in m;
      TotalWithout(m, k);
      assert (m - {k}).Keys == m.Keys - {k};
      TotalNonNegative(m - {k});
    }
  }

  lemma PositionWithinTotal(v: Vault, user: Address)
    requires Solvent(v.info.self, v.book)
    ensures 0 <= v.book.Position(user).shares <= v.book.totalShares
  {
    var m := ShareMap(v.book.positions);
    if user in v.book.positions {
      PartOfTotal(m, user);
    }
  }

  lemma ShareTotalUpdate(positions: map<Address, UserPosition>, user: Address, p: UserPosition)
    ensures Total(ShareMap(positions[user := p]))
            == Total(ShareMap(positions)) - (if user in positions then positions[user].shares else 0) + p.shares
  {
    assert ShareMap(positions[user := p]) == ShareMap(positions)[user := p.shares];
    TotalUpdate(ShareMap(positions), user, p.shares);
  }

  /** Tokens the vault holds beyond what it tracks. */
  ghost function SurplusA(v: Vault): int {
    BalanceOf(v.book.tokenA, v.info.self) - v.book.totalA
  }

  ghost function SurplusB(v: Vault): int {
    BalanceOf(v.book.tokenB, v.info.self) - v.book.totalB
  }

  /** Tokens moving in and shares minted for them keep a book solvent. */
  lemma DepositedBook(self: Address, b: Book, user: Address, p: UserPosition, amountA: int, amountB: int)
    requires Solvent(self, b) && user != self
    requires 0 <= b.Position(user).shares <= p.shares
    requires Transfer(b.tokenA, user, self, amountA).Some? && Transfer(b.tokenB, user, self, amountB).Some?
    ensures
      var tokenA, tokenB := Transfer(b.tokenA, user, self, amountA).value, Transfer(b.tokenB, user, self, amountB).value;
      && Solvent(self, Book(b.totalShares + p.shares - b.Position(user).shares, b.totalA + amountA, b.totalB + amountB,
                            b.positions[user := p], tokenA, tokenB))
      && Total(tokenA) == Total(b.tokenA) && Total(tokenB) == Total(b.tokenB)
      && BalanceOf(tokenA, self) == BalanceOf(b.tokenA, self) + amountA
      && BalanceOf(tokenB, self) == BalanceOf(b.tokenB, self) + amountB
  {
    ShareTotalUpdate(b.positions, user, p);
    TransferConserves(b.tokenA, user, self, amountA);
    TransferConserves(b.tokenB, user, self, amountB);
  }

  /** What a successful deposit does. */
  lemma DepositShape(v: Vault, user: Address, amountA: int, amountB: int, minShares: int)
    returns (v': Vault, minted: int)
    requires Deposit(v, user, amountA, amountB, minShares).Success?
    ensures Deposit(v, user, amountA, amountB, minShares) == Success((v', minted))
    ensures minted > 0 && minted == MintedShares(v.book, amountA + amountB)
    ensures
      var b, p, self := v.book, v.book.Position(user), v.info.self;
      var tokenA, tokenB := Transfer(b.tokenA, user, self, amountA), Transfer(b.tokenB, user, self, amountB);
      && tokenA.Some? && tokenB.Some?
      && v' == v.(book := Book(b.totalShares + minted, b.totalA + amountA, b.totalB + amountB,
                               b.positions[user := UserPosition(p.shares + minted, p.depositedA + amountA,
                                                                p.depositedB + amountB)],
                               tokenA.value, tokenB.value))
  {
    hide MintedShares, Transfer;
    var out := Deposit(v, user, amountA, amountB, minShares).value;
    v', minted := out.0, out.1;
  }

  lemma DepositKeepsSolvent(v: Vault, user: Address, amountA: int, amountB: int, minShares: int)
    requires Valid(v) && user != v.info.self
    ensures
      var out := Deposit(v, user, amountA, amountB, minShares);
      out.Success? ==>
        && Valid(out.value.0)
        && Total(out.value.0.book.tokenA) == Total(v.book.tokenA)
        && Total(out.value.0.book.tokenB) == Total(v.book.tokenB)
        && SurplusA(out.value.0) == SurplusA(v) && SurplusB(out.value.0) == SurplusB(v)
  {
    hide Deposit, MintedShares, Transfer;
    if Deposit(v, user, amountA, amountB, minShares).Success? {
      var v', minted := DepositShape(v, user, amountA, amountB, minShares);
      PositionWithinTotal(v, user);
      var p := v.book.Position(user);
      DepositedBook(v.info.self, v.book, user,
                    UserPosition(p.shares + minted, p.depositedA + amountA, p.depositedB + amountB), amountA, amountB);
    }
  }

  /** Paying a redemption out and retiring its shares keeps a book solvent. */
  lemma WithdrawnBook(self: Address, b: Book, user: Address, treasury: Address, p: UserPosition, r: Redemption)
    requires Solvent(self, b)
    requires 0 <= p.shares <= b.Position(user).shares
    requires 0 <= r.redeemedA <= b.totalA && 0 <= r.redeemedB <= b.totalB
    requires 0 <= r.feeA && 0 <= r.feeB && 0 <= r.performanceA && 0 <= r.performanceB
    requires PayOut(b.tokenA, self, user, treasury, r.PayoutA(), r.performanceA, r.feeA).Some?
    requires PayOut(b.tokenB, self, user, treasury, r.PayoutB(), r.performanceB, r.feeB).Some?
    ensures
      var tokenA := PayOut(b.tokenA, self, user, treasury, r.PayoutA(), r.performanceA, r.feeA).value;
      var tokenB := PayOut(b.tokenB, self, user, treasury, r.PayoutB(), r.performanceB, r.feeB).value;
      && Solvent(self, Book(b.totalShares + p.shares - b.Position(user).shares, b.totalA - r.redeemedA,
                            b.totalB - r.redeemedB, b.positions[user := p], tokenA, tokenB))
      && Total(tokenA) == Total(b.tokenA) && Total(tokenB) == Total(b.tokenB)
      && BalanceOf(tokenA, self) >= BalanceOf(b.tokenA, self) - r.redeemedA
      && BalanceOf(tokenB, self) >= BalanceOf(b.tokenB, self) - r.redeemedB
      && (user != self && treasury != self ==>
            && BalanceOf(tokenA, self) == BalanceOf(b.tokenA, self) - r.redeemedA
            && BalanceOf(tokenB, self) == BalanceOf(b.tokenB, self) - r.redeemedB)
  {
    ShareTotalUpdate(b.positions, user, p);
    PayOutConserves(b.tokenA, self, user, treasury, r.PayoutA(), r.performanceA, r.feeA);
    PayOutConserves(b.tokenB, self, user, treasury, r.PayoutB(), r.performanceB, r.feeB);
    if user in b.positions {
      TotalNonNegative(ShareMap(b.positions[user := p]));
    } else {
      assert p.shares == 0;
    }
  }

  /** What a successful withdrawal does, with its redemption as a whole. */
  lemma WithdrawShape(v: Vault, user: Address, shares: int, minA: int, minB: int, now: nat) returns (r: Redemption)
    requires Valid(v) && Withdraw(v, user, shares, minA, minB, now).Success?
    ensures CanRedeem(v, user, shares) && r == Redeem(v, user, shares)
    ensures 0 <= r.redeemedA <= v.book.totalA && 0 <= r.redeemedB <= v.book.totalB
    ensures 0 <= r.feeA && 0 <= r.feeB && 0 <= r.performanceA && 0 <= r.performanceB
    ensures
      var b, p, treasury, self := v.book, v.book.Position(user), v.admin.params.treasury, v.info.self;
      var tokenA := PayOut(b.tokenA, self, user, treasury, r.PayoutA(), r.performanceA, r.feeA);
      var tokenB := PayOut(b.tokenB, self, user, treasury, r.PayoutB(), r.performanceB, r.feeB);
      var out := Withdraw(v, user, shares, minA, minB, now).value;
      && tokenA.Some? && tokenB.Some? && out.1 == r
      && out.0 == v.(gate := out.0.gate,
                     book := Book(b.totalShares - shares, b.totalA - r.redeemedA, b.totalB - r.redeemedB,
                                  b.positions[user := UserPosition(p.shares - shares, p.depositedA - r.redeemedA,
                                                                   p.depositedB - r.redeemedB)],
                                  tokenA.value, tokenB.value))
  {
    PositionWithinTotal(v, user);
    RedemptionRanges(v, user, shares);
    r := Redeem(v, user, shares);
  }

  lemma WithdrawKeepsSolvent(v: Vault, user: Address, shares: int, minA: int, minB: int, now: nat)
    requires Valid(v) && Withdraw(v, user, shares, minA, minB, now).Success?
    ensures
      var v' := Withdraw(v, user, shares, minA, minB, now).value.0;
      && Valid(v') && v'.info == v.info
      && Total(v'.book.tokenA) == Total(v.book.tokenA) && Total(v'.book.tokenB) == Total(v.book.tokenB)
      && SurplusA(v') >= SurplusA(v) && SurplusB(v') >= SurplusB(v)
      && (user != v.info.self && v.admin.params.treasury != v.info.self ==> SurplusA(v') == SurplusA(v) && SurplusB(v') == SurplusB(v))
  {
    hide Withdraw, Redeem, PayOut;
    var r := WithdrawShape(v, user, shares, minA, minB, now);
    var p := v.book.Position(user);
    WithdrawnBook(v.info.self, v.book, user, v.admin.params.treasury,
                  UserPosition(p.shares - shares, p.depositedA - r.redeemedA, p.depositedB - r.redeemedB), r);
  }

  /** In a valid vault a withdrawal fails in its transfers exactly when a payout would be negative. */
  lemma TransferFailsOnlyOnNegativePayout(v: Vault, user: Address, shares: int, minA: int, minB: int, now: nat)
    requires Valid(v)
    ensures Withdraw(v, user, shares, minA, minB, now) == Failure(TransferFailed)
            ==> CanRedeem(v, user, shares)
                && (Redeem(v, user, shares).PayoutA() < 0 || Redeem(v, user, shares).PayoutB() < 0)
    ensures CanRedeem(v, user, shares)
            && (Redeem(v, user, shares).PayoutA() < 0 || Redeem(v, user, shares).PayoutB() < 0)
            ==> Withdraw(v, user, shares, minA, minB, now).Failure?
  {
    PositionWithinTotal(v, user);
    if CanRedeem(v, user, shares) {
      var r, treasury := Redeem(v, user, shares), v.admin.params.treasury;
      RedemptionRanges(v, user, shares);
      PayOutConserves(v.book.tokenA, v.info.self, user, treasury, r.PayoutA(), r.performanceA, r.feeA);
      PayOutConserves(v.book.tokenB, v.info.self, user, treasury, r.PayoutB(), r.performanceB, r.feeB);
    }
  }

  /** A reward arrives, its fee leaves: supply grows by the reward, the balance by at least the rest. */
  lemma RewardConserves(balances: Balances, self: Address, treasury: Address, reward: nat, fee: int)
    requires 0 <= fee <= reward && BalanceOf(balances, self) >= 0
    ensures
      var after := TransferPositive(Credit(balances, self, reward), self, treasury, fee);
      && after.Some?
      && Total(after.value) == Total(balances) + reward
      && BalanceOf(after.value, self) >= BalanceOf(balances, self) + reward - fee
  {
    TotalUpdate(balances, self, BalanceOf(balances, self) + reward);
    if fee > 0 {
      TransferConserves(Credit(balances, self, reward), self, treasury, fee);
    }
  }

  lemma HarvestKeepsSolvent(v: Vault, rewardA: nat, rewardB: nat)
    requires Valid(v)
    ensures Harvest(v, rewardA, rewardB).Failure? <==> v.paused
    ensures
      var out := Harvest(v, rewardA, rewardB);
      out.Success? ==>
        && Valid(out.value) && out.value.info == v.info
        && Total(out.value.book.tokenA) == Total(v.book.tokenA) + rewardA
        && Total(out.value.book.tokenB) == Total(v.book.tokenB) + rewardB
        && SurplusA(out.value) >= SurplusA(v) && SurplusB(out.value) >= SurplusB(v)
        && out.value.book.totalA >= v.book.totalA && out.value.book.totalB >= v.book.totalB
        && out.value.book.totalShares == v.book.totalShares
  {
    FeeBounds(rewardA, v.info.harvestFee);
    FeeBounds(rewardB, v.info.harvestFee);
    RewardConserves(v.book.tokenA, v.info.self, v.admin.params.treasury, rewardA,
                    rewardA * v.info.harvestFee / 10_000);
    RewardConserves(v.book.tokenB, v.info.self, v.admin.params.treasury, rewardB,
                    rewardB * v.info.harvestFee / 10_000);
  }

  lemma OutsideKeepsSolvent(v: Vault, t: Timed)
    requires Valid(v) && t.call.OutsideTransfer? && External(v, t.call)
    ensures Valid(Step(v, t))
    ensures Total(Step(v, t).book.tokenA) == Total(v.book.tokenA) && Total(Step(v, t).book.tokenB) == Total(v.book.tokenB)
    ensures SurplusA(Step(v, t)) >= SurplusA(v) && SurplusB(Step(v, t)) >= SurplusB(v)
  {
    if Perform(v, t).Success? {
      TransferConserves(v.book.tokenA, t.call.from, t.call.to, t.call.amountA);
      TransferConserves(v.book.tokenB, t.call.from, t.call.to, t.call.amountB);
    }
  }

  /** Tokens a step brings into existence: only harvested rewards. */
  ghost function Rewards(v: Vault, t: Timed): (int, int) {
    if t.call.HarvestCall? && !v.paused then (t.call.rewardA, t.call.rewardB) else (0, 0)
  }

  /** Every step keeps the invariant, conserves both tokens and never lowers the surplus. */
  lemma StepConserves(v: Vault, t: Timed)
    requires Valid(v) && External(v, t.call)
    ensures Valid(Step(v, t)) && Step(v, t).info == v.info
    ensures Total(Step(v, t).book.tokenA) == Total(v.book.tokenA) + Rewards(v, t).0
    ensures Total(Step(v, t).book.tokenB) == Total(v.book.tokenB) + Rewards(v, t).1
    ensures SurplusA(Step(v, t)) >= SurplusA(v) && SurplusB(Step(v, t)) >= SurplusB(v)
  {
    match t.call
    case DepositCall(user, a, b, m) => DepositKeepsSolvent(v, user, a, b, m);
    case WithdrawCall(user, s, a, b) =>
      if Perform(v, t).Success? { WithdrawKeepsSolvent(v, user, s, a, b, t.now); }
    case HarvestCall(a, b) => HarvestKeepsSolvent(v, a, b);
    case OutsideTransfer(_, _, _, _) => OutsideKeepsSolvent(v, t);
    case _ =>
  }

  ghost function RunRewards(v: Vault, trace: seq<Timed>): (int, int) {
    if trace == [] then (0, 0)
    else
      var init, last := trace[..|trace| - 1], trace[|trace| - 1];
      var before, now := RunRewards(v, init), Rewards(Run(v, init), last);
      (before.0 + now.0, before.1 + now.1)
  }

  /** Over any run the vault stays solvent, shares keep adding up, and only rewards create tokens. */
  lemma {:induction false} RunConserves(v: Vault, trace: seq<Timed>)
    requires Valid(v) && AllExternal(v, trace)
    ensures Valid(Run(v, trace)) && Run(v, trace).info == v.info
    ensures Total(Run(v, trace).book.tokenA) == Total(v.book.tokenA) + RunRewards(v, trace).0
    ensures Total(Run(v, trace).book.tokenB) == Total(v.book.tokenB) + RunRewards(v, trace).1
    ensures SurplusA(Run(v, trace)) >= SurplusA(v) && SurplusB(Run(v, trace)) >= SurplusB(v)
  {
    if trace != [] {
      var init := trace[..|trace| - 1];
      RunConserves(v, init);
      assert External(v, trace[|trace| - 1].call);
      StepConserves(Run(v, init), trace[|trace| - 1]);
    }
  }
}
