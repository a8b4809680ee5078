/**
 What each vault operation pays, to whom, and with which rounding: shares minted, tokens redeemed,
 fees taken, and when an exit can fail.
 */
module VaultPayouts {
  import opened Wrappers
  import opened Integers
  import opened TokenLedger
  import opened VaultState
  import opened VaultAccounting

  // ---------- rounding ----------

  /** `q` is the floor of `n / d`. */
  ghost predicate IsQuotient(q: int, n: int, d: int) {
    q * d <= n < (q + 1) * d
  }

  lemma FloorIsQuotient(n: int, d: int)
    requires 0 <= n && 0 < d
    ensures IsQuotient(TruncDiv(n, d), n, d)
  {
    DivisionBounds(n, d);
  }

  /** Minting is the best price that does not dilute: one more share would be worth more than the deposit. */
  lemma MintIsMaximal(b: Book, value: int)
    requires value > 0 && b.totalShares > 0 && b.totalA + b.totalB > 0
    ensures IsQuotient(MintedShares(b, value), value * b.totalShares, b.totalA + b.totalB)
  {
    MulNonNegative(value, b.totalShares);
    FloorIsQuotient(value * b.totalShares, b.Value());
  }

  /**
   Each token is redeemed in proportion to the shares, rounded down, apart from a sweep; a sweep
   happens only in a full exit, and a full exit leaves either nothing of a token or more than dust.
   */
  lemma RedeemedExactly(total: int, shares: int, totalShares: int, fullExit: bool)
    requires 0 <= total && 0 < shares <= totalShares
    ensures
      var redeemed, swept := RedeemedAmount(total, shares, totalShares, fullExit), Swept(total, shares, totalShares, fullExit);
      && IsQuotient(redeemed - swept, shares * total, totalShares)
      && (!fullExit ==> swept == 0)
      && (swept != 0 ==> redeemed == total)
      && (fullExit ==> redeemed == total || total - redeemed > 1)
  {
    MulNonNegative(shares, total);
    FloorIsQuotient(shares * total, totalShares);
  }

  /** Redemption and withdrawal fee of both tokens, and the split of the performance fee. */
  lemma RedemptionIsProportional(v: Vault, user: Address, shares: int)
    requires CanRedeem(v, user, shares)
    ensures
      var b, r, fullExit := v.book, Redeem(v, user, shares), shares == v.book.Position(user).shares;
      && IsQuotient(r.redeemedA - Swept(b.totalA, shares, b.totalShares, fullExit), shares * b.totalA, b.totalShares)
      && IsQuotient(r.redeemedB - Swept(b.totalB, shares, b.totalShares, fullExit), shares * b.totalB, b.totalShares)
      && IsQuotient(r.feeA, r.redeemedA * v.info.withdrawalFee, 10_000)
      && IsQuotient(r.feeB, r.redeemedB * v.info.withdrawalFee, 10_000)
      && (r.redeemedA + r.redeemedB > 0 ==>
            IsQuotient(r.performanceA, (r.performanceA + r.performanceB) * r.redeemedA, r.redeemedA + r.redeemedB))
  {
    hide IsQuotient, TruncDiv, RedeemedAmount, Swept, PerformanceFee;
    var b, r, fullExit := v.book, Redeem(v, user, shares), shares == v.book.Position(user).shares;
    RedemptionRanges(v, user, shares);
    RedeemedExactly(b.totalA, shares, b.totalShares, fullExit);
    RedeemedExactly(b.totalB, shares, b.totalShares, fullExit);
    MulNonNegative(r.redeemedA, v.info.withdrawalFee);
    MulNonNegative(r.redeemedB, v.info.withdrawalFee);
    FloorIsQuotient(r.redeemedA * v.info.withdrawalFee, 10_000);
    FloorIsQuotient(r.redeemedB * v.info.withdrawalFee, 10_000);
    if r.redeemedA + r.redeemedB > 0 {
      MulNonNegative(r.performanceA + r.performanceB, r.redeemedA);
      FloorIsQuotient((r.performanceA + r.performanceB) * r.redeemedA, r.redeemedA + r.redeemedB);
    }
  }

  /** When the last shares leave, nothing tracked stays behind. */
  lemma LastExitEmptiesVault(v: Vault, user: Address, minA: int, minB: int, now: nat)
    requires Valid(v) && Withdraw(v, user, v.book.totalShares, minA, minB, now).Success?
    ensures
      var b := Withdraw(v, user, v.book.totalShares, minA, minB, now).value.0.book;
      b.totalShares == 0 && b.totalA == 0 && b.totalB == 0
  {
    var total := v.book.totalShares;
    var r := WithdrawShape(v, user, total, minA, minB, now);
    PositionWithinTotal(v, user);
    WholeQuotient(v.book.totalA, total);
    WholeQuotient(v.book.totalB, total);
    hide Withdraw;
  }

  lemma WholeQuotient(n: int, d: int)
    requires 0 <= n && 0 < d
    ensures TruncDiv(d * n, d) == n
  {
    MulNonNegative(d, n);
    QuotientAtLeast(d * n, d, n);
    assert (n + 1) * d == d * n + d;
    QuotientAtMost(d * n, d, n);
  }

  // ---------- the performance fee against the true gain ----------

  /** Gain over the proportional cost basis, scaled by the position's shares so that nothing is rounded. */
  function ScaledGain(p: UserPosition, redeemedA: int, redeemedB: int, shares: int): int {
    (redeemedA + redeemedB) * p.shares - (p.depositedA + p.depositedB) * shares
  }

  /** Truncating division is within one divisor of exact, on the lower side for nonnegative dividends. */
  lemma TruncationBounds(n: int, d: int)
    requires 0 < d
    ensures n - d + 1 <= TruncDiv(n, d) * d <= n + d - 1
    ensures n >= 0 ==> TruncDiv(n, d) * d <= n
  {
    if n >= 0 {
      DivisionBounds(n, d);
      assert (n / d + 1) * d == n / d * d + d;
    } else {
      DivisionBounds(-n, d);
      assert (-n / d + 1) * d == -n / d * d + d;
    }
  }

  /**
   The two truncations in the cost move the computed gain away from the true one by less than two
   units, and only upward for a nonnegative cost basis.
   */
  lemma ComputedGain(dA: int, dB: int, shares: int, held: int, out: int) returns (gain: int)
    requires 0 < shares <= held
    ensures gain == out - (TruncDiv(dA * shares, held) + TruncDiv(dB * shares, held))
    ensures out * held - (dA + dB) * shares - 2 * held + 2 <= gain * held <= out * held - (dA + dB) * shares + 2 * held - 2
    ensures 0 <= dA && 0 <= dB ==> out * held - (dA + dB) * shares <= gain * held
  {
    var a, b := TruncDiv(dA * shares, held), TruncDiv(dB * shares, held);
    gain := out - (a + b);
    TruncationBounds(dA * shares, held);
    TruncationBounds(dB * shares, held);
    hide TruncDiv;
    GainTimesHeld(out, a, b, held, gain);
    assert (dA + dB) * shares == dA * shares + dB * shares;
    if 0 <= dA && 0 <= dB {
      MulNonNegative(dA, shares);
      MulNonNegative(dB, shares);
    }
  }

  lemma GainTimesHeld(out: int, a: int, b: int, held: int, gain: int)
    requires gain == out - (a + b)
    ensures gain * held == out * held - a * held - b * held
  {
  }

  /**
   The performance fee is the configured share of the true gain, based on less than two units of gain
   more or fewer, and on none fewer for a nonnegative cost basis. Without a true gain it is zero, or at
   a rate of 100% at most one unit.
   */
  lemma PerformanceFeeTracksGain(info: VaultInfo, p: UserPosition, redeemedA: int, redeemedB: int, shares: int)
    requires info.Valid() && 0 < shares <= p.shares
    ensures
      var fee, gain := PerformanceFee(info, p, redeemedA, redeemedB, shares), ScaledGain(p, redeemedA, redeemedB, shares);
      && (gain > 0 && info.feeRate > 0 ==>
            && (gain - 2 * p.shares) * info.feeRate < (fee + 1) * 10_000 * p.shares
            && (p.depositedA >= 0 && p.depositedB >= 0 ==> gain * info.feeRate < (fee + 1) * 10_000 * p.shares)
            && fee * 10_000 * p.shares <= (gain + 2 * p.shares) * info.feeRate)
      && (gain <= 0 ==> 0 <= fee <= if info.feeRate == 10_000 then 1 else 0)
  {
    var gain := ComputedGain(p.depositedA, p.depositedB, shares, p.shares, redeemedA + redeemedB);
    var fee := PerformanceFee(info, p, redeemedA, redeemedB, shares);
    assert fee == if info.feeRate > 0 && gain > 0 then TruncDiv(gain * info.feeRate, 10_000) else 0;
    var scaled := ScaledGain(p, redeemedA, redeemedB, shares);
    hide PerformanceFee, TruncDiv, ScaledGain;
    FeeOfGain(gain, scaled, scaled - 2 * p.shares, info.feeRate, p.shares, fee);
    if p.depositedA >= 0 && p.depositedB >= 0 {
      FeeOfGain(gain, scaled, scaled, info.feeRate, p.shares, fee);
    }
  }

  /** A withdrawal without a true gain never pays a performance fee. */
  ghost predicate NoFeeAtCost(info: VaultInfo) {
    forall p: UserPosition, a: int, b: int, shares: int ::
      0 < shares <= p.shares && ScaledGain(p, a, b, shares) <= 0 ==> PerformanceFee(info, p, a, b, shares) == 0
  }

  /** The documented promise holds exactly for fee rates below 100%; the floors in the cost break it there. */
  lemma NoFeeAtCostExactly(info: VaultInfo)
    requires info.Valid()
    ensures NoFeeAtCost(info) <==> info.feeRate < 10_000
  {
    hide PerformanceFee;
    forall p: UserPosition, a: int, b: int, shares: int | 0 < shares <= p.shares && ScaledGain(p, a, b, shares) <= 0
      ensures info.feeRate < 10_000 ==> PerformanceFee(info, p, a, b, shares) == 0
    {
      PerformanceFeeTracksGain(info, p, a, b, shares);
    }
    if info.feeRate == 10_000 {
      BreakEvenFee(info);
      assert ScaledGain(UserPosition(2, 1, 1), 1, 0, 1) == 0;
    }
  }

  /** Half of a position that cost one unit of each token, redeemed at cost: both halves round to nothing. */
  lemma BreakEvenFee(info: VaultInfo)
    requires info.feeRate == 10_000
    ensures PerformanceFee(info, UserPosition(2, 1, 1), 1, 0, 1) == 1
  {
  }

  lemma FeeOfGain(gain: int, scaled: int, lower: int, rate: nat, held: int, fee: int)
    requires 0 < held && rate <= 10_000 && lower <= gain * held <= scaled + 2 * held - 2
    requires fee == if rate > 0 && gain > 0 then TruncDiv(gain * rate, 10_000) else 0
    ensures lower * rate < (fee + 1) * 10_000 * held
    ensures scaled > 0 && rate > 0 ==> fee * 10_000 * held <= (scaled + 2 * held) * rate
    ensures scaled <= 0 ==> 0 <= fee <= if rate == 10_000 then 1 else 0
  {
    if rate > 0 && gain > 0 {
      MulNonNegative(gain, rate);
      DivisionBounds(gain * rate, 10_000);
      SwapFactors(gain, held, rate);
      FeeAtLeast(gain * held, gain * rate, lower, rate, held, (fee + 1) * 10_000);
      FeeAtMost(gain * held, gain * rate, scaled + 2 * held, rate, held, fee * 10_000);
    } else {
      NothingBelow(gain, lower, rate, held);
      if scaled > 0 {
        MulNonNegative(scaled + 2 * held, rate);
      }
    }
    if scaled <= 0 {
      AtMostOne(gain, held);
    }
  }

  lemma NothingBelow(gain: int, lower: int, rate: nat, held: int)
    requires 0 < held && lower <= gain * held && (rate == 0 || gain <= 0)
    ensures lower * rate <= 0
  {
    if rate > 0 {
      MulMonotone(gain, 0, held);
      MulMonotone(lower, 0, rate);
    }
  }

  lemma AtMostOne(a: int, b: int)
    requires 0 < b && a * b <= 2 * b - 2
    ensures a <= 1
  {
    if a > 1 {
      MulMonotone(2, a, b);
    }
  }

  lemma FeeAtLeast(gainHeld: int, gainRate: int, scaled: int, rate: int, held: int, fee: int)
    requires 0 < held && 0 < rate && gainHeld * rate == gainRate * held && scaled <= gainHeld && gainRate < fee
    ensures scaled * rate < fee * held
  {
    MulMonotone(scaled, gainHeld, rate);
    MulMonotone(gainRate + 1, fee, held);
    assert (gainRate + 1) * held == gainRate * held + held;
  }

  lemma FeeAtMost(gainHeld: int, gainRate: int, scaled: int, rate: int, held: int, fee: int)
    requires 0 < held && 0 < rate && gainHeld * rate == gainRate * held && gainHeld <= scaled && fee <= gainRate
    ensures fee * held <= scaled * rate
  {
    MulMonotone(gainHeld, scaled, rate);
    MulMonotone(fee, gainRate, held);
  }

  /** `q` is `n / d` with its fraction dropped: not past `n`, on the same side, and within one divisor. */
  ghost predicate IsTruncated(q: int, n: int, d: int) {
    if n >= 0 then q * d <= n < q * d + d else q * d - d < n <= q * d
  }

  lemma TruncationIsExact(n: int, d: int)
    requires 0 < d
    ensures IsTruncated(TruncDiv(n, d), n, d)
  {
    if n >= 0 {
      DivisionBounds(n, d);
      assert (n / d + 1) * d == n / d * d + d;
    } else {
      DivisionBounds(-n, d);
      assert (-n / d + 1) * d == -n / d * d + d;
      assert -(-n / d) * d == -(-n / d * d);
    }
  }

  /**
   The fee to the unit: the rate's floored share of what is redeemed over two truncated costs, one per
   token, when that is positive; nothing otherwise.
   */
  lemma PerformanceFeeIsExact(info: VaultInfo, p: UserPosition, redeemedA: int, redeemedB: int, shares: int)
    returns (costA: int, costB: int)
    requires 0 < p.shares
    ensures IsTruncated(costA, p.depositedA * shares, p.shares) && IsTruncated(costB, p.depositedB * shares, p.shares)
    ensures
      var gain, fee := redeemedA + redeemedB - costA - costB, PerformanceFee(info, p, redeemedA, redeemedB, shares);
      if gain > 0 then IsQuotient(fee, gain * info.feeRate, 10_000) else fee == 0
  {
    costA, costB := TruncDiv(p.depositedA * shares, p.shares), TruncDiv(p.depositedB * shares, p.shares);
    TruncationIsExact(p.depositedA * shares, p.shares);
    TruncationIsExact(p.depositedB * shares, p.shares);
    var gain := redeemedA + redeemedB - costA - costB;
    if gain > 0 {
      MulNonNegative(gain, info.feeRate);
      FloorIsQuotient(gain * info.feeRate, 10_000);
    }
    hide TruncDiv, IsTruncated;
  }

  // ---------- who is paid ----------

  /** Third parties keep their balances; sender and receiver move by the amount. */
  lemma TransferMoves(balances: Balances, from: Address, to: Address, amount: int, account: Address)
    requires Transfer(balances, from, to, amount).Some?
    ensures BalanceOf(Transfer(balances, from, to, amount).value, account)
            == BalanceOf(balances, account) + (if account == to then amount else 0)
               - (if account == from then amount else 0)
  {
  }

  /** What one account gains in one token from a payout: the payout, both fees, or nothing. */
  ghost function Received(account: Address, user: Address, treasury: Address, payout: int, fees: int): int {
    (if account == user then payout else 0) + if account == treasury then fees else 0
  }

  lemma PayOutMoves(balances: Balances, self: Address, user: Address, treasury: Address, payout: int,
                    performance: int, fee: int, account: Address)
    requires 0 <= performance && 0 <= fee && account != self
    requires PayOut(balances, self, user, treasury, payout, performance, fee).Some?
    ensures BalanceOf(PayOut(balances, self, user, treasury, payout, performance, fee).value, account)
            == BalanceOf(balances, account) + Received(account, user, treasury, payout, performance + fee)
  {
    TransferMoves(balances, self, user, payout, account);
    var paid := Transfer(balances, self, user, payout).value;
    if performance > 0 { TransferMoves(paid, self, treasury, performance, account); }
    var after := TransferPositive(paid, self, treasury, performance).value;
    if fee > 0 { TransferMoves(after, self, treasury, fee, account); }
  }

  /** A withdrawal pays the user the two payouts, the treasury all fees, and nobody else anything. */
  lemma WithdrawPaysExactly(v: Vault, user: Address, shares: int, minA: int, minB: int, now: nat, account: Address)
    requires Valid(v) && account != v.info.self && Withdraw(v, user, shares, minA, minB, now).Success?
    ensures
      var r, b, b', treasury := Redeem(v, user, shares), v.book, Withdraw(v, user, shares, minA, minB, now).value.0.book,
                                v.admin.params.treasury;
      && r.PayoutA() >= minA && r.PayoutB() >= minB
      && BalanceOf(b'.tokenA, account)
         == BalanceOf(b.tokenA, account) + Received(account, user, treasury, r.PayoutA(), r.performanceA + r.feeA)
      && BalanceOf(b'.tokenB, account)
         == BalanceOf(b.tokenB, account) + Received(account, user, treasury, r.PayoutB(), r.performanceB + r.feeB)
      && (forall u :: b'.Position(u).shares == b.Position(u).shares - if u == user then shares else 0)
      && b'.totalShares == b.totalShares - shares
      && b'.totalA == b.totalA - r.redeemedA && b'.totalB == b.totalB - r.redeemedB
      && b'.Position(user) == UserPosition(b.Position(user).shares - shares,
                                           b.Position(user).depositedA - r.redeemedA,
                                           b.Position(user).depositedB - r.redeemedB)
      && (forall u :: u != user ==> b'.Position(u) == b.Position(u))
  {
    var r := WithdrawShape(v, user, shares, minA, minB, now);
    PayOutMoves(v.book.tokenA, v.info.self, user, v.admin.params.treasury, r.PayoutA(), r.performanceA, r.feeA, account);
    PayOutMoves(v.book.tokenB, v.info.self, user, v.admin.params.treasury, r.PayoutB(), r.performanceB, r.feeB, account);
    hide PayOut, Redeem;
  }

  /** A deposit takes exactly the two legs from the user and credits the minted shares to the user alone. */
  lemma DepositTakesExactly(v: Vault, user: Address, amountA: int, amountB: int, minShares: int, account: Address)
    requires Valid(v) && account != v.info.self && user != v.info.self
    requires Deposit(v, user, amountA, amountB, minShares).Success?
    ensures
      var (v', minted) := Deposit(v, user, amountA, amountB, minShares).value;
      var b, b' := v.book, v'.book;
      && minted >= minShares && minted > 0 && amountA >= 0 && amountB >= 0
      && BalanceOf(b'.tokenA, account) == BalanceOf(b.tokenA, account) - (if account == user then amountA else 0)
      && BalanceOf(b'.tokenB, account) == BalanceOf(b.tokenB, account) - (if account == user then amountB else 0)
      && (forall u :: b'.Position(u).shares == b.Position(u).shares + if u == user then minted else 0)
      && b'.totalShares == b.totalShares + minted
      && b'.totalA == b.totalA + amountA && b'.totalB == b.totalB + amountB
      && b'.Position(user) == UserPosition(b.Position(user).shares + minted, b.Position(user).depositedA + amountA,
                                           b.Position(user).depositedB + amountB)
      && (forall u :: u != user ==> b'.Position(u) == b.Position(u))
      && v' == v.(book := b')
  {
    var _, _ := DepositShape(v, user, amountA, amountB, minShares);
    TransferMoves(v.book.tokenA, user, v.info.self, amountA, account);
    TransferMoves(v.book.tokenB, user, v.info.self, amountB, account);
    hide MintedShares;
  }

  /** A harvest splits each reward between the treasury, which gets the floored fee, and the tracked total. */
  lemma HarvestSplitsReward(v: Vault, rewardA: nat, rewardB: nat)
    requires Valid(v) && v.admin.params.treasury != v.info.self && Harvest(v, rewardA, rewardB).Success?
    ensures
      var b, b', treasury := v.book, Harvest(v, rewardA, rewardB).value.book, v.admin.params.treasury;
      var feeA := BalanceOf(b'.tokenA, treasury) - BalanceOf(b.tokenA, treasury);
      var feeB := BalanceOf(b'.tokenB, treasury) - BalanceOf(b.tokenB, treasury);
      && IsQuotient(feeA, rewardA * v.info.harvestFee, 10_000) && b'.totalA == b.totalA + rewardA - feeA
      && IsQuotient(feeB, rewardB * v.info.harvestFee, 10_000) && b'.totalB == b.totalB + rewardB - feeB
      && b'.totalShares == b.totalShares && b'.positions == b.positions
      && Harvest(v, rewardA, rewardB).value == v.(book := b')
  {
    RewardReaches(v.book.tokenA, v.info.self, v.admin.params.treasury, rewardA, v.info.harvestFee);
    RewardReaches(v.book.tokenB, v.info.self, v.admin.params.treasury, rewardB, v.info.harvestFee);
  }

  lemma RewardReaches(balances: Balances, self: Address, treasury: Address, reward: nat, bps: nat)
    requires treasury != self
    requires TransferPositive(Credit(balances, self, reward), self, treasury, reward * bps / 10_000).Some?
    ensures
      var after := TransferPositive(Credit(balances, self, reward), self, treasury, reward * bps / 10_000).value;
      IsQuotient(BalanceOf(after, treasury) - BalanceOf(balances, treasury), reward * bps, 10_000)
  {
    var fee := reward * bps / 10_000;
    MulNonNegative(reward, bps);
    QuotientAtLeast(reward * bps, 10_000, 0);
    if fee > 0 {
      TransferMoves(Credit(balances, self, reward), self, treasury, fee, treasury);
    }
  }

  // ---------- when an exit can fail ----------

  /** Everything a withdrawal asks for, besides payouts that are not negative. */
  ghost predicate ExitAdmitted(v: Vault, user: Address, shares: int, minA: int, minB: int, now: nat) {
    && !v.paused && CanRedeem(v, user, shares) && shares >= v.admin.params.minWithdrawShares
    && ConsumePacing(v.gate, user, shares, v.book.Position(user).shares, v.book.totalShares, now).Some?
    && var r := Redeem(v, user, shares);
       && (shares == v.book.Position(user).shares || r.redeemedA > 0 || r.redeemedB > 0)
       && r.PayoutA() >= minA && r.PayoutB() >= minB
  }

  /**
   In a valid vault a withdrawal goes through exactly when it is admitted by the pause switch, the
   holder's shares, the minima and pacing, redeems something or is complete, and leaves no payout
   negative: balances never get in its way.
   */
  lemma ExitSucceedsExactly(v: Vault, user: Address, shares: int, minA: int, minB: int, now: nat)
    requires Valid(v)
    ensures Withdraw(v, user, shares, minA, minB, now).Success?
            <==> && ExitAdmitted(v, user, shares, minA, minB, now)
                 && Redeem(v, user, shares).PayoutA() >= 0 && Redeem(v, user, shares).PayoutB() >= 0
  {
    PositionWithinTotal(v, user);
    if CanRedeem(v, user, shares) {
      var r, treasury := Redeem(v, user, shares), v.admin.params.treasury;
      RedemptionRanges(v, user, shares);
      PayOutConserves(v.book.tokenA, v.info.self, user, treasury, r.PayoutA(), r.performanceA, r.feeA);
      PayOutConserves(v.book.tokenB, v.info.self, user, treasury, r.PayoutB(), r.performanceB, r.feeB);
      hide PayOut, ConsumePacing, Redeem;
    }
  }

  /**
   A payout can be negative. Redeemed amounts reduce the cost basis, so after a profitable partial
   exit the basis is below zero and the next fee counts the same gain again: at a 20% fee, taking 90
   of 100 shares that grew from 100 to 1000 leaves 10 shares of which none can be redeemed at that
   price, in whatever portion, at whatever time and with whatever minimum, although a single exit of
   all 100 shares would have paid 820.
   */
  lemma PartialExitStrandsRest(v: Vault, user: Address, now: nat, shares: int, minA: int, minB: int, later: nat)
    requires Valid(v) && !v.paused && !v.gate.pacing.Enabled() && v.admin.params.minWithdrawShares <= 90
    requires v.info.feeRate == 2_000 && v.info.withdrawalFee == 0
    requires v.book.totalShares == 100 && v.book.totalA == 1_000 && v.book.totalB == 0
    requires v.book.Position(user) == UserPosition(100, 100, 0)
    ensures Redeem(v, user, 100).PayoutA() == 820
    ensures
      var partial := Withdraw(v, user, 90, 0, 0, now);
      partial.Success? && Withdraw(partial.value.0, user, shares, minA, minB, later).Failure?
  {
    hide Withdraw, Redeem, Valid;
    GrownTenfold(v, user);
    PartialExit(v, user, now);
    NothingRedeemable(Withdraw(v, user, 90, 0, 0, now).value.0, user, shares, minA, minB, later);
  }

  lemma PartialExit(v: Vault, user: Address, now: nat)
    requires Valid(v) && !v.paused && !v.gate.pacing.Enabled() && v.admin.params.minWithdrawShares <= 90
    requires v.book.totalShares == 100 && v.book.totalA == 1_000 && v.book.totalB == 0
    requires v.book.Position(user) == UserPosition(100, 100, 0)
    requires Redeem(v, user, 90) == Redemption(900, 0, 0, 0, 162, 0)
    ensures Withdraw(v, user, 90, 0, 0, now).Success?
    ensures
      var v' := Withdraw(v, user, 90, 0, 0, now).value.0;
      && Valid(v') && v'.info == v.info
      && v'.book.totalShares == 10 && v'.book.totalA == 100 && v'.book.totalB == 0
      && v'.book.Position(user) == UserPosition(10, -800, 0)
  {
    assert v.info.Valid();
    hide Withdraw, Redeem, PayOut, Valid, Solvent;
    ExitSucceedsExactly(v, user, 90, 0, 0, now);
    var r := WithdrawShape(v, user, 90, 0, 0, now);
    WithdrawKeepsSolvent(v, user, 90, 0, 0, now);
  }

  lemma NothingRedeemable(v: Vault, user: Address, shares: int, minA: int, minB: int, now: nat)
    requires Valid(v) && v.info.feeRate == 2_000 && v.info.withdrawalFee == 0
    requires v.book.totalShares == 10 && v.book.totalA == 100 && v.book.totalB == 0
    requires v.book.Position(user) == UserPosition(10, -800, 0)
    ensures Withdraw(v, user, shares, minA, minB, now).Failure?
  {
    hide Withdraw, Redeem, Valid;
    ExitSucceedsExactly(v, user, shares, minA, minB, now);
    if 0 < shares <= 10 {
      BelowZeroBasis(v, user, shares);
    }
  }

  /** The whole exit and the partial one, in numbers. */
  lemma GrownTenfold(v: Vault, user: Address)
    requires v.info.feeRate == 2_000 && v.info.withdrawalFee == 0
    requires v.book.totalShares == 100 && v.book.totalA == 1_000 && v.book.totalB == 0
    requires v.book.Position(user) == UserPosition(100, 100, 0)
    ensures Redeem(v, user, 100).PayoutA() == 820 && Redeem(v, user, 90) == Redemption(900, 0, 0, 0, 162, 0)
  {
  }

  /** Ten shares worth 100 on a cost basis of -800: the fee is nine fifths of whatever is redeemed. */
  lemma BelowZeroBasis(v: Vault, user: Address, shares: int)
    requires v.info.feeRate == 2_000 && v.info.withdrawalFee == 0
    requires v.book.totalShares == 10 && v.book.totalA == 100 && v.book.totalB == 0
    requires v.book.Position(user) == UserPosition(10, -800, 0) && 0 < shares <= 10
    ensures Redeem(v, user, shares).PayoutA() == -8 * shares
  {
    assert TruncDiv(shares * 100, 10) == 10 * shares && TruncDiv(-800 * shares, 10) == -80 * shares;
    assert TruncDiv(0 * shares, 10) == 0 && TruncDiv(shares * 0, 10) == 0;
    assert RedeemedAmount(100, shares, 10, shares == 10) == 10 * shares;
    assert RedeemedAmount(0, shares, 10, shares == 10) == 0;
    assert PerformanceFee(v.info, v.book.Position(user), 10 * shares, 0, shares) == 18 * shares;
    assert TruncDiv(18 * shares * (10 * shares), 10 * shares) == 18 * shares by { WholeQuotient(18 * shares, 10 * shares); }
    hide TruncDiv, RedeemedAmount, PerformanceFee;
  }

  /** A vault as it is initialized: nothing tracked, no pacing, the default minima. */
  ghost predicate Initialized(v: Vault) {
    && Valid(v) && !v.paused && !v.gate.pacing.Enabled()
    && v.book.totalShares == 0 && v.book.totalA == 0 && v.book.totalB == 0 && v.book.positions == map[]
    && v.admin.params.minDepositA == 0 && v.admin.params.minDepositB == 0 && v.admin.params.minWithdrawShares == 1
  }

  /** A deposit of 100 and a reward of 900, both of token A. */
  function GrowTenfold(user: Address, now: nat): seq<Timed> {
    [Timed(now, DepositCall(user, 100, 0, 0)), Timed(now, HarvestCall(900, 0))]
  }

  /**
   Every initialized vault with these fees gets there: one deposit, one harvest and one withdrawal,
   and the depositor's last ten shares can no longer be redeemed.
   */
  lemma StrandingIsReached(v: Vault, user: Address, now: nat, shares: int, minA: int, minB: int, later: nat)
    requires Initialized(v) && user != v.info.self
    requires v.info.feeRate == 2_000 && v.info.harvestFee == 0 && v.info.withdrawalFee == 0
    requires BalanceOf(v.book.tokenA, user) >= 100 && BalanceOf(v.book.tokenB, user) >= 0
    ensures
      var grown := Run(v, GrowTenfold(user, now));
      var partial := Withdraw(grown, user, 90, 0, 0, now);
      && partial.Success? && partial.value.0.book.Position(user).shares == 10
      && Withdraw(partial.value.0, user, shares, minA, minB, later).Failure?
  {
    var trace := GrowTenfold(user, now);
    var deposited := Step(v, trace[0]);
    FirstDeposit(v, user, now);
    RewardArrives(deposited, user, now);
    assert trace[..1] == [trace[0]] && trace[..1][..0] == [];
    assert Run(v, trace[..1]) == deposited by { assert Run(v, trace[..1][..0]) == v; }
    assert Run(v, trace) == Step(deposited, trace[1]);
    hide Step, Run, Withdraw, Valid, Redeem;
    var grown := Run(v, trace);
    GrownTenfold(grown, user);
    PartialExit(grown, user, now);
    PartialExitStrandsRest(grown, user, now, shares, minA, minB, later);
  }

  lemma FirstDeposit(v: Vault, user: Address, now: nat)
    requires Initialized(v) && user != v.info.self
    requires BalanceOf(v.book.tokenA, user) >= 100 && BalanceOf(v.book.tokenB, user) >= 0
    ensures
      var v' := Step(v, Timed(now, DepositCall(user, 100, 0, 0)));
      && Valid(v') && v' == v.(book := v'.book)
      && v'.book.totalShares == 100 && v'.book.totalA == 100 && v'.book.totalB == 0
      && v'.book.Position(user) == UserPosition(100, 100, 0)
  {
    DepositKeepsSolvent(v, user, 100, 0, 0);
    hide Valid, Transfer;
  }

  lemma RewardArrives(v: Vault, user: Address, now: nat)
    requires Valid(v) && !v.paused && v.info.harvestFee == 0
    requires v.book.totalShares == 100 && v.book.totalA == 100 && v.book.totalB == 0
    ensures
      var v' := Step(v, Timed(now, HarvestCall(900, 0)));
      && Valid(v') && v' == v.(book := v'.book)
      && v'.book.totalShares == 100 && v'.book.totalA == 1_000 && v'.book.totalB == 0
      && v'.book.Position(user) == v.book.Position(user)
  {
    HarvestKeepsSolvent(v, 900, 0);
    hide Valid, TransferPositive;
  }

  /** What a deposit has to be worth to mint at least `shares` shares. */
  ghost predicate WorthShares(b: Book, value: int, shares: int) {
    if b.totalShares == 0 then value >= shares
    else b.totalA + b.totalB > 0 && value * b.totalShares >= shares * (b.totalA + b.totalB)
  }

  lemma WorthIsMinted(b: Book, value: int, shares: int)
    requires value > 0 && b.totalShares >= 0 && b.totalA + b.totalB >= 0 && shares >= 1
    ensures MintedShares(b, value) >= shares <==> WorthShares(b, value, shares)
  {
    var worth := b.totalA + b.totalB;
    if b.totalShares > 0 && worth > 0 {
      MulNonNegative(value, b.totalShares);
      var n := value * b.totalShares;
      DivisionBounds(n, worth);
      if n >= shares * worth {
        QuotientAtLeast(n, worth, shares);
      } else if n / worth >= shares {
        MulMonotone(shares, n / worth, worth);
        assert false;
      }
    }
  }

  /**
   In a valid vault a deposit goes through exactly when the vault is not paused, both legs meet their
   minimum, it is worth a share and the shares asked for, and the user has both legs.
   */
  lemma DepositSucceedsExactly(v: Vault, user: Address, amountA: int, amountB: int, minShares: int)
    requires Valid(v)
    ensures Deposit(v, user, amountA, amountB, minShares).Success?
            <==> && !v.paused
                 && amountA >= v.admin.params.minDepositA && amountB >= v.admin.params.minDepositB
                 && amountA + amountB > 0
                 && WorthShares(v.book, amountA + amountB, 1)
                 && (minShares > 1 ==> WorthShares(v.book, amountA + amountB, minShares))
                 && BalanceOf(v.book.tokenA, user) >= amountA && BalanceOf(v.book.tokenB, user) >= amountB
  {
    if amountA + amountB > 0 {
      WorthIsMinted(v.book, amountA + amountB, 1);
      if minShares > 1 {
        WorthIsMinted(v.book, amountA + amountB, minShares);
      }
    }
    hide MintedShares, WorthShares;
  }

  /** The first deposit mints one share for each unit of combined value. */
  lemma FirstDepositMintsItsValue(v: Vault, user: Address, amountA: int, amountB: int, minShares: int)
    requires Valid(v) && v.book.totalShares == 0 && Deposit(v, user, amountA, amountB, minShares).Success?
    ensures
      var b, (v', minted) := v.book, Deposit(v, user, amountA, amountB, minShares).value;
      && minted == amountA + amountB && v'.book.totalShares == amountA + amountB
      && v'.book.Position(user).shares == b.Position(user).shares + amountA + amountB
  {
    var _, _ := DepositShape(v, user, amountA, amountB, minShares);
  }

  /** Why a deposit is refused before anything moves. */
  lemma DepositRefusals(v: Vault, user: Address, amountA: int, amountB: int, minShares: int)
    ensures
      var out, params := Deposit(v, user, amountA, amountB, minShares), v.admin.params;
      var below := amountA < params.minDepositA || amountB < params.minDepositB;
      && (out == Failure(Paused) <==> v.paused)
      && (out == Failure(AmountBelowMinimum) <==> !v.paused && below)
      && (out == Failure(DepositMustBePositive) <==> !v.paused && !below && amountA + amountB <= 0)
      && (out.Failure? ==>
            out.error in {Paused, AmountBelowMinimum, DepositMustBePositive, DepositTooSmall, InsufficientSharesReceived,
                          TransferFailed})
  {
    hide MintedShares, SettleDeposit;
    assert forall shares :: SettleDeposit(v, user, amountA, amountB, shares).Failure? ==>
        SettleDeposit(v, user, amountA, amountB, shares).error == TransferFailed by { SettlingFails(v, user, amountA, amountB); }
  }

  lemma SettlingFails(v: Vault, user: Address, amountA: int, amountB: int)
    ensures forall shares :: SettleDeposit(v, user, amountA, amountB, shares).Failure? ==>
              SettleDeposit(v, user, amountA, amountB, shares).error == TransferFailed
  {
  }

  /** Why a withdrawal is refused before its amounts are known. */
  lemma WithdrawRefusals(v: Vault, user: Address, shares: int, minA: int, minB: int, now: nat)
    requires Valid(v)
    ensures
      var out, held := Withdraw(v, user, shares, minA, minB, now), v.book.Position(user).shares;
      && (out == Failure(Paused) <==> v.paused)
      && (out == Failure(SharesMustBePositive) <==> !v.paused && shares <= 0)
      && (out == Failure(WithdrawalBelowMinimum) <==>
            !v.paused && 0 < shares < v.admin.params.minWithdrawShares)
      && (out == Failure(InsufficientShares) <==>
            !v.paused && shares > 0 && shares >= v.admin.params.minWithdrawShares && held < shares)
      && out != Failure(NoSharesOutstanding)
  {
    PositionWithinTotal(v, user);
    hide Redeem, ConsumePacing, Settle;
    assert forall r, gate :: Settle(v, user, shares, r, gate).Failure? ==>
        Settle(v, user, shares, r, gate).error == TransferFailed by { PayingFails(v, user, shares); }
  }

  lemma PayingFails(v: Vault, user: Address, shares: int)
    ensures forall r, gate :: Settle(v, user, shares, r, gate).Failure? ==>
              Settle(v, user, shares, r, gate).error == TransferFailed
  {
  }

  /** A deposit mints nothing, and is therefore refused, exactly when it is worth less than one share. */
  lemma MintsNothingExactly(b: Book, value: int)
    requires value > 0 && b.totalShares >= 0 && b.Value() >= 0
    ensures MintedShares(b, value) <= 0
            <==> b.totalShares > 0 && (b.Value() == 0 || value * b.totalShares < b.Value())
  {
    if b.totalShares > 0 && b.Value() > 0 {
      MintIsFair(value, b.totalShares, b.Value());
      if value * b.totalShares >= b.Value() {
        QuotientAtLeast(value * b.totalShares, b.Value(), 1);
      } else {
        QuotientAtMost(value * b.totalShares, b.Value(), 0);
      }
    }
  }

  /**
   With a nonnegative cost basis and fee rates that add up to at most 100%, no payout is negative,
   whatever the rounding of the split does.
   */
  lemma FeesAreCoverable(v: Vault, user: Address, shares: int)
    requires CanRedeem(v, user, shares)
    requires v.book.Position(user).depositedA >= 0 && v.book.Position(user).depositedB >= 0
    requires v.info.feeRate + v.info.withdrawalFee <= 10_000
    ensures Redeem(v, user, shares).PayoutA() >= 0 && Redeem(v, user, shares).PayoutB() >= 0
  {
    var p, r := v.book.Position(user), Redeem(v, user, shares);
    RedemptionRanges(v, user, shares);
    GainWithinRedeemed(v.info, p, r.redeemedA, r.redeemedB, shares);
    if r.redeemedA + r.redeemedB > 0 {
      var perf := PerformanceFee(v.info, p, r.redeemedA, r.redeemedB, shares);
      FirstPartWithinRate(r.redeemedA, r.redeemedB, perf, v.info.feeRate, v.info.withdrawalFee);
      SecondPartWithinRate(r.redeemedA, r.redeemedB, perf, v.info.feeRate, v.info.withdrawalFee);
    }
  }

  /** With these rates no redemption of a position with a nonnegative cost basis has a negative payout. */
  ghost predicate FeesCoverable(info: VaultInfo) {
    forall v: Vault, user: Address, shares: int ::
      && v.info == info && Valid(v) && CanRedeem(v, user, shares)
      && v.book.Position(user).depositedA >= 0 && v.book.Position(user).depositedB >= 0 ==>
        Redeem(v, user, shares).PayoutA() >= 0 && Redeem(v, user, shares).PayoutB() >= 0
  }

  /** The fees of every such redemption can be paid exactly when the two rates add up to at most 100%. */
  lemma FeesAreCoverableExactly(info: VaultInfo)
    requires info.Valid()
    ensures FeesCoverable(info) <==> info.feeRate + info.withdrawalFee <= 10_000
  {
    if info.feeRate + info.withdrawalFee <= 10_000 {
      forall v: Vault, user: Address, shares: int |
        && v.info == info && Valid(v) && CanRedeem(v, user, shares)
        && v.book.Position(user).depositedA >= 0 && v.book.Position(user).depositedB >= 0
        ensures Redeem(v, user, shares).PayoutA() >= 0 && Redeem(v, user, shares).PayoutB() >= 0
      {
        FeesAreCoverable(v, user, shares);
      }
    } else {
      var v := OneShareVault(info);
      assert Redeem(v, info.self + 1, 1).PayoutA() < 0;
    }
  }

  /** A vault whose one share, all of it gain, is worth 10000 units: it owes exactly its rates in fees. */
  lemma OneShareVault(info: VaultInfo) returns (v: Vault)
    requires info.Valid()
    ensures v.info == info && Valid(v)
    ensures
      var user := info.self + 1;
      && CanRedeem(v, user, 1) && v.book.Position(user) == UserPosition(1, 0, 0)
      && Redeem(v, user, 1).PayoutA() == 10_000 - info.withdrawalFee - info.feeRate
  {
    var user := info.self + 1;
    var positions := map[user := UserPosition(1, 0, 0)];
    v := Vault(info, false, Book(1, 10_000, 0, positions, map[info.self := 10_000], map[]),
               Gate(WithdrawPacing(0, 0, 0), map[], NO_WINDOW),
               Admin(user, Params(0, 0, 1, user, DEFAULT_TIMELOCK_DELAY), (0, 0), 1, map[]));
    ShareTotalUpdate(map[], user, UserPosition(1, 0, 0));
    assert ShareMap(map[]) == map[];
    assert map[][user := UserPosition(1, 0, 0)] == positions;
  }

  lemma GainWithinRedeemed(info: VaultInfo, p: UserPosition, a: int, b: int, shares: int)
    requires info.Valid() && 0 <= a && 0 <= b && 0 < shares <= p.shares && p.depositedA >= 0 && p.depositedB >= 0
    ensures 0 <= PerformanceFee(info, p, a, b, shares) * 10_000 <= (a + b) * info.feeRate
  {
    MulNonNegative(a + b, info.feeRate);
    if info.feeRate != 0 {
      MulNonNegative(p.depositedA, shares);
      MulNonNegative(p.depositedB, shares);
      QuotientAtLeast(p.depositedA * shares, p.shares, 0);
      QuotientAtLeast(p.depositedB * shares, p.shares, 0);
      var gain := a + b - (TruncDiv(p.depositedA * shares, p.shares) + TruncDiv(p.depositedB * shares, p.shares));
      if gain > 0 {
        FeeBounds(gain, info.feeRate);
        MulMonotone(gain, a + b, info.feeRate);
      }
    }
  }

  /** The floored part of the performance fee stays within its token's share of the rate. */
  lemma PartWithinRate(a: int, w: int, perf: int, rate: nat)
    requires 0 <= a && 0 < w && 0 <= perf && perf * 10_000 <= w * rate
    ensures TruncDiv(perf * a, w) * 10_000 <= a * rate
  {
    var q := TruncDiv(perf * a, w);
    MulNonNegative(perf, a);
    DivisionBounds(perf * a, w);
    ScaleProduct(perf, w, rate, a);
    assert (q * 10_000) * w == 10_000 * (q * w);
    assert (a * rate) * w == w * rate * a;
    CancelFactor(q * 10_000, a * rate, w);
  }

  /** The remaining part exceeds its token's share of the rate by less than one unit. */
  lemma RemainderWithinRate(a: int, b: int, perf: int, rate: nat)
    requires 0 <= a && 0 <= b && 0 < a + b && 0 <= perf && perf * 10_000 <= (a + b) * rate
    ensures (perf - TruncDiv(perf * a, a + b)) * 10_000 < b * rate + 10_000
  {
    var w := a + b;
    var q := TruncDiv(perf * a, w);
    MulNonNegative(perf, a);
    DivisionBounds(perf * a, w);
    ScaleProduct(perf, w, rate, b);
    assert perf * w == perf * a + perf * b;
    assert (q + 1) * w == q * w + w;
    assert ((perf - q) * 10_000) * w == 10_000 * (perf * w) - 10_000 * (q * w);
    assert (b * rate + 10_000) * w == w * rate * b + 10_000 * w;
    CancelFactorStrictly((perf - q) * 10_000, b * rate + 10_000, w);
  }

  lemma FirstPartWithinRate(a: int, b: int, perf: int, rate: nat, fee: nat)
    requires 0 <= a && 0 <= b && 0 < a + b && 0 <= perf && rate + fee <= 10_000
    requires perf * 10_000 <= (a + b) * rate
    ensures TruncDiv(perf * a, a + b) + TruncDiv(a * fee, 10_000) <= a
  {
    PartWithinRate(a, a + b, perf, rate);
    FeeBounds(a, fee);
    hide TruncDiv;
    RatesOfPart(a, rate, fee);
  }

  lemma SecondPartWithinRate(a: int, b: int, perf: int, rate: nat, fee: nat)
    requires 0 <= a && 0 <= b && 0 < a + b && 0 <= perf && rate + fee <= 10_000
    requires perf * 10_000 <= (a + b) * rate
    ensures perf - TruncDiv(perf * a, a + b) + TruncDiv(b * fee, 10_000) <= b
  {
    RemainderWithinRate(a, b, perf, rate);
    FeeBounds(b, fee);
    hide TruncDiv;
    RatesOfPart(b, rate, fee);
  }

  lemma RatesOfPart(part: int, rate: nat, fee: nat)
    requires 0 <= part && rate + fee <= 10_000
    ensures part * rate + part * fee <= 10_000 * part
  {
    MulMonotone(rate + fee, 10_000, part);
    assert part * rate + part * fee == (rate + fee) * part;
  }

  lemma ScaleProduct(perf: int, w: int, rate: int, part: int)
    requires perf * 10_000 <= w * rate && 0 <= part
    ensures 10_000 * (perf * part) <= w * rate * part
  {
    MulMonotone(perf * 10_000, w * rate, part);
    assert perf * 10_000 * part == 10_000 * (perf * part);
  }
}
