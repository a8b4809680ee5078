/** The value behind one share: never falls but for swept dust, and no profit from a round trip. */
module VaultPrices {
  import opened Wrappers
  import opened Integers
  import opened Reals
  import opened VaultState
  import opened VaultAccounting

  /** Dust a step sweeps out of both tokens together. */
  ghost function SweptBy(v: Vault, t: Timed): int {
    if t.call.WithdrawCall? && Perform(v, t).Success? && v.book.totalShares > 0 then
      var b, shares := v.book, t.call.shares;
      var fullExit := shares == b.Position(t.call.user).shares;
      Swept(b.totalA, shares, b.totalShares, fullExit) + Swept(b.totalB, shares, b.totalShares, fullExit)
    else 0
  }

  /** Sweeping happens only in a full exit and takes at most the threshold of each token. */
  lemma SweepIsDust(v: Vault, t: Timed)
    requires Valid(v)
    ensures 0 <= SweptBy(v, t) <= 2 * DUST_THRESHOLD
    ensures SweptBy(v, t) > 0 ==> t.call.WithdrawCall? && t.call.shares == v.book.Position(t.call.user).shares
  {
    if t.call.WithdrawCall? && Perform(v, t).Success? {
      var r := WithdrawShape(v, t.call.user, t.call.shares, t.call.minAmountA, t.call.minAmountB, t.now);
      var fullExit := t.call.shares == v.book.Position(t.call.user).shares;
      RedeemedBounds(v.book.totalA, t.call.shares, v.book.totalShares, fullExit);
      RedeemedBounds(v.book.totalB, t.call.shares, v.book.totalShares, fullExit);
    }
  }

  lemma DepositKeepsPrice(v: Vault, user: Address, amountA: int, amountB: int, minShares: int)
    requires Valid(v) && v.book.totalShares > 0
    requires Deposit(v, user, amountA, amountB, minShares).Success?
    ensures
      var b, b' := v.book, Deposit(v, user, amountA, amountB, minShares).value.0.book;
      b'.totalShares > 0 && b'.Value() * b.totalShares >= b.Value() * b'.totalShares
  {
    var b, d := v.book, amountA + amountB;
    var minted := MintedShares(b, d);
    MintIsFair(d, b.totalShares, b.Value());
    assert (b.Value() + d) * b.totalShares == b.Value() * b.totalShares + d * b.totalShares;
    assert b.Value() * (b.totalShares + minted) == b.Value() * b.totalShares + minted * b.Value();
  }

  /** Removing a fair part and a sweep: linear combination of the two tokens' bounds. */
  lemma RemovalKeepsPrice(a: int, b: int, total: int, shares: int, redeemedA: int, redeemedB: int, sweptA: int, sweptB: int)
    requires (redeemedA - sweptA) * total <= shares * a && (redeemedB - sweptB) * total <= shares * b
    ensures (a + b - redeemedA - redeemedB + sweptA + sweptB) * total >= (a + b) * (total - shares)
  {
    var outA, outB := redeemedA - sweptA, redeemedB - sweptB;
    assert (a + b - outA - outB) * total == (a + b) * total - outA * total - outB * total;
    assert (a + b) * (total - shares) == (a + b) * total - shares * a - shares * b;
  }

  /** Each redeemed amount without its sweep is at most the proportional part. */
  lemma RedeemedWithinShare(v: Vault, user: Address, shares: int) returns (sweptA: int, sweptB: int)
    requires CanRedeem(v, user, shares)
    ensures
      var r, b, fullExit := Redeem(v, user, shares), v.book, shares == v.book.Position(user).shares;
      && sweptA == Swept(b.totalA, shares, b.totalShares, fullExit)
      && sweptB == Swept(b.totalB, shares, b.totalShares, fullExit)
      && (r.redeemedA - sweptA) * b.totalShares <= shares * b.totalA
      && (r.redeemedB - sweptB) * b.totalShares <= shares * b.totalB
  {
    hide TruncDiv, PerformanceFee, RedeemedAmount, Swept;
    var b, fullExit := v.book, shares == v.book.Position(user).shares;
    RedeemedBounds(b.totalA, shares, b.totalShares, fullExit);
    RedeemedBounds(b.totalB, shares, b.totalShares, fullExit);
    sweptA, sweptB := Swept(b.totalA, shares, b.totalShares, fullExit), Swept(b.totalB, shares, b.totalShares, fullExit);
  }

  /** A successful withdrawal in numbers: what it takes of each token, and how much of that is sweep. */
  lemma WithdrawFacts(v: Vault, t: Timed) returns (r: Redemption, sweptA: int, sweptB: int)
    requires Valid(v) && t.call.WithdrawCall? && Perform(v, t).Success?
    ensures
      var b, b', shares := v.book, Step(v, t).book, t.call.shares;
      && 0 < shares <= b.Position(t.call.user).shares <= b.totalShares && b'.totalShares == b.totalShares - shares
      && b'.totalA == b.totalA - r.redeemedA && b'.totalB == b.totalB - r.redeemedB
      && (r.redeemedA - sweptA) * b.totalShares <= shares * b.totalA
      && (r.redeemedB - sweptB) * b.totalShares <= shares * b.totalB
    ensures sweptA + sweptB == SweptBy(v, t)
    ensures Withdraw(v, t.call.user, t.call.shares, t.call.minAmountA, t.call.minAmountB, t.now) == Success((Step(v, t), r))
    ensures r.PayoutA() + r.PayoutB() <= r.redeemedA + r.redeemedB
  {
    hide Withdraw, PayOut, Valid, Redeem, Swept;
    r := WithdrawShape(v, t.call.user, t.call.shares, t.call.minAmountA, t.call.minAmountB, t.now);
    sweptA, sweptB := RedeemedWithinShare(v, t.call.user, t.call.shares);
  }

  lemma WithdrawKeepsPrice(v: Vault, t: Timed)
    requires Valid(v) && t.call.WithdrawCall? && Perform(v, t).Success?
    ensures v.book.totalShares > 0
    ensures (Step(v, t).book.Value() + SweptBy(v, t)) * v.book.totalShares
            >= v.book.Value() * Step(v, t).book.totalShares
  {
    hide Perform, SweptBy, Withdraw;
    var r, sweptA, sweptB := WithdrawFacts(v, t);
    RemovalKeepsPrice(v.book.totalA, v.book.totalB, v.book.totalShares, t.call.shares, r.redeemedA, r.redeemedB,
                      sweptA, sweptB);
  }

  lemma HarvestKeepsPrice(v: Vault, rewardA: nat, rewardB: nat)
    requires Valid(v) && Harvest(v, rewardA, rewardB).Success?
    ensures
      var b, b' := v.book, Harvest(v, rewardA, rewardB).value.book;
      b'.totalShares == b.totalShares && b'.Value() * b.totalShares >= b.Value() * b'.totalShares
  {
    HarvestKeepsSolvent(v, rewardA, rewardB);
    MulMonotone(v.book.Value(), Harvest(v, rewardA, rewardB).value.book.Value(), v.book.totalShares);
  }

  /** In one step the value behind a share falls by no more than the swept dust, compared crosswise. */
  lemma StepKeepsPrice(v: Vault, t: Timed)
    requires Valid(v) && v.book.totalShares > 0
    ensures (Step(v, t).book.Value() + SweptBy(v, t)) * v.book.totalShares
            >= v.book.Value() * Step(v, t).book.totalShares
  {
    if Perform(v, t).Success? {
      match t.call
      case DepositCall(user, a, b, m) => DepositKeepsPrice(v, user, a, b, m);
      case WithdrawCall(_, _, _, _) => WithdrawKeepsPrice(v, t);
      case HarvestCall(a, b) => HarvestKeepsPrice(v, a, b);
      case _ =>
    }
  }

  // ---------- whole runs ----------

  ghost function Price(b: Book): real
    requires b.totalShares > 0
  {
    b.Value() as real / b.totalShares as real
  }

  /** Shares were outstanding before and after every step. */
  ghost predicate AlwaysShares(v: Vault, trace: seq<Timed>) {
    && Run(v, trace).book.totalShares > 0
    && (trace != [] ==> AlwaysShares(v, trace[..|trace| - 1]))
  }

  /** What sweeps have cost each share that remained, over a run. */
  ghost function SweepLoss(v: Vault, trace: seq<Timed>): real
    requires AlwaysShares(v, trace)
  {
    if trace == [] then 0.0
    else
      var init := trace[..|trace| - 1];
      SweepLoss(v, init)
      + SweptBy(Run(v, init), trace[|trace| - 1]) as real / Run(v, trace).book.totalShares as real
  }

  lemma CrosswiseIsRatio(value: int, total: int, value': int, total': int, swept: int)
    requires total > 0 && total' > 0 && (value' + swept) * total >= value * total'
    ensures value as real / total as real
            <= value' as real / total' as real + swept as real / total' as real
  {
    var x, s, y, s' := value as real, total as real, (value' + swept) as real, total' as real;
    assert y * s >= x * s' by {
      assert ((value' + swept) * total) as real == y * s;
      assert (value * total') as real == x * s';
    }
    RatioOrder(x, s, y, s');
    assert y / s' == value' as real / s' + swept as real / s';
  }

  lemma RatioOrder(x: real, s: real, y: real, s': real)
    requires s > 0.0 && s' > 0.0 && y * s >= x * s'
    ensures x / s <= y / s'
  {
    var p, q := x / s, y / s';
    assert p * s == x && q * s' == y;
    assert (p - q) * (s * s') == x * s' - y * s;
    var _ := PositiveProduct(s, s');
    if p > q {
      var _ := PositiveProduct(p - q, s * s');
    }
  }

  lemma StepKeepsRealPrice(v: Vault, t: Timed)
    requires Valid(v) && v.book.totalShares > 0 && Step(v, t).book.totalShares > 0
    ensures Price(v.book)
            <= Price(Step(v, t).book) + SweptBy(v, t) as real / Step(v, t).book.totalShares as real
  {
    hide Step, SweptBy, Valid, Book.Value;
    StepKeepsPrice(v, t);
    CrosswiseIsRatio(v.book.Value(), v.book.totalShares, Step(v, t).book.Value(), Step(v, t).book.totalShares,
                     SweptBy(v, t));
  }

  /** Over a run with shares always outstanding, the value of a share falls at most by the swept dust. */
  lemma {:induction false} PriceNeverFallsButForDust(v: Vault, trace: seq<Timed>)
    requires Valid(v) && AllExternal(v, trace) && AlwaysShares(v, trace)
    ensures v.book.totalShares > 0
    ensures Price(v.book) <= Price(Run(v, trace).book) + SweepLoss(v, trace)
  {
    if trace != [] {
      hide Step, SweptBy, Price, Valid;
      var init, last := trace[..|trace| - 1], trace[|trace| - 1];
      PriceNeverFallsButForDust(v, init);
      RunConserves(v, init);
      StepKeepsRealPrice(Run(v, init), last);
    }
  }

  // ---------- round trips ----------

  /** Value redeemed for freshly minted shares is covered by the deposit, up to the sweep. */
  lemma RoundTripArithmetic(value: int, total: int, d: int, minted: int, out: int, swept: int)
    requires value > 0 && total > 0 && d > 0 && minted >= 0
    requires minted * value <= d * total
    requires (out - swept) * (total + minted) <= minted * (value + d)
    ensures out <= d + swept
  {
    assert minted * (value + d) == minted * value + minted * d;
    assert d * (total + minted) == d * total + minted * d;
    CancelFactor(out - swept, d, total + minted);
  }

  /**
   Depositing into a vault with value and at once withdrawing exactly the minted shares redeems at
   most the deposit, plus the dust a full exit may sweep; fees only lower what is paid out.
   */
  lemma NoProfitFromRoundTrip(v: Vault, user: Address, amountA: int, amountB: int, minShares: int,
                              minA: int, minB: int, now: nat)
    requires Valid(v) && user != v.info.self && v.book.totalShares > 0
    requires Deposit(v, user, amountA, amountB, minShares).Success?
    requires
      var (mid, minted) := Deposit(v, user, amountA, amountB, minShares).value;
      Withdraw(mid, user, minted, minA, minB, now).Success?
    ensures
      var (mid, minted) := Deposit(v, user, amountA, amountB, minShares).value;
      var r := Withdraw(mid, user, minted, minA, minB, now).value.1;
      var swept := SweptBy(mid, Timed(now, WithdrawCall(user, minted, minA, minB)));
      && r.PayoutA() + r.PayoutB() <= r.redeemedA + r.redeemedB <= amountA + amountB + swept
      && swept <= 2 * DUST_THRESHOLD
      && (v.book.Position(user).shares > 0 ==> swept == 0)
  {
    DepositKeepsSolvent(v, user, amountA, amountB, minShares);
    var (mid, minted) := Deposit(v, user, amountA, amountB, minShares).value;
    var t := Timed(now, WithdrawCall(user, minted, minA, minB));
    MintedBounds(v, user, amountA, amountB, minShares);
    SweepIsDust(mid, t);
    RedeemedForMinted(v, mid, user, amountA + amountB, minted, minA, minB, now);
  }

  /** What a deposit mints, and the book it leaves. */
  lemma MintedBounds(v: Vault, user: Address, amountA: int, amountB: int, minShares: int)
    requires Valid(v) && v.book.totalShares > 0 && Deposit(v, user, amountA, amountB, minShares).Success?
    ensures
      var (mid, minted) := Deposit(v, user, amountA, amountB, minShares).value;
      && minted > 0 && amountA + amountB > 0 && v.book.Value() > 0
      && minted * v.book.Value() <= (amountA + amountB) * v.book.totalShares
      && mid.book.totalShares == v.book.totalShares + minted
      && mid.book.totalA == v.book.totalA + amountA && mid.book.totalB == v.book.totalB + amountB
      && mid.book.Position(user).shares == v.book.Position(user).shares + minted
  {
    var _, _ := DepositShape(v, user, amountA, amountB, minShares);
    MintIsFair(amountA + amountB, v.book.totalShares, v.book.Value());
  }

  lemma RedeemedForMinted(v: Vault, mid: Vault, user: Address, d: int, minted: int, minA: int, minB: int, now: nat)
    requires Valid(mid) && Withdraw(mid, user, minted, minA, minB, now).Success?
    requires minted > 0 && d > 0 && v.book.Value() > 0 && v.book.totalShares > 0
    requires minted * v.book.Value() <= d * v.book.totalShares
    requires mid.book.totalShares == v.book.totalShares + minted && mid.book.Value() == v.book.Value() + d
    ensures
      var r := Withdraw(mid, user, minted, minA, minB, now).value.1;
      && r.PayoutA() + r.PayoutB() <= r.redeemedA + r.redeemedB
      && r.redeemedA + r.redeemedB <= d + SweptBy(mid, Timed(now, WithdrawCall(user, minted, minA, minB)))
  {
    var t := Timed(now, WithdrawCall(user, minted, minA, minB));
    assert Perform(mid, t).Success?;
    hide Perform, SweptBy, Withdraw, Valid, Redemption.PayoutA, Redemption.PayoutB;
    var r, sweptA, sweptB := WithdrawFacts(mid, t);
    RoundTripNumbers(v.book.Value(), v.book.totalShares, d, minted, mid.book.totalA, mid.book.totalB,
                     r.redeemedA, r.redeemedB, sweptA, sweptB);
  }

  lemma RoundTripNumbers(value: int, total: int, d: int, minted: int, a: int, b: int,
                         redeemedA: int, redeemedB: int, sweptA: int, sweptB: int)
    requires value > 0 && total > 0 && d > 0 && minted > 0 && a + b == value + d
    requires minted * value <= d * total
    requires (redeemedA - sweptA) * (total + minted) <= minted * a
    requires (redeemedB - sweptB) * (total + minted) <= minted * b
    ensures redeemedA + redeemedB <= d + sweptA + sweptB
  {
    SumOfParts(a, b, total + minted, minted, redeemedA - sweptA, redeemedB - sweptB);
    RoundTripArithmetic(value, total, d, minted, redeemedA + redeemedB, sweptA + sweptB);
  }

  lemma SumOfParts(a: int, b: int, total: int, shares: int, outA: int, outB: int)
    requires outA * total <= shares * a && outB * total <= shares * b
    ensures (outA + outB) * total <= shares * (a + b)
  {
    assert (outA + outB) * total == outA * total + outB * total;
    assert shares * (a + b) == shares * a + shares * b;
  }
}
