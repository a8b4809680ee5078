/**
 Pools, the checked constant-product quote of one pool, and basis-point scaling.

 Every intermediate of the quote must fit a signed 128-bit integer; a pool whose numbers
 do not fit gives no quote at all.
 */
module ConstantProduct {
  import opened Wrappers
  import opened Integers
  import opened SquareRoots

  /** Largest slippage tolerance a quote accepts. */
  const MAX_SLIPPAGE_BPS: nat := 100

  /** Protocol fee shown in a quote. */
  const PROTOCOL_TREASURY_FEE_BPS: nat := 25

  datatype PoolInfo = PoolInfo(
    poolAddress: Address,
    tokenA: Address,
    tokenB: Address,
    reserveA: int,
    reserveB: int,
    feeBps: nat,
    isStableSwap: bool)
  {
    predicate Joins(a: Address, b: Address) {
      (tokenA == a && tokenB == b) || (tokenA == b && tokenB == a)
    }

    /** The token on the other side, reading the A side first. */
    function Neighbour(token: Address): Option<Address> {
      if tokenA == token then Some(tokenB)
      else if tokenB == token then Some(tokenA)
      else None
    }

    /** Reserves as (side of `token`, other side), reading the A side first. */
    function Oriented(token: Address): Option<(int, int)> {
      if tokenA == token then Some((reserveA, reserveB))
      else if tokenB == token then Some((reserveB, reserveA))
      else None
    }

    /** The same pool after `amountIn` of `token` was added and `amountOut` of the other taken. */
    function AfterSwap(token: Address, amountIn: int, amountOut: int): PoolInfo {
      if tokenA == token then this.(reserveA := reserveA + amountIn, reserveB := reserveB - amountOut)
      else this.(reserveB := reserveB + amountIn, reserveA := reserveA - amountOut)
    }

    /** Ranking of a pool: the floored geometric mean of its reserves, 0 when unusable or too large. */
    ghost function DepthScore(): nat {
      if reserveA <= 0 || reserveB <= 0 || feeBps >= 10_000 || !InI128(reserveA * reserveB) then 0
      else FloorSqrt(reserveA * reserveB)
    }

    method ComputeDepthScore() returns (score: int)
      ensures score == DepthScore()
      ensures IsDepthOf(score, reserveA, reserveB, feeBps)
    {
      ScoreIsDepth(this);
      if reserveA <= 0 || reserveB <= 0 || feeBps >= 10_000 {
        return 0;
      }
      var product := CheckedMul(reserveA, reserveB);
      if product.None? {
        return 0;
      }
      MulNonNegative(reserveA, reserveB);
      score := BinarySearchRoot(product.value);
    }
  }

  /**
   The score of these reserves: the floored square root of their product; 0 when a side is empty, the
   fee takes everything, or the product does not fit 128 bits.
   */
  ghost predicate IsDepthOf(score: int, reserveA: int, reserveB: int, feeBps: nat) {
    if reserveA > 0 && reserveB > 0 && feeBps < 10_000 && reserveA * reserveB <= I128_MAX
    then 0 <= score && score * score <= reserveA * reserveB < (score + 1) * (score + 1)
    else score == 0
  }

  lemma ScoreIsDepth(pool: PoolInfo)
    ensures IsDepthOf(pool.DepthScore(), pool.reserveA, pool.reserveB, pool.feeBps)
  {
    if pool.reserveA > 0 && pool.reserveB > 0 {
      MulNonNegative(pool.reserveA, pool.reserveB);
    }
  }

  /** Output of swapping `amount` of `token` through `pool`; None when the quote is refused. */
  function SwapOutput(pool: PoolInfo, token: Address, amount: int): Option<int> {
    var (reserveIn, reserveOut) :- pool.Oriented(token);
    if amount <= 0 || reserveIn <= 0 || reserveOut <= 0 || pool.tokenA == pool.tokenB || pool.feeBps >= 10_000 then
      None
    else
      var inputWithFee :- CheckedMul(amount, BPS_DIVISOR - pool.feeBps);
      var numerator :- CheckedMul(inputWithFee, reserveOut);
      var scaledReserve :- CheckedMul(reserveIn, BPS_DIVISOR);
      var denominator :- CheckedAdd(scaledReserve, inputWithFee);
      assert denominator > 0 by { MulMonotone(1, amount, BPS_DIVISOR - pool.feeBps); }
      Some(numerator / denominator)
  }

  /** The guards and the four checked values of a quote on plain numbers. */
  ghost predicate Quotable(x: int, y: int, feeBps: nat, dx: int) {
    && dx > 0 && x > 0 && y > 0 && feeBps < 10_000
    && dx * (10_000 - feeBps) <= I128_MAX && dx * (10_000 - feeBps) * y <= I128_MAX
    && x * 10_000 <= I128_MAX && x * 10_000 + dx * (10_000 - feeBps) <= I128_MAX
  }

  /** `dy` is the floor of the constant-product output for `dx`, after the fee, on the reserves `x` and `y`. */
  ghost predicate IsOutput(x: int, y: int, feeBps: nat, dx: int, dy: int) {
    dy * (x * 10_000 + dx * (10_000 - feeBps)) <= dx * (10_000 - feeBps) * y
    < (dy + 1) * (x * 10_000 + dx * (10_000 - feeBps))
  }

  /** A quote exists exactly when the guards hold and the four checked values fit, and is that floor. */
  lemma QuoteIsExact(pool: PoolInfo, token: Address, dx: int, dy: int)
    ensures SwapOutput(pool, token, dx) == Some(dy)
            <==> && pool.tokenA != pool.tokenB
                 && ((pool.tokenA == token && Quotable(pool.reserveA, pool.reserveB, pool.feeBps, dx)
                      && IsOutput(pool.reserveA, pool.reserveB, pool.feeBps, dx, dy))
                     || (pool.tokenB == token && Quotable(pool.reserveB, pool.reserveA, pool.feeBps, dx)
                         && IsOutput(pool.reserveB, pool.reserveA, pool.feeBps, dx, dy)))
    ensures SwapOutput(pool, token, dx).Some?
            <==> && pool.tokenA != pool.tokenB
                 && ((pool.tokenA == token && Quotable(pool.reserveA, pool.reserveB, pool.feeBps, dx))
                     || (pool.tokenB == token && Quotable(pool.reserveB, pool.reserveA, pool.feeBps, dx)))
  {
    if pool.tokenA != pool.tokenB && (pool.tokenA == token || pool.tokenB == token) {
      var x, y := if pool.tokenA == token then pool.reserveA else pool.reserveB,
                  if pool.tokenA == token then pool.reserveB else pool.reserveA;
      QuoteOnNumbers(pool, token, x, y, dx);
      if Quotable(x, y, pool.feeBps, dx) {
        OutputIsFloor(x, y, pool.feeBps, dx, dy);
      }
      hide SwapOutput, Quotable, IsOutput;
    }
  }

  lemma QuoteOnNumbers(pool: PoolInfo, token: Address, x: int, y: int, dx: int)
    requires pool.tokenA != pool.tokenB && pool.Oriented(token) == Some((x, y))
    ensures SwapOutput(pool, token, dx).Some? <==> Quotable(x, y, pool.feeBps, dx)
    ensures Quotable(x, y, pool.feeBps, dx) ==>
              && x * 10_000 + dx * (10_000 - pool.feeBps) > 0
              && SwapOutput(pool, token, dx)
                 == Some(dx * (10_000 - pool.feeBps) * y / (x * 10_000 + dx * (10_000 - pool.feeBps)))
  {
    if dx > 0 && x > 0 && y > 0 && pool.feeBps < 10_000 {
      MulNonNegative(dx, 10_000 - pool.feeBps);
      MulNonNegative(dx * (10_000 - pool.feeBps), y);
    }
  }

  lemma OutputIsFloor(x: int, y: int, feeBps: nat, dx: int, dy: int)
    requires Quotable(x, y, feeBps, dx) && x * 10_000 + dx * (10_000 - feeBps) > 0
    ensures IsOutput(x, y, feeBps, dx, dy)
            <==> dy == dx * (10_000 - feeBps) * y / (x * 10_000 + dx * (10_000 - feeBps))
  {
    var n, d := dx * (10_000 - feeBps) * y, x * 10_000 + dx * (10_000 - feeBps);
    DivisionBounds(n, d);
    if IsOutput(x, y, feeBps, dx, dy) {
      QuotientAtLeast(n, d, dy);
      QuotientAtMost(n, d, dy);
    }
  }

  /** The facts a successful quote rests on, in terms of its two reserves and fee multiplier. */
  lemma QuoteFacts(pool: PoolInfo, token: Address, dx: int) returns (x: int, y: int, f: int, dy: int)
    requires SwapOutput(pool, token, dx).Some?
    ensures pool.Oriented(token) == Some((x, y)) && f == BPS_DIVISOR - pool.feeBps
    ensures dy == SwapOutput(pool, token, dx).value
    ensures 0 < dx && 0 < x && 0 < y && 0 < f <= BPS_DIVISOR && pool.tokenA != pool.tokenB
    ensures 0 < dx * f && 0 < BPS_DIVISOR * x + dx * f && InI128(dx * f * y)
    ensures dy == dx * f * y / (BPS_DIVISOR * x + dx * f)
    ensures 0 <= dy < y
    ensures dy * (BPS_DIVISOR * x + dx * f) <= dx * f * y
  {
    var sides := pool.Oriented(token).value;
    x, y, f := sides.0, sides.1, BPS_DIVISOR - pool.feeBps;
    dy := SwapOutput(pool, token, dx).value;
    assert dx * f >= 1 by { MulMonotone(1, dx, f); }
    var w, d := dx * f, BPS_DIVISOR * x + dx * f;
    MulNonNegative(w, y);
    DivisionBounds(w * y, d);
    QuotientAtLeast(w * y, d, 0);
    assert w * y < y * d by {
      assert y * d == y * (BPS_DIVISOR * x) + w * y;
      MulMonotone(1, BPS_DIVISOR * x, y);
    }
    QuotientAtMost(w * y, d, y - 1);
  }

  /** The output is worth at most the input at the pool's own reserves. */
  lemma OutputBelowSpot(x: int, y: int, f: int, dx: int, dy: int)
    requires 0 < x && 0 < f <= BPS_DIVISOR && 0 <= dy
    requires 0 < dx && dy * (BPS_DIVISOR * x + dx * f) <= dx * f * y
    ensures dy * (x + dx) <= dx * y
  {
    MulNonNegative(dy, x);
    MulMonotone(f, BPS_DIVISOR, dy * x);
    assert f * (dy * x) + dy * (dx * f) <= dx * f * y by {
      assert dy * (BPS_DIVISOR * x + dx * f) == BPS_DIVISOR * (dy * x) + dy * (dx * f);
    }
    assert (dy * (x + dx)) * f == f * (dy * x) + dy * (dx * f);
    assert (dx * y) * f == dx * f * y;
    CancelFactor(dy * (x + dx), dx * y, f);
  }

  /** What a quote pays out, valued at the reserves it leaves behind, is covered by what it took in. */
  lemma QuoteIsCovered(pool: PoolInfo, token: Address, dx: int) returns (x: int, y: int, dy: int)
    requires SwapOutput(pool, token, dx).Some?
    ensures pool.Oriented(token) == Some((x, y)) && SwapOutput(pool, token, dx) == Some(dy)
    ensures 0 < dx && 0 < x && 0 <= dy < y && pool.tokenA != pool.tokenB
    ensures dy * (x + dx) <= dx * y
  {
    var f;
    x, y, f, dy := QuoteFacts(pool, token, dx);
    OutputBelowSpot(x, y, f, dx, dy);
  }

  /** A quote never drains the other side and never lowers the product of the reserves. */
  lemma QuoteKeepsProduct(pool: PoolInfo, token: Address, dx: int)
    requires SwapOutput(pool, token, dx).Some?
    ensures pool.Oriented(token).Some?
    ensures
      var (x, y) := pool.Oriented(token).value;
      var dy := SwapOutput(pool, token, dx).value;
      0 <= dy < y && (x + dx) * (y - dy) >= x * y
  {
    var x, y, dy := QuoteIsCovered(pool, token, dx);
    assert (x + dx) * (y - dy) == x * y + dx * y - dy * (x + dx);
  }

  /** A larger input never quotes a smaller output. */
  lemma QuoteIsMonotone(pool: PoolInfo, token: Address, dx1: int, dx2: int)
    requires dx1 <= dx2
    requires SwapOutput(pool, token, dx1).Some? && SwapOutput(pool, token, dx2).Some?
    ensures SwapOutput(pool, token, dx1).value <= SwapOutput(pool, token, dx2).value
  {
    var x, y, f, dy1 := QuoteFacts(pool, token, dx1);
    var _, _, _, dy2 := QuoteFacts(pool, token, dx2);
    MulMonotone(dx1, dx2, f);
    RatioIsMonotone(BPS_DIVISOR * x, y, dx1 * f, dx2 * f, dy1);
  }

  /** `w*y / (d+w)` grows with `w`. */
  lemma RatioIsMonotone(d: int, y: int, w1: int, w2: int, q: int)
    requires 0 < d && 0 < w1 <= w2 && q < y && q * (d + w1) <= w1 * y
    ensures q <= w2 * y / (d + w2)
  {
    MulMonotone(q, y, w2 - w1);
    assert q * (d + w2) == q * (d + w1) + q * (w2 - w1);
    assert w2 * y == w1 * y + y * (w2 - w1);
    QuotientAtLeast(w2 * y, d + w2, q);
  }

  /** A quote that exists for an input exists for every smaller positive input. */
  lemma QuoteIsDownwardClosed(pool: PoolInfo, token: Address, dx1: int, dx2: int)
    requires 0 < dx1 <= dx2 && SwapOutput(pool, token, dx2).Some?
    ensures SwapOutput(pool, token, dx1).Some?
  {
    var x, y, f, _ := QuoteFacts(pool, token, dx2);
    MulMonotone(dx1, dx2, f);
    MulNonNegative(dx1, f);
    MulMonotone(dx1 * f, dx2 * f, y);
    MulNonNegative(dx1 * f, y);
  }

  /** Swapping an output straight back through the same reserves returns at most the input. */
  lemma SwapBackSameReserves(pool: PoolInfo, tokenIn: Address, tokenOut: Address, dx: int)
    requires pool.Joins(tokenIn, tokenOut) && SwapOutput(pool, tokenIn, dx).Some?
    requires SwapOutput(pool, tokenOut, SwapOutput(pool, tokenIn, dx).value).Some?
    ensures SwapOutput(pool, tokenOut, SwapOutput(pool, tokenIn, dx).value).value <= dx
  {
    var x, y, dy := QuoteIsCovered(pool, tokenIn, dx);
    assert dy * (x + dx) == dy * x + dx * dy;
    MulNonNegative(dx, dy);
    ReturnAtMostInput(pool, tokenOut, y, x, dx, dy);
  }

  /** The same holds through the reserves the first swap leaves behind. */
  lemma SwapBackUpdatedReserves(pool: PoolInfo, tokenIn: Address, tokenOut: Address, dx: int)
    requires pool.Joins(tokenIn, tokenOut) && SwapOutput(pool, tokenIn, dx).Some?
    requires
      var dy := SwapOutput(pool, tokenIn, dx).value;
      SwapOutput(pool.AfterSwap(tokenIn, dx, dy), tokenOut, dy).Some?
    ensures
      var dy := SwapOutput(pool, tokenIn, dx).value;
      && SwapOutput(pool.AfterSwap(tokenIn, dx, dy), tokenOut, dy).value <= dx
      && pool.Oriented(tokenIn).Some?
      && pool.AfterSwap(tokenIn, dx, dy).Oriented(tokenOut)
         == Some((pool.Oriented(tokenIn).value.1 - dy, pool.Oriented(tokenIn).value.0 + dx))
  {
    var x, y, dy := QuoteIsCovered(pool, tokenIn, dx);
    assert dx * (y - dy) == dx * y - dx * dy;
    ReturnAtMostInput(pool.AfterSwap(tokenIn, dx, dy), tokenOut, y - dy, x + dx, dx, dy);
  }

  /** A swap of `dy` whose value at the reserves is covered by `dx` returns at most `dx`. */
  lemma ReturnAtMostInput(pool: PoolInfo, token: Address, y: int, x: int, dx: int, dy: int)
    requires 0 < dx && pool.Oriented(token) == Some((y, x)) && SwapOutput(pool, token, dy).Some?
    requires dy * x <= dx * y + dx * dy
    ensures SwapOutput(pool, token, dy).value <= dx
  {
    var _, _, f, back := QuoteFacts(pool, token, dy);
    CoveredNumerator(x, y, f, dx, dy);
    CancelFactor(back, dx, BPS_DIVISOR * y + dy * f);
  }

  lemma CoveredNumerator(x: int, y: int, f: int, dx: int, dy: int)
    requires 0 < f <= BPS_DIVISOR && 0 < dx && 0 < y
    requires dy * x <= dx * y + dx * dy
    ensures dy * f * x <= dx * (BPS_DIVISOR * y + dy * f)
  {
    MulMonotone(dy * x, dx * y + dx * dy, f);
    MulNonNegative(dx, y);
    MulMonotone(f, BPS_DIVISOR, dx * y);
    assert dy * f * x == dy * x * f;
    assert (dx * y + dx * dy) * f == f * (dx * y) + dx * (dy * f);
    assert dx * (BPS_DIVISOR * y + dy * f) == BPS_DIVISOR * (dx * y) + dx * (dy * f);
  }

  /** `amount * bps / 10000` computed in two halves, so that no product leaves 128 bits. */
  function ScaleBps(amount: int, bps: nat): (scaled: int)
    requires 0 <= amount <= I128_MAX && bps <= BPS_DIVISOR
    ensures scaled == amount * bps / BPS_DIVISOR
    ensures 0 <= scaled <= amount
  {
    assert InI128((amount / BPS_DIVISOR) * bps) && InI128((amount % BPS_DIVISOR) * bps) by {
      ScaleBpsFits(amount, bps);
    }
    ScaleBpsIsExact(amount, bps);
    (amount / BPS_DIVISOR) * bps + (amount % BPS_DIVISOR) * bps / BPS_DIVISOR
  }

  lemma ScaleBpsFits(amount: int, bps: nat)
    requires 0 <= amount <= I128_MAX && bps <= BPS_DIVISOR
    ensures 0 <= (amount / BPS_DIVISOR) * bps <= amount
    ensures 0 <= (amount % BPS_DIVISOR) * bps <= BPS_DIVISOR * BPS_DIVISOR
  {
    MulMonotone(bps, BPS_DIVISOR, amount / BPS_DIVISOR);
    MulNonNegative(amount / BPS_DIVISOR, bps);
    MulMonotone(bps, BPS_DIVISOR, amount % BPS_DIVISOR);
    MulNonNegative(amount % BPS_DIVISOR, bps);
  }

  lemma ScaleBpsIsExact(amount: int, bps: nat)
    requires 0 <= amount && bps <= BPS_DIVISOR
    ensures (amount / BPS_DIVISOR) * bps + (amount % BPS_DIVISOR) * bps / BPS_DIVISOR == amount * bps / BPS_DIVISOR
    ensures 0 <= amount * bps / BPS_DIVISOR <= amount
  {
    var q, r := amount / BPS_DIVISOR, amount % BPS_DIVISOR;
    assert amount * bps == (q * bps) * BPS_DIVISOR + r * bps by {
      assert amount == q * BPS_DIVISOR + r;
      assert (q * BPS_DIVISOR + r) * bps == (q * bps) * BPS_DIVISOR + r * bps;
    }
    MulMonotone(bps, BPS_DIVISOR, amount);
    MulNonNegative(amount, bps);
  }

  /** Slippage-protected minimum: the expected output less the tolerated fraction. */
  function MinimumOutput(expected: int, slippageBps: nat): (minimum: int)
    requires 0 <= expected <= I128_MAX && slippageBps <= MAX_SLIPPAGE_BPS
    ensures minimum == expected * (BPS_DIVISOR - slippageBps) / BPS_DIVISOR
  {
    ScaleBps(expected, BPS_DIVISOR - slippageBps)
  }

  /** More tolerance never raises the minimum, and 99% of the expected output is always kept. */
  lemma MinimumOutputIsAntitone(expected: int, s1: nat, s2: nat)
    requires 0 <= expected <= I128_MAX && s1 <= s2 <= MAX_SLIPPAGE_BPS
    ensures expected * 99 / 100 <= MinimumOutput(expected, s2) <= MinimumOutput(expected, s1) <= expected
  {
    MulMonotone(BPS_DIVISOR - s2, BPS_DIVISOR - s1, expected);
    MulMonotone(BPS_DIVISOR - MAX_SLIPPAGE_BPS, BPS_DIVISOR - s2, expected);
    assert expected * 9_900 / BPS_DIVISOR == expected * 99 / 100;
  }

  /** Output of one pool and its price impact in basis points, zero and zero when it gives no quote. */
  function DirectSwap(pool: PoolInfo, token: Address, amount: int): (int, int) {
    match SwapOutput(pool, token, amount)
    case None => (0, 0)
    case Some(output) =>
      var (reserveIn, reserveOut) := pool.Oriented(token).value;
      assert amount * reserveOut > 0 by { MulMonotone(1, amount, reserveOut); }
      var retained := Min(output * reserveIn * BPS_DIVISOR / (amount * reserveOut), BPS_DIVISOR);
      (output, BPS_DIVISOR - retained)
  }

  /**
   Price impact lies between the pool's fee and 100%: the clamp never cuts anything off, and the
   execution value is bounded by the numerator the quote has already checked.
   */
  lemma PriceImpactRange(pool: PoolInfo, token: Address, amount: int)
    requires SwapOutput(pool, token, amount).Some?
    ensures pool.Oriented(token).Some?
    ensures
      var (reserveIn, reserveOut) := pool.Oriented(token).value;
      var (output, impact) := DirectSwap(pool, token, amount);
      && SwapOutput(pool, token, amount) == Some(output)
      && 0 <= output * reserveIn * BPS_DIVISOR <= amount * (BPS_DIVISOR - pool.feeBps) * reserveOut <= I128_MAX
      && amount * reserveOut > 0
      && impact == BPS_DIVISOR - output * reserveIn * BPS_DIVISOR / (amount * reserveOut)
      && pool.feeBps <= impact <= BPS_DIVISOR
  {
    var x, y, f, dy := QuoteFacts(pool, token, amount);
    MulMonotone(1, amount, y);
    MulNonNegative(dy, amount * f);
    MulNonNegative(dy, x);
    assert dy * (BPS_DIVISOR * x + amount * f) == dy * x * BPS_DIVISOR + dy * (amount * f);
    var execution, spot := dy * x * BPS_DIVISOR, amount * y;
    assert amount * f * y == f * spot;
    assert (f + 1) * spot == f * spot + spot;
    QuotientAtMost(execution, spot, f);
    QuotientAtLeast(execution, spot, 0);
  }
}
