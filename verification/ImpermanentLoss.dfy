/** Impermanent loss in basis points, and how far the integer computation is from the real formula. */
module ImpermanentLoss {
  import opened Wrappers
  import opened Integers
  import opened Reals
  import opened SquareRoots

  /** The retained value `2*sqrt(r)/(1+r)` in basis points, for a price ratio scaled by 10000. */
  ghost function RetainedBps(r: nat): nat {
    2 * FloorSqrt(r * 10_000) * 10_000 / (r + 10_000)
  }

  /** The real counterpart of the retained value, in basis points, for the square root of the price ratio. */
  ghost function ExactRetained(rho: real): real {
    10_000.0 * (2.0 * rho / (1.0 + rho * rho))
  }

  /** The standard formula `1 - 2*sqrt(r)/(1+r)` in basis points. */
  ghost function ExactLoss(rho: real): real {
    10_000.0 - ExactRetained(rho)
  }

  /**
   Loss for a current and an initial price ratio. None is the trap of an arithmetic overflow, which
   aborts the call.
   */
  method CalculateImpermanentLoss(priceRatio: int, initialPriceRatio: int) returns (loss: Option<nat>)
    ensures priceRatio <= 0 || initialPriceRatio <= 0 ==> loss == Some(0)
    ensures priceRatio > 0 && initialPriceRatio > 0 ==>
              var r := priceRatio * 10_000 / initialPriceRatio;
              && (loss.None? <==> !InI128(priceRatio * 10_000) || r * 10_000 > U128_MAX)
              && (loss.Some? ==> RetainedBps(r) <= 10_000 && loss.value == 10_000 - RetainedBps(r))
  {
    if priceRatio <= 0 || initialPriceRatio <= 0 {
      return Some(0);
    }
    var scaled := CheckedMul(priceRatio, 10_000);
    if scaled.None? {
      return None;
    }
    var r := scaled.value / initialPriceRatio;
    if r * 10_000 > U128_MAX {
      return None;
    }
    var root := NewtonRoot(r * 10_000);
    var term := root * 2 * 10_000 / (r + 10_000);
    RetainedAtMostWhole(r);
    assert root * 2 * 10_000 == 2 * FloorSqrt(r * 10_000) * 10_000;
    return Some(Min(SaturatingSub(10_000, term), 10_000));
  }

  /** The mean inequality survives the floors: the retained term never exceeds 100%. */
  lemma RetainedAtMostWhole(r: nat)
    ensures RetainedBps(r) <= 10_000
  {
    var s := FloorSqrt(r * 10_000);
    TwiceRootAtMost(r, s);
    QuotientAtMost(2 * s * 10_000, r + 10_000, 10_000);
  }

  lemma TwiceRootAtMost(r: nat, s: nat)
    requires s * s <= r * 10_000
    ensures 2 * s <= r + 10_000
  {
    SquareNonNegative(r - 10_000);
    assert (r - 10_000) * (r - 10_000) == (r + 10_000) * (r + 10_000) - 4 * (r * 10_000);
    assert (2 * s) * (2 * s) == 4 * (s * s);
    if 2 * s > r + 10_000 {
      StrictSquare(r + 10_000, 2 * s);
    }
  }

  lemma SquareNonNegative(a: int)
    ensures 0 <= a * a
  {
  }

  lemma StrictSquare(a: int, b: int)
    requires 0 <= a < b
    ensures a * a < b * b
  {
    MulMonotone(a, b, a);
    MulMonotone(a + 1, b, b);
  }

  /** There is no loss exactly when the scaled price ratio is back at one. */
  lemma NoLossExactlyAtPar(r: nat)
    ensures RetainedBps(r) == 10_000 <==> r == 10_000
  {
    var s := FloorSqrt(r * 10_000);
    if r == 10_000 {
      RootIsUnique(10_000, s, r * 10_000);
    }
    if RetainedBps(r) == 10_000 {
      DivisionBounds(2 * s * 10_000, r + 10_000);
      MeansMeetOnlyAtPar(r, s);
    }
  }

  lemma MeansMeetOnlyAtPar(r: nat, s: nat)
    requires s * s <= r * 10_000 && r + 10_000 <= 2 * s
    ensures r == 10_000
  {
    SquareMonotone(r + 10_000, 2 * s);
    assert (2 * s) * (2 * s) == 4 * (s * s);
    assert (r - 10_000) * (r - 10_000) == (r + 10_000) * (r + 10_000) - 4 * (r * 10_000);
    NonZeroSquare(r - 10_000);
  }

  lemma NonZeroSquare(a: int)
    ensures a != 0 ==> a * a > 0
  {
  }

  /** The floored root and the real root of the same scaled ratio differ by less than one. */
  lemma RootsAreClose(r: nat, rho: real)
    requires rho >= 0.0 && rho * rho == r as real / 10_000.0
    ensures FloorSqrt(r * 10_000) as real <= 10_000.0 * rho < FloorSqrt(r * 10_000) as real + 1.0
  {
    var s := FloorSqrt(r * 10_000);
    var sigma := 10_000.0 * rho;
    assert sigma * sigma == (r * 10_000) as real by {
      assert sigma * sigma == 10_000.0 * 10_000.0 * (rho * rho);
    }
    assert (s * s) as real == s as real * s as real;
    assert ((s + 1) * (s + 1)) as real == (s as real + 1.0) * (s as real + 1.0);
    if sigma < s as real {
      RealSquares(sigma, s as real);
      assert false;
    }
    if sigma >= s as real + 1.0 {
      if sigma > s as real + 1.0 {
        RealSquares(s as real + 1.0, sigma);
      }
      assert false;
    }
  }

  lemma RealSquares(a: real, b: real)
    requires 0.0 <= a < b
    ensures a * a < b * b
  {
    var _ := PositiveProduct(b - a, b + a);
    assert (b - a) * (b + a) == b * b - a * a;
  }

  /** The computed loss is never below the exact one and less than 3 basis points above it. */
  lemma LossErrorBound(r: nat, rho: real)
    requires rho >= 0.0 && rho * rho == r as real / 10_000.0
    ensures ExactLoss(rho) <= (10_000 - RetainedBps(r)) as real < ExactLoss(rho) + 3.0
  {
    RetainedErrorBound(r, rho, RetainedBps(r), ExactRetained(rho));
  }

  lemma RetainedErrorBound(r: nat, rho: real, t: nat, exact: real)
    requires rho >= 0.0 && rho * rho == r as real / 10_000.0
    requires t == RetainedBps(r) && exact == ExactRetained(rho)
    ensures t as real <= exact < t as real + 3.0
  {
    var d, sigma := (r + 10_000) as real, 10_000.0 * rho;
    TermBrackets(r, rho, t, d, sigma);
    ExactTerm(r, rho, exact, d);
    CancelBrackets(t as real, exact, d, sigma);
  }

  lemma CancelBrackets(t: real, exact: real, d: real, sigma: real)
    requires d > 0.0 && exact * d == 20_000.0 * sigma && t * d <= 20_000.0 * sigma < (t + 3.0) * d
    ensures t <= exact < t + 3.0
  {
    RealCancel(t, exact, d);
    RealCancelStrict(exact, t + 3.0, d);
  }

  lemma TermBrackets(r: nat, rho: real, t: nat, d: real, sigma: real)
    requires rho >= 0.0 && rho * rho == r as real / 10_000.0
    requires t == RetainedBps(r) && d == (r + 10_000) as real && sigma == 10_000.0 * rho
    ensures t as real * d <= 20_000.0 * sigma < (t as real + 3.0) * d
  {
    RootsAreClose(r, rho);
    TermBounds(r, FloorSqrt(r * 10_000), t, d);
    assert (t as real + 3.0) * d == (t as real + 1.0) * d + 2.0 * d;
  }

  lemma TermBounds(r: nat, s: nat, t: nat, d: real)
    requires t == 2 * s * 10_000 / (r + 10_000) && d == (r + 10_000) as real
    ensures t as real * d <= 20_000.0 * s as real < (t as real + 1.0) * d
  {
    DivisionBounds(2 * s * 10_000, r + 10_000);
    CastProduct(t, r + 10_000);
    CastProduct(t + 1, r + 10_000);
  }

  lemma CastProduct(a: int, b: int)
    ensures (a * b) as real == a as real * b as real
  {
  }

  lemma ExactTerm(r: nat, rho: real, exact: real, d: real)
    requires rho * rho == r as real / 10_000.0 && d == (r + 10_000) as real && exact == ExactRetained(rho)
    ensures exact * d == 20_000.0 * (10_000.0 * rho)
  {
    var q := 1.0 + rho * rho;
    assert d == 10_000.0 * q;
    assert 2.0 * rho / q * q == 2.0 * rho;
  }

  lemma RealCancel(a: real, b: real, d: real)
    requires d > 0.0 && a * d <= b * d
    ensures a <= b
  {
    if a > b {
      var _ := PositiveProduct(a - b, d);
      assert false;
    }
  }

  lemma RealCancelStrict(a: real, b: real, d: real)
    requires d > 0.0 && a * d < b * d
    ensures a < b
  {
    if a > b {
      var _ := PositiveProduct(a - b, d);
      assert false;
    }
  }
}
