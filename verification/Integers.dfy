/** Machine-integer limits, checked arithmetic and the division facts used by the fixed-point code. */
module Integers {
  import opened Wrappers

  const I128_MAX: int := 170141183460469231731687303715884105727
  const U128_MAX: int := 340282366920938463463374607431768211455
  const U64_MAX: int := 18446744073709551615

  /** Denominator of a basis-point ratio. */
  const BPS_DIVISOR: int := 10_000

  predicate InI128(x: int) {
    -I128_MAX - 1 <= x <= I128_MAX
  }

  function CheckedMul(a: int, b: int): Option<int> {
    if InI128(a * b) then Some(a * b) else None
  }

  function CheckedAdd(a: int, b: int): Option<int> {
    if InI128(a + b) then Some(a + b) else None
  }

  function Min(a: int, b: int): int {
    if a <= b then a else b
  }

  function Max(a: int, b: int): int {
    if a <= b then b else a
  }

  /** Unsigned subtraction that stops at zero. */
  function SaturatingSub(a: nat, b: nat): nat {
    if a >= b then a - b else 0
  }

  /** Unsigned 64-bit addition that stops at the largest value. */
  function SaturatingAdd64(a: nat, b: nat): nat {
    if a + b > U64_MAX then U64_MAX else a + b
  }

  /** Division that truncates toward zero, as Rust's `/` does. */
  function TruncDiv(n: int, d: int): int
    requires d > 0
  {
    if n >= 0 then n / d else -((-n) / d)
  }

  lemma DivisionBounds(n: int, d: int)
    requires d > 0
    ensures (n / d) * d <= n < (n / d + 1) * d
  {
  }

  /** A quotient is at least `q` as soon as `q` divisors fit. */
  lemma QuotientAtLeast(n: int, d: int, q: int)
    requires d > 0 && q * d <= n
    ensures q <= n / d
  {
    if q > n / d {
      MulMonotone(n / d + 1, q, d);
      DivisionBounds(n, d);
      assert false;
    }
  }

  /** A quotient is at most `q` as soon as `q + 1` divisors do not fit. */
  lemma QuotientAtMost(n: int, d: int, q: int)
    requires d > 0 && n < (q + 1) * d
    ensures n / d <= q
  {
    if n / d > q {
      MulMonotone(q + 1, n / d, d);
      DivisionBounds(n, d);
      assert false;
    }
  }

  lemma MulMonotone(a: int, b: int, c: int)
    requires a <= b && 0 <= c
    ensures a * c <= b * c
  {
    MulNonNegative(b - a, c);
    assert (b - a) * c == b * c - a * c;
  }

  lemma MulNonNegative(a: int, b: int)
    requires 0 <= a && 0 <= b
    ensures 0 <= a * b
  {
  }

  /** A common positive factor can be cancelled from both sides of `<=`. */
  lemma CancelFactor(a: int, b: int, c: int)
    requires 0 < c && a * c <= b * c
    ensures a <= b
  {
    if a > b {
      MulMonotone(b + 1, a, c);
      assert false;
    }
  }

  /** A common positive factor can be cancelled from both sides of `<`. */
  lemma CancelFactorStrictly(a: int, b: int, c: int)
    requires 0 < c && a * c < b * c
    ensures a < b
  {
    if a >= b {
      MulMonotone(b, a, c);
      assert false;
    }
  }

  lemma SwapFactors(a: int, b: int, c: int)
    ensures a * b * c == a * c * b
  {
  }
}
