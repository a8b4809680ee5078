/** The two integer square roots of the contracts and the root they both compute. */
module SquareRoots {
  import opened Integers

  ghost predicate IsRoot(r: int, n: int) {
    0 <= r && r * r <= n < (r + 1) * (r + 1)
  }

  lemma RootIsUnique(r: int, s: int, n: int)
    requires IsRoot(r, n) && IsRoot(s, n)
    ensures r == s
  {
    if r < s {
      SquareMonotone(r + 1, s);
      assert false;
    } else if s < r {
      SquareMonotone(s + 1, r);
      assert false;
    }
  }

  lemma SquareMonotone(a: int, b: int)
    requires 0 <= a <= b
    ensures a * a <= b * b
  {
    MulMonotone(a, b, a);
    MulMonotone(a, b, b);
  }

  lemma {:induction false} RootExists(n: nat)
    ensures exists r :: IsRoot(r, n)
  {
    if n == 0 {
      assert IsRoot(0, 0);
    } else {
      RootExists(n - 1);
      var r :| IsRoot(r, n - 1);
      assert IsRoot(if n < (r + 1) * (r + 1) then r else r + 1, n);
    }
  }

  /** The floor of the square root. */
  ghost function FloorSqrt(n: nat): (r: nat)
    ensures IsRoot(r, n)
  {
    RootExists(n);
    var r :| IsRoot(r, n);
    r
  }

  /** A candidate whose quotient is not smaller than itself is at most the root, and conversely. */
  lemma QuotientComparesWithRoot(mid: int, n: nat)
    requires 0 < mid
    ensures mid <= n / mid <==> mid <= FloorSqrt(n)
  {
    var r := FloorSqrt(n);
    DivisionBounds(n, mid);
    if mid <= n / mid {
      MulMonotone(mid, n / mid, mid);
      if r < mid {
        SquareMonotone(r + 1, mid);
        assert false;
      }
    }
    if mid <= r {
      SquareMonotone(mid, r);
      QuotientAtLeast(n, mid, mid);
    }
  }

  /** Binary search used to rank pools; inputs at or below one are returned unchanged. */
  method BinarySearchRoot(n: int) returns (result: int)
    ensures n < 0 ==> result == n
    ensures n >= 0 ==> result == FloorSqrt(n)
  {
    if n <= 1 {
      if n >= 0 {
        RootIsUnique(n, FloorSqrt(n), n);
      }
      return n;
    }
    var low, high := 1, n;
    result := 1;
    ghost var root := FloorSqrt(n);
    RootWithin(n);
    while low <= high
      invariant 1 <= low && 0 <= high <= n
      invariant 1 <= result <= root
      invariant low == result + 1 || (low == 1 && result == 1)
      invariant root <= high
      invariant low > high ==> result == high
      decreases high - low
    {
      var mid := low + (high - low) / 2;
      QuotientComparesWithRoot(mid, n);
      if mid <= n / mid {
        result := mid;
        low := mid + 1;
      } else {
        high := mid - 1;
      }
    }
  }

  lemma RootWithin(n: nat)
    requires n > 1
    ensures 1 <= FloorSqrt(n) <= n
  {
    var r := FloorSqrt(n);
    if r > n {
      SquareMonotone(n + 1, r);
      assert false;
    }
  }

  /** One Newton step from any positive guess never falls below the root. */
  lemma NewtonStepAboveRoot(x: int, n: nat)
    requires 0 < x
    ensures FloorSqrt(n) <= (x + n / x) / 2
  {
    var r := FloorSqrt(n);
    // (x - r)^2 >= 0 gives x*(2r - x) <= r*r <= n, so 2r - x <= n / x.
    assert 0 <= (x - r) * (x - r) by {
      if x >= r { MulNonNegative(x - r, x - r); } else { MulNonNegative(r - x, r - x); }
    }
    assert (x - r) * (x - r) == x * x - 2 * (x * r) + r * r;
    assert (2 * r - x) * x == 2 * (x * r) - x * x;
    QuotientAtLeast(n, x, 2 * r - x);
  }

  /** The sum inside a step exceeds n at most for the guess 1, and then by one. */
  lemma StepSumFits(x: int, n: int)
    requires 1 <= x < n
    ensures x + n / x <= if x == 1 then n + 1 else n
  {
    if x > 1 {
      MulNonNegative(x - 1, n - x - 1);
      assert n < (n - x + 1) * x by {
        assert (n - x + 1) * x == (x - 1) * (n - x - 1) + n + x - 1;
      }
      QuotientAtMost(n, x, n - x);
    }
  }

  /** Babylonian iteration on unsigned 128-bit values; no intermediate sum leaves that range. */
  method NewtonRoot(n: nat) returns (x: nat)
    requires n <= U128_MAX
    ensures x == FloorSqrt(n)
  {
    if n <= 1 {
      RootIsUnique(n, FloorSqrt(n), n);
      return n;
    }
    x := n;
    var y := n / 2 + n % 2;
    RootWithin(n);
    NewtonStepAboveRoot(1, n);
    assert n / 1 == n;
    while y < x
      invariant 0 < y < n && 0 < x
      invariant 1 <= FloorSqrt(n) <= y && FloorSqrt(n) <= x
      invariant y >= x ==> x <= FloorSqrt(n)
      decreases x
    {
      x := y;
      StepSumFits(x, n);
      NewtonStepAboveRoot(x, n);
      QuotientComparesWithRoot(x, n);
      assert x + n / x <= U128_MAX;
      y := (x + n / x) / 2;
    }
  }
}
