/**
 * Exact rational rounding to an integer with ties going to the even
 * neighbour, the rule numpy's `round` applies (`np.round(x, k)` rounds
 * `x * 10^k` this way).  Working on a quotient `n / d` of integers keeps the
 * model free of binary floating point.
 */
module Rounding {

  function Abs(x: int): nat {
    if x < 0 then -x else x
  }

  /** The distances from `n` to the multiples of `d` just below and just above it. */
  lemma Neighbours(n: int, d: int)
    requires d > 0
    ensures 0 <= n % d < d
    ensures Abs(n - (n / d) * d) == n % d
    ensures Abs(n - (n / d + 1) * d) == d - n % d
  {
    var q0, r := n / d, n % d;
    assert n == q0 * d + r;
    Distribute(q0, 1, d);
  }

  /** Round-half-even of `n / d` for a positive divisor. */
  function RoundPositive(n: int, d: int): (q: int)
    requires d > 0
    ensures 2 * Abs(n - q * d) <= d
    ensures 2 * Abs(n - q * d) == d ==> q % 2 == 0
  {
    var q0, r := n / d, n % d;
    Neighbours(n, d);
    if 2 * r < d then q0
    else if 2 * r > d then q0 + 1
    else if q0 % 2 == 0 then q0
    else q0 + 1
  }

  /**
   * The integer nearest to `n / d`; of two equally near integers, the even one.
   * The two ensures clauses determine the result (see RoundHalfEvenUnique).
   */
  function RoundHalfEven(n: int, d: int): (q: int)
    requires d != 0
    ensures 2 * Abs(n - q * d) <= Abs(d)
    ensures 2 * Abs(n - q * d) == Abs(d) ==> q % 2 == 0
  {
    if d > 0 then RoundPositive(n, d)
    else
      var q := RoundPositive(-n, -d);
      assert -n - q * -d == -(n - q * d);
      q
  }

  lemma Distribute(a: int, k: int, d: int)
    ensures (a + k) * d == a * d + k * d
    ensures a * -d == -(a * d)
  {}

  lemma NonNegativeProduct(x: int, d: int)
    requires x >= 0 && d > 0
    ensures x * d >= 0
  {}

  /** Scaling by a positive factor keeps a gap of at least one (resp. two) steps. */
  lemma MulStep(a: int, b: int, d: int)
    requires d > 0
    ensures a < b ==> a * d + d <= b * d
    ensures a + 1 < b ==> a * d + 2 * d <= b * d
  {
    if a < b {
      Distribute(a, b - a, d);
      Distribute(1, b - a - 1, d);
      NonNegativeProduct(b - a - 1, d);
    }
    if a + 1 < b {
      Distribute(2, b - a - 2, d);
      NonNegativeProduct(b - a - 2, d);
    }
  }

  /** For a positive divisor, at most one integer is within half a step of `n / d` and even on a tie. */
  lemma NearestUnique(n: int, d: int, p: int, q: int)
    requires d > 0
    requires 2 * Abs(n - p * d) <= d && (2 * Abs(n - p * d) == d ==> p % 2 == 0)
    requires 2 * Abs(n - q * d) <= d && (2 * Abs(n - q * d) == d ==> q % 2 == 0)
    requires p <= q
    ensures p == q
  {
    if p < q {
      MulStep(p, q, d);
      assert false;
    }
  }

  /** An integer within half a step of `n / d`, and even on a tie, is the rounded value. */
  lemma RoundHalfEvenUnique(n: int, d: int, q: int)
    requires d != 0
    requires 2 * Abs(n - q * d) <= Abs(d)
    requires 2 * Abs(n - q * d) == Abs(d) ==> q % 2 == 0
    ensures q == RoundHalfEven(n, d)
  {
    var p := RoundHalfEven(n, d);
    if d > 0 {
      if p <= q { NearestUnique(n, d, p, q); } else { NearestUnique(n, d, q, p); }
    } else {
      Distribute(p, 0, d);
      Distribute(q, 0, d);
      if p <= q { NearestUnique(-n, -d, p, q); } else { NearestUnique(-n, -d, q, p); }
    }
  }

  /** Rounding a quotient that lies between two integers stays between them. */
  lemma RoundHalfEvenBetween(n: int, d: int, lo: int, hi: int)
    requires d > 0
    requires lo * d <= n <= hi * d
    ensures lo <= RoundHalfEven(n, d) <= hi
  {
    var q := RoundHalfEven(n, d);
    if q < lo {
      MulStep(q, lo, d);
      assert false;
    }
    if q > hi {
      MulStep(hi, q, d);
      assert false;
    }
  }
}
