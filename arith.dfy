/** Facts about integer products and Python's floor division by a positive
    divisor (which Dafny's `/` and `%` agree with). */
module Arith {

  lemma MulNonNegative(x: int, y: int)
    requires x >= 0 && y >= 0
    ensures x * y >= 0
  {
  }

  /** A product grows with its first factor when the second is non-negative. */
  lemma MulMonotone(a: int, b: int, k: int)
    requires a <= b && k >= 0
    ensures a * k <= b * k
  {
    MulNonNegative(b - a, k);
    assert (b - a) * k == b * k - a * k;
  }

  /** Division with remainder is unique: `n == d * q + r` with `0 <= r < d`
      fixes `q` as `n / d` and `r` as `n % d`. */
  lemma DivModUnique(n: int, d: int, q: int, r: int)
    requires d >= 1 && 0 <= r < d && n == d * q + r
    ensures n / d == q && n % d == r
  {
    var q', r' := n / d, n % d;
    assert n == d * q' + r';
    assert d * (q - q') == r' - r;
    if q - q' >= 1 {
      MulMonotone(1, q - q', d);
    } else if q - q' <= -1 {
      MulMonotone(1, q' - q, d);
    }
  }

  /** Exact division: `c * q == n` exactly when `c` divides `n` with quotient `q`. */
  lemma DivExact(n: int, c: int, q: int)
    requires c >= 1
    ensures c * q == n <==> n % c == 0 && n / c == q
  {
    if c * q == n {
      DivModUnique(n, c, q, 0);
    }
  }

  /** `d` whole parts of `n / d` fit in `n`. */
  lemma DivFits(n: int, d: int)
    requires n >= 0 && d >= 1
    ensures 0 <= n / d && d * (n / d) <= n
  {
  }

  lemma RealMulNonNegative(x: real, y: real)
    requires x >= 0.0 && y >= 0.0
    ensures x * y >= 0.0
  {
  }

  lemma RealMulPositive(x: real, y: real)
    requires x > 0.0 && y > 0.0
    ensures x * y > 0.0
  {
  }
}
