// Division with remainder, for divisors that are no literals.

module Arithmetic {
  /** Division with remainder is unique. */
  lemma DivisionUnique(a: int, q: int, r: int, c: int)
    requires c > 0 && a == c * q + r && 0 <= r < c
    ensures a / c == q && a % c == r
  {
    var p, t := a / c, a % c;
    assert c * q + r == c * p + t;
    if p < q {
      MulGap(c, p, q);
    } else if q < p {
      MulGap(c, q, p);
    }
  }

  lemma MulGap(c: int, p: int, q: int)
    requires c > 0 && p < q
    ensures c * q >= c * p + c
  {
    MulNonNegative(c, q - p - 1);
    assert c * q == c * p + c + c * (q - p - 1);
  }

  lemma {:induction false} MulNonNegative(c: int, d: nat)
    requires c > 0
    ensures c * d >= 0
  {
    if d > 0 {
      MulNonNegative(c, d - 1);
      assert c * d == c * (d - 1) + c;
    }
  }
}
