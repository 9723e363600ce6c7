/** Facts about integer division that are not linear. */
module Division {

  lemma MulOrder(d: nat, a: int, b: int)
    ensures a < b ==> d * a + d <= d * b
    ensures a <= b ==> d * a <= d * b
  {
    if a < b {
      MulAtLeast(d, b - a);
      assert d * b == d * a + d * (b - a);
    }
  }

  lemma MulAtLeast(d: nat, n: int)
    requires n >= 1
    ensures d * n >= d
  {
    assert d * n == d + d * (n - 1);
    MulNonNegative(d, n - 1);
  }

  lemma MulNonNegative(x: nat, y: nat)
    ensures x * y >= 0
  {
  }

  /** The quotient is the only q with d * q <= x < d * q + d. */
  lemma QuotientIs(x: int, d: nat, q: int)
    requires d > 0 && d * q <= x < d * q + d
    ensures x / d == q && x % d == x - d * q
  {
    MulOrder(d, x / d, q);
    MulOrder(d, q, x / d);
  }

  lemma QuotientMonotone(x: int, y: int, d: nat)
    requires d > 0 && x <= y
    ensures x / d <= y / d
  {
    MulOrder(d, y / d, x / d);
  }

  /** Taking away the divisor or more lowers the quotient. */
  lemma QuotientDrops(x: int, y: int, d: nat)
    requires d > 0 && y + d <= x
    ensures y / d < x / d
  {
    QuotientIs(y + d, d, y / d + 1);
    QuotientMonotone(y + d, x, d);
  }

  lemma DivMod(x: int, d: nat)
    requires d > 0
    ensures d * (x / d) <= x < d * (x / d) + d
    ensures x % d == x - d * (x / d)
  {
  }

  lemma NegateProduct(x: int, y: int)
    ensures (-x) * y == -(x * y) == x * (-y)
  {
  }
}
