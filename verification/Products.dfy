/** The facts about products that the geometry proofs rest on, one at a time, so that
    no larger proof has to search for them. */
module Products {
  lemma PositiveProduct(x: real, y: real)
    requires x > 0.0 && y > 0.0
    ensures x * y > 0.0
  {}

  /** The sign of a product of reals. */
  lemma ProductSign(x: real, y: real)
    ensures (x > 0.0 && y > 0.0) || (x < 0.0 && y < 0.0) <==> x * y > 0.0
    ensures (x > 0.0 && y < 0.0) || (x < 0.0 && y > 0.0) <==> x * y < 0.0
    ensures x == 0.0 || y == 0.0 <==> x * y == 0.0
  {
    if x > 0.0 && y > 0.0 {
      PositiveProduct(x, y);
    } else if x < 0.0 && y < 0.0 {
      PositiveProduct(-x, -y);
      NegatedFactors(x, y);
    } else if x > 0.0 && y < 0.0 {
      PositiveProduct(x, -y);
      NegatedFactors(x, y);
    } else if x < 0.0 && y > 0.0 {
      PositiveProduct(-x, y);
      NegatedFactors(x, y);
    }
  }

  lemma NegatedFactors(x: real, y: real)
    ensures (-x) * (-y) == x * y && (-x) * y == -(x * y) && x * (-y) == -(x * y)
  {}

  lemma SumTimes(x: real, y: real, z: real)
    ensures (x + y) * z == x * z + y * z
  {}

  lemma DifferenceTimes(x: real, y: real, z: real)
    ensures (x - y) * z == x * z - y * z
  {
    SumTimes(x - y, y, z);
  }

  lemma TimesSum(z: real, x: real, y: real)
    ensures z * (x + y) == z * x + z * y
  {
    SumTimes(x, y, z);
  }

  lemma Associate(x: real, y: real, z: real)
    ensures (x * y) * z == x * (y * z)
  {}

  /** A quotient is the number whose product with the divisor is the dividend. */
  lemma QuotientTimes(n: real, d: real)
    requires d != 0.0
    ensures (n / d) * d == n
  {}

  lemma QuotientIs(n: real, d: real, q: real)
    requires d != 0.0 && q * d == n
    ensures n / d == q
  {
    QuotientTimes(n, d);
    DifferenceTimes(n / d, q, d);
    ProductSign(n / d - q, d);
  }

  lemma IntProduct(x: int, y: int)
    ensures (x * y) as real == x as real * y as real
  {}
}
