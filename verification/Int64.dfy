/** Signed 64-bit integers, C++ truncating division, and the overflow-checked
    operations every coordinate computation goes through. */
module Int64 {
  import opened Wrappers

  const INT64_MAX: int := 0x7FFF_FFFF_FFFF_FFFF
  const INT64_MIN: int := -0x8000_0000_0000_0000

  predicate Fits(x: int) { INT64_MIN <= x <= INT64_MAX }

  type i64 = x: int | INT64_MIN <= x <= INT64_MAX

  /** `x` when it is representable. */
  function Checked(x: int): Option<i64> {
    if Fits(x) then Some(x) else None
  }

  /** C++ `/`: rounds toward zero, whatever the signs. */
  function TruncDiv(a: int, b: int): (q: int)
    requires b != 0
    ensures b > 0 && a >= 0 ==> q == a / b
    ensures b > 0 && a < 0 ==> q == -(-a / b)
  {
    if (a < 0) == (b < 0) then Abs(a) / Abs(b) else -(Abs(a) / Abs(b))
  }

  /** C++ `%`: the remainder takes the sign of the dividend. */
  function TruncMod(a: int, b: int): (r: int)
    requires b != 0
    ensures b > 0 && a >= 0 ==> r == a % b
    ensures b > 0 && a < 0 ==> r == -(-a % b)
  {
    if a < 0 then -(Abs(a) % Abs(b)) else Abs(a) % Abs(b)
  }

  function Abs(a: int): int { if a < 0 then -a else a }

  lemma TruncDivMod(a: int, b: int)
    requires b != 0
    ensures a == b * TruncDiv(a, b) + TruncMod(a, b)
    ensures Abs(TruncMod(a, b)) < Abs(b)
    ensures TruncMod(a, b) != 0 ==> (TruncMod(a, b) < 0 <==> a < 0)
  {
    var q, r := Abs(a) / Abs(b), Abs(a) % Abs(b);
    assert Abs(a) == Abs(b) * q + r;
    if (a < 0) != (b < 0) {
      assert b * -q == -(b * q);
    }
  }

  function CheckedAdd(a: i64, b: i64): (r: Option<i64>)
    ensures r == Checked(a + b)
  {
    if (b > 0 && a > INT64_MAX - b) || (b < 0 && a < INT64_MIN - b) then None
    else var sum: i64 := a + b; Some(sum)
  }

  function CheckedSub(a: i64, b: i64): (r: Option<i64>)
    ensures r == Checked(a - b)
  {
    if (b < 0 && a > INT64_MAX + b) || (b > 0 && a < INT64_MIN + b) then None
    else var difference: i64 := a - b; Some(difference)
  }

  /** The division-guarded product: it answers exactly when the true product
      fits, although no intermediate value ever leaves the 64-bit range. */
  function CheckedMul(a: i64, b: i64): (r: Option<i64>)
    ensures r == Checked(a * b)
  {
    if a == 0 || b == 0 then Some(0)
    else if a == -1 || b == -1 then
      var other := if a == -1 then b else a;
      if other == INT64_MIN then None else var negated: i64 := -other; Some(negated)
    else
      MulBound(a, b);
      if MulOverflows(a, b) then None else var product: i64 := a * b; Some(product)
  }

  /** The guard of `CheckedMul`, sign case by sign case. */
  predicate MulOverflows(a: i64, b: i64)
    requires a != 0 && b != 0 && a != -1 && b != -1
  {
    if a > 0 then
      if b > 0 then a > TruncDiv(INT64_MAX, b) else b < TruncDiv(INT64_MIN, a)
    else
      if b > 0 then a < TruncDiv(INT64_MIN, b) else a < TruncDiv(INT64_MAX, b)
  }

  lemma MulBound(a: int, b: int)
    requires Fits(a) && Fits(b)
    requires a != 0 && b != 0 && a != -1 && b != -1
    ensures MulOverflows(a, b) <==> !Fits(a * b)
  {
    if a > 0 && b > 0 {
      QuotientBound(a, b, INT64_MAX);
    } else if a > 0 {
      QuotientBound(-b, a, -INT64_MIN);
      assert (-b) * a == -(a * b);
    } else if b > 0 {
      QuotientBound(-a, b, -INT64_MIN);
      assert (-a) * b == -(a * b);
    } else {
      QuotientBound(-a, -b, INT64_MAX);
      assert (-a) * (-b) == a * b;
    }
  }

  /** For positive operands, comparing with the quotient compares the product. */
  lemma QuotientBound(a: int, b: int, limit: int)
    requires a > 0 && b > 0 && limit > 0
    ensures a > limit / b <==> a * b > limit
    ensures a * b >= 1
  {
    var q := limit / b;
    assert q * b <= limit < (q + 1) * b;
    if a > q {
      MulMonotone(q + 1, a, b);
    } else {
      MulMonotone(a, q, b);
    }
    MulMonotone(1, a, b);
  }

  lemma MulMonotone(x: int, y: int, k: int)
    requires x <= y && k >= 0
    ensures x * k <= y * k
  {
    assert (y - x) * k >= 0;
  }
}
