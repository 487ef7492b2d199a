/** One coordinate of a cubic Bezier curve in exact arithmetic. */
module Cubics {
  import opened Products
  import opened Beziers

  /** One coordinate of the exact curve, as a Bernstein polynomial. */
  function Cubic(a: real, b: real, c: real, d: real, t: real): real {
    Blend(W0(t), W1(t), W2(t), W3(t), a, b, c, d)
  }

  function Blend(w0: real, w1: real, w2: real, w3: real, a: real, b: real, c: real, d: real): real {
    Times(w0, a) + Times(w1, b) + Times(w2, c) + Times(w3, d)
  }

  function Times(w: real, x: real): real { w * x }

  function W0(t: real): real { (1.0 - t) * (1.0 - t) * (1.0 - t) }

  function W1(t: real): real { 3.0 * ((1.0 - t) * (1.0 - t) * t) }

  function W2(t: real): real { 3.0 * ((1.0 - t) * t * t) }

  function W3(t: real): real { t * t * t }

  /** The weights as polynomials in powers of the parameter. */
  lemma Expanded(t: real)
    ensures W0(t) == 1.0 - 3.0 * t + 3.0 * (t * t) - t * t * t
    ensures W1(t) == 3.0 * t - 6.0 * (t * t) + 3.0 * (t * t * t)
    ensures W2(t) == 3.0 * (t * t) - 3.0 * (t * t * t)
  {
    var q := t * t;
    assert (1.0 - t) * (1.0 - t) == 1.0 - 2.0 * t + q;
    assert (1.0 - 2.0 * t + q) * t == t - 2.0 * q + q * t;
    assert (1.0 - 2.0 * t + q) * (1.0 - t) == (1.0 - 2.0 * t + q) - (1.0 - 2.0 * t + q) * t;
    assert (1.0 - t) * t == t - q;
    assert (t - q) * t == q - q * t;
  }

  /** A cubic in powers of the parameter. */
  lemma PowerForm(a: real, b: real, c: real, d: real, t: real)
    ensures Cubic(a, b, c, d, t) ==
            a + t * (3.0 * (b - a)) + (t * t) * (3.0 * (a - 2.0 * b + c)) + (t * t * t) * (d - 3.0 * c + 3.0 * b - a)
  {
    hide W0, W1, W2, Times;
    WeightedPowers(a, b, c, t);
    CollectedPowers(a, b, c, d, t, t * t, t * t * t);
  }

  lemma CollectedPowers(a: real, b: real, c: real, d: real, t: real, q: real, r: real)
    ensures t * (3.0 * (b - a)) == 3.0 * Times(t, b) - 3.0 * Times(t, a)
    ensures q * (3.0 * (a - 2.0 * b + c)) == 3.0 * Times(q, a) - 6.0 * Times(q, b) + 3.0 * Times(q, c)
    ensures r * (d - 3.0 * c + 3.0 * b - a) == Times(r, d) - 3.0 * Times(r, c) + 3.0 * Times(r, b) - Times(r, a)
  {}

  lemma WeightedPowers(a: real, b: real, c: real, t: real)
    ensures Times(W0(t), a) == a - 3.0 * Times(t, a) + 3.0 * Times(t * t, a) - Times(t * t * t, a)
    ensures Times(W1(t), b) == 3.0 * Times(t, b) - 6.0 * Times(t * t, b) + 3.0 * Times(t * t * t, b)
    ensures Times(W2(t), c) == 3.0 * Times(t * t, c) - 3.0 * Times(t * t * t, c)
  {
    Expanded(t);
    hide W0, W1, W2;
    var q, r := t * t, t * t * t;
    assert (1.0 - 3.0 * t + 3.0 * q - r) * a == a - 3.0 * (t * a) + 3.0 * (q * a) - r * a;
    assert (3.0 * t - 6.0 * q + 3.0 * r) * b == 3.0 * (t * b) - 6.0 * (q * b) + 3.0 * (r * b);
    assert (3.0 * q - 3.0 * r) * c == 3.0 * (q * c) - 3.0 * (r * c);
  }

  /** The exact left half, whose control points are averages, is the first half of the curve. */
  lemma LeftHalf(a: real, b: real, c: real, d: real, t: real)
    ensures Cubic(a, (a + b) / 2.0, (a + 2.0 * b + c) / 4.0, (a + 3.0 * b + 3.0 * c + d) / 8.0, t)
            == Cubic(a, b, c, d, t / 2.0)
  {
    hide Cubic;
    var h := t / 2.0;
    PowerForm(a, b, c, d, h);
    PowerForm(a, (a + b) / 2.0, (a + 2.0 * b + c) / 4.0, (a + 3.0 * b + 3.0 * c + d) / 8.0, t);
    assert h * h == (t * t) / 4.0;
    assert h * h * h == (t * t * t) / 8.0;
    var c1, c2, c3 := 3.0 * (b - a), 3.0 * (a - 2.0 * b + c), d - 3.0 * c + 3.0 * b - a;
    assert h * c1 == t * (c1 / 2.0);
    assert ((t * t) / 4.0) * c2 == (t * t) * (c2 / 4.0);
    assert ((t * t * t) / 8.0) * c3 == (t * t * t) * (c3 / 8.0);
  }

  lemma Mirrored(a: real, b: real, c: real, d: real, t: real)
    ensures Cubic(a, b, c, d, t) == Cubic(d, c, b, a, 1.0 - t)
  {
    var u := 1.0 - t;
    assert 1.0 - u == t;
    assert W0(t) == W3(u) && W3(t) == W0(u);
    assert W1(t) == W2(u) by {
      assert (u * u) * t == (t * u) * u;
    }
    assert W2(t) == W1(u) by {
      assert (u * t) * t == (t * t) * u;
    }
  }

  predicate Close(x: real, y: real, e: real) { -e <= x - y <= e }

  /** Moving every control point by at most `e` moves the curve by at most `e`. */
  lemma Stable(a: real, b: real, c: real, d: real, a': real, b': real, c': real, d': real, e: real, t: real)
    requires 0.0 <= t <= 1.0
    requires Close(a, a', e) && Close(b, b', e) && Close(c, c', e) && Close(d, d', e)
    ensures Close(Cubic(a, b, c, d, t), Cubic(a', b', c', d', t), e)
  {
    hide W0, W1, W2, W3, Close, Blend;
    WeightsAreShares(t);
    Weighted(W0(t), W1(t), W2(t), W3(t), a, b, c, d, a', b', c', d', e);
  }

  lemma Weighted(w0: real, w1: real, w2: real, w3: real, a: real, b: real, c: real, d: real,
                 a': real, b': real, c': real, d': real, e: real)
    requires w0 >= 0.0 && w1 >= 0.0 && w2 >= 0.0 && w3 >= 0.0 && w0 + w1 + w2 + w3 == 1.0
    requires Close(a, a', e) && Close(b, b', e) && Close(c, c', e) && Close(d, d', e)
    ensures Close(Blend(w0, w1, w2, w3, a, b, c, d), Blend(w0, w1, w2, w3, a', b', c', d'), e)
  {
    hide Close, Times;
    Scaled(w0, a, a', e);
    Scaled(w1, b, b', e);
    Scaled(w2, c, c', e);
    Scaled(w3, d, d', e);
    SharesOf(w0, w1, w2, w3, e);
    FourClose(Times(w0, a), Times(w1, b), Times(w2, c), Times(w3, d),
              Times(w0, a'), Times(w1, b'), Times(w2, c'), Times(w3, d'),
              Times(w0, e), Times(w1, e), Times(w2, e), Times(w3, e), e);
  }

  lemma FourClose(x0: real, x1: real, x2: real, x3: real, y0: real, y1: real, y2: real, y3: real,
                  e0: real, e1: real, e2: real, e3: real, e: real)
    requires e0 + e1 + e2 + e3 == e
    requires Close(x0, y0, e0) && Close(x1, y1, e1) && Close(x2, y2, e2) && Close(x3, y3, e3)
    ensures Close(x0 + x1 + x2 + x3, y0 + y1 + y2 + y3, e)
  {}

  lemma SharesOf(w0: real, w1: real, w2: real, w3: real, e: real)
    requires w0 + w1 + w2 + w3 == 1.0
    ensures Times(w0, e) + Times(w1, e) + Times(w2, e) + Times(w3, e) == e
  {
    SumTimes(w0, w1, e);
    SumTimes(w0 + w1, w2, e);
    SumTimes(w0 + w1 + w2, w3, e);
  }

  lemma WeightsAreShares(t: real)
    requires 0.0 <= t <= 1.0
    ensures W0(t) >= 0.0 && W1(t) >= 0.0 && W2(t) >= 0.0 && W3(t) >= 0.0
    ensures W0(t) + W1(t) + W2(t) + W3(t) == 1.0
  {
    var u := 1.0 - t;
    NonNegative(u, u);
    NonNegative(u, t);
    NonNegative(t, t);
    NonNegative(u * u, u);
    NonNegative(u * u, t);
    NonNegative(u * t, t);
    NonNegative(t * t, t);
    Expanded(t);
  }

  lemma NonNegative(x: real, y: real)
    requires x >= 0.0 && y >= 0.0
    ensures x * y >= 0.0
  {
    ProductSign(x, y);
  }

  lemma Scaled(w: real, x: real, y: real, e: real)
    requires w >= 0.0 && Close(x, y, e)
    ensures Close(Times(w, x), Times(w, y), Times(w, e))
  {
    NonNegative(x - y + e, w);
    NonNegative(e - (x - y), w);
    DifferenceTimes(x, y, w);
    SumTimes(x - y, e, w);
    DifferenceTimes(e, x - y, w);
  }

  /** The exact right half is the rest of the curve. */
  lemma RightHalf(a: real, b: real, c: real, d: real, t: real)
    ensures Cubic((a + 3.0 * b + 3.0 * c + d) / 8.0, (b + 2.0 * c + d) / 4.0, (c + d) / 2.0, d, t)
            == Cubic(a, b, c, d, (1.0 + t) / 2.0)
  {
    hide Cubic;
    var u := 1.0 - t;
    LeftHalf(d, c, b, a, u);
    Mirrored((a + 3.0 * b + 3.0 * c + d) / 8.0, (b + 2.0 * c + d) / 4.0, (c + d) / 2.0, d, t);
    Mirrored(a, b, c, d, (1.0 + t) / 2.0);
    assert u / 2.0 == 1.0 - (1.0 + t) / 2.0;
  }

  lemma CubicEnds(a: real, b: real, c: real, d: real)
    ensures Cubic(a, b, c, d, 0.0) == a && Cubic(a, b, c, d, 1.0) == d
  {
    hide Cubic;
    PowerForm(a, b, c, d, 0.0);
    PowerForm(a, b, c, d, 1.0);
  }

  // --------------------------------------------------------- the curve and its chords

  /** The point of the chord from `a` to `d` at parameter `s`. */
  function Lerp(a: real, d: real, s: real): real { a + Times(s, d - a) }

  /** Both second differences of the control points are at most `m`. */
  predicate Bends(a: real, b: real, c: real, d: real, m: real) {
    Close(a + c, 2.0 * b, m) && Close(b + d, 2.0 * c, m)
  }

  function Near0(s: real): real { 2.0 * s - 3.0 * (s * s) + s * s * s }

  function Near1(s: real): real { s - s * s * s }

  /** How far the curve is from its chord, in terms of the second differences. */
  lemma GapIs(a: real, b: real, c: real, d: real, s: real)
    ensures Cubic(a, b, c, d, s)
            == Lerp(a, d, s) - Times(Near0(s), a - 2.0 * b + c) - Times(Near1(s), b - 2.0 * c + d)
  {
    hide Cubic;
    PowerForm(a, b, c, d, s);
    var q, r, x, y := s * s, s * s * s, a - 2.0 * b + c, b - 2.0 * c + d;
    GapWeights(s, q, r, x, y, 3.0 * (b - a));
    assert d - a == 3.0 * (b - a) + 3.0 * x + (y - x);
    assert d - 3.0 * c + 3.0 * b - a == y - x;
  }

  lemma GapWeights(s: real, q: real, r: real, x: real, y: real, z: real)
    ensures s * z + q * (3.0 * x) + r * (y - x)
            == s * (z + 3.0 * x + (y - x)) - (2.0 * s - 3.0 * q + r) * x - (s - r) * y
  {
    TimesSum(s, z, 2.0 * x + y);
    TimesSum(s, 2.0 * x, y);
    DifferenceTimes(y, x, r);
    SumTimes(2.0 * s - 3.0 * q, r, x);
    DifferenceTimes(2.0 * s, 3.0 * q, x);
    DifferenceTimes(s, r, y);
  }

  lemma GapShares(s: real)
    requires 0.0 <= s <= 1.0
    ensures Near0(s) >= 0.0 && Near1(s) >= 0.0 && Near0(s) + Near1(s) <= 0.75
  {
    var q, u := s * s, 1.0 - s;
    var p := s * u;
    NonNegative(s, u);
    TimesSum(s, u, s);
    NonNegative(p, 1.0 + u);
    NonNegative(p, 1.0 + s);
    Factored(s);
    QuarterAtMost(s);
  }

  lemma Factored(s: real)
    ensures (s * (1.0 - s)) * (2.0 - s) == Near0(s) && (s * (1.0 - s)) * (1.0 + s) == Near1(s)
  {
    var q := s * s;
    DifferenceTimes(1.0, s, s);
    DifferenceTimes(2.0, s, s - q);
    DifferenceTimes(s, q, s);
    SumTimes(1.0, s, s - q);
  }

  lemma QuarterAtMost(s: real)
    ensures s - s * s <= 0.25
  {
    var e := s - 0.5;
    assert e * e >= 0.0;
    assert e * e == s * s - s + 0.25;
  }

  /** The curve is within three quarters of its second differences of its chord. */
  lemma ChordGap(a: real, b: real, c: real, d: real, s: real, m: real)
    requires 0.0 <= s <= 1.0 && Bends(a, b, c, d, m)
    ensures Close(Cubic(a, b, c, d, s), Lerp(a, d, s), 0.75 * m)
  {
    hide Cubic, Lerp, Near0, Near1;
    GapIs(a, b, c, d, s);
    GapShares(s);
    var x, y := a - 2.0 * b + c, b - 2.0 * c + d;
    var w0, w1 := Near0(s), Near1(s);
    Scaled(w0, x, 0.0, m);
    Scaled(w1, y, 0.0, m);
    TimesZero(w0);
    TimesZero(w1);
    SumTimes(w0, w1, m);
    NonNegative(0.75 - (w0 + w1), m);
    DifferenceTimes(0.75, w0 + w1, m);
    GapBound(Times(w0, x), Times(w1, y), Times(w0, m), Times(w1, m), 0.75 * m);
  }

  lemma TimesZero(w: real)
    ensures Times(w, 0.0) == 0.0
  {}

  lemma GapBound(x: real, y: real, e: real, f: real, g: real)
    requires Close(x, 0.0, e) && Close(y, 0.0, f) && e + f <= g
    ensures -g <= x + y <= g
  {}

  function Pow4(d: nat): (n: nat)
    ensures n > 0
  {
    if d == 0 then 1 else 4 * Pow4(d - 1)
  }

  /** Three quarters of the second differences, shrunk by 4 at every level. */
  function Gap(m: real, depth: nat): real { 0.75 * m / Pow4(depth) as real }

  lemma GapStep(m: real, depth: nat)
    requires depth > 0
    ensures Gap(m / 4.0, depth - 1) == Gap(m, depth)
  {
    var n := Pow4(depth - 1) as real;
    assert Pow4(depth) as real == 4.0 * n;
    QuotientTimes(0.75 * (m / 4.0), n);
    var q := 0.75 * (m / 4.0) / n;
    FourTimes(q, n);
    QuotientIs(0.75 * m, 4.0 * n, q);
  }

  lemma FourTimes(q: real, n: real)
    ensures q * (4.0 * n) == 4.0 * (q * n)
  {}

  /** The halves of a curve bend a quarter as much. */
  lemma HalvesBend(a: real, b: real, c: real, d: real, m: real)
    requires Bends(a, b, c, d, m)
    ensures Bends(a, (a + b) / 2.0, (a + 2.0 * b + c) / 4.0, (a + 3.0 * b + 3.0 * c + d) / 8.0, m / 4.0)
    ensures Bends((a + 3.0 * b + 3.0 * c + d) / 8.0, (b + 2.0 * c + d) / 4.0, (c + d) / 2.0, d, m / 4.0)
  {}

  /** The parameter of the place `x` among `2^depth` pieces. */
  function At(x: real, depth: nat): real { x / Pow2(depth) as real }

  lemma AtHalves(x: real, depth: nat)
    requires depth > 0
    ensures At(x, depth) == At(x, depth - 1) / 2.0
    ensures At(x, depth) == (1.0 + At(x - Pow2(depth - 1) as real, depth - 1)) / 2.0
  {
    var n := Pow2(depth - 1) as real;
    assert Pow2(depth) as real == 2.0 * n;
    HalvedQuotient(x, n);
    QuotientTimes(x - n, n);
    var q := (x - n) / n;
    SumTimes(q, 1.0, n);
    QuotientIs(x, n, 1.0 + q);
  }

  lemma HalvedQuotient(x: real, n: real)
    requires n > 0.0
    ensures x / (2.0 * n) == (x / n) / 2.0
  {
    var q := x / n;
    QuotientTimes(x, n);
    TwoTimes(q / 2.0, n);
    QuotientIs(x, 2.0 * n, q / 2.0);
  }

  lemma TwoTimes(q: real, n: real)
    ensures q * (2.0 * n) == 2.0 * q * n
  {}

  lemma AtInUnit(x: real, depth: nat)
    requires 0.0 <= x <= Pow2(depth) as real
    ensures 0.0 <= At(x, depth) <= 1.0
  {
    var n := Pow2(depth) as real;
    QuotientTimes(x, n);
    ProductSign(At(x, depth), n);
    DifferenceTimes(1.0, At(x, depth), n);
    ProductSign(1.0 - At(x, depth), n);
  }

  /** Between two consecutive dyadic parameters the exact curve stays within `Gap` of its chord. */
  lemma {:induction false} ChordError(a: real, b: real, c: real, d: real, depth: nat, k: nat, s: real, m: real)
    requires k < Pow2(depth) && 0.0 <= s <= 1.0 && Bends(a, b, c, d, m)
    ensures Close(Cubic(a, b, c, d, At(k as real + s, depth)),
                  Lerp(Cubic(a, b, c, d, At(k as real, depth)), Cubic(a, b, c, d, At(k as real + 1.0, depth)), s),
                  Gap(m, depth))
    decreases depth
  {
    hide Cubic, Lerp, Bends, Close;
    if depth == 0 {
      hide Gap;
      WholeChord(a, b, c, d, s, m);
    } else {
      hide Gap, At;
      var half := Pow2(depth - 1);
      var x := k as real;
      HalvesBend(a, b, c, d, m);
      GapStep(m, depth);
      AtHalves(x, depth);
      AtHalves(x + s, depth);
      AtHalves(x + 1.0, depth);
      var l1, l2, mid := (a + b) / 2.0, (a + 2.0 * b + c) / 4.0, (a + 3.0 * b + 3.0 * c + d) / 8.0;
      var r2, r1 := (b + 2.0 * c + d) / 4.0, (c + d) / 2.0;
      if k < half {
        ChordError(a, l1, l2, mid, depth - 1, k, s, m / 4.0);
        LeftHalf(a, b, c, d, At(x, depth - 1));
        LeftHalf(a, b, c, d, At(x + s, depth - 1));
        LeftHalf(a, b, c, d, At(x + 1.0, depth - 1));
      } else {
        var y := (k - half) as real;
        ChordError(mid, r2, r1, d, depth - 1, k - half, s, m / 4.0);
        assert y == x - half as real && y + s == x + s - half as real && y + 1.0 == x + 1.0 - half as real;
        RightHalf(a, b, c, d, At(y, depth - 1));
        RightHalf(a, b, c, d, At(y + s, depth - 1));
        RightHalf(a, b, c, d, At(y + 1.0, depth - 1));
      }
    }
  }

  lemma WholeChord(a: real, b: real, c: real, d: real, s: real, m: real)
    requires 0.0 <= s <= 1.0 && Bends(a, b, c, d, m)
    ensures Close(Cubic(a, b, c, d, At(0.0 + s, 0)),
                  Lerp(Cubic(a, b, c, d, At(0.0, 0)), Cubic(a, b, c, d, At(0.0 + 1.0, 0)), s),
                  Gap(m, 0))
  {
    hide Cubic, Lerp, Bends, Close;
    assert Pow2(0) == 1 && Pow4(0) == 1;
    assert At(0.0 + s, 0) == s && At(0.0, 0) == 0.0 && At(0.0 + 1.0, 0) == 1.0 && Gap(m, 0) == 0.75 * m;
    CubicEnds(a, b, c, d);
    ChordGap(a, b, c, d, s, m);
  }
}
