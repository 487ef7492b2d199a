/** How far integer bisection strays from the exact cubic. */
module BezierErrors {
  import opened Int64
  import opened Geometry
  import opened Beziers
  import opened Cubics
  import opened Products

  function Half(x: int): int { TruncDiv(x, 2) }

  /** Halving a sum with truncation is off by at most one half. */
  lemma HalvingError(a: int, b: int)
    ensures Close(Half(a + b) as real, (a as real + b as real) / 2.0, 0.5)
  {
    TruncDivMod(a + b, 2);
  }

  /** The rounding of one bisection, control point by control point. */
  lemma SplitError(a: int, b: int, c: int, d: int)
    ensures Close(Half(a + b) as real, (a as real + b as real) / 2.0, 0.5)
    ensures Close(Half(Half(a + b) + Half(b + c)) as real, (a as real + 2.0 * b as real + c as real) / 4.0, 1.0)
    ensures Close(Half(Half(Half(a + b) + Half(b + c)) + Half(Half(b + c) + Half(c + d))) as real,
                  (a as real + 3.0 * b as real + 3.0 * c as real + d as real) / 8.0, 1.5)
  {
    hide TruncDiv, Half;
    HalvingError(a, b);
    HalvingError(b, c);
    HalvingError(c, d);
    var l1, mid, r1 := Half(a + b), Half(b + c), Half(c + d);
    HalvingError(l1, mid);
    HalvingError(mid, r1);
    HalvingError(Half(l1 + mid), Half(mid + r1));
  }

  /** One bisection moves the left half of the curve by at most 3/2. */
  lemma LeftStep(a: int, b: int, c: int, d: int, t: real)
    requires 0.0 <= t <= 1.0
    ensures var l1, mid, r1 := Half(a + b), Half(b + c), Half(c + d);
            var l2, r2 := Half(l1 + mid), Half(mid + r1);
            Close(Cubic(a as real, l1 as real, l2 as real, Half(l2 + r2) as real, t),
                  Cubic(a as real, b as real, c as real, d as real, t / 2.0), 1.5)
  {
    hide Cubic, Half;
    var l1, mid, r1 := Half(a + b), Half(b + c), Half(c + d);
    var l2, r2 := Half(l1 + mid), Half(mid + r1);
    SplitError(a, b, c, d);
    var ra, rb, rc, rd := a as real, b as real, c as real, d as real;
    LeftHalf(ra, rb, rc, rd, t);
    Stable(ra, l1 as real, l2 as real, Half(l2 + r2) as real,
           ra, (ra + rb) / 2.0, (ra + 2.0 * rb + rc) / 4.0, (ra + 3.0 * rb + 3.0 * rc + rd) / 8.0, 1.5, t);
  }

  /** And the right half, by symmetry. */
  lemma RightStep(a: int, b: int, c: int, d: int, t: real)
    requires 0.0 <= t <= 1.0
    ensures var l1, mid, r1 := Half(a + b), Half(b + c), Half(c + d);
            var l2, r2 := Half(l1 + mid), Half(mid + r1);
            Close(Cubic(Half(l2 + r2) as real, r2 as real, r1 as real, d as real, t),
                  Cubic(a as real, b as real, c as real, d as real, (1.0 + t) / 2.0), 1.5)
  {
    hide Cubic, Half, Close;
    var l1, mid, r1 := Half(a + b), Half(b + c), Half(c + d);
    var l2, r2 := Half(l1 + mid), Half(mid + r1);
    LeftStep(d, c, b, a, 1.0 - t);
    assert Half(d + c) == r1 && Half(c + b) == mid && Half(b + a) == l1;
    assert Half(r1 + mid) == r2 && Half(mid + l1) == l2 && Half(r2 + l2) == Half(l2 + r2);
    Mirrored(Half(l2 + r2) as real, r2 as real, r1 as real, d as real, t);
    Mirrored(a as real, b as real, c as real, d as real, (1.0 + t) / 2.0);
    assert (1.0 - t) / 2.0 == 1.0 - (1.0 + t) / 2.0;
  }

  function CurveX(c: CubicBezier, t: real): real {
    Cubic(c.p0.x as real, c.p1.x as real, c.p2.x as real, c.p3.x as real, t)
  }

  function CurveY(c: CubicBezier, t: real): real {
    Cubic(c.p0.y as real, c.p1.y as real, c.p2.y as real, c.p3.y as real, t)
  }

  /** The vertex is within `e` of the exact curve in each coordinate. */
  predicate NearCurve(p: Point, c: CubicBezier, t: real, e: real) {
    Close(p.x as real, CurveX(c, t), e) && Close(p.y as real, CurveY(c, t), e)
  }

  /** While no sum overflows, the points are bisected coordinate by coordinate. */
  lemma SplitCoordinates(c: CubicBezier)
    requires SplitFits(c)
    ensures var l1, mid, r1 := Half(c.p0.x + c.p1.x), Half(c.p1.x + c.p2.x), Half(c.p2.x + c.p3.x);
            var l2, r2 := Half(l1 + mid), Half(mid + r1);
            var h := Split(c);
            && h.left.p0.x == c.p0.x && h.left.p1.x == l1 && h.left.p2.x == l2 && h.left.p3.x == Half(l2 + r2)
            && h.right.p0.x == Half(l2 + r2) && h.right.p1.x == r2 && h.right.p2.x == r1 && h.right.p3.x == c.p3.x
    ensures var l1, mid, r1 := Half(c.p0.y + c.p1.y), Half(c.p1.y + c.p2.y), Half(c.p2.y + c.p3.y);
            var l2, r2 := Half(l1 + mid), Half(mid + r1);
            var h := Split(c);
            && h.left.p0.y == c.p0.y && h.left.p1.y == l1 && h.left.p2.y == l2 && h.left.p3.y == Half(l2 + r2)
            && h.right.p0.y == Half(l2 + r2) && h.right.p1.y == r2 && h.right.p2.y == r1 && h.right.p3.y == c.p3.y
  {
    hide Midpoint, Half, SumFits;
    var l1, mid, r1 := Midpoint(c.p0, c.p1), Midpoint(c.p1, c.p2), Midpoint(c.p2, c.p3);
    var l2, r2 := Midpoint(l1, mid), Midpoint(mid, r1);
    MidpointHalves(c.p0, c.p1);
    MidpointHalves(c.p1, c.p2);
    MidpointHalves(c.p2, c.p3);
    MidpointHalves(l1, mid);
    MidpointHalves(mid, r1);
    MidpointHalves(l2, r2);
  }

  lemma MidpointHalves(a: Point, b: Point)
    requires SumFits(a, b)
    ensures Midpoint(a, b).x == Half(a.x + b.x) && Midpoint(a, b).y == Half(a.y + b.y)
  {
    hide TruncDiv;
  }

  lemma HalvesStep(c: CubicBezier, t: real)
    requires SplitFits(c) && 0.0 <= t <= 1.0
    ensures Close(CurveX(Split(c).left, t), CurveX(c, t / 2.0), 1.5)
    ensures Close(CurveY(Split(c).left, t), CurveY(c, t / 2.0), 1.5)
    ensures Close(CurveX(Split(c).right, t), CurveX(c, (1.0 + t) / 2.0), 1.5)
    ensures Close(CurveY(Split(c).right, t), CurveY(c, (1.0 + t) / 2.0), 1.5)
  {
    hide Cubic, Close, Split, SplitFits, Half;
    SplitCoordinates(c);
    LeftStep(c.p0.x, c.p1.x, c.p2.x, c.p3.x, t);
    LeftStep(c.p0.y, c.p1.y, c.p2.y, c.p3.y, t);
    RightStep(c.p0.x, c.p1.x, c.p2.x, c.p3.x, t);
    RightStep(c.p0.y, c.p1.y, c.p2.y, c.p3.y, t);
  }

  lemma NearHalf(p: Point, c: CubicBezier, half: CubicBezier, t: real, t': real, e: real)
    requires NearCurve(p, half, t, e)
    requires Close(CurveX(half, t), CurveX(c, t'), 1.5) && Close(CurveY(half, t), CurveY(c, t'), 1.5)
    ensures NearCurve(p, c, t', e + 1.5)
  {
    hide CurveX, CurveY;
  }

  /** Vertex `k` of `depth` bisections is within `3 * depth / 2` of the exact
      curve at `k / 2^depth`, in each coordinate. */
  lemma {:induction false} VertexError(c: CubicBezier, depth: nat, k: nat)
    requires SumsFit(c, depth) && k <= Pow2(depth)
    ensures NearCurve(Vertices(c, depth)[k], c, At(k as real, depth), 1.5 * depth as real)
    decreases depth
  {
    hide NearCurve, Vertices, Split, SplitFits, At, CurveX, CurveY, Close;
    if depth == 0 {
      EndsAreExact(c, k);
    } else {
      VerticesSplit(c, depth, k);
      var half := Pow2(depth - 1);
      var e := 1.5 * (depth - 1) as real;
      assert e + 1.5 == 1.5 * depth as real;
      AtHalves(k as real, depth);
      if k <= half {
        VertexError(Split(c).left, depth - 1, k);
        AtInUnit(k as real, depth - 1);
        HalvesStep(c, At(k as real, depth - 1));
        NearHalf(Vertices(c, depth)[k], c, Split(c).left, At(k as real, depth - 1), At(k as real, depth), e);
      } else {
        var y := (k - half) as real;
        assert y == k as real - half as real;
        VertexError(Split(c).right, depth - 1, k - half);
        AtInUnit(y, depth - 1);
        HalvesStep(c, At(y, depth - 1));
        NearHalf(Vertices(c, depth)[k], c, Split(c).right, At(y, depth - 1), At(k as real, depth), e);
      }
    }
  }

  lemma EndsAreExact(c: CubicBezier, k: nat)
    requires k <= 1
    ensures NearCurve(Vertices(c, 0)[k], c, At(k as real, 0), 0.0)
  {
    hide Cubic;
    assert Pow2(0) == 1;
    assert At(k as real, 0) == k as real;
    CubicEnds(c.p0.x as real, c.p1.x as real, c.p2.x as real, c.p3.x as real);
    CubicEnds(c.p0.y as real, c.p1.y as real, c.p2.y as real, c.p3.y as real);
  }

  // ------------------------------------------------------------ the whole polyline

  /** The point of segment `k` of the polyline at parameter `s`, coordinate by coordinate. */
  function OnPolylineX(c: CubicBezier, depth: nat, k: nat, s: real): real
    requires k < Pow2(depth)
  {
    Lerp(Vertices(c, depth)[k].x as real, Vertices(c, depth)[k + 1].x as real, s)
  }

  function OnPolylineY(c: CubicBezier, depth: nat, k: nat, s: real): real
    requires k < Pow2(depth)
  {
    Lerp(Vertices(c, depth)[k].y as real, Vertices(c, depth)[k + 1].y as real, s)
  }

  /** No second difference of the control polygon exceeds `m` in either coordinate. */
  predicate ControlBends(c: CubicBezier, m: real) {
    && Bends(c.p0.x as real, c.p1.x as real, c.p2.x as real, c.p3.x as real, m)
    && Bends(c.p0.y as real, c.p1.y as real, c.p2.y as real, c.p3.y as real, m)
  }

  /** Points between two pairs of close points are close. */
  lemma LerpClose(a: real, d: real, a': real, d': real, s: real, e: real)
    requires 0.0 <= s <= 1.0 && Close(a, a', e) && Close(d, d', e)
    ensures Close(Lerp(a, d, s), Lerp(a', d', s), e)
  {
    hide Lerp, Times, Close;
    LerpIs(a, d, s);
    LerpIs(a', d', s);
    LerpIs(e, e, s);
    Scaled(1.0 - s, a, a', e);
    Scaled(s, d, d', e);
    SumTimes(1.0 - s, s, e);
    PairClose(Times(1.0 - s, a), Times(s, d), Times(1.0 - s, a'), Times(s, d'), Times(1.0 - s, e), Times(s, e), e);
  }

  lemma LerpIs(a: real, d: real, s: real)
    ensures Lerp(a, d, s) == Times(1.0 - s, a) + Times(s, d)
    ensures Times(1.0 - s, a) == (1.0 - s) * a && Times(s, d) == s * d
  {
    TimesSum(s, d, -a);
    NegatedFactors(s, a);
    DifferenceTimes(1.0, s, a);
  }

  lemma PairClose(x: real, y: real, x': real, y': real, e: real, f: real, g: real)
    requires Close(x, x', e) && Close(y, y', f) && e + f == g
    ensures Close(x + y, x' + y', g)
  {}

  lemma Triangle(x: real, y: real, z: real, e: real, f: real)
    requires Close(x, y, e) && Close(z, y, f)
    ensures Close(x, z, e + f)
  {}

  /** Between its vertices too the polyline follows the curve: the point at parameter `s` of
      segment `k` is, in each coordinate, within the rounding bound of the vertices plus three
      quarters of the second differences over `4^depth` of the exact curve at `(k + s) / 2^depth`. */
  lemma PolylineError(c: CubicBezier, depth: nat, k: nat, s: real, m: real)
    requires SumsFit(c, depth) && k < Pow2(depth) && 0.0 <= s <= 1.0 && ControlBends(c, m)
    ensures Close(OnPolylineX(c, depth, k, s), CurveX(c, At(k as real + s, depth)), 1.5 * depth as real + Gap(m, depth))
    ensures Close(OnPolylineY(c, depth, k, s), CurveY(c, At(k as real + s, depth)), 1.5 * depth as real + Gap(m, depth))
  {
    hide Vertices, At, Lerp, Close, Gap, SumsFit, OnPolylineX, OnPolylineY, CurveX, CurveY, ControlBends, NearCurve;
    var e := 1.5 * depth as real;
    VertexError(c, depth, k);
    VertexError(c, depth, k + 1);
    assert (k + 1) as real == k as real + 1.0;
    AcrossError(c, depth, k, s, m, e);
    UpError(c, depth, k, s, m, e);
  }

  lemma AcrossError(c: CubicBezier, depth: nat, k: nat, s: real, m: real, e: real)
    requires k < Pow2(depth) && 0.0 <= s <= 1.0 && ControlBends(c, m)
    requires NearCurve(Vertices(c, depth)[k], c, At(k as real, depth), e)
    requires NearCurve(Vertices(c, depth)[k + 1], c, At(k as real + 1.0, depth), e)
    ensures Close(OnPolylineX(c, depth, k, s), CurveX(c, At(k as real + s, depth)), e + Gap(m, depth))
  {
    hide Vertices, At, Lerp, Cubic, Close, Gap, Bends, Pow2;
    var v, w := Vertices(c, depth)[k], Vertices(c, depth)[k + 1];
    ChordOfVertices(v.x as real, w.x as real, c.p0.x as real, c.p1.x as real, c.p2.x as real, c.p3.x as real,
      depth, k, s, m, e);
  }

  lemma UpError(c: CubicBezier, depth: nat, k: nat, s: real, m: real, e: real)
    requires k < Pow2(depth) && 0.0 <= s <= 1.0 && ControlBends(c, m)
    requires NearCurve(Vertices(c, depth)[k], c, At(k as real, depth), e)
    requires NearCurve(Vertices(c, depth)[k + 1], c, At(k as real + 1.0, depth), e)
    ensures Close(OnPolylineY(c, depth, k, s), CurveY(c, At(k as real + s, depth)), e + Gap(m, depth))
  {
    hide Vertices, At, Lerp, Cubic, Close, Gap, Bends, Pow2;
    var v, w := Vertices(c, depth)[k], Vertices(c, depth)[k + 1];
    ChordOfVertices(v.y as real, w.y as real, c.p0.y as real, c.p1.y as real, c.p2.y as real, c.p3.y as real,
      depth, k, s, m, e);
  }

  lemma ChordOfVertices(v: real, w: real, a: real, b: real, c: real, d: real,
      depth: nat, k: nat, s: real, m: real, e: real)
    requires k < Pow2(depth) && 0.0 <= s <= 1.0 && Bends(a, b, c, d, m)
    requires Close(v, Cubic(a, b, c, d, At(k as real, depth)), e)
    requires Close(w, Cubic(a, b, c, d, At(k as real + 1.0, depth)), e)
    ensures Close(Lerp(v, w, s), Cubic(a, b, c, d, At(k as real + s, depth)), e + Gap(m, depth))
  {
    hide At, Lerp, Cubic, Close, Gap, Bends, Pow2;
    var y, z, x := Cubic(a, b, c, d, At(k as real, depth)), Cubic(a, b, c, d, At(k as real + 1.0, depth)),
                   Cubic(a, b, c, d, At(k as real + s, depth));
    LerpClose(v, w, y, z, s, e);
    ChordError(a, b, c, d, depth, k, s, m);
    Triangle(Lerp(v, w, s), Lerp(y, z, s), x, e, Gap(m, depth));
  }

  /** The documented micrometre, in nanometres. */
  const MICROMETRE := 1000.0

  /** Every point of the polyline is within `e` of the curve at the same parameter, in each coordinate. */
  ghost predicate FollowsWithin(c: CubicBezier, depth: nat, e: real) {
    forall k: nat, s: real :: k < Pow2(depth) && 0.0 <= s <= 1.0 ==> FollowsAt(c, depth, k, s, e)
  }

  predicate FollowsAt(c: CubicBezier, depth: nat, k: nat, s: real, e: real)
    requires k < Pow2(depth)
  {
    && Close(OnPolylineX(c, depth, k, s), CurveX(c, At(k as real + s, depth)), e)
    && Close(OnPolylineY(c, depth, k, s), CurveY(c, At(k as real + s, depth)), e)
  }

  /** The magnitude of the bend of the control polygon at its middle point. */
  function BendAt(a: int, b: int, c: int): int { Abs(a - 2 * b + c) }

  function Larger(a: int, b: int): int { if a < b then b else a }

  /** The largest second difference of the control points, in either coordinate and at either end. */
  function Bend(c: CubicBezier): int {
    Larger(Larger(BendAt(c.p0.x, c.p1.x, c.p2.x), BendAt(c.p1.x, c.p2.x, c.p3.x)),
           Larger(BendAt(c.p0.y, c.p1.y, c.p2.y), BendAt(c.p1.y, c.p2.y, c.p3.y)))
  }

  lemma BendBounds(c: CubicBezier, m: real)
    requires Bend(c) as real <= m
    ensures ControlBends(c, m)
  {}

  /** About 1.377 m: 15 nm of rounding and three quarters of this over 4^10 make a micrometre. */
  const SURELY_MET := 1_377_129_813

  /** About 1.410 m: half of the rounding of one vertex cannot make up for a bend beyond this. */
  const SURELY_MISSED := 1_409_964_013

  /** The micrometre is met, at the fixed depth, by every curve that bends by at most 1.377 m. */
  lemma MicrometreMet(c: CubicBezier)
    requires SumsFit(c, FLATTEN_DEPTH) && Bend(c) <= SURELY_MET
    ensures FollowsWithin(c, FLATTEN_DEPTH, MICROMETRE)
  {
    hide OnPolylineX, OnPolylineY, CurveX, CurveY, At, SumsFit, ControlBends, Gap, Pow2, Bend;
    var m := SURELY_MET as real;
    BendBounds(c, m);
    GapAtTen(m);
    forall k: nat, s: real | k < Pow2(FLATTEN_DEPTH) && 0.0 <= s <= 1.0
      ensures FollowsAt(c, FLATTEN_DEPTH, k, s, MICROMETRE)
    {
      PolylineError(c, FLATTEN_DEPTH, k, s, m);
    }
  }

  lemma GapAtTen(m: real)
    ensures Gap(m, 10) == 0.75 * m / 1_048_576.0
  {
    assert Pow4(3) == 64;
    assert Pow4(6) == 4096;
    assert Pow4(9) == 262_144;
  }

  // ------------------------------------------------------ where the micrometre fails

  const STEP := 1.0 / 1024.0

  /** How far the middle of the first chord is from the curve, at the same parameter. */
  lemma FirstChordGap(a: real, b: real, c: real, d: real)
    ensures var x, y := a - 2.0 * b + c, b - 2.0 * c + d;
            Lerp(a, Cubic(a, b, c, d, STEP), 0.5) - Cubic(a, b, c, d, STEP / 2.0)
            == 0.75 * x * STEP * STEP + 0.375 * (y - x) * STEP * STEP * STEP
  {
    hide Cubic;
    PowerForm(a, b, c, d, STEP);
    PowerForm(a, b, c, d, STEP / 2.0);
  }

  /** Where the first bend is the larger one, its chord is too far away for any rounding of its end. */
  lemma FirstChordMisses(a: real, b: real, c: real, d: real, w: real)
    requires Close(w, Cubic(a, b, c, d, STEP), 15.0)
    requires var x, y := a - 2.0 * b + c, b - 2.0 * c + d;
             (x >= SURELY_MISSED as real || -x >= SURELY_MISSED as real) && (Close(y, 0.0, x) || Close(y, 0.0, -x))
    ensures !Close(Lerp(a, w, 0.5), Cubic(a, b, c, d, STEP / 2.0), MICROMETRE)
    ensures !Close(Lerp(w, a, 0.5), Cubic(a, b, c, d, STEP / 2.0), MICROMETRE)
  {
    hide Cubic;
    FirstChordGap(a, b, c, d);
  }

  /** The parameters of the first and the last segment. */
  lemma EndParameters()
    ensures Pow2(10) == 1024
    ensures At(0.5, 10) == STEP / 2.0 && At(1.0, 10) == STEP
    ensures At(1023.0, 10) == 1.0 - STEP && At(1023.5, 10) == 1.0 - STEP / 2.0
  {
    DepthTen();
  }

  /** Larger of its two bends, in one coordinate, with the vertices next to both ends. */
  lemma CoordinateMisses(a: int, b: int, c: int, d: int, v: real, w: real)
    requires Larger(BendAt(a, b, c), BendAt(b, c, d)) >= SURELY_MISSED
    requires Close(v, Cubic(a as real, b as real, c as real, d as real, STEP), 15.0)
    requires Close(w, Cubic(a as real, b as real, c as real, d as real, 1.0 - STEP), 15.0)
    ensures !Close(Lerp(a as real, v, 0.5), Cubic(a as real, b as real, c as real, d as real, STEP / 2.0), MICROMETRE)
            || !Close(Lerp(w, d as real, 0.5), Cubic(a as real, b as real, c as real, d as real, 1.0 - STEP / 2.0),
              MICROMETRE)
  {
    hide Cubic, Lerp;
    if BendAt(a, b, c) >= BendAt(b, c, d) {
      FirstChordMisses(a as real, b as real, c as real, d as real, v);
    } else {
      Mirrored(a as real, b as real, c as real, d as real, 1.0 - STEP);
      Mirrored(a as real, b as real, c as real, d as real, 1.0 - STEP / 2.0);
      FirstChordMisses(d as real, c as real, b as real, a as real, w);
    }
  }

  /** The middle of the first or of the last segment is too far from the curve at the same parameter. */
  predicate MissesAtEnds(c: CubicBezier, depth: nat, e: real) {
    !FollowsAt(c, depth, 0, 0.5, e) || !FollowsAt(c, depth, Pow2(depth) - 1, 0.5, e)
  }

  /** It is missed, in the middle of the first or of the last segment, by every curve that
      bends by more than 1.410 m. */
  lemma MicrometreMissed(c: CubicBezier)
    requires SumsFit(c, FLATTEN_DEPTH) && Bend(c) >= SURELY_MISSED
    ensures MissesAtEnds(c, FLATTEN_DEPTH, MICROMETRE) && !FollowsWithin(c, FLATTEN_DEPTH, MICROMETRE)
  {
    hide Cubic, Lerp, At, SumsFit, Vertices, Pow2, Close, BendAt;
    EndParameters();
    VertexError(c, FLATTEN_DEPTH, 1);
    VertexError(c, FLATTEN_DEPTH, 1023);
    var v, w := Vertices(c, FLATTEN_DEPTH)[1], Vertices(c, FLATTEN_DEPTH)[1023];
    if Larger(BendAt(c.p0.x, c.p1.x, c.p2.x), BendAt(c.p1.x, c.p2.x, c.p3.x)) >= SURELY_MISSED {
      CoordinateMisses(c.p0.x, c.p1.x, c.p2.x, c.p3.x, v.x as real, w.x as real);
    } else {
      CoordinateMisses(c.p0.y, c.p1.y, c.p2.y, c.p3.y, v.y as real, w.y as real);
    }
  }

  const FAR: i64 := 1_500_000_000_000_000_000

  /** An arch over half of the coordinate range. */
  const ARCH := CubicBezier(ORIGIN, Point(FAR, FAR), Point(2 * FAR, FAR), Point(3 * FAR, 0))

  /** The exact arch: `3 F t` across and `3 F t (1 - t)` up. */
  lemma ArchIs(t: real)
    ensures CurveX(ARCH, t) == 3.0 * FAR as real * t
    ensures CurveY(ARCH, t) == 3.0 * FAR as real * (t - t * t)
  {
    hide Cubic;
    var f := FAR as real;
    PowerForm(0.0, f, 2.0 * f, 3.0 * f, t);
    PowerForm(0.0, f, f, 0.0, t);
    assert t * (3.0 * f) == 3.0 * f * t;
    assert (t * t) * (-3.0 * f) == -3.0 * f * (t * t);
  }

  /** At parameter `t` the arch is not within a micrometre of a point near the middle of its first chord. */
  lemma ArchMissesPoint(t: real, x: real, y: real)
    requires 0.0 <= t <= 1.0
    requires Close(x, 1.5 * FAR as real * STEP, 8.0) && Close(y, 1.5 * FAR as real * (STEP - STEP * STEP), 8.0)
    ensures !Close(x, 3.0 * FAR as real * t, MICROMETRE) || !Close(y, 3.0 * FAR as real * (t - t * t), MICROMETRE)
  {
    var f := 3.0 * FAR as real;
    var e := t - STEP / 2.0;
    if Close(x, f * t, MICROMETRE) {
      var g := f * e;
      SquareOfSum(e, STEP / 2.0);
      Associate(f, e, e);
      Offset(t, e, x);
      SmallFactor(g, e);
      Height(t, e, t * t, e * e, g, g * e, y);
    }
  }

  /** A point that is close across is at a parameter close to the middle of the first step. */
  lemma Offset(t: real, e: real, x: real)
    requires t == e + STEP / 2.0 && Close(x, 1.5 * FAR as real * STEP, 8.0)
             && Close(x, 3.0 * FAR as real * t, MICROMETRE)
    ensures -1008.0 <= 3.0 * FAR as real * e <= 1008.0
  {}

  /** And there the arch is a kilometre above its chord. */
  lemma Height(t: real, e: real, tt: real, ee: real, g: real, ge: real, y: real)
    requires t == e + STEP / 2.0 && tt == ee + STEP * e + STEP * STEP / 4.0
    requires 3.0 * FAR as real * e == g && 3.0 * FAR as real * ee == ge
    requires -1008.0 <= g <= 1008.0 && -1008.0 <= ge <= 1008.0
    requires y <= 1.5 * FAR as real * (STEP - STEP * STEP) + 8.0
    ensures !Close(y, 3.0 * FAR as real * (t - tt), MICROMETRE)
  {}

  lemma SquareOfSum(e: real, h: real)
    ensures (e + h) * (e + h) == e * e + 2.0 * (h * e) + h * h
  {
    SumTimes(e, h, e + h);
    TimesSum(e, e, h);
    TimesSum(h, e, h);
  }

  lemma SmallFactor(g: real, e: real)
    requires -1008.0 <= g <= 1008.0 && -1.0 <= e <= 1.0
    ensures -1008.0 <= g * e <= 1008.0
  {
    ProductSign(1008.0 - g, 1.0 + e);
    ProductSign(1008.0 - g, 1.0 - e);
    ProductSign(1008.0 + g, 1.0 + e);
    ProductSign(1008.0 + g, 1.0 - e);
    DifferenceTimes(1008.0, g, 1.0 + e);
    DifferenceTimes(1008.0, g, 1.0 - e);
    SumTimes(1008.0, g, 1.0 + e);
    SumTimes(1008.0, g, 1.0 - e);
    TimesSum(g, 1.0, e);
    TimesSum(g, 1.0, -e);
    NegatedFactors(g, e);
  }

  /** The middle of the first segment is further than `e` from every point of the curve, in
      one coordinate or the other. */
  ghost predicate LeavesCurve(c: CubicBezier, depth: nat, e: real) {
    forall t: real :: 0.0 <= t <= 1.0 ==>
      || !Close(OnPolylineX(c, depth, 0, 0.5), CurveX(c, t), e)
      || !Close(OnPolylineY(c, depth, 0, 0.5), CurveY(c, t), e)
  }

  lemma ArchLeaves(depth: nat)
    requires At(1.0, depth) == STEP && depth == 10
    ensures SumsFit(ARCH, depth) && LeavesCurve(ARCH, depth, MICROMETRE)
  {
    hide SumsFit, Vertices, CurveX, CurveY, At;
    HalfRangeCurveFits(ARCH, depth);
    VertexError(ARCH, depth, 1);
    ArchIs(STEP);
    var v, w := Vertices(ARCH, depth)[0], Vertices(ARCH, depth)[1];
    forall t: real | 0.0 <= t <= 1.0
      ensures || !Close(OnPolylineX(ARCH, depth, 0, 0.5), CurveX(ARCH, t), MICROMETRE)
              || !Close(OnPolylineY(ARCH, depth, 0, 0.5), CurveY(ARCH, t), MICROMETRE)
    {
      ArchIs(t);
      ArchMissesPoint(t, w.x as real / 2.0, w.y as real / 2.0);
    }
  }

  /** On the arch no sum overflows, and the polyline is not only away from the curve at the same
      parameter: a point of it is further than the documented micrometre from the whole curve. */
  lemma MicrometreClaimFails()
    ensures SumsFit(ARCH, FLATTEN_DEPTH) && LeavesCurve(ARCH, FLATTEN_DEPTH, MICROMETRE)
  {
    hide SumsFit, LeavesCurve;
    EndParameters();
    ArchLeaves(FLATTEN_DEPTH);
  }
}
