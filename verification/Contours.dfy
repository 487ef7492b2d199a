/** `contour.cpp`: shoelace orientation, even-odd containment, proper chord
    crossing and contour validity, each with the meaning it has in the plane. */
module Contours {
  import opened Wrappers
  import opened Int64
  import opened Seqs
  import opened Geometry
  import opened CyclicSum
  import opened Products

  datatype Orientation = Clockwise | CounterClockwise | Degenerate

  datatype ContourValidity = Valid | TooFewSpans | Discontinuous | InvalidArcSpan | SelfIntersecting

  // ---------------------------------------------------------------- orientation

  function AreaWeight(a: Point, b: Point): int { Det(a.x, a.y, b.x, b.y) }

  /** Twice the signed area inside the chords, as an unbounded integer. */
  function DoubleArea(c: Contour): int { Cyclic(AreaWeight, Starts(c)) }

  /** No checked operation of the shoelace loop overflows at edge `i`. */
  predicate ShoelaceFitsAt(pts: seq<Point>, i: nat)
    requires i < |pts|
  {
    Cross(pts[i], pts[Next(i, |pts|)]).Some? && Fits(EdgeSum(AreaWeight, pts, i + 1))
  }

  predicate ShoelaceFits(c: Contour) {
    forall i :: 0 <= i < |c.spans| ==> ShoelaceFitsAt(Starts(c), i)
  }

  function SignOfArea(area: int): Orientation {
    if area > 0 then Orientation.CounterClockwise
    else if area < 0 then Orientation.Clockwise
    else Degenerate
  }

  /** What `orientation` answers: the sign of the exact area, unless something overflows. */
  function OrientationOf(c: Contour): Orientation {
    if ShoelaceFits(c) then SignOfArea(DoubleArea(c)) else Degenerate
  }

  method ComputeOrientation(c: Contour) returns (o: Orientation)
    ensures o == OrientationOf(c)
  {
    var count := |c.spans|;
    if count == 0 {
      return Degenerate;
    }
    ghost var pts := Starts(c);
    var signedAreaX2: i64 := 0;
    var i := 0;
    while i < count
      invariant 0 <= i <= count
      invariant signedAreaX2 == EdgeSum(AreaWeight, pts, i)
      invariant forall k :: 0 <= k < i ==> ShoelaceFitsAt(pts, k)
    {
      NextIsModulo(i, count);
      var current, next := c.spans[i].start, c.spans[(i + 1) % count].start;
      var term := Cross(current, next);
      if term.None? {
        assert !ShoelaceFitsAt(pts, i);
        return Degenerate;
      }
      var updated := CheckedAdd(signedAreaX2, term.value);
      if updated.None? {
        assert !ShoelaceFitsAt(pts, i);
        return Degenerate;
      }
      signedAreaX2 := updated.value;
      i := i + 1;
    }
    return SignOfArea(signedAreaX2);
  }

  lemma AreaFlips()
    ensures Flips(AreaWeight, -1)
  {}

  /** Reversing a closed contour negates its area. */
  lemma ReversalNegatesArea(c: Contour)
    requires Continuous(c)
    ensures DoubleArea(ReverseContour(c)) == -DoubleArea(c)
  {
    AreaFlips();
    CyclicReversed(AreaWeight, -1, c);
  }

  /** The contour `canonicalize_winding` returns. */
  function CanonicalWinding(c: Contour): Contour {
    if OrientationOf(c) == Orientation.Clockwise then ReverseContour(c) else c
  }

  /** `std::ranges::reverse` of the spans followed by the in-place loop over them. */
  method ReverseSpansInPlace(c: Contour) returns (r: Contour)
    ensures r == ReverseContour(c)
  {
    var spans := Reversed(c.spans);
    var i := 0;
    while i < |spans|
      invariant 0 <= i <= |spans| == |c.spans|
      invariant forall k :: 0 <= k < i ==> spans[k] == ReverseSpan(Reversed(c.spans)[k])
      invariant forall k :: i <= k < |spans| ==> spans[k] == Reversed(c.spans)[k]
    {
      spans := spans[i := ReverseSpan(spans[i])];
      i := i + 1;
    }
    assert spans == ReverseContour(c).spans;
    r := Contour(spans);
  }

  method CanonicalizeWinding(c: Contour) returns (r: Contour)
    ensures r == CanonicalWinding(c)
  {
    var o := ComputeOrientation(c);
    if o == Orientation.Clockwise {
      r := ReverseSpansInPlace(c);
    } else {
      r := c;
    }
  }

  /** A closed contour never leaves `canonicalize_winding` clockwise, even when
      the area of the reversed contour overflows where the original's did not. */
  lemma CanonicalIsNeverClockwise(c: Contour)
    requires Continuous(c)
    ensures OrientationOf(CanonicalWinding(c)) != Orientation.Clockwise
  {
    ReversalNegatesArea(c);
  }

  /** Without overflow in either direction, every contour with non-zero area leaves counterclockwise. */
  lemma CanonicalIsCounterClockwise(c: Contour)
    requires Continuous(c)
    requires ShoelaceFits(c) && ShoelaceFits(ReverseContour(c))
    ensures OrientationOf(CanonicalWinding(c)) == Orientation.CounterClockwise <==> DoubleArea(c) != 0
  {
    ReversalNegatesArea(c);
  }

  // ---------------------------------------------------------------- containment

  predicate Straddles(a: Point, b: Point, p: Point) { (a.y > p.y) != (b.y > p.y) }

  /** The cross product the crossing test looks at for the edge `a`-`b`. */
  function EdgeCross(a: Point, b: Point, p: Point): Option<i64> {
    Cross(Sub(b, a), Sub(p, a))
  }

  /** The test of the containment loop that flips `inside`. */
  predicate Toggles(a: Point, b: Point, p: Point) {
    && Straddles(a, b, p)
    && EdgeCross(a, b, p).Some?
    && if b.y > a.y then EdgeCross(a, b, p).value > 0 else EdgeCross(a, b, p).value < 0
  }

  function ToggleWeight(p: Point): Weight { (a, b) => if Toggles(a, b, p) then 1 else 0 }

  predicate EdgeOverflows(a: Point, b: Point, p: Point) {
    Straddles(a, b, p) && EdgeCross(a, b, p).None?
  }

  predicate SomeEdgeOverflows(c: Contour, p: Point) {
    exists i :: 0 <= i < |c.spans| && EdgeOverflows(Starts(c)[i], Starts(c)[Next(i, |c.spans|)], p)
  }

  /** What `contour_strictly_contains` answers. */
  predicate StrictlyContains(c: Contour, p: Point) {
    !SomeEdgeOverflows(c, p) && Cyclic(ToggleWeight(p), Starts(c)) % 2 == 1
  }

  method ContourStrictlyContains(c: Contour, p: Point) returns (r: bool)
    ensures r == StrictlyContains(c, p)
  {
    hide EdgeCross;
    var count := |c.spans|;
    var inside := false;
    ghost var pts, w := Starts(c), ToggleWeight(p);
    var i := 0;
    while i < count
      invariant 0 <= i <= count
      invariant inside == (EdgeSum(w, pts, i) % 2 == 1)
      invariant forall k :: 0 <= k < i ==> !EdgeOverflows(pts[k], pts[Next(k, count)], p)
    {
      NextIsModulo(i, count);
      var p1, p2 := c.spans[i].start, c.spans[(i + 1) % count].start;
      if (p1.y > p.y) != (p2.y > p.y) {
        var cross := EdgeCross(p1, p2, p);
        if cross.None? {
          assert EdgeOverflows(pts[i], pts[Next(i, count)], p);
          return false;
        }
        var edgeRises := p2.y > p1.y;
        if (edgeRises && cross.value > 0) || (!edgeRises && cross.value < 0) {
          inside := !inside;
        }
      }
      ToggleStep(p, pts, i);
      i := i + 1;
    }
    return inside;
  }

  lemma ToggleStep(p: Point, pts: seq<Point>, i: nat)
    requires i < |pts|
    ensures var before, after := EdgeSum(ToggleWeight(p), pts, i), EdgeSum(ToggleWeight(p), pts, i + 1);
            (after % 2 == 1) == ((before % 2 == 1) != Toggles(pts[i], pts[Next(i, |pts|)], p))
  {
    hide EdgeCross;
  }

  /** The two subtractions of the containment test, made only on straddling edges, stay inside 64 bits. */
  predicate EdgeFits(a: Point, b: Point, p: Point) {
    Straddles(a, b, p) ==> DifferenceFits(b, a) && DifferenceFits(p, a)
  }

  predicate DifferencesFit(c: Contour, p: Point) {
    forall i :: 0 <= i < |c.spans| ==> EdgeFits(Starts(c)[i], Starts(c)[Next(i, |c.spans|)], p)
  }

  /** Where the line through a non-horizontal edge meets the height `y`. */
  ghost function Intercept(a: Point, b: Point, y: int): real
    requires a.y != b.y
  {
    a.x as real + ((y - a.y) * (b.x - a.x)) as real / (b.y - a.y) as real
  }

  /** The edge meets the horizontal ray from `p` towards increasing x; an end
      on the ray counts as below it. */
  ghost predicate MeetsRightRay(a: Point, b: Point, p: Point) {
    Straddles(a, b, p) && Intercept(a, b, p.y) > p.x as real
  }

  ghost predicate MeetsLeftRay(a: Point, b: Point, p: Point) {
    Straddles(a, b, p) && Intercept(a, b, p.y) < p.x as real
  }

  ghost function RightWeight(p: Point): Weight { (a, b) => if MeetsRightRay(a, b, p) then 1 else 0 }

  ghost function LeftWeight(p: Point): Weight { (a, b) => if MeetsLeftRay(a, b, p) then 1 else 0 }

  ghost function RightCrossings(c: Contour, p: Point): int { Cyclic(RightWeight(p), Starts(c)) }

  ghost function LeftCrossings(c: Contour, p: Point): int { Cyclic(LeftWeight(p), Starts(c)) }

  /** Comparing a quotient with an integer is comparing the products. */
  lemma QuotientCompare(n: int, d: int, k: int)
    requires d != 0
    ensures d > 0 ==> (n as real / d as real > k as real <==> n > k * d)
    ensures d < 0 ==> (n as real / d as real > k as real <==> n < k * d)
    ensures n as real / d as real == k as real <==> n == k * d
  {
    var q, e := n as real / d as real, d as real;
    QuotientTimes(n as real, e);
    IntProduct(k, d);
    DifferenceTimes(q, k as real, e);
    ProductSign(q - k as real, e);
  }

  /** The sign test on the cross product decides on which side the edge passes. */
  lemma CrossSignIsSide(a: Point, b: Point, p: Point)
    requires a.y != b.y
    ensures var det := Det(b.x - a.x, b.y - a.y, p.x - a.x, p.y - a.y);
            && (Intercept(a, b, p.y) > p.x as real <==> if b.y > a.y then det > 0 else det < 0)
            && (Intercept(a, b, p.y) == p.x as real <==> det == 0)
  {
    QuotientCompare((p.y - a.y) * (b.x - a.x), b.y - a.y, p.x - a.x);
    assert (p.x - a.x) as real == p.x as real - a.x as real;
  }

  lemma TogglesIsMeetsRightRay(a: Point, b: Point, p: Point)
    requires EdgeFits(a, b, p)
    requires !EdgeOverflows(a, b, p)
    ensures Toggles(a, b, p) <==> MeetsRightRay(a, b, p)
  {
    if Straddles(a, b, p) {
      CrossSignIsSide(a, b, p);
    }
  }

  lemma {:induction false} ToggleSum(c: Contour, p: Point, k: nat)
    requires k <= |c.spans|
    requires DifferencesFit(c, p) && !SomeEdgeOverflows(c, p)
    ensures EdgeSum(ToggleWeight(p), Starts(c), k) == EdgeSum(RightWeight(p), Starts(c), k)
  {
    if k > 0 {
      ToggleSum(c, p, k - 1);
      TogglesIsMeetsRightRay(Starts(c)[k - 1], Starts(c)[Next(k - 1, |c.spans|)], p);
    }
  }

  /** The even-odd test is the parity of the edges meeting the rightward ray. */
  lemma ContainsIsRightParity(c: Contour, p: Point)
    requires DifferencesFit(c, p)
    ensures StrictlyContains(c, p) <==> !SomeEdgeOverflows(c, p) && RightCrossings(c, p) % 2 == 1
  {
    if !SomeEdgeOverflows(c, p) {
      ToggleSum(c, p, |c.spans|);
    }
  }

  /** `p` is on the closed chord from `a` to `b`. */
  ghost predicate OnChord(a: Point, b: Point, p: Point) {
    exists t: real :: AtParameter(a, b, p, t)
  }

  ghost predicate AtParameter(a: Point, b: Point, p: Point, t: real) {
    && 0.0 <= t <= 1.0
    && p.x as real == a.x as real + t * (b.x - a.x) as real
    && p.y as real == a.y as real + t * (b.y - a.y) as real
  }

  /** `t * d == n` and `m == n * e` give `m / d == t * e`. */
  lemma ScaleRatio(n: real, d: real, e: real, t: real)
    requires d != 0.0 && t * d == n
    ensures n * e / d == t * e
  {
    Associate(t, d, e);
    Associate(t, e, d);
    assert d * e == e * d;
    QuotientIs(n * e, d, t * e);
  }

  lemma RatioInUnit(n: int, d: int) returns (t: real)
    requires d != 0 && (0 <= n <= d || d <= n <= 0)
    ensures 0.0 <= t <= 1.0 && t * d as real == n as real
  {
    var e := d as real;
    t := n as real / e;
    QuotientTimes(n as real, e);
    ProductSign(t, e);
    DifferenceTimes(t, 1.0, e);
    ProductSign(t - 1.0, e);
  }

  lemma InterceptAt(a: Point, b: Point, y: int, t: real)
    requires a.y != b.y && t * (b.y - a.y) as real == (y - a.y) as real
    ensures Intercept(a, b, y) == a.x as real + t * (b.x - a.x) as real
  {
    var n, d, e := y - a.y, b.y - a.y, b.x - a.x;
    IntProduct(n, e);
    ScaleRatio(n as real, d as real, e as real, t);
  }

  lemma InterceptOnChord(a: Point, b: Point, p: Point)
    requires Straddles(a, b, p)
    requires Intercept(a, b, p.y) == p.x as real
    ensures OnChord(a, b, p)
  {
    hide Intercept;
    var t := RatioInUnit(p.y - a.y, b.y - a.y);
    InterceptAt(a, b, p.y, t);
    assert AtParameter(a, b, p, t);
  }

  ghost predicate OnSomeChord(c: Contour, p: Point) {
    exists i :: 0 <= i < |c.spans| && OnChord(Starts(c)[i], Starts(c)[Next(i, |c.spans|)], p)
  }

  /** 1 above the ray's height, 0 at or below it. */
  function Above(p: Point, q: Point): int { if q.y > p.y then 1 else 0 }

  function StepWeight(p: Point): Weight { (a, b) => Above(p, b) - Above(p, a) }

  /** Off the chord, an edge that changes sides of the height meets exactly one of the two rays. */
  lemma OneRayPerEdge(a: Point, b: Point, p: Point)
    requires !OnChord(a, b, p)
    ensures Straddles(a, b, p) ==> MeetsRightRay(a, b, p) != MeetsLeftRay(a, b, p)
    ensures (RightWeight(p)(a, b) + LeftWeight(p)(a, b) - StepWeight(p)(a, b)) % 2 == 0
  {
    if Straddles(a, b, p) {
      if Intercept(a, b, p.y) == p.x as real {
        InterceptOnChord(a, b, p);
        assert false;
      }
      assert RightWeight(p)(a, b) + LeftWeight(p)(a, b) == 1;
      assert StepWeight(p)(a, b) == 1 || StepWeight(p)(a, b) == -1;
    }
  }

  lemma {:induction false} RaysSplit(c: Contour, p: Point, k: nat)
    requires k <= |c.spans|
    requires !OnSomeChord(c, p)
    ensures (EdgeSum(RightWeight(p), Starts(c), k) + EdgeSum(LeftWeight(p), Starts(c), k)
             - EdgeSum(StepWeight(p), Starts(c), k)) % 2 == 0
  {
    hide MeetsRightRay, MeetsLeftRay, Above, OnChord;
    if k > 0 {
      RaysSplit(c, p, k - 1);
      OneRayPerEdge(Starts(c)[k - 1], Starts(c)[Next(k - 1, |c.spans|)], p);
    }
  }

  /** Away from the chords the two horizontal rays agree on the parity. */
  lemma LeftAndRightAgree(c: Contour, p: Point)
    requires !OnSomeChord(c, p)
    ensures RightCrossings(c, p) % 2 == LeftCrossings(c, p) % 2
  {
    hide OnSomeChord, MeetsRightRay, MeetsLeftRay, Above;
    RaysSplit(c, p, |c.spans|);
    CyclicTelescopes(StepWeight(p), q => Above(p, q), Starts(c));
  }

  /** `p` is strictly outside the bounding box of the vertices. */
  predicate OutsideBox(c: Contour, p: Point) {
    || (forall i :: 0 <= i < |c.spans| ==> Starts(c)[i].x < p.x)
    || (forall i :: 0 <= i < |c.spans| ==> Starts(c)[i].x > p.x)
    || (forall i :: 0 <= i < |c.spans| ==> Starts(c)[i].y < p.y)
    || (forall i :: 0 <= i < |c.spans| ==> Starts(c)[i].y > p.y)
  }

  /** An intercept of a straddling edge lies between the edge's ends. */
  lemma InterceptBetween(a: Point, b: Point, p: Point)
    requires Straddles(a, b, p)
    ensures a.x < p.x && b.x < p.x ==> Intercept(a, b, p.y) < p.x as real
    ensures a.x > p.x && b.x > p.x ==> Intercept(a, b, p.y) > p.x as real
  {
    CrossSignIsSide(a, b, p);
    var u, v := p.y - a.y, b.y - p.y;
    var det := Det(b.x - a.x, b.y - a.y, p.x - a.x, p.y - a.y);
    assert det == u * (b.x - p.x) + v * (a.x - p.x) by {
      assert (b.x - a.x) * u == u * (b.x - p.x) - u * (a.x - p.x);
      assert (u + v) * (p.x - a.x) == -(u * (a.x - p.x)) - v * (a.x - p.x);
    }
    if a.x < p.x && b.x < p.x {
      SignOfProduct(u, p.x - b.x);
      SignOfProduct(v, p.x - a.x);
      assert u * (b.x - p.x) == -(u * (p.x - b.x)) && v * (a.x - p.x) == -(v * (p.x - a.x));
    }
    if a.x > p.x && b.x > p.x {
      SignOfProduct(u, b.x - p.x);
      SignOfProduct(v, a.x - p.x);
    }
  }

  lemma SignOfProduct(u: int, k: int)
    requires k > 0
    ensures u > 0 ==> u * k > 0
    ensures u < 0 ==> u * k < 0
    ensures u == 0 ==> u * k == 0
  {}

  lemma {:induction false} OutsideSums(c: Contour, p: Point, k: nat)
    requires k <= |c.spans|
    requires OutsideBox(c, p)
    ensures EdgeSum(RightWeight(p), Starts(c), k) == 0 || EdgeSum(LeftWeight(p), Starts(c), k) == 0
    ensures (forall i :: 0 <= i < |c.spans| ==> Starts(c)[i].x > p.x) || EdgeSum(RightWeight(p), Starts(c), k) == 0
    ensures (forall i :: 0 <= i < |c.spans| ==> Starts(c)[i].x > p.x) ==> EdgeSum(LeftWeight(p), Starts(c), k) == 0
  {
    if k > 0 {
      OutsideSums(c, p, k - 1);
      var a, b := Starts(c)[k - 1], Starts(c)[Next(k - 1, |c.spans|)];
      if Straddles(a, b, p) {
        InterceptBetween(a, b, p);
      }
    }
  }

  lemma ChordsStayInBox(c: Contour, p: Point)
    requires OutsideBox(c, p)
    ensures !OnSomeChord(c, p)
  {
    if OnSomeChord(c, p) {
      var i :| 0 <= i < |c.spans| && OnChord(Starts(c)[i], Starts(c)[Next(i, |c.spans|)], p);
      var a, b := Starts(c)[i], Starts(c)[Next(i, |c.spans|)];
      ChordBetweenEnds(a, b, p);
      assert false;
    }
  }

  lemma ChordBetweenEnds(a: Point, b: Point, p: Point)
    requires OnChord(a, b, p)
    ensures a.x <= p.x <= b.x || b.x <= p.x <= a.x
    ensures a.y <= p.y <= b.y || b.y <= p.y <= a.y
  {
    var t :| AtParameter(a, b, p, t);
    Convex(a.x, b.x, p.x, t);
    Convex(a.y, b.y, p.y, t);
  }

  lemma Convex(a: int, b: int, p: int, t: real)
    requires 0.0 <= t <= 1.0 && p as real == a as real + t * (b - a) as real
    ensures a <= p <= b || b <= p <= a
  {
    var d := (b - a) as real;
    ProductSign(t, d);
    DifferenceTimes(1.0, t, d);
    ProductSign(1.0 - t, d);
  }

  /** No point outside the bounding box is ever reported inside. */
  lemma OutsideBoxNotContained(c: Contour, p: Point)
    requires DifferencesFit(c, p)
    requires OutsideBox(c, p)
    ensures !StrictlyContains(c, p)
  {
    ContainsIsRightParity(c, p);
    ChordsStayInBox(c, p);
    LeftAndRightAgree(c, p);
    OutsideSums(c, p, |c.spans|);
  }

  lemma RightFlips(p: Point)
    ensures Flips(RightWeight(p), 1)
  {
    forall a: Point, b: Point
      ensures MeetsRightRay(a, b, p) <==> MeetsRightRay(b, a, p)
    {
      if Straddles(a, b, p) {
        CrossSignIsSide(a, b, p);
        CrossSignIsSide(b, a, p);
        DetSwap(a, b, p);
      }
    }
  }

  lemma DetSwap(a: Point, b: Point, p: Point)
    ensures Det(a.x - b.x, a.y - b.y, p.x - b.x, p.y - b.y) == -Det(b.x - a.x, b.y - a.y, p.x - a.x, p.y - a.y)
  {
    var dx, dy, ex, ey := b.x - a.x, b.y - a.y, p.x - a.x, p.y - a.y;
    assert (-dx) * (ey - dy) == -(dx * ey) + dx * dy;
    assert (-dy) * (ex - dx) == -(dy * ex) + dy * dx;
  }

  /** Containment does not depend on the direction of travel. */
  lemma ContainmentReversed(c: Contour, p: Point)
    requires Continuous(c)
    requires DifferencesFit(c, p) && DifferencesFit(ReverseContour(c), p)
    requires !SomeEdgeOverflows(c, p) && !SomeEdgeOverflows(ReverseContour(c), p)
    ensures StrictlyContains(ReverseContour(c), p) <==> StrictlyContains(c, p)
  {
    ContainsIsRightParity(c, p);
    ContainsIsRightParity(ReverseContour(c), p);
    RightFlips(p);
    CyclicReversed(RightWeight(p), 1, c);
  }

  function RotateStart(c: Contour, k: nat): Contour
    requires k < |c.spans|
  {
    Contour(c.spans[k..] + c.spans[..k])
  }

  /** The edge `i` of the contour that starts at vertex `k` is an edge of the original one. */
  lemma RotatedEdge(c: Contour, k: nat, i: nat) returns (j: nat)
    requires k < |c.spans| && i < |c.spans|
    ensures j < |c.spans|
    ensures Starts(RotateStart(c, k))[i] == Starts(c)[j]
    ensures Starts(RotateStart(c, k))[Next(i, |c.spans|)] == Starts(c)[Next(j, |c.spans|)]
  {
    j := if k + i < |c.spans| then k + i else k + i - |c.spans|;
  }

  lemma RotatedFits(c: Contour, p: Point, k: nat)
    requires k < |c.spans| && DifferencesFit(c, p) && !SomeEdgeOverflows(c, p)
    ensures DifferencesFit(RotateStart(c, k), p) && !SomeEdgeOverflows(RotateStart(c, k), p)
  {
    hide EdgeFits, EdgeOverflows, RotateStart, Starts;
    var pts := Starts(RotateStart(c, k));
    assert |RotateStart(c, k).spans| == |c.spans| by { RotatedLength(c, k); }
    forall i | 0 <= i < |c.spans|
      ensures EdgeFits(pts[i], pts[Next(i, |c.spans|)], p) && !EdgeOverflows(pts[i], pts[Next(i, |c.spans|)], p)
    {
      var j := RotatedEdge(c, k, i);
    }
  }

  lemma RotatedLength(c: Contour, k: nat)
    requires k < |c.spans|
    ensures |RotateStart(c, k).spans| == |c.spans|
  {}

  /** Nor on the vertex the contour starts at. */
  lemma ContainmentRotated(c: Contour, p: Point, k: nat)
    requires k < |c.spans|
    requires DifferencesFit(c, p) && !SomeEdgeOverflows(c, p)
    ensures StrictlyContains(RotateStart(c, k), p) <==> StrictlyContains(c, p)
  {
    RotatedFits(c, p, k);
    ContainsIsRightParity(c, p);
    ContainsIsRightParity(RotateStart(c, k), p);
    assert Starts(RotateStart(c, k)) == Starts(c)[k..] + Starts(c)[..k];
    CyclicRotated(RightWeight(p), Starts(c), k);
  }

  // ---------------------------------------------------------------- validity

  /** `orientation_sign`: the side of the line `a`-`b` on which `c` lies, or nothing on overflow. */
  function OrientationSign(a: Point, b: Point, c: Point): Option<int> {
    match Cross(Sub(b, a), Sub(c, a))
    case None => None
    case Some(v) => Some(if v > 0 then 1 else if v < 0 then -1 else 0)
  }

  /** `chords_properly_cross`: overflow counts as a crossing. */
  predicate ChordsProperlyCross(a1: Point, a2: Point, b1: Point, b2: Point) {
    var d1, d2 := OrientationSign(a1, a2, b1), OrientationSign(a1, a2, b2);
    var d3, d4 := OrientationSign(b1, b2, a1), OrientationSign(b1, b2, a2);
    if d1.None? || d2.None? || d3.None? || d4.None? then true
    else d1.value * d2.value < 0 && d3.value * d4.value < 0
  }

  predicate IsAdjacent(i: nat, j: nat, count: nat) {
    var distance := if i < j then j - i else i - j;
    distance == 1 || distance == count - 1
  }

  predicate SpansCross(c: Contour, i: nat, j: nat)
    requires i < |c.spans| && j < |c.spans|
  {
    var a, b := c.spans[i], c.spans[j];
    ChordsProperlyCross(a.start, a.end, b.start, b.end)
  }

  predicate SelfIntersects(c: Contour) {
    exists i, j :: 0 <= i < j < |c.spans| && !IsAdjacent(i, j, |c.spans|) && SpansCross(c, i, j)
  }

  /** What is wrong with span `i` on its own: a malformed arc, or a gap after it. */
  function SpanDefect(c: Contour, i: nat): Option<ContourValidity>
    requires i < |c.spans|
  {
    if c.spans[i].Arc? && !ArcIsValid(c.spans[i]) then Some(InvalidArcSpan)
    else if c.spans[i].end != c.spans[Next(i, |c.spans|)].start then Some(Discontinuous)
    else None
  }

  function SpanDefects(c: Contour): (ds: seq<Option<ContourValidity>>)
    ensures |ds| == |c.spans|
    ensures forall i :: 0 <= i < |ds| ==> ds[i] == SpanDefect(c, i)
  {
    seq(|c.spans|, i requires 0 <= i < |c.spans| => SpanDefect(c, i))
  }

  /** `validate(const Contour&)`. */
  function Validate(c: Contour): ContourValidity {
    if |c.spans| < 3 then TooFewSpans
    else match FirstSome(SpanDefects(c))
      case Some(defect) => defect
      case None => if SelfIntersects(c) then SelfIntersecting else Valid
  }

  predicate ArcsValid(c: Contour) {
    forall i :: 0 <= i < |c.spans| && c.spans[i].Arc? ==> ArcIsValid(c.spans[i])
  }

  lemma NoSpanDefect(c: Contour)
    ensures FirstSome(SpanDefects(c)).None? <==> Continuous(c) && ArcsValid(c)
    ensures FirstSome(SpanDefects(c)) != Some(Valid)
  {
    FirstSomeAbsent(SpanDefects(c));
    if FirstSome(SpanDefects(c)).None? {
      forall i | 0 <= i < |c.spans|
        ensures c.spans[i].end == c.spans[Next(i, |c.spans|)].start && (c.spans[i].Arc? ==> ArcIsValid(c.spans[i]))
      {
        assert SpanDefects(c)[i] == SpanDefect(c, i);
      }
    } else {
      var i :| 0 <= i < |c.spans| && SpanDefects(c)[i].Some?;
      assert SpanDefect(c, i).Some?;
    }
  }

  /** What a `Valid` verdict means, independently of the order of the checks. */
  lemma ValidMeans(c: Contour)
    ensures Validate(c) == Valid <==>
            |c.spans| >= 3 && Continuous(c) && ArcsValid(c) && !SelfIntersects(c)
  {
    hide SelfIntersects, ArcsValid, Continuous, SpanDefects, FirstSome;
    NoSpanDefect(c);
  }

  /** Spans that share an end in a closed contour. */
  lemma AdjacentMeansNext(i: nat, j: nat, n: nat)
    requires i < n && j < n && i != j
    ensures IsAdjacent(i, j, n) <==> j == Next(i, n) || i == Next(j, n)
  {}

  /** What is wrong with a span on its own: its arc is looked at first, then the gap behind it. */
  lemma SpanDefectMeans(c: Contour, i: nat)
    requires i < |c.spans|
    ensures SpanDefect(c, i) == Some(InvalidArcSpan) <==> c.spans[i].Arc? && !ArcIsValid(c.spans[i])
    ensures SpanDefect(c, i) == Some(Discontinuous) <==>
            (c.spans[i].Arc? ==> ArcIsValid(c.spans[i])) && c.spans[i].end != c.spans[Next(i, |c.spans|)].start
    ensures SpanDefect(c, i).Some? ==>
            SpanDefect(c, i) == Some(InvalidArcSpan) || SpanDefect(c, i) == Some(Discontinuous)
  {
    hide ArcIsValid;
  }

  /** Span `i` is the first with something wrong on its own. */
  predicate FirstDefect(c: Contour, i: nat, v: ContourValidity) {
    && i < |c.spans| && SpanDefects(c)[i] == Some(v)
    && forall j :: 0 <= j < i ==> SpanDefects(c)[j].None?
  }

  lemma {:induction false} FirstSomeAt<T>(s: seq<Option<T>>) returns (i: nat)
    requires FirstSome(s).Some?
    ensures i < |s| && s[i] == FirstSome(s) && forall j :: 0 <= j < i ==> s[j].None?
  {
    if s[0].Some? {
      i := 0;
    } else {
      i := FirstSomeAt(s[1..]);
      i := i + 1;
    }
  }

  /** What the verdicts mean: too few spans come first, then what is wrong with the first defective
      span, and crossings come last. */
  lemma VerdictMeans(c: Contour, v: ContourValidity)
    ensures Validate(c) == TooFewSpans <==> |c.spans| < 3
    ensures v == InvalidArcSpan || v == Discontinuous ==>
              (Validate(c) == v <==> |c.spans| >= 3 && exists i: nat :: FirstDefect(c, i, v))
    ensures Validate(c) == SelfIntersecting <==>
            |c.spans| >= 3 && Continuous(c) && ArcsValid(c) && SelfIntersects(c)
  {
    NoSpanDefect(c);
    DefectsAreSpans(c);
    hide SpanDefects, SelfIntersects, Continuous, ArcsValid;
    if FirstSome(SpanDefects(c)).Some? {
      var i := FirstSomeAt(SpanDefects(c));
      assert FirstDefect(c, i, FirstSome(SpanDefects(c)).value);
      if k: nat :| FirstDefect(c, k, v) {
        FirstSomeIs(SpanDefects(c), k);
      }
    } else {
      FirstSomeAbsent(SpanDefects(c));
    }
  }

  lemma DefectsAreSpans(c: Contour)
    ensures forall i :: 0 <= i < |c.spans| && SpanDefects(c)[i].Some? ==>
              SpanDefects(c)[i] == Some(InvalidArcSpan) || SpanDefects(c)[i] == Some(Discontinuous)
    ensures FirstSome(SpanDefects(c)).Some? ==>
              FirstSome(SpanDefects(c)) == Some(InvalidArcSpan) || FirstSome(SpanDefects(c)) == Some(Discontinuous)
  {
    hide ArcIsValid, FirstSome;
    if FirstSome(SpanDefects(c)).Some? {
      var i := FirstSomeAt(SpanDefects(c));
      SpanDefectMeans(c, i);
    }
  }

  /** None of the tests of the two chords overflows. */
  predicate SignsKnown(s: Span, t: Span) {
    && OrientationSign(s.start, s.end, t.start).Some? && OrientationSign(s.start, s.end, t.end).Some?
    && OrientationSign(t.start, t.end, s.start).Some? && OrientationSign(t.start, t.end, s.end).Some?
  }

  /** An overflow never makes a contour valid: every test that a valid one has passed gave an answer. */
  lemma ValidIsNoOverflow(c: Contour)
    requires Validate(c) == Valid
    ensures forall i, j :: 0 <= i < j < |c.spans| && !IsAdjacent(i, j, |c.spans|) ==> SignsKnown(c.spans[i], c.spans[j])
    ensures forall i :: 0 <= i < |c.spans| && c.spans[i].Arc? ==>
              var toStart, toEnd := Sub(c.spans[i].start, c.spans[i].center), Sub(c.spans[i].end, c.spans[i].center);
              Dot(toStart, toStart).Some? && Dot(toEnd, toEnd).Some?
  {
    ValidMeans(c);
    hide Validate, OrientationSign, Continuous, Sub;
    forall i, j | 0 <= i < j < |c.spans| && !IsAdjacent(i, j, |c.spans|)
      ensures SignsKnown(c.spans[i], c.spans[j])
    {
      assert !SpansCross(c, i, j);
    }
  }

  /** `validate`, with its loops. */
  method ValidateContour(c: Contour) returns (v: ContourValidity)
    ensures v == Validate(c)
  {
    hide ChordsProperlyCross, ArcIsValid;
    var count := |c.spans|;
    if count < 3 {
      return TooFewSpans;
    }
    for i := 0 to count
      invariant forall k :: 0 <= k < i ==> SpanDefects(c)[k].None?
    {
      var span := c.spans[i];
      if span.Arc? && !ArcIsValid(span) {
        FirstSomeIs(SpanDefects(c), i);
        return InvalidArcSpan;
      }
      NextIsModulo(i, count);
      if span.end != c.spans[(i + 1) % count].start {
        FirstSomeIs(SpanDefects(c), i);
        return Discontinuous;
      }
    }
    FirstSomeAbsent(SpanDefects(c));
    hide SpanDefects, FirstSome;
    for i := 0 to count
      invariant forall a, b :: 0 <= a < i && a < b < count && !IsAdjacent(a, b, count) ==> !SpansCross(c, a, b)
    {
      for j := i + 1 to count
        invariant forall a, b :: 0 <= a < i && a < b < count && !IsAdjacent(a, b, count) ==> !SpansCross(c, a, b)
        invariant forall b :: i < b < j && !IsAdjacent(i, b, count) ==> !SpansCross(c, i, b)
      {
        if IsAdjacent(i, j, count) {
          continue;
        }
        var a, b := c.spans[i], c.spans[j];
        if ChordsProperlyCross(a.start, a.end, b.start, b.end) {
          assert SpansCross(c, i, j);
          return SelfIntersecting;
        }
      }
    }
    return Valid;
  }

  lemma {:induction false} FirstSomeIs<T>(s: seq<Option<T>>, i: nat)
    requires i < |s| && s[i].Some? && forall j :: 0 <= j < i ==> s[j].None?
    ensures FirstSome(s) == s[i]
  {
    if i > 0 {
      FirstSomeIs(s[1..], i - 1);
    }
  }
}
