/** Contours that turn one way only: they cross nothing, and their orientation is the way they turn. */
module Windings {
  import opened Int64
  import opened Geometry
  import opened Seqs
  import opened CyclicSum
  import opened Contours
  import opened ContourInvariance

  /** Every vertex is on one closed side of every chord. */
  predicate OneSided(c: Contour, sign: int) {
    forall i, j :: 0 <= i < |c.spans| && 0 <= j < |c.spans| ==>
      sign * Side(c.spans[i].start, c.spans[i].end, c.spans[j].start) >= 0
  }

  /** A closed contour all of whose chords have the vertices on one side crosses itself nowhere. */
  lemma OneSidedNeverCrosses(c: Contour, sign: int)
    requires TestsFit(c) && Continuous(c)
    requires (sign == 1 || sign == -1) && OneSided(c, sign)
    ensures !SelfIntersects(c)
  {
    hide Continuous, OneSided, TestsFit, SpansCross;
    forall i, j | 0 <= i < j < |c.spans| && !IsAdjacent(i, j, |c.spans|)
      ensures !SpansCross(c, i, j)
    {
      ChordNotCrossed(c, sign, i, j);
    }
  }

  lemma ChordNotCrossed(c: Contour, sign: int, i: nat, j: nat)
    requires TestsFit(c) && Continuous(c)
    requires (sign == 1 || sign == -1) && OneSided(c, sign)
    requires i < j < |c.spans| && !IsAdjacent(i, j, |c.spans|)
    ensures !SpansCross(c, i, j)
  {
    hide Side, ChordsProperlyCross, CrossingFits, ArcFits;
    var s, t, u := c.spans[i], c.spans[j], c.spans[Next(j, |c.spans|)];
    assert SpansFit(s, t);
    assert t.end == u.start;
    SidesNotOpposed(s.start, s.end, t.start, t.end, sign);
  }

  lemma SidesNotOpposed(a1: Point, a2: Point, b1: Point, b2: Point, sign: int)
    requires CrossingFits(a1, a2, b1, b2) && (sign == 1 || sign == -1)
    requires sign * Side(a1, a2, b1) >= 0 && sign * Side(a1, a2, b2) >= 0
    ensures !ChordsProperlyCross(a1, a2, b1, b2)
  {
    hide Side, ChordsProperlyCross, CrossingFits;
    CrossingIsExact(a1, a2, b1, b2);
  }

  // ------------------------------------------------------------------- orientation

  /** Twice the signed area of the triangle over an edge with its tip at `r`. */
  function FanWeight(r: Point): Weight { (a, b) => Side(a, b, r) }

  function TipWeight(r: Point): Weight { (a, b) => Tip(r, b) - Tip(r, a) }

  function Tip(r: Point, p: Point): int { Det(p.x, p.y, r.x, r.y) }

  lemma FanTerm(a: Point, b: Point, r: Point)
    ensures Side(a, b, r) == AreaWeight(a, b) + TipWeight(r)(a, b)
  {}

  lemma {:induction false} FanSum(pts: seq<Point>, r: Point, k: nat)
    requires k <= |pts|
    ensures EdgeSum(FanWeight(r), pts, k) == EdgeSum(AreaWeight, pts, k) + EdgeSum(TipWeight(r), pts, k)
  {
    if k > 0 {
      FanSum(pts, r, k - 1);
      var a, b := pts[k - 1], pts[Next(k - 1, |pts|)];
      FanTerm(a, b, r);
      assert FanWeight(r)(a, b) == Side(a, b, r);
      hide Side, AreaWeight, TipWeight, FanWeight;
    }
  }

  /** The area of a contour is that of the fan of triangles from any point to its edges. */
  lemma AreaIsFan(c: Contour, r: Point)
    ensures DoubleArea(c) == Cyclic(FanWeight(r), Starts(c))
  {
    FanSum(Starts(c), r, |c.spans|);
    CyclicTelescopes(TipWeight(r), p => Tip(r, p), Starts(c));
    hide FanWeight, TipWeight, AreaWeight, EdgeSum;
  }

  /** Every term of the sum round `pts` has the given sign, or is nothing. */
  predicate OneSigned(f: Weight, pts: seq<Point>, sign: int) {
    forall e :: 0 <= e < |pts| ==> sign * f(pts[e], pts[Next(e, |pts|)]) >= 0
  }

  /** One-signed terms do not cancel: the sum is at least as far from zero as any of them. */
  lemma {:induction false} OneSignedSum(f: Weight, pts: seq<Point>, sign: int, k: nat, i: nat)
    requires i < k <= |pts| && (sign == 1 || sign == -1)
    requires OneSigned(f, pts, sign)
    ensures sign * EdgeSum(f, pts, k) >= sign * f(pts[i], pts[Next(i, |pts|)])
    decreases k
  {
    var last := f(pts[k - 1], pts[Next(k - 1, |pts|)]);
    assert sign * last >= 0;
    SignTimesSum(sign, EdgeSum(f, pts, k - 1), last);
    if i < k - 1 {
      OneSignedSum(f, pts, sign, k - 1, i);
    } else {
      OneSignedFloor(f, pts, sign, k - 1);
    }
  }

  lemma {:induction false} OneSignedFloor(f: Weight, pts: seq<Point>, sign: int, k: nat)
    requires k <= |pts| && (sign == 1 || sign == -1)
    requires OneSigned(f, pts, sign)
    ensures sign * EdgeSum(f, pts, k) >= 0
  {
    if k > 0 {
      OneSignedFloor(f, pts, sign, k - 1);
      SignTimesSum(sign, EdgeSum(f, pts, k - 1), f(pts[k - 1], pts[Next(k - 1, |pts|)]));
    }
  }

  /** Vertex `j` is off the line of chord `i`. */
  predicate OffLine(c: Contour, i: nat, j: nat)
    requires i < |c.spans| && j < |c.spans|
  {
    Side(c.spans[i].start, c.spans[i].end, c.spans[j].start) != 0
  }

  lemma FanOfSides(c: Contour, sign: int, j: nat)
    requires Continuous(c) && OneSided(c, sign) && j < |c.spans|
    ensures OneSigned(FanWeight(c.spans[j].start), Starts(c), sign)
  {
    hide Side;
  }

  lemma FanAt(c: Contour, i: nat, r: Point)
    requires Continuous(c) && i < |c.spans|
    ensures FanWeight(r)(Starts(c)[i], Starts(c)[Next(i, |c.spans|)]) == Side(c.spans[i].start, c.spans[i].end, r)
  {}

  /** A closed contour that has every vertex on the closed left of every chord, and one of them
      strictly on the left, is counterclockwise; on the right it is clockwise. */
  lemma OneSidedOrientation(c: Contour, sign: int, i: nat, j: nat)
    requires Continuous(c) && OneSided(c, sign) && (sign == 1 || sign == -1)
    requires i < |c.spans| && j < |c.spans| && OffLine(c, i, j)
    requires ShoelaceFits(c)
    ensures OrientationOf(c) == if sign == 1 then Orientation.CounterClockwise else Orientation.Clockwise
  {
    hide DoubleArea, ShoelaceFits, OneSided, Continuous, OffLine;
    OneSidedArea(c, sign, i, j);
  }

  lemma OneSidedArea(c: Contour, sign: int, i: nat, j: nat)
    requires Continuous(c) && OneSided(c, sign) && (sign == 1 || sign == -1)
    requires i < |c.spans| && j < |c.spans| && OffLine(c, i, j)
    ensures sign * DoubleArea(c) > 0
  {
    hide Side, OneSided, Continuous, DoubleArea, OneSigned, Starts, EdgeSum;
    var r := c.spans[j].start;
    FanOfSides(c, sign, j);
    FanAt(c, i, r);
    AreaIsFan(c, r);
    hide FanWeight;
    OneSignedSum(FanWeight(r), Starts(c), sign, |c.spans|, i);
    SidesAgree(c, sign, i, j);
    Above(sign, DoubleArea(c), Side(c.spans[i].start, c.spans[i].end, r));
  }

  lemma Above(sign: int, sum: int, term: int)
    requires (sign == 1 || sign == -1) && term != 0 && sign * term >= 0 && sign * sum >= sign * term
    ensures sign * sum > 0
  {}

  lemma SidesAgree(c: Contour, sign: int, i: nat, j: nat)
    requires OneSided(c, sign) && i < |c.spans| && j < |c.spans|
    ensures sign * Side(c.spans[i].start, c.spans[i].end, c.spans[j].start) >= 0
  {
    hide Side;
  }

  /** A rectangle whose corners are visited in the order lower left, lower right, upper right, upper left. */
  function Rectangle(x0: i64, y0: i64, x1: i64, y1: i64): Contour {
    Contour([Segment(Point(x0, y0), Point(x1, y0)), Segment(Point(x1, y0), Point(x1, y1)),
             Segment(Point(x1, y1), Point(x0, y1)), Segment(Point(x0, y1), Point(x0, y0))])
  }

  /** Its area is width times height, and it is counterclockwise; the other way round it is clockwise. */
  lemma RectangleOrientation(x0: i64, y0: i64, x1: i64, y1: i64)
    requires x0 < x1 && y0 < y1
    requires ShoelaceFits(Rectangle(x0, y0, x1, y1)) && ShoelaceFits(ReverseContour(Rectangle(x0, y0, x1, y1)))
    ensures DoubleArea(Rectangle(x0, y0, x1, y1)) == 2 * ((x1 - x0) * (y1 - y0))
    ensures OrientationOf(Rectangle(x0, y0, x1, y1)) == Orientation.CounterClockwise
    ensures OrientationOf(ReverseContour(Rectangle(x0, y0, x1, y1))) == Orientation.Clockwise
  {
    hide ReverseContour, ShoelaceFits, DoubleArea, Rectangle, Continuous;
    RectangleArea(x0, y0, x1, y1);
    ReversalNegatesArea(Rectangle(x0, y0, x1, y1));
    assert 0 < (x1 - x0) * (y1 - y0);
  }

  lemma RectangleArea(x0: i64, y0: i64, x1: i64, y1: i64)
    ensures Continuous(Rectangle(x0, y0, x1, y1))
    ensures DoubleArea(Rectangle(x0, y0, x1, y1)) == 2 * ((x1 - x0) * (y1 - y0))
  {
    var c := Rectangle(x0, y0, x1, y1);
    assert Starts(c) == [Point(x0, y0), Point(x1, y0), Point(x1, y1), Point(x0, y1)];
    hide Starts, Rectangle;
    SumOfFour(AreaWeight, Starts(c));
    RectangleTerms(x0, y0, x1, y1);
  }

  lemma RectangleTerms(x0: int, y0: int, x1: int, y1: int)
    ensures Det(x0, y0, x1, y0) + Det(x1, y0, x1, y1) + Det(x1, y1, x0, y1) + Det(x0, y1, x0, y0)
            == 2 * ((x1 - x0) * (y1 - y0))
  {}
}
