/** A parametric pad on the board: rotated by quarter turns, then moved to its position. */
module PadPlacements {
  import opened Wrappers
  import opened Int64
  import opened Seqs
  import opened Geometry
  import opened CyclicSum
  import opened Contours
  import opened Polygons
  import opened Transforms
  import opened ContourInvariance
  import opened PadShapes

  /** One metre: how far from the origin a pad may be placed. */
  const BOARD: int := 1_000_000_000

  predicate OnBoard(p: Point) { -BOARD <= p.x <= BOARD && -BOARD <= p.y <= BOARD }

  /** The outline `import_pad` stores. */
  function PlacedOutline(outline: Contour, rotation: i64, center: Point): Contour
    requires IsQuarterTurn(rotation)
  {
    TranslateContour(RotateContour(outline, ORIGIN, rotation), center)
  }

  /** A pad is turned about its own origin before it is moved. */
  lemma PlacedPoint(outline: Contour, rotation: i64, center: Point, i: nat)
    requires IsQuarterTurn(rotation) && i < |outline.spans|
    ensures |PlacedOutline(outline, rotation, center).spans| == |outline.spans|
    ensures var s, placed := outline.spans[i], PlacedOutline(outline, rotation, center).spans[i];
            && placed.start == Add(RotatePoint(s.start, ORIGIN, rotation), center)
            && placed.end == Add(RotatePoint(s.end, ORIGIN, rotation), center)
  {
    hide IsQuarterTurn, RotatePoint, Add;
  }

  // --------------------------------------------------------- wherever nothing overflows

  /** The pad is turned and moved exactly, and no test that its outline has to pass overflows on
      the way; its shoelace sum overflows before and after, or neither before nor after. */
  predicate Placeable(c: Contour, rotation: i64, center: Point)
    requires IsQuarterTurn(rotation)
  {
    var r := RotateContour(c, ORIGIN, rotation);
    && RotationFits(c, ORIGIN, QuarterTurns(rotation)) && TranslationFits(r, center)
    && TestsFit(c) && TestsFit(r)
    && (ShoelaceFits(PlacedOutline(c, rotation, center)) <==> ShoelaceFits(c))
  }

  /** Wherever it is put, a contour keeps its validity and its orientation. */
  lemma PlacementKeepsVerdicts(c: Contour, rotation: i64, center: Point)
    requires IsQuarterTurn(rotation) && Placeable(c, rotation, center)
    ensures Validate(PlacedOutline(c, rotation, center)) == Validate(c)
    ensures OrientationOf(PlacedOutline(c, rotation, center)) == OrientationOf(c)
  {
    hide Validate, ShoelaceFits, TestsFit, RotateContour, TranslateContour, ContourImage, IsQuarterTurn, QuarterTurns,
      RotationFits, TranslationFits, DoubleArea;
    var r := RotateContour(c, ORIGIN, rotation);
    ValidityRotated(c, ORIGIN, rotation);
    ValidityTranslated(r, center);
    RotateIsImage(c, ORIGIN, rotation);
    TranslateIsImage(r, center);
    AreaOfImage(RotationMotion(ORIGIN, QuarterTurns(rotation)), c, r);
    AreaOfImage(Motion(0, center.x, center.y), r, TranslateContour(r, center));
  }

  /** The outline that `import_pad` stores, turned by a multiple of 90 degrees and moved to its
      position, is a valid polygon for exactly the acceptable parameters. */
  lemma PlacedPadValidIff(p: PadShapeParams, rotation: i64, center: Point)
    requires NothingOverflows(p) && RawSpans(p).Some? && IsQuarterTurn(rotation)
    requires Placeable(Finish(RawSpans(p).value).outline, rotation, center)
    ensures var placed := PlacedOutline(Finish(RawSpans(p).value).outline, rotation, center);
            ValidatePolygon(Polygon(placed, [])) == PolygonValid <==> Acceptable(p)
  {
    hide RawSpans, Exact, Acceptable, Validate, OrientationOf, PlacedOutline, IsQuarterTurn, Placeable;
    PadOutlineValidIff(p);
    PlacementKeepsVerdicts(CanonicalWinding(RawSpans(p).value), rotation, center);
  }

  // ------------------------------------------------- a board where nothing overflows

  lemma RotatedInReach(p: Point, rotation: i64)
    requires InReach(p, REACH) && IsQuarterTurn(rotation)
    ensures PointRotationFits(p, ORIGIN, QuarterTurns(rotation)) && InReach(RotatePoint(p, ORIGIN, rotation), REACH)
  {
    hide NormalizeAngle, IsQuarterTurn;
  }

  lemma RotatedWithin(c: Contour, rotation: i64)
    requires Within(c, REACH) && IsQuarterTurn(rotation)
    ensures RotationFits(c, ORIGIN, QuarterTurns(rotation)) && Within(RotateContour(c, ORIGIN, rotation), REACH)
  {
    hide IsQuarterTurn, QuarterTurns, RotatePoint, PointRotationFits, InReach;
    forall i | 0 <= i < |c.spans|
      ensures PointRotationFits(c.spans[i].start, ORIGIN, QuarterTurns(rotation))
      ensures PointRotationFits(c.spans[i].end, ORIGIN, QuarterTurns(rotation))
      ensures c.spans[i].Arc? ==> PointRotationFits(c.spans[i].center, ORIGIN, QuarterTurns(rotation))
      ensures InReach(RotatePoint(c.spans[i].start, ORIGIN, rotation), REACH)
      ensures InReach(RotatePoint(c.spans[i].end, ORIGIN, rotation), REACH)
      ensures c.spans[i].Arc? ==> InReach(RotatePoint(c.spans[i].center, ORIGIN, rotation), REACH)
    {
      RotatedInReach(c.spans[i].start, rotation);
      RotatedInReach(c.spans[i].end, rotation);
      if c.spans[i].Arc? {
        RotatedInReach(c.spans[i].center, rotation);
      }
    }
  }

  lemma MovedFits(c: Contour, center: Point)
    requires Within(c, REACH) && OnBoard(center)
    ensures TranslationFits(c, center)
  {
    forall i | 0 <= i < |c.spans|
      ensures SumFits(c.spans[i].start, center) && SumFits(c.spans[i].end, center)
      ensures c.spans[i].Arc? ==> SumFits(c.spans[i].center, center)
    {
      assert InReach(c.spans[i].start, REACH) && InReach(c.spans[i].end, REACH);
    }
  }

  const SQUARE: int := 250_000_000_000_000_000

  lemma BoardProduct(x: int, y: int)
    requires -BOARD <= x <= BOARD && -REACH <= y <= REACH
    ensures -2 * SQUARE <= x * y <= 2 * SQUARE
  {
    var u, v := Abs(x), Abs(y);
    MulMonotone(u, BOARD, v);
    assert x * y == u * v || x * y == -(u * v);
  }

  lemma DriftWithin(m: Motion, p: Point)
    requires m.quarterTurns == 0 && -BOARD <= m.tx <= BOARD && -BOARD <= m.ty <= BOARD && InReach(p, REACH)
    ensures -4 * SQUARE <= Drift(m, p) <= 4 * SQUARE
  {
    BoardProduct(m.tx, p.y);
    BoardProduct(m.ty, p.x);
  }

  /** Part of the way round, the drift of a translation is a difference of two potentials. */
  lemma {:induction false} DriftSum(m: Motion, pts: seq<Point>, k: nat)
    requires 0 < k <= |pts|
    ensures EdgeSum(DriftWeight(m), pts, k) == Drift(m, pts[Next(k - 1, |pts|)]) - Drift(m, pts[0])
  {
    hide Drift;
    if k > 1 {
      DriftSum(m, pts, k - 1);
    } else {
      assert EdgeSum(DriftWeight(m), pts, 0) == 0;
    }
  }

  lemma FarCross(a: Point, b: Point)
    requires -3 * REACH <= a.x <= 3 * REACH && -3 * REACH <= a.y <= 3 * REACH
    requires -3 * REACH <= b.x <= 3 * REACH && -3 * REACH <= b.y <= 3 * REACH
    ensures Cross(a, b).Some?
  {
    FarProduct(a.x, b.y);
    FarProduct(a.y, b.x);
  }

  lemma FarProduct(x: int, y: int)
    requires -3 * REACH <= x <= 3 * REACH && -3 * REACH <= y <= 3 * REACH
    ensures -9 * SQUARE <= x * y <= 9 * SQUARE
  {
    var u, v := Abs(x), Abs(y);
    MulMonotone(u, 3 * REACH, v);
    assert x * y == u * v || x * y == -(u * v);
  }

  /** The shoelace loop does not overflow on a small contour moved anywhere on the board. */
  lemma MovedShoelace(c: Contour, center: Point)
    requires Within(c, REACH) && |c.spans| <= 8 && OnBoard(center)
    ensures ShoelaceFits(TranslateContour(c, center))
  {
    hide AreaWeight, Cross, ContourImage, TranslationFits, EdgeSum, Within;
    var d := TranslateContour(c, center);
    MovedFits(c, center);
    TranslateIsImage(c, center);
    forall i | 0 <= i < |d.spans|
      ensures ShoelaceFitsAt(Starts(d), i)
    {
      MovedCross(c, center, i);
      MovedSum(c, d, center, i + 1);
    }
  }

  lemma MovedCross(c: Contour, center: Point, i: nat)
    requires Within(c, REACH) && OnBoard(center) && i < |c.spans|
    ensures var pts := Starts(TranslateContour(c, center)); Cross(pts[i], pts[Next(i, |pts|)]).Some?
  {
    hide Cross, InReach, OnBoard;
    var j := Next(i, |c.spans|);
    assert InReach(c.spans[i].start, REACH) && InReach(c.spans[j].start, REACH);
    MovedPoint(c.spans[i].start, center);
    MovedPoint(c.spans[j].start, center);
    FarCross(Add(c.spans[i].start, center), Add(c.spans[j].start, center));
  }

  lemma MovedPoint(p: Point, center: Point)
    requires InReach(p, REACH) && OnBoard(center)
    ensures Add(p, center).x == p.x + center.x && Add(p, center).y == p.y + center.y
    ensures -3 * REACH <= Add(p, center).x <= 3 * REACH && -3 * REACH <= Add(p, center).y <= 3 * REACH
  {}

  lemma MovedSum(c: Contour, d: Contour, center: Point, k: nat)
    requires Within(c, REACH) && OnBoard(center) && ContourImage(Motion(0, center.x, center.y), c, d)
    requires 0 < k <= |c.spans| <= 8
    ensures Fits(EdgeSum(AreaWeight, Starts(d), k))
  {
    hide AreaWeight, Drift, DriftWeight, ContourImage, EdgeSum;
    var m, j := Motion(0, center.x, center.y), Next(k - 1, |c.spans|);
    assert InReach(c.spans[j].start, REACH) && InReach(c.spans[0].start, REACH);
    AreaSumImage(m, c, d, k);
    ReachSum(c, k, REACH);
    DriftSum(m, Starts(c), k);
    DriftWithin(m, c.spans[j].start);
    DriftWithin(m, c.spans[0].start);
  }

  lemma SameLength(c: Contour, rotation: i64)
    requires IsQuarterTurn(rotation)
    ensures |RotateContour(c, ORIGIN, rotation).spans| == |c.spans|
  {}

  /** A contour of at most eight spans, within half a metre of its origin, can be put anywhere
      within a metre of the origin of the board. */
  lemma OnBoardIsPlaceable(c: Contour, rotation: i64, center: Point)
    requires Within(c, REACH) && |c.spans| <= 8 && IsQuarterTurn(rotation) && OnBoard(center)
    ensures Placeable(c, rotation, center)
  {
    hide ShoelaceFits, TestsFit, Compact, Within, RotateContour, TranslateContour, IsQuarterTurn, QuarterTurns,
      RotationFits, TranslationFits;
    var r := RotateContour(c, ORIGIN, rotation);
    RotatedWithin(c, rotation);
    SameLength(c, rotation);
    WithinMore(c);
    WithinMore(r);
    WithinIsExact(c);
    WithinIsExact(r);
    MovedFits(r, center);
    MovedShoelace(r, center);
  }

  /** Every acceptable pad of at most half a metre is still a valid polygon after `import_pad` has
      turned it by a multiple of 90 degrees and moved it to any place on a board of two metres. */
  lemma PlacedPadIsValid(p: PadShapeParams, rotation: i64, center: Point)
    requires InRange(p) && ArithmeticFits(p) && RawSpans(p).Some? && Acceptable(p)
    requires IsQuarterTurn(rotation) && OnBoard(center)
    ensures ValidatePolygon(Polygon(PlacedOutline(Finish(RawSpans(p).value).outline, rotation, center), []))
            == PolygonValid
  {
    hide RawSpans, InRange, ArithmeticFits, Acceptable, Within, ValidatePolygon, PlacedOutline, IsQuarterTurn, Exact,
      Placeable;
    var raw := RawSpans(p).value;
    RawIsContained(p);
    InRangeFits(p);
    WithinReversed(raw, REACH);
    OnBoardIsPlaceable(CanonicalWinding(raw), rotation, center);
    PlacedPadValidIff(p, rotation, center);
  }
}
