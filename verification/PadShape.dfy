/** The parametric pad outlines, and exactly which parameters give a valid polygon. */
module PadShapes {
  import opened Wrappers
  import opened Int64
  import opened Seqs
  import opened Geometry
  import opened CyclicSum
  import opened Contours
  import opened Polygons
  import opened ContourInvariance
  import opened Windings

  datatype PadShape = Rect | Circle | Oval | RoundRect | Trapezoid

  datatype PadShapeParams = PadShapeParams(shape: PadShape, width: i64, height: i64, radius: i64,
                                           deltaX: i64, deltaY: i64)

  function HalfOf(v: i64): (r: i64)
    ensures -0x4000_0000_0000_0000 <= r < 0x4000_0000_0000_0000
  {
    TruncDiv(v, 2)
  }

  // ------------------------------------------------------- the span lists as built

  function RectSpans(width: i64, height: i64): Contour {
    var hw, hh := HalfOf(width), HalfOf(height);
    Contour([
      Segment(Point(hw, -hh), Point(hw, hh)),
      Segment(Point(hw, hh), Point(-hw, hh)),
      Segment(Point(-hw, hh), Point(-hw, -hh)),
      Segment(Point(-hw, -hh), Point(hw, -hh))])
  }

  function CircleSpans(diameter: i64): Contour {
    var r := HalfOf(diameter);
    var east, north, west, south := Point(r, 0), Point(0, r), Point(-r, 0), Point(0, -r);
    Contour([
      Arc(east, north, ORIGIN, ArcDirection.CounterClockwise),
      Arc(north, west, ORIGIN, ArcDirection.CounterClockwise),
      Arc(west, south, ORIGIN, ArcDirection.CounterClockwise),
      Arc(south, east, ORIGIN, ArcDirection.CounterClockwise)])
  }

  function WideOvalSpans(r: i64, halfFlat: i64): Contour
    requires r > INT64_MIN && halfFlat > INT64_MIN
  {
    Contour([
      Segment(Point(halfFlat, -r), Point(-halfFlat, -r)),
      Arc(Point(-halfFlat, -r), Point(-halfFlat, r), Point(-halfFlat, 0), ArcDirection.Clockwise),
      Segment(Point(-halfFlat, r), Point(halfFlat, r)),
      Arc(Point(halfFlat, r), Point(halfFlat, -r), Point(halfFlat, 0), ArcDirection.Clockwise)])
  }

  function SwapXY(p: Point): Point { Point(p.y, p.x) }

  /** The points of a span exchanged in place; the direction of an arc is left as it was. */
  function SwapSpan(s: Span): Span {
    match s
    case Segment(a, b) => Segment(SwapXY(a), SwapXY(b))
    case Arc(a, b, c, d) => Arc(SwapXY(a), SwapXY(b), SwapXY(c), d)
  }

  function SwapContour(c: Contour): Contour { Contour(Map(SwapSpan, c.spans)) }

  predicate OvalFits(width: i64, height: i64) { -INT64_MAX <= width - height <= INT64_MAX }

  function OvalSpans(width: i64, height: i64): Contour
    requires OvalFits(width, height)
  {
    if width == height then CircleSpans(width)
    else
      var wide := width > height;
      var minor, major := if wide then height else width, if wide then width else height;
      var spans := WideOvalSpans(HalfOf(minor), HalfOf(major - minor));
      if wide then spans else SwapContour(spans)
  }

  predicate InsetFits(half: i64, radius: i64) { -INT64_MAX <= half - radius <= INT64_MAX }

  function RoundRectSpans(width: i64, height: i64, radius: i64): Contour
    requires radius > 0 ==> InsetFits(HalfOf(width), radius) && InsetFits(HalfOf(height), radius)
  {
    if radius <= 0 then RectSpans(width, height)
    else
      var hw, hh := HalfOf(width), HalfOf(height);
      Octagon(hw, hh, hw - radius, hh - radius)
  }

  function Octagon(hw: i64, hh: i64, a: i64, b: i64): (c: Contour)
    requires hw > INT64_MIN && hh > INT64_MIN && a > INT64_MIN && b > INT64_MIN
    ensures |c.spans| == 8
  {
    Contour([
      Segment(Point(a, -hh), Point(-a, -hh)),
      Arc(Point(-a, -hh), Point(-hw, -b), Point(-a, -b), ArcDirection.Clockwise),
      Segment(Point(-hw, -b), Point(-hw, b)),
      Arc(Point(-hw, b), Point(-a, hh), Point(-a, b), ArcDirection.Clockwise),
      Segment(Point(-a, hh), Point(a, hh)),
      Arc(Point(a, hh), Point(hw, b), Point(a, b), ArcDirection.Clockwise),
      Segment(Point(hw, b), Point(hw, -b)),
      Arc(Point(hw, -b), Point(a, -hh), Point(a, -b), ArcDirection.Clockwise)])
  }

  /** A half side plus half a delta is representable, and so is its negation. */
  predicate ShearFits(half: i64, halfDelta: i64) {
    -INT64_MAX <= half - halfDelta <= INT64_MAX && -INT64_MAX <= half + halfDelta <= INT64_MAX
  }

  function TrapezoidSpans(width: i64, height: i64, deltaX: i64, deltaY: i64): Contour
    requires if deltaX != 0 then ShearFits(HalfOf(height), HalfOf(deltaX)) else ShearFits(HalfOf(width), HalfOf(deltaY))
  {
    var hw, hh := HalfOf(width), HalfOf(height);
    if deltaX != 0 then ShearedX(hw, hh - HalfOf(deltaX), hh + HalfOf(deltaX))
    else ShearedY(hh, hw + HalfOf(deltaY), hw - HalfOf(deltaY))
  }

  /** Vertical sides of half heights `right` and `left`. */
  function ShearedX(hw: i64, right: i64, left: i64): Contour
    requires hw > INT64_MIN && right > INT64_MIN && left > INT64_MIN
  {
    Contour([
      Segment(Point(hw, -right), Point(hw, right)),
      Segment(Point(hw, right), Point(-hw, left)),
      Segment(Point(-hw, left), Point(-hw, -left)),
      Segment(Point(-hw, -left), Point(hw, -right))])
  }

  /** Horizontal sides of half widths `top` and `bottom`. */
  function ShearedY(hh: i64, top: i64, bottom: i64): Contour
    requires hh > INT64_MIN && top > INT64_MIN && bottom > INT64_MIN
  {
    Contour([
      Segment(Point(bottom, -hh), Point(-bottom, -hh)),
      Segment(Point(-bottom, -hh), Point(-top, hh)),
      Segment(Point(-top, hh), Point(top, hh)),
      Segment(Point(top, hh), Point(bottom, -hh))])
  }

  /** The signed arithmetic of the shape functions stays inside 64 bits; overflow would be undefined. */
  predicate ArithmeticFits(p: PadShapeParams) {
    match p.shape
    case Rect => true
    case Circle => true
    case Oval => OvalFits(p.width, p.height)
    case RoundRect => p.radius > 0 ==> InsetFits(HalfOf(p.width), p.radius) && InsetFits(HalfOf(p.height), p.radius)
    case Trapezoid =>
      if p.deltaX != 0 then ShearFits(HalfOf(p.height), HalfOf(p.deltaX))
      else ShearFits(HalfOf(p.width), HalfOf(p.deltaY))
  }

  /** The spans of a shape before the winding is made canonical; nothing when the source throws. */
  function RawSpans(p: PadShapeParams): Option<Contour>
    requires ArithmeticFits(p)
  {
    match p.shape
    case Rect => Some(RectSpans(p.width, p.height))
    case Circle => if p.width != p.height then None else Some(CircleSpans(p.width))
    case Oval => Some(OvalSpans(p.width, p.height))
    case RoundRect => Some(RoundRectSpans(p.width, p.height, p.radius))
    case Trapezoid => Some(TrapezoidSpans(p.width, p.height, p.deltaX, p.deltaY))
  }

  function Finish(c: Contour): Polygon { Polygon(CanonicalWinding(c), []) }

  /** `build_oval`, with its in-place exchange of coordinates for a tall pad. */
  method BuildOval(width: i64, height: i64) returns (r: Polygon)
    requires OvalFits(width, height)
    ensures r == Finish(OvalSpans(width, height))
  {
    hide CanonicalWinding;
    var outline: Contour;
    if width == height {
      outline := CanonicalizeWinding(CircleSpans(width));
      return Polygon(outline, []);
    }
    var wide := width > height;
    var minor, major := if wide then height else width, if wide then width else height;
    var built := WideOvalSpans(HalfOf(minor), HalfOf(major - minor));
    var spans := built.spans;
    if !wide {
      for i := 0 to |spans|
        invariant |spans| == |built.spans|
        invariant forall k :: 0 <= k < i ==> spans[k] == SwapSpan(built.spans[k])
        invariant forall k :: i <= k < |spans| ==> spans[k] == built.spans[k]
      {
        spans := spans[i := SwapSpan(spans[i])];
      }
      assert spans == SwapContour(built).spans;
    }
    outline := CanonicalizeWinding(Contour(spans));
    r := Polygon(outline, []);
  }

  /** `build_pad_outline`. */
  method BuildPadOutline(p: PadShapeParams) returns (r: Option<Polygon>)
    requires ArithmeticFits(p)
    ensures r == match RawSpans(p) case None => None case Some(c) => Some(Finish(c))
  {
    hide CanonicalWinding, OvalSpans, RectSpans, CircleSpans, RoundRectSpans, TrapezoidSpans;
    var outline: Contour;
    match p.shape
    case Rect =>
      outline := CanonicalizeWinding(RectSpans(p.width, p.height));
      r := Some(Polygon(outline, []));
    case Circle =>
      if p.width != p.height {
        return None;
      }
      outline := CanonicalizeWinding(CircleSpans(p.width));
      r := Some(Polygon(outline, []));
    case Oval =>
      var oval := BuildOval(p.width, p.height);
      r := Some(oval);
    case RoundRect =>
      outline := CanonicalizeWinding(RoundRectSpans(p.width, p.height, p.radius));
      r := Some(Polygon(outline, []));
    case Trapezoid =>
      outline := CanonicalizeWinding(TrapezoidSpans(p.width, p.height, p.deltaX, p.deltaY));
      r := Some(Polygon(outline, []));
  }

  // -------------------------------------------------------- from chords to validity

  /** Neither the tests nor the shoelace sums of a contour and of its reversal overflow. */
  predicate Exact(c: Contour) {
    && TestsFit(c) && TestsFit(ReverseContour(c))
    && ShoelaceFits(c) && ShoelaceFits(ReverseContour(c))
  }

  /** The finished polygon is valid exactly when the raw chords do not cross and enclose some area. */
  lemma FinishIff(c: Contour)
    requires |c.spans| >= 3 && Continuous(c) && ArcsValid(c) && Exact(c)
    ensures ValidatePolygon(Finish(c)) == PolygonValid <==> !SelfIntersects(c) && DoubleArea(c) != 0
  {
    hide SelfIntersects, ArcsValid, Continuous, TestsFit, Validate, ShoelaceFits, DoubleArea, ReverseContour;
    ValidMeans(c);
    ValidityReversed(c);
    CanonicalIsCounterClockwise(c);
  }

  /** An outline whose shoelace sum overflows, before or after its winding is made canonical, is never valid. */
  lemma OverflowIsInvalid(c: Contour)
    requires !ShoelaceFits(c) || !ShoelaceFits(Finish(c).outline)
    ensures ValidatePolygon(Finish(c)) != PolygonValid
  {
    hide Validate, ShoelaceFits, ReverseContour, DoubleArea;
  }

  // -------------------------------------------------- contours of bounded extent

  /** Half a metre. */
  const REACH: int := 500_000_000

  /** Three quarters of a metre: points up to this never overflow a test of eight spans. */
  const FAR_REACH: int := 750_000_000

  /** Every point the contour mentions is within reach of the origin. */
  predicate Within(c: Contour, reach: int) {
    forall i :: 0 <= i < |c.spans| ==>
      && InReach(c.spans[i].start, reach) && InReach(c.spans[i].end, reach)
      && (c.spans[i].Arc? ==> InReach(c.spans[i].center, reach))
  }

  predicate InReach(p: Point, reach: int) { -reach <= p.x <= reach && -reach <= p.y <= reach }

  lemma WithinIsCompact(c: Contour)
    requires Within(c, FAR_REACH)
    ensures Compact(c)
  {
    forall i, j | 0 <= i < |c.spans| && 0 <= j < |c.spans|
      ensures SpansNear(c.spans[i], c.spans[j])
    {
      assert InReach(c.spans[i].start, FAR_REACH) && InReach(c.spans[j].start, FAR_REACH);
    }
  }

  lemma WithinReversed(c: Contour, reach: int)
    requires Within(c, reach)
    ensures Within(ReverseContour(c), reach)
  {}

  function Squared(v: int): int { v * v }

  lemma ReachProduct(x: int, y: int, reach: int)
    requires -reach <= x <= reach && -reach <= y <= reach
    ensures -Squared(reach) <= x * y <= Squared(reach)
  {
    var u, v := Abs(x), Abs(y);
    MulMonotone(u, reach, v);
    MulMonotone(v, reach, reach);
    assert x * y == u * v || x * y == -(u * v);
  }

  /** One shoelace term of points within reach. */
  lemma ReachTerm(a: Point, b: Point, reach: int)
    requires InReach(a, reach) && InReach(b, reach) && 2 * Squared(reach) <= INT64_MAX
    ensures -2 * Squared(reach) <= AreaWeight(a, b) <= 2 * Squared(reach)
    ensures Cross(a, b) == Some(AreaWeight(a, b))
  {
    ReachProduct(a.x, b.y, reach);
    ReachProduct(a.y, b.x, reach);
    hide Cross, Squared;
  }

  lemma OneMore(s: int, k: int)
    ensures s * k == s * (k - 1) + s && -s * k == -s * (k - 1) - s
  {}

  lemma {:induction false} ReachSum(c: Contour, k: nat, reach: int)
    requires Within(c, reach) && k <= |c.spans| && 2 * Squared(reach) <= INT64_MAX
    ensures var s := 2 * Squared(reach); -s * k <= EdgeSum(AreaWeight, Starts(c), k) <= s * k
  {
    hide AreaWeight, Cross, Squared, InReach;
    if k > 0 {
      ReachSum(c, k - 1, reach);
      var i, j := k - 1, Next(k - 1, |c.spans|);
      assert InReach(c.spans[i].start, reach) && InReach(c.spans[j].start, reach);
      ReachTerm(Starts(c)[i], Starts(c)[j], reach);
      OneMore(2 * Squared(reach), k);
    }
  }

  /** On a contour of at most eight spans within reach the shoelace loop never overflows. */
  lemma WithinShoelace(c: Contour)
    requires Within(c, FAR_REACH) && |c.spans| <= 8
    ensures ShoelaceFits(c)
  {
    hide AreaWeight, Cross;
    assert Squared(FAR_REACH) == 562_500_000_000_000_000;
    hide Squared;
    forall i | 0 <= i < |c.spans|
      ensures ShoelaceFitsAt(Starts(c), i)
    {
      var j := Next(i, |c.spans|);
      assert InReach(c.spans[i].start, FAR_REACH) && InReach(c.spans[j].start, FAR_REACH);
      ReachTerm(Starts(c)[i], Starts(c)[j], FAR_REACH);
      ReachSum(c, i + 1, FAR_REACH);
    }
  }

  /** And neither does any test. */
  lemma WithinIsExact(c: Contour)
    requires Within(c, FAR_REACH) && |c.spans| <= 8
    ensures Exact(c)
  {
    hide Within, Compact, TestsFit, ShoelaceFits;
    WithinReversed(c, FAR_REACH);
    WithinIsCompact(c);
    WithinIsCompact(ReverseContour(c));
    CompactFits(c);
    CompactFits(ReverseContour(c));
    WithinShoelace(c);
    WithinShoelace(ReverseContour(c));
  }

  lemma WithinMore(c: Contour)
    requires Within(c, REACH)
    ensures Within(c, FAR_REACH)
  {}

  // ---------------------------------------------- quadrilaterals with a mirror axis

  /** `pt` is `(x, y)`, or `(y, x)` in a transposed outline. */
  predicate At(pt: Point, transposed: bool, x: int, y: int) {
    if transposed then pt.x == y && pt.y == x else pt.x == x && pt.y == y
  }

  /** The vertices `(p, -y)`, `(-p, -y)`, `(-q, y)`, `(q, y)`. */
  predicate IsQuad(c: Contour, transposed: bool, p: int, q: int, y: int) {
    && |c.spans| == 4
    && At(c.spans[0].start, transposed, p, -y) && At(c.spans[1].start, transposed, -p, -y)
    && At(c.spans[2].start, transposed, -q, y) && At(c.spans[3].start, transposed, q, y)
  }

  lemma SideTransposed(a: Point, b: Point, c: Point)
    ensures Side(SwapXY(a), SwapXY(b), SwapXY(c)) == -Side(a, b, c)
  {}

  /** The sides of the vertices that decide the two pairs of opposite chords. */
  lemma QuadSides(v0: Point, v1: Point, v2: Point, v3: Point, p: int, q: int, y: int)
    requires At(v0, false, p, -y) && At(v1, false, -p, -y) && At(v2, false, -q, y) && At(v3, false, q, y)
    ensures Side(v0, v1, v2) == Side(v0, v1, v3) == -4 * (p * y)
    ensures Side(v1, v2, v3) == -4 * (q * y) && Side(v1, v2, v0) == -4 * (p * y)
    ensures Side(v3, v0, v1) == -4 * (p * y) && Side(v3, v0, v2) == -4 * (q * y)
  {
    QuadDets(p, q, y);
    hide Det;
  }

  lemma QuadDets(p: int, q: int, y: int)
    ensures Det(-p - p, -y - -y, -q - p, y - -y) == -4 * (p * y) && Det(-p - p, -y - -y, q - p, y - -y) == -4 * (p * y)
    ensures Det(-q - -p, y - -y, q - -p, y - -y) == -4 * (q * y)
            && Det(-q - -p, y - -y, p - -p, -y - -y) == -4 * (p * y)
    ensures Det(p - q, -y - y, -p - q, -y - y) == -4 * (p * y) && Det(p - q, -y - y, -q - q, y - y) == -4 * (q * y)
  {}

  function Turn(transposed: bool): int { if transposed then 1 else -1 }

  /** The same for a quadrilateral in either position. */
  lemma QuadSidesAnyway(c: Contour, transposed: bool, p: int, q: int, y: int)
    requires IsQuad(c, transposed, p, q, y)
    ensures var v0, v1, v2, v3 := c.spans[0].start, c.spans[1].start, c.spans[2].start, c.spans[3].start;
            var t := Turn(transposed);
            && Side(v0, v1, v2) == Side(v0, v1, v3) == t * (4 * (p * y))
            && Side(v1, v2, v3) == t * (4 * (q * y)) && Side(v1, v2, v0) == t * (4 * (p * y))
            && Side(v3, v0, v1) == t * (4 * (p * y)) && Side(v3, v0, v2) == t * (4 * (q * y))
  {
    var v0, v1, v2, v3 := c.spans[0].start, c.spans[1].start, c.spans[2].start, c.spans[3].start;
    if transposed {
      QuadSides(SwapXY(v0), SwapXY(v1), SwapXY(v2), SwapXY(v3), p, q, y);
      SideTransposed(v0, v1, v2);
      SideTransposed(v0, v1, v3);
      SideTransposed(v1, v2, v3);
      SideTransposed(v1, v2, v0);
      SideTransposed(v3, v0, v1);
      SideTransposed(v3, v0, v2);
    } else {
      QuadSides(v0, v1, v2, v3, p, q, y);
    }
    hide Side;
  }

  lemma QuadCrossesIff(c: Contour, transposed: bool, p: int, q: int, y: int)
    requires IsQuad(c, transposed, p, q, y) && Continuous(c) && TestsFit(c)
    ensures SelfIntersects(c) <==> Opposed(p * y, q * y)
  {
    hide Side, ChordsProperlyCross, TestsFit;
    QuadSidesAnyway(c, transposed, p, q, y);
    FourOfQuad(c, 0, 2);
    FourOfQuad(c, 1, 3);
    assert forall i, j :: 0 <= i < j < 4 && !IsAdjacent(i, j, 4) ==> (i == 0 && j == 2) || (i == 1 && j == 3);
    assert !SpansCross(c, 0, 2);
    assert SpansCross(c, 1, 3) <==> Opposed(p * y, q * y);
    assert !IsAdjacent(1, 3, 4);
    hide SpansCross;
  }

  lemma FourOfQuad(c: Contour, i: nat, j: nat)
    requires |c.spans| == 4 && Continuous(c) && TestsFit(c) && i < j < 4 && !IsAdjacent(i, j, 4)
    ensures SpansCross(c, i, j) <==>
            Separated(c.spans[i].start, c.spans[Next(i, 4)].start, c.spans[j].start, c.spans[Next(j, 4)].start)
  {
    hide ChordsProperlyCross, Separated, CrossingFits, ArcFits;
    var s, t := c.spans[i], c.spans[j];
    assert SpansFit(s, t);
    CrossingIsExact(s.start, s.end, t.start, t.end);
    assert s.end == c.spans[Next(i, 4)].start && t.end == c.spans[Next(j, 4)].start;
  }

  lemma QuadArea(c: Contour, transposed: bool, p: int, q: int, y: int)
    requires IsQuad(c, transposed, p, q, y)
    ensures DoubleArea(c) == Turn(transposed) * (4 * (p * y) + 4 * (q * y))
  {
    var v0, v1, v2, v3 := c.spans[0].start, c.spans[1].start, c.spans[2].start, c.spans[3].start;
    SumOfFour(AreaWeight, Starts(c));
    QuadTerms(p, q, y);
    assert AreaWeight(v0, v1) == Turn(transposed) * (2 * (p * y));
    assert AreaWeight(v1, v2) == Turn(transposed) * (p * y + q * y);
    assert AreaWeight(v2, v3) == Turn(transposed) * (2 * (q * y));
    assert AreaWeight(v3, v0) == Turn(transposed) * (p * y + q * y);
    hide AreaWeight;
  }

  lemma QuadTerms(p: int, q: int, y: int)
    ensures Det(p, -y, -p, -y) == -2 * (p * y) && Det(-p, -y, -q, y) == -(p * y) - q * y
    ensures Det(-q, y, q, y) == -2 * (q * y) && Det(q, y, p, -y) == -(p * y) - q * y
    ensures Det(-y, p, -y, -p) == 2 * (p * y) && Det(-y, -p, y, -q) == p * y + q * y
    ensures Det(y, -q, y, q) == 2 * (q * y) && Det(y, q, -y, p) == p * y + q * y
  {}

  /** A quadrilateral with a mirror axis gives a valid pad exactly when it has height and
      its two parallel sides are not opposed and do not both vanish. */
  lemma QuadPad(c: Contour, transposed: bool, p: int, q: int, y: int)
    requires IsQuad(c, transposed, p, q, y) && Continuous(c) && ArcsValid(c) && Exact(c)
    ensures ValidatePolygon(Finish(c)) == PolygonValid <==> y != 0 && !Opposed(p, q) && p + q != 0
  {
    hide SelfIntersects, ArcsValid, Continuous, TestsFit, ShoelaceFits, ReverseContour, DoubleArea, Finish, IsQuad;
    assert |c.spans| == 4 by { QuadHasFour(c, transposed, p, q, y); }
    FinishIff(c);
    QuadCrossesIff(c, transposed, p, q, y);
    QuadArea(c, transposed, p, q, y);
    QuadCondition(p, q, y);
  }

  lemma QuadHasFour(c: Contour, transposed: bool, p: int, q: int, y: int)
    requires IsQuad(c, transposed, p, q, y)
    ensures |c.spans| == 4
  {}

  lemma QuadCondition(p: int, q: int, y: int)
    ensures !Opposed(p * y, q * y) && p * y + q * y != 0 <==> y != 0 && !Opposed(p, q) && p + q != 0
  {
    assert p * y + q * y == (p + q) * y;
    SignTimes(p, y);
    SignTimes(q, y);
    SignTimes(p + q, y);
  }

  lemma SignTimes(u: int, y: int)
    ensures y > 0 ==> (u * y > 0 <==> u > 0) && (u * y < 0 <==> u < 0)
    ensures y < 0 ==> (u * y > 0 <==> u < 0) && (u * y < 0 <==> u > 0)
    ensures y == 0 ==> u * y == 0
  {}

  // ------------------------------------------------------------------ the shapes

  /** An arc whose two distances do not overflow is valid exactly when they agree. */
  lemma ArcValidIff(s: Span)
    requires s.Arc? && ArcFits(s)
    ensures ArcIsValid(s) <==> SquaredDistance(s.start, s.center) == SquaredDistance(s.end, s.center)
  {
    DistanceIsExact(s.start, s.center);
    DistanceIsExact(s.end, s.center);
    hide SquaredDistance, Dot, Sub;
  }

  lemma ShearedXPad(hw: i64, right: i64, left: i64)
    requires hw > INT64_MIN && right > INT64_MIN && left > INT64_MIN && Exact(ShearedX(hw, right, left))
    ensures ValidatePolygon(Finish(ShearedX(hw, right, left))) == PolygonValid <==>
            hw != 0 && !Opposed(right, left) && right + left != 0
  {
    hide Finish, ValidatePolygon, ShearedX, IsQuad, Continuous, Exact;
    ShearedXIsQuad(hw, right, left);
    QuadPad(ShearedX(hw, right, left), true, -right, -left, -hw);
  }

  lemma ShearedXIsQuad(hw: i64, right: i64, left: i64)
    requires hw > INT64_MIN && right > INT64_MIN && left > INT64_MIN
    ensures var c := ShearedX(hw, right, left); IsQuad(c, true, -right, -left, -hw) && Continuous(c) && ArcsValid(c)
  {}

  lemma ShearedYPad(hh: i64, top: i64, bottom: i64)
    requires hh > INT64_MIN && top > INT64_MIN && bottom > INT64_MIN && Exact(ShearedY(hh, top, bottom))
    ensures ValidatePolygon(Finish(ShearedY(hh, top, bottom))) == PolygonValid <==>
            hh != 0 && !Opposed(bottom, top) && bottom + top != 0
  {
    hide Finish, ValidatePolygon, ShearedY, IsQuad, Continuous, Exact;
    ShearedYIsQuad(hh, top, bottom);
    QuadPad(ShearedY(hh, top, bottom), false, bottom, top, hh);
  }

  lemma ShearedYIsQuad(hh: i64, top: i64, bottom: i64)
    requires hh > INT64_MIN && top > INT64_MIN && bottom > INT64_MIN
    ensures var c := ShearedY(hh, top, bottom); IsQuad(c, false, bottom, top, hh) && Continuous(c) && ArcsValid(c)
  {}

  lemma RectPad(w: i64, h: i64)
    requires Exact(RectSpans(w, h))
    ensures ValidatePolygon(Finish(RectSpans(w, h))) == PolygonValid <==> HalfOf(w) != 0 && HalfOf(h) != 0
  {
    var hw, hh := HalfOf(w), HalfOf(h);
    assert RectSpans(w, h) == ShearedX(hw, hh, hh);
    hide Finish, ValidatePolygon, ShearedX, RectSpans, Exact;
    ShearedXPad(hw, hh, hh);
  }

  lemma TrapezoidPad(w: i64, h: i64, dx: i64, dy: i64)
    requires if dx != 0 then ShearFits(HalfOf(h), HalfOf(dx)) else ShearFits(HalfOf(w), HalfOf(dy))
    requires Exact(TrapezoidSpans(w, h, dx, dy))
    ensures ValidatePolygon(Finish(TrapezoidSpans(w, h, dx, dy))) == PolygonValid <==>
            && HalfOf(w) != 0 && HalfOf(h) != 0
            && if dx != 0 then Abs(HalfOf(dx)) <= Abs(HalfOf(h)) else Abs(HalfOf(dy)) <= Abs(HalfOf(w))
  {
    hide Finish, ValidatePolygon, ShearedX, ShearedY, HalfOf, Abs, Opposed, Exact;
    var hw, hh := HalfOf(w), HalfOf(h);
    if dx != 0 {
      ShearedXPad(hw, hh - HalfOf(dx), hh + HalfOf(dx));
      ShearCondition(hh, HalfOf(dx));
    } else {
      ShearedYPad(hh, hw + HalfOf(dy), hw - HalfOf(dy));
      ShearCondition(hw, HalfOf(dy));
    }
  }

  /** Half a side more and half a delta less: not opposed, and not both nothing. */
  lemma ShearCondition(half: int, delta: int)
    ensures !Opposed(half - delta, half + delta) && 2 * half != 0 <==> half != 0 && Abs(delta) <= Abs(half)
    ensures Opposed(half - delta, half + delta) == Opposed(half + delta, half - delta)
  {}

  lemma WideOvalPad(r: i64, halfFlat: i64)
    requires r > INT64_MIN && halfFlat > INT64_MIN && Exact(WideOvalSpans(r, halfFlat))
    ensures ValidatePolygon(Finish(WideOvalSpans(r, halfFlat))) == PolygonValid <==> r != 0 && halfFlat != 0
  {
    hide Finish, ValidatePolygon, IsQuad, Continuous, WideOvalSpans, ArcsValid, TestsFit, ShoelaceFits, ReverseContour,
      TwoRoundEnds;
    WideOvalIsQuad(r, halfFlat);
    TwoArcs(WideOvalSpans(r, halfFlat), r);
    QuadPad(WideOvalSpans(r, halfFlat), false, halfFlat, halfFlat, r);
  }

  lemma WideOvalIsQuad(r: i64, halfFlat: i64)
    requires r > INT64_MIN && halfFlat > INT64_MIN
    ensures var c := WideOvalSpans(r, halfFlat);
            IsQuad(c, false, halfFlat, halfFlat, r) && Continuous(c) && TwoRoundEnds(c, r)
  {}

  lemma TallOvalPad(r: i64, halfFlat: i64)
    requires r > INT64_MIN && halfFlat > INT64_MIN && Exact(SwapContour(WideOvalSpans(r, halfFlat)))
    ensures ValidatePolygon(Finish(SwapContour(WideOvalSpans(r, halfFlat)))) == PolygonValid
            <==> r != 0 && halfFlat != 0
  {
    hide Finish, ValidatePolygon, IsQuad, Continuous, WideOvalSpans, SwapContour, ArcsValid, TestsFit, ShoelaceFits,
      ReverseContour, TwoRoundEnds;
    TallOvalIsQuad(r, halfFlat);
    TwoArcs(SwapContour(WideOvalSpans(r, halfFlat)), r);
    QuadPad(SwapContour(WideOvalSpans(r, halfFlat)), true, halfFlat, halfFlat, r);
  }

  lemma TallOvalIsQuad(r: i64, halfFlat: i64)
    requires r > INT64_MIN && halfFlat > INT64_MIN
    ensures var c := SwapContour(WideOvalSpans(r, halfFlat));
            IsQuad(c, true, halfFlat, halfFlat, r) && Continuous(c) && TwoRoundEnds(c, r)
  {
    SwappedOval(r, halfFlat);
    hide SwapContour, WideOvalSpans;
  }

  function TallOvalSpans(r: i64, halfFlat: i64): Contour
    requires r > INT64_MIN && halfFlat > INT64_MIN
  {
    Contour([
      Segment(Point(-r, halfFlat), Point(-r, -halfFlat)),
      Arc(Point(-r, -halfFlat), Point(r, -halfFlat), Point(0, -halfFlat), ArcDirection.Clockwise),
      Segment(Point(r, -halfFlat), Point(r, halfFlat)),
      Arc(Point(r, halfFlat), Point(-r, halfFlat), Point(0, halfFlat), ArcDirection.Clockwise)])
  }

  lemma SwappedOval(r: i64, halfFlat: i64)
    requires r > INT64_MIN && halfFlat > INT64_MIN
    ensures SwapContour(WideOvalSpans(r, halfFlat)) == TallOvalSpans(r, halfFlat)
  {
    assert SwapContour(WideOvalSpans(r, halfFlat)).spans == TallOvalSpans(r, halfFlat).spans;
  }

  /** Two segments and two arcs of radius `r`. */
  predicate TwoRoundEnds(c: Contour, r: int) {
    && |c.spans| == 4 && c.spans[0].Segment? && c.spans[1].Arc? && c.spans[2].Segment? && c.spans[3].Arc?
    && IsRound(c.spans[1], r) && IsRound(c.spans[3], r)
  }

  lemma TwoArcs(c: Contour, r: int)
    requires TwoRoundEnds(c, r) && TestsFit(c)
    ensures ArcsValid(c)
  {
    hide ArcIsValid, IsRound, SpansFit, ArcFits;
    RoundIsValid(c.spans[1], r);
    RoundIsValid(c.spans[3], r);
  }

  /** Both ends are straight below, above or beside the center, `r` away from it. */
  predicate IsRound(s: Span, r: int)
    requires s.Arc?
  {
    Beside(s.start, s.center, r) && Beside(s.end, s.center, r)
  }

  predicate Beside(p: Point, center: Point, r: int) {
    (p.x == center.x && Abs(p.y - center.y) == Abs(r)) || (p.y == center.y && Abs(p.x - center.x) == Abs(r))
  }

  lemma RoundIsValid(s: Span, r: int)
    requires s.Arc? && ArcFits(s) && IsRound(s, r)
    ensures ArcIsValid(s)
  {
    hide ArcIsValid, SquaredDistance, Beside, ArcFits;
    ArcValidIff(s);
    OneRadius(s.start, s.center, r);
    OneRadius(s.end, s.center, r);
  }

  lemma OneRadius(p: Point, center: Point, r: int)
    requires Beside(p, center, r)
    ensures SquaredDistance(p, center) == r * r
  {
    var d := p.x - center.x + p.y - center.y;
    assert d == r || d == -r;
    SameSquare(d, r);
  }

  lemma SameSquare(d: int, r: int)
    requires d == r || d == -r
    ensures d * d == r * r
  {}

  lemma OvalPad(w: i64, h: i64)
    requires OvalFits(w, h) && Exact(OvalSpans(w, h))
    ensures ValidatePolygon(Finish(OvalSpans(w, h))) == PolygonValid <==>
            if w == h then HalfOf(w) != 0 else HalfOf(Lesser(w, h)) != 0 && (w - h >= 2 || h - w >= 2)
  {
    hide Finish, ValidatePolygon, WideOvalSpans, CircleSpans, SwapContour, HalfOf, Exact;
    HalfOfSides(w, h);
    if w == h {
      CirclePad(w);
    } else if w > h {
      WideOvalPad(HalfOf(h), HalfOf(w - h));
    } else {
      TallOvalPad(HalfOf(w), HalfOf(h - w));
    }
  }

  lemma HalfOfSides(w: i64, h: i64)
    requires OvalFits(w, h)
    ensures HalfOf(w - h) == 0 <==> -2 < w - h < 2
    ensures HalfOf(h - w) == 0 <==> -2 < w - h < 2
  {}

  function Lesser(a: i64, b: i64): i64 { if b < a then b else a }

  /** The four quarter arcs: a square on its corner, whatever the diameter's sign. */
  lemma CirclePad(d: i64)
    requires Exact(CircleSpans(d))
    ensures ValidatePolygon(Finish(CircleSpans(d))) == PolygonValid <==> HalfOf(d) != 0
  {
    hide Finish, ValidatePolygon, ArcsValid, Continuous, CircleSpans, OneSided, DoubleArea, TestsFit, ShoelaceFits,
      ReverseContour;
    var c := CircleSpans(d);
    CircleIsClosed(d);
    CircleArcs(d);
    CircleSides(d);
    CircleArea(d);
    FinishIff(c);
    OneSidedNeverCrosses(c, 1);
  }

  lemma CircleIsClosed(d: i64)
    ensures Continuous(CircleSpans(d))
  {}

  lemma CircleArcs(d: i64)
    requires TestsFit(CircleSpans(d))
    ensures ArcsValid(CircleSpans(d)) && |CircleSpans(d).spans| == 4
  {
    hide ArcIsValid, ArcFits, SpansFit, IsRound, CircleSpans;
    QuarterArc(d, 0);
    forall i | 0 <= i < 4
      ensures CircleSpans(d).spans[i].Arc? && ArcIsValid(CircleSpans(d).spans[i])
    {
      QuarterArc(d, i);
      RoundIsValid(CircleSpans(d).spans[i], HalfOf(d));
    }
  }

  lemma QuarterArc(d: i64, i: nat)
    requires i < 4
    ensures |CircleSpans(d).spans| == 4
    ensures var s := CircleSpans(d).spans[i]; s.Arc? && IsRound(s, HalfOf(d))
  {}

  lemma DiamondTerms(r: int)
    ensures Det(r, 0, 0, r) == r * r && Det(0, r, -r, 0) == r * r
    ensures Det(-r, 0, 0, -r) == r * r && Det(0, -r, r, 0) == r * r
  {
    assert (-r) * (-r) == r * r;
  }

  lemma CircleSides(d: i64)
    ensures OneSided(CircleSpans(d), 1)
  {
    var c := CircleSpans(d);
    DiamondSides(c.spans[0].start, c.spans[1].start, c.spans[2].start, c.spans[3].start, HalfOf(d));
    hide Side;
  }

  lemma CircleArea(d: i64)
    ensures DoubleArea(CircleSpans(d)) == 4 * (HalfOf(d) * HalfOf(d))
    ensures DoubleArea(CircleSpans(d)) == 0 <==> HalfOf(d) == 0
  {
    var r := HalfOf(d);
    assert Starts(CircleSpans(d)) == [Point(r, 0), Point(0, r), Point(-r, 0), Point(0, -r)];
    hide CircleSpans, Starts, Det;
    DiamondTerms(r);
    SumOfFour(AreaWeight, [Point(r, 0), Point(0, r), Point(-r, 0), Point(0, -r)]);
    SquareIsPositive(r);
  }

  lemma SquareIsPositive(r: int)
    ensures r * r == 0 <==> r == 0
  {}

  lemma DiamondSides(e: Point, n: Point, w: Point, s: Point, r: i64)
    requires r > INT64_MIN
    requires e == Point(r, 0) && n == Point(0, r) && w == Point(-r, 0) && s == Point(0, -r)
    ensures Side(e, n, e) >= 0 && Side(e, n, n) >= 0 && Side(e, n, w) >= 0 && Side(e, n, s) >= 0
    ensures Side(n, w, e) >= 0 && Side(n, w, n) >= 0 && Side(n, w, w) >= 0 && Side(n, w, s) >= 0
    ensures Side(w, s, e) >= 0 && Side(w, s, n) >= 0 && Side(w, s, w) >= 0 && Side(w, s, s) >= 0
    ensures Side(s, e, e) >= 0 && Side(s, e, n) >= 0 && Side(s, e, w) >= 0 && Side(s, e, s) >= 0
  {
    assert r * r >= 0;
  }

  // ------------------------------------------------------------- rounded rectangles

  /** Half sides and a radius whose negations fit, and how far inside the half sides the corners start. */
  predicate Corners(hw: int, hh: int, a: int, b: int, r: int) {
    && hw > INT64_MIN && hh > INT64_MIN && a > INT64_MIN && b > INT64_MIN
    && r > 0 && a == hw - r && b == hh - r
  }

  /** The corners that give a valid outline: some side is positive, and the radius is at
      most half of each side that is. */
  predicate Roundable(hw: int, hh: int, r: int) {
    (hw > 0 || hh > 0) && (hw <= 0 || r <= hw) && (hh <= 0 || r <= hh)
  }

  lemma OctagonIsClosed(hw: i64, hh: i64, a: i64, b: i64)
    requires hw > INT64_MIN && hh > INT64_MIN && a > INT64_MIN && b > INT64_MIN
    ensures Continuous(Octagon(hw, hh, a, b))
  {}

  lemma OctagonArcs(hw: i64, hh: i64, a: i64, b: i64, r: int)
    requires Corners(hw, hh, a, b, r) && TestsFit(Octagon(hw, hh, a, b))
    ensures ArcsValid(Octagon(hw, hh, a, b))
  {
    hide Octagon, ArcIsValid, ArcFits, SpansFit, IsRound;
    var c := Octagon(hw, hh, a, b);
    forall i | 0 <= i < 8 && c.spans[i].Arc?
      ensures ArcIsValid(c.spans[i])
    {
      OctagonArc(hw, hh, a, b, r, i);
      RoundIsValid(c.spans[i], r);
    }
  }

  lemma OctagonArc(hw: i64, hh: i64, a: i64, b: i64, r: int, i: nat)
    requires Corners(hw, hh, a, b, r) && i < 8
    requires Octagon(hw, hh, a, b).spans[i].Arc?
    ensures IsRound(Octagon(hw, hh, a, b).spans[i], r)
  {}

  // ---- the chords run in four directions; the level of a point is constant along them

  /** Chord `i` lies on a line where the level of kind `i % 4` is constant. */
  function Level(kind: nat, p: Point): int {
    if kind == 0 then p.y else if kind == 1 then p.x + p.y else if kind == 2 then p.x else p.x - p.y
  }

  /** The displacement of a chord of signed length `k`. */
  predicate Runs(kind: nat, s: Point, e: Point, k: int) {
    var dx, dy := e.x - s.x, e.y - s.y;
    if kind == 0 then dx == k && dy == 0
    else if kind == 1 then dx == k && dy == -k
    else if kind == 2 then dx == 0 && dy == -k
    else dx == -k && dy == -k
  }

  lemma SideByLevel(kind: nat, s: Point, e: Point, p: Point, k: int)
    requires Runs(kind, s, e, k)
    ensures Side(s, e, p) == k * (Level(kind, p) - Level(kind, s))
  {
    var u, v := p.x - s.x, p.y - s.y;
    KindOfSide(k, u, v);
  }

  lemma KindOfSide(k: int, u: int, v: int)
    ensures Det(k, 0, u, v) == k * v && Det(k, -k, u, v) == k * (u + v)
    ensures Det(0, -k, u, v) == k * u && Det(-k, -k, u, v) == k * (u - v)
  {}

  /** The level rises from the line to one side only, so it decides which ends are opposed. */
  lemma LevelsDecide(kind: nat, s: Point, e: Point, p: Point, q: Point, k: int)
    requires Runs(kind, s, e, k)
    requires !Opposed(Level(kind, p) - Level(kind, s), Level(kind, q) - Level(kind, s))
    ensures !Opposed(Side(s, e, p), Side(s, e, q))
  {
    SideByLevel(kind, s, e, p, k);
    SideByLevel(kind, s, e, q, k);
    SignTimes(Level(kind, p) - Level(kind, s), k);
    SignTimes(Level(kind, q) - Level(kind, s), k);
    Commute(k, Level(kind, p) - Level(kind, s));
    Commute(k, Level(kind, q) - Level(kind, s));
    hide Side, Level, Runs;
  }

  lemma Commute(x: int, y: int)
    ensures x * y == y * x
  {}

  function Pace(i: nat, a: int, b: int, r: int): int {
    match i case 0 => -2 * a case 2 => -2 * b case 4 => 2 * a case 6 => 2 * b case 1 => -r case 3 => -r case _ => r
  }

  /** The coordinates of corner `i`, where chord `i` starts and the chord before it ends. */
  function CornerX(i: nat, hw: int, a: int): int {
    match i case 0 => a case 1 => -a case 2 => -hw case 3 => -hw case 4 => -a case 5 => a case _ => hw
  }

  function CornerY(i: nat, hh: int, b: int): int {
    match i case 0 => -hh case 1 => -hh case 2 => -b case 3 => b case 4 => hh case 5 => hh case 6 => b case _ => -b
  }

  lemma OctagonCorner(hw: i64, hh: i64, a: i64, b: i64, i: nat)
    requires hw > INT64_MIN && hh > INT64_MIN && a > INT64_MIN && b > INT64_MIN && i < 8
    ensures var s, n := Octagon(hw, hh, a, b).spans[i], Next(i, 8);
            && s.start.x == CornerX(i, hw, a) && s.start.y == CornerY(i, hh, b)
            && s.end.x == CornerX(n, hw, a) && s.end.y == CornerY(n, hh, b)
  {}

  lemma OctagonChord(hw: i64, hh: i64, a: i64, b: i64, r: int, i: nat)
    requires Corners(hw, hh, a, b, r) && i < 8
    ensures var s := Octagon(hw, hh, a, b).spans[i]; Runs(i % 4, s.start, s.end, Pace(i, a, b, r))
  {
    hide Octagon;
    OctagonCorner(hw, hh, a, b, i);
  }

  /** Both ends of a chord are on one side of another. */
  predicate LevelsKeepApart(kind: nat, s: Point, p: Point, q: Point) {
    !Opposed(Level(kind, p) - Level(kind, s), Level(kind, q) - Level(kind, s))
  }

  function CornerLevel(kind: nat, i: nat, hw: int, hh: int, a: int, b: int): int {
    var x, y := CornerX(i, hw, a), CornerY(i, hh, b);
    if kind == 0 then y else if kind == 1 then x + y else if kind == 2 then x else x - y
  }

  /** Both ends of chord `j` are on one side of chord `i`. */
  predicate CornersKeepApart(i: nat, j: nat, hw: int, hh: int, a: int, b: int)
    requires j < 8
  {
    var own := CornerLevel(i % 4, i, hw, hh, a, b);
    !Opposed(CornerLevel(i % 4, j, hw, hh, a, b) - own, CornerLevel(i % 4, Next(j, 8), hw, hh, a, b) - own)
  }

  lemma ConvexApart(hw: int, hh: int, a: int, b: int, r: int, i: nat, j: nat)
    requires Corners(hw, hh, a, b, r) && 0 <= a && 0 <= b && i < j < 8
    ensures CornersKeepApart(i, j, hw, hh, a, b)
  {}

  /** In an hourglass the two long edges and the two waist edges have every other chord on
      one side, and so have the slanted edges among themselves. */
  lemma TallEdge(hw: int, hh: int, a: int, b: int, r: int, i: nat, j: nat)
    requires Corners(hw, hh, a, b, r) && hw <= 0 && 0 <= b && i < 8 && j < 8 && i % 4 == 0
    ensures CornersKeepApart(i, j, hw, hh, a, b)
  {}

  lemma TallWaist(hw: int, hh: int, a: int, b: int, r: int, i: nat, j: nat)
    requires Corners(hw, hh, a, b, r) && hw <= 0 && 0 <= b && i < 8 && j < 8 && i % 4 == 2 && j % 4 != 0
             && !IsAdjacent(i, j, 8)
    ensures CornersKeepApart(i, j, hw, hh, a, b)
  {}

  lemma TallSlants(hw: int, hh: int, a: int, b: int, r: int, i: nat, j: nat)
    requires Corners(hw, hh, a, b, r) && hw <= 0 && 0 <= b && i < j < 8 && i % 2 == 1 && j % 2 == 1
    ensures CornersKeepApart(i, j, hw, hh, a, b)
  {}

  lemma TallApart(hw: int, hh: int, a: int, b: int, r: int, i: nat, j: nat)
    requires Corners(hw, hh, a, b, r) && hw <= 0 && 0 <= b && i < j < 8 && !IsAdjacent(i, j, 8)
    ensures CornersKeepApart(i, j, hw, hh, a, b) || CornersKeepApart(j, i, hw, hh, a, b)
  {
    hide CornersKeepApart, Corners;
    if i % 4 == 0 {
      TallEdge(hw, hh, a, b, r, i, j);
    } else if j % 4 == 0 {
      TallEdge(hw, hh, a, b, r, j, i);
    } else if i % 4 == 2 {
      TallWaist(hw, hh, a, b, r, i, j);
    } else if j % 4 == 2 {
      TallWaist(hw, hh, a, b, r, j, i);
    } else {
      TallSlants(hw, hh, a, b, r, i, j);
    }
  }

  lemma WideEdge(hw: int, hh: int, a: int, b: int, r: int, i: nat, j: nat)
    requires Corners(hw, hh, a, b, r) && hh <= 0 && 0 <= a && i < 8 && j < 8 && i % 4 == 2
    ensures CornersKeepApart(i, j, hw, hh, a, b)
  {}

  lemma WideWaist(hw: int, hh: int, a: int, b: int, r: int, i: nat, j: nat)
    requires Corners(hw, hh, a, b, r) && hh <= 0 && 0 <= a && i < 8 && j < 8 && i % 4 == 0 && j % 4 != 2
             && !IsAdjacent(i, j, 8)
    ensures CornersKeepApart(i, j, hw, hh, a, b)
  {}

  lemma WideSlants(hw: int, hh: int, a: int, b: int, r: int, i: nat, j: nat)
    requires Corners(hw, hh, a, b, r) && hh <= 0 && 0 <= a && i < j < 8 && i % 2 == 1 && j % 2 == 1
    ensures CornersKeepApart(i, j, hw, hh, a, b)
  {}

  lemma WideApart(hw: int, hh: int, a: int, b: int, r: int, i: nat, j: nat)
    requires Corners(hw, hh, a, b, r) && hh <= 0 && 0 <= a && i < j < 8 && !IsAdjacent(i, j, 8)
    ensures CornersKeepApart(i, j, hw, hh, a, b) || CornersKeepApart(j, i, hw, hh, a, b)
  {
    hide CornersKeepApart, Corners;
    if i % 4 == 2 {
      WideEdge(hw, hh, a, b, r, i, j);
    } else if j % 4 == 2 {
      WideEdge(hw, hh, a, b, r, j, i);
    } else if i % 4 == 0 {
      WideWaist(hw, hh, a, b, r, i, j);
    } else if j % 4 == 0 {
      WideWaist(hw, hh, a, b, r, j, i);
    } else {
      WideSlants(hw, hh, a, b, r, i, j);
    }
  }

  /** Of two chords that share no corner, one has both of its ends on one side of the other. */
  lemma OctagonApart(hw: i64, hh: i64, a: i64, b: i64, r: int, i: nat, j: nat)
    requires Corners(hw, hh, a, b, r) && Roundable(hw, hh, r) && i < j < 8 && !IsAdjacent(i, j, 8)
    ensures var s, t := Octagon(hw, hh, a, b).spans[i], Octagon(hw, hh, a, b).spans[j];
            LevelsKeepApart(i % 4, s.start, t.start, t.end) || LevelsKeepApart(j % 4, t.start, s.start, s.end)
  {
    assert CornersKeepApart(i, j, hw, hh, a, b) || CornersKeepApart(j, i, hw, hh, a, b) by {
      hide CornersKeepApart, IsAdjacent;
      if hw <= 0 {
        TallApart(hw, hh, a, b, r, i, j);
      } else if hh <= 0 {
        WideApart(hw, hh, a, b, r, i, j);
      } else {
        ConvexApart(hw, hh, a, b, r, i, j);
      }
    }
    hide Octagon, Level, CornerLevel, Opposed, Corners, Roundable;
    ChordLevels(hw, hh, a, b, i % 4, i);
    ChordLevels(hw, hh, a, b, i % 4, j);
    ChordLevels(hw, hh, a, b, j % 4, i);
    ChordLevels(hw, hh, a, b, j % 4, j);
  }

  lemma ChordLevels(hw: i64, hh: i64, a: i64, b: i64, kind: nat, i: nat)
    requires hw > INT64_MIN && hh > INT64_MIN && a > INT64_MIN && b > INT64_MIN && i < 8
    ensures var s := Octagon(hw, hh, a, b).spans[i];
            && Level(kind, s.start) == CornerLevel(kind, i, hw, hh, a, b)
            && Level(kind, s.end) == CornerLevel(kind, Next(i, 8), hw, hh, a, b)
  {
    hide Octagon, CornerX, CornerY;
    OctagonCorner(hw, hh, a, b, i);
  }

  lemma OctagonNeverCrosses(hw: i64, hh: i64, a: i64, b: i64, r: int)
    requires Corners(hw, hh, a, b, r) && Roundable(hw, hh, r) && TestsFit(Octagon(hw, hh, a, b))
    ensures !SelfIntersects(Octagon(hw, hh, a, b))
  {
    assert hw > INT64_MIN && hh > INT64_MIN && a > INT64_MIN && b > INT64_MIN;
    hide Octagon, SpansCross, Side, Opposed, Roundable, Corners, TestsFit;
    var c := Octagon(hw, hh, a, b);
    forall i, j | 0 <= i < j < 8 && !IsAdjacent(i, j, 8)
      ensures !SpansCross(c, i, j)
    {
      SidesApart(hw, hh, a, b, r, i, j);
      NotSeparated(c, i, j);
    }
  }

  lemma SidesApart(hw: i64, hh: i64, a: i64, b: i64, r: int, i: nat, j: nat)
    requires Corners(hw, hh, a, b, r) && Roundable(hw, hh, r) && i < j < 8 && !IsAdjacent(i, j, 8)
    ensures var s, t := Octagon(hw, hh, a, b).spans[i], Octagon(hw, hh, a, b).spans[j];
            || !Opposed(Side(s.start, s.end, t.start), Side(s.start, s.end, t.end))
            || !Opposed(Side(t.start, t.end, s.start), Side(t.start, t.end, s.end))
  {
    assert hw > INT64_MIN && hh > INT64_MIN && a > INT64_MIN && b > INT64_MIN;
    hide Octagon, Side, Level, Runs, Roundable, Corners, IsAdjacent, Opposed, Pace;
    var c := Octagon(hw, hh, a, b);
    OctagonChord(hw, hh, a, b, r, i);
    OctagonChord(hw, hh, a, b, r, j);
    OctagonApart(hw, hh, a, b, r, i, j);
    var s, t := c.spans[i], c.spans[j];
    if LevelsKeepApart(i % 4, s.start, t.start, t.end) {
      LevelsDecide(i % 4, s.start, s.end, t.start, t.end, Pace(i, a, b, r));
    } else {
      LevelsDecide(j % 4, t.start, t.end, s.start, s.end, Pace(j, a, b, r));
    }
  }

  lemma NotSeparated(c: Contour, i: nat, j: nat)
    requires TestsFit(c) && i < j < |c.spans| && !IsAdjacent(i, j, |c.spans|)
    requires var s, t := c.spans[i], c.spans[j];
             !Opposed(Side(s.start, s.end, t.start), Side(s.start, s.end, t.end))
             || !Opposed(Side(t.start, t.end, s.start), Side(t.start, t.end, s.end))
    ensures !SpansCross(c, i, j)
  {
    hide ChordsProperlyCross, Side, CrossingFits, ArcFits;
    var s, t := c.spans[i], c.spans[j];
    assert SpansFit(s, t);
    CrossingIsExact(s.start, s.end, t.start, t.end);
  }

  // ---- the area

  lemma OctagonArea(hw: i64, hh: i64, a: i64, b: i64, r: int)
    requires Corners(hw, hh, a, b, r)
    ensures DoubleArea(Octagon(hw, hh, a, b)) == 4 * (r * r) - 8 * (hw * hh)
  {
    var pts := Starts(Octagon(hw, hh, a, b));
    assert pts == OctagonStarts(hw, hh, a, b);
    hide Octagon, Det, Starts;
    SumOfEight(AreaWeight, pts);
    OctagonTerms(hw, hh, a, b);
    CutCorners(hw, hh, a, b, r);
  }

  function OctagonStarts(hw: i64, hh: i64, a: i64, b: i64): seq<Point>
    requires hw > INT64_MIN && hh > INT64_MIN && a > INT64_MIN && b > INT64_MIN
  {
    [Point(a, -hh), Point(-a, -hh), Point(-hw, -b), Point(-hw, b),
     Point(-a, hh), Point(a, hh), Point(hw, b), Point(hw, -b)]
  }

  lemma SumOfEight(f: Weight, pts: seq<Point>)
    requires |pts| == 8
    ensures Cyclic(f, pts) == f(pts[0], pts[1]) + f(pts[1], pts[2]) + f(pts[2], pts[3]) + f(pts[3], pts[4])
                              + f(pts[4], pts[5]) + f(pts[5], pts[6]) + f(pts[6], pts[7]) + f(pts[7], pts[0])
  {
    assert EdgeSum(f, pts, 1) == f(pts[0], pts[1]);
    assert EdgeSum(f, pts, 2) == EdgeSum(f, pts, 1) + f(pts[1], pts[2]);
    assert EdgeSum(f, pts, 3) == EdgeSum(f, pts, 2) + f(pts[2], pts[3]);
    assert EdgeSum(f, pts, 4) == EdgeSum(f, pts, 3) + f(pts[3], pts[4]);
    assert EdgeSum(f, pts, 5) == EdgeSum(f, pts, 4) + f(pts[4], pts[5]);
    assert EdgeSum(f, pts, 6) == EdgeSum(f, pts, 5) + f(pts[5], pts[6]);
    assert EdgeSum(f, pts, 7) == EdgeSum(f, pts, 6) + f(pts[6], pts[7]);
  }

  lemma OctagonTerms(hw: int, hh: int, a: int, b: int)
    ensures Det(a, -hh, -a, -hh) == -2 * (a * hh) && Det(-a, hh, a, hh) == -2 * (a * hh)
    ensures Det(-hw, -b, -hw, b) == -2 * (hw * b) && Det(hw, b, hw, -b) == -2 * (hw * b)
    ensures Det(-a, -hh, -hw, -b) == a * b - hw * hh && Det(-hw, b, -a, hh) == a * b - hw * hh
    ensures Det(a, hh, hw, b) == a * b - hw * hh && Det(hw, -b, a, -hh) == a * b - hw * hh
  {}

  lemma CutCorners(hw: int, hh: int, a: int, b: int, r: int)
    requires a == hw - r && b == hh - r
    ensures -4 * (a * hh) - 4 * (hw * b) + 4 * (a * b - hw * hh) == 4 * (r * r) - 8 * (hw * hh)
  {
    assert a * hh == hw * hh - r * hh;
    assert hw * b == hw * hh - r * hw;
    assert a * b == a * hh - a * r;
    assert a * r == hw * r - r * r;
  }

  /** A roundable outline encloses some area: less than the rectangle's, or that of an hourglass. */
  lemma RoundableHasArea(hw: int, hh: int, r: int)
    requires Roundable(hw, hh, r) && r > 0
    ensures 4 * (r * r) - 8 * (hw * hh) != 0
  {
    MulMonotone(1, r, r);
    if hw > 0 && hh > 0 {
      MulMonotone(r, hw, hh);
      MulMonotone(r, hh, r);
    } else {
      OppositeFactors(hw, hh);
    }
  }

  lemma OppositeFactors(x: int, y: int)
    requires (x <= 0 <= y) || (y <= 0 <= x)
    ensures x * y <= 0
  {
    SignTimes(x, y);
  }

  // ---- the crossings

  /** Two mirror-image chords that change sides of the mirror axis cross on it. */
  lemma MirrorImagesCross(a1: Point, a2: Point, b1: Point, b2: Point)
    requires CrossingFits(a1, a2, b1, b2)
    requires (MirroredX(a1, a2, b1, b2) && Opposed(a1.x, a2.x) && a1.y != a2.y)
             || (MirroredY(a1, a2, b1, b2) && Opposed(a1.y, a2.y) && a1.x != a2.x)
    ensures ChordsProperlyCross(a1, a2, b1, b2)
  {
    hide ChordsProperlyCross, CrossingFits, Side;
    CrossingIsExact(a1, a2, b1, b2);
    if MirroredX(a1, a2, b1, b2) && Opposed(a1.x, a2.x) && a1.y != a2.y {
      MirrorSides(a1, a2, b1, b2);
      SignTimes(a1.x, 2 * (a2.y - a1.y));
      SignTimes(a2.x, 2 * (a2.y - a1.y));
    } else {
      MirrorSides(SwapXY(a1), SwapXY(a2), SwapXY(b1), SwapXY(b2));
      SideTransposed(a1, a2, b1);
      SideTransposed(a1, a2, b2);
      SideTransposed(b1, b2, a1);
      SideTransposed(b1, b2, a2);
      SignTimes(a1.y, 2 * (a2.x - a1.x));
      SignTimes(a2.y, 2 * (a2.x - a1.x));
    }
  }

  predicate MirroredX(a1: Point, a2: Point, b1: Point, b2: Point) {
    b1.x + a2.x == 0 && b1.y == a2.y && b2.x + a1.x == 0 && b2.y == a1.y
  }

  predicate MirroredY(a1: Point, a2: Point, b1: Point, b2: Point) {
    b1.y + a2.y == 0 && b1.x == a2.x && b2.y + a1.y == 0 && b2.x == a1.x
  }

  lemma MirrorSides(a1: Point, a2: Point, b1: Point, b2: Point)
    requires MirroredX(a1, a2, b1, b2)
    ensures var d := 2 * (a2.y - a1.y);
            && Side(a1, a2, b1) == a2.x * d && Side(a1, a2, b2) == a1.x * d
            && Side(b1, b2, a1) == a1.x * d && Side(b1, b2, a2) == a2.x * d
  {
    var u: int, v: int, dy := a1.x, a2.x, a2.y - a1.y;
    MirrorDets(u, v, dy);
    hide Det;
    assert b1.x - a1.x == -v - u && b2.x - a1.x == -2 * u;
    assert b2.x - b1.x == v - u && a1.x - b1.x == u + v && a2.x - b1.x == 2 * v;
  }

  lemma MirrorDets(u: int, v: int, dy: int)
    ensures Det(v - u, dy, -v - u, dy) == v * (2 * dy) && Det(v - u, dy, -2 * u, 0) == u * (2 * dy)
    ensures Det(v - u, -dy, u + v, -dy) == u * (2 * dy) && Det(v - u, -dy, 2 * v, 0) == v * (2 * dy)
  {
    assert (v - u) * dy == v * dy - u * dy && (u + v) * dy == u * dy + v * dy;
    assert (v - u) * -dy == -((v - u) * dy) && -dy * (u + v) == -((u + v) * dy);
    assert dy * (-v - u) == -((u + v) * dy);
    assert dy * (-2 * u) == -2 * (u * dy) && -dy * (2 * v) == -2 * (v * dy);
  }

  /** A horizontal and a vertical chord, each reaching past the other on both sides, cross. */
  lemma PlusCross(a1: Point, a2: Point, b1: Point, b2: Point)
    requires CrossingFits(a1, a2, b1, b2) && a1.y == a2.y && b1.x == b2.x
    requires Opposed(a1.x - b1.x, a2.x - b1.x) && Opposed(b1.y - a1.y, b2.y - a1.y)
    ensures ChordsProperlyCross(a1, a2, b1, b2)
  {
    hide ChordsProperlyCross, CrossingFits, Side;
    CrossingIsExact(a1, a2, b1, b2);
    PlusSides(a1, a2, b1, b2);
    SignTimes(b1.y - a1.y, a2.x - a1.x);
    SignTimes(b2.y - a1.y, a2.x - a1.x);
    SignTimes(a1.x - b1.x, b2.y - b1.y);
    SignTimes(a2.x - b1.x, b2.y - b1.y);
  }

  lemma PlusSides(a1: Point, a2: Point, b1: Point, b2: Point)
    requires a1.y == a2.y && b1.x == b2.x
    ensures Side(a1, a2, b1) == (b1.y - a1.y) * (a2.x - a1.x) && Side(a1, a2, b2) == (b2.y - a1.y) * (a2.x - a1.x)
    ensures Side(b1, b2, a1) == -((a1.x - b1.x) * (b2.y - b1.y)) && Side(b1, b2, a2) == -((a2.x - b1.x) * (b2.y - b1.y))
  {}

  /** A radius beyond half of a positive side makes two corner chords cross; without a
      positive side two of the straight edges cross. */
  lemma OctagonCrosses(hw: i64, hh: i64, a: i64, b: i64, r: int)
    requires Corners(hw, hh, a, b, r) && !Roundable(hw, hh, r) && TestsFit(Octagon(hw, hh, a, b))
    ensures SelfIntersects(Octagon(hw, hh, a, b))
  {
    hide ChordsProperlyCross, CrossingFits, ArcFits;
    var c := Octagon(hw, hh, a, b);
    if hw > 0 && a < 0 {
      assert SpansFit(c.spans[1], c.spans[7]);
      MirrorImagesCross(c.spans[1].start, c.spans[1].end, c.spans[7].start, c.spans[7].end);
      assert SpansCross(c, 1, 7) && !IsAdjacent(1, 7, 8);
    } else if hh > 0 && b < 0 {
      assert SpansFit(c.spans[1], c.spans[3]);
      MirrorImagesCross(c.spans[1].start, c.spans[1].end, c.spans[3].start, c.spans[3].end);
      assert SpansCross(c, 1, 3) && !IsAdjacent(1, 3, 8);
    } else {
      assert SpansFit(c.spans[0], c.spans[2]);
      PlusCross(c.spans[0].start, c.spans[0].end, c.spans[2].start, c.spans[2].end);
      assert SpansCross(c, 0, 2) && !IsAdjacent(0, 2, 8);
    }
  }

  lemma OctagonPad(hw: i64, hh: i64, a: i64, b: i64, r: int)
    requires Corners(hw, hh, a, b, r) && Exact(Octagon(hw, hh, a, b))
    ensures ValidatePolygon(Finish(Octagon(hw, hh, a, b))) == PolygonValid <==> Roundable(hw, hh, r)
  {
    hide Octagon, Continuous, ArcsValid, SelfIntersects, TestsFit, ShoelaceFits, ReverseContour, ValidatePolygon,
      Finish, DoubleArea, Roundable;
    OctagonIsClosed(hw, hh, a, b);
    OctagonArcs(hw, hh, a, b, r);
    FinishIff(Octagon(hw, hh, a, b));
    if Roundable(hw, hh, r) {
      OctagonNeverCrosses(hw, hh, a, b, r);
      OctagonArea(hw, hh, a, b, r);
      RoundableHasArea(hw, hh, r);
    } else {
      OctagonCrosses(hw, hh, a, b, r);
    }
  }

  lemma RoundRectPad(w: i64, h: i64, radius: i64)
    requires radius > 0 ==> InsetFits(HalfOf(w), radius) && InsetFits(HalfOf(h), radius)
    requires Exact(RoundRectSpans(w, h, radius))
    ensures ValidatePolygon(Finish(RoundRectSpans(w, h, radius))) == PolygonValid <==>
            if radius <= 0 then HalfOf(w) != 0 && HalfOf(h) != 0 else Roundable(HalfOf(w), HalfOf(h), radius)
  {
    hide Finish, ValidatePolygon, Octagon, RectSpans, Roundable, Exact;
    if radius <= 0 {
      RectPad(w, h);
    } else {
      OctagonPad(HalfOf(w), HalfOf(h), HalfOf(w) - radius, HalfOf(h) - radius, radius);
    }
  }

  // ---------------------------------------------------------------- main results

  /** The parameters whose outline is valid: no side may round to nothing, an oval must
      round to a visible straight part, a radius may reach half of each positive side of
      which there has to be one, and half a delta may reach half of the side it shears. */
  predicate Acceptable(p: PadShapeParams) {
    match p.shape
    case Rect => HalfOf(p.width) != 0 && HalfOf(p.height) != 0
    case Circle => HalfOf(p.width) != 0
    case Oval =>
      if p.width == p.height then HalfOf(p.width) != 0
      else HalfOf(Lesser(p.width, p.height)) != 0 && (p.width - p.height >= 2 || p.height - p.width >= 2)
    case RoundRect =>
      if p.radius <= 0 then HalfOf(p.width) != 0 && HalfOf(p.height) != 0
      else Roundable(HalfOf(p.width), HalfOf(p.height), p.radius)
    case Trapezoid =>
      && HalfOf(p.width) != 0 && HalfOf(p.height) != 0
      && if p.deltaX != 0 then Abs(HalfOf(p.deltaX)) <= Abs(HalfOf(p.height))
         else Abs(HalfOf(p.deltaY)) <= Abs(HalfOf(p.width))
  }

  /** No arithmetic on the way from the parameters to the verdict overflows. */
  predicate NothingOverflows(p: PadShapeParams) {
    ArithmeticFits(p) && (RawSpans(p).Some? ==> Exact(RawSpans(p).value))
  }

  /** The declaration promises a valid polygon for all parameters; where nothing overflows it is
      valid for exactly the acceptable ones, and nothing is built only for an unequal circle. */
  lemma PadOutlineValidIff(p: PadShapeParams)
    requires NothingOverflows(p)
    ensures RawSpans(p).None? <==> p.shape == Circle && p.width != p.height
    ensures RawSpans(p).Some? ==> (ValidatePolygon(Finish(RawSpans(p).value)) == PolygonValid <==> Acceptable(p))
  {
    hide Finish, ValidatePolygon, RectSpans, CircleSpans, OvalSpans, TrapezoidSpans, RoundRectSpans, HalfOf, Abs,
      Roundable, Exact;
    match p.shape
    case Rect => RectPad(p.width, p.height);
    case Circle => if p.width == p.height { CirclePad(p.width); }
    case Oval => OvalPad(p.width, p.height);
    case RoundRect => RoundRectPad(p.width, p.height, p.radius);
    case Trapezoid => TrapezoidPad(p.width, p.height, p.deltaX, p.deltaY);
  }

  // ------------------------------------------------- a range where nothing overflows

  predicate Small(v: int) { -REACH <= v <= REACH }

  /** Sides, deltas and radii of at most half a metre. */
  predicate InRange(p: PadShapeParams) {
    Small(p.width) && Small(p.height) && p.radius <= REACH && Small(p.deltaX) && Small(p.deltaY)
  }

  /** At most eight spans, all within reach. */
  predicate Contained(c: Contour, reach: int) { Within(c, reach) && |c.spans| <= 8 }

  lemma RectIsContained(w: i64, h: i64)
    requires Small(w) && Small(h)
    ensures Contained(RectSpans(w, h), REACH)
  {}

  lemma CircleIsContained(d: i64)
    requires Small(d)
    ensures Contained(CircleSpans(d), REACH)
  {}

  lemma OvalIsContained(w: i64, h: i64)
    requires Small(w) && Small(h)
    ensures Contained(OvalSpans(w, h), REACH)
  {
    hide CircleSpans, WideOvalSpans, SwapContour, Contained;
    if w == h {
      CircleIsContained(w);
    } else if w > h {
      WideOvalIsContained(HalfOf(h), HalfOf(w - h));
    } else {
      WideOvalIsContained(HalfOf(w), HalfOf(h - w));
    }
  }

  lemma WideOvalIsContained(r: i64, halfFlat: i64)
    requires Small(r) && Small(halfFlat)
    ensures Contained(WideOvalSpans(r, halfFlat), REACH) && Contained(SwapContour(WideOvalSpans(r, halfFlat)), REACH)
  {}

  lemma TrapezoidIsContained(w: i64, h: i64, dx: i64, dy: i64)
    requires Small(w) && Small(h) && Small(dx) && Small(dy)
    ensures Contained(TrapezoidSpans(w, h, dx, dy), REACH)
  {
    hide ShearedX, ShearedY, Contained;
    if dx != 0 {
      ShearedXIsContained(HalfOf(w), HalfOf(h) - HalfOf(dx), HalfOf(h) + HalfOf(dx));
    } else {
      ShearedYIsContained(HalfOf(h), HalfOf(w) + HalfOf(dy), HalfOf(w) - HalfOf(dy));
    }
  }

  lemma ShearedXIsContained(hw: i64, right: i64, left: i64)
    requires Small(hw) && Small(right) && Small(left)
    ensures Contained(ShearedX(hw, right, left), REACH)
  {}

  lemma ShearedYIsContained(hh: i64, top: i64, bottom: i64)
    requires Small(hh) && Small(top) && Small(bottom)
    ensures Contained(ShearedY(hh, top, bottom), REACH)
  {}

  lemma OctagonIsContained(hw: i64, hh: i64, a: i64, b: i64, reach: int)
    requires hw > INT64_MIN && hh > INT64_MIN && a > INT64_MIN && b > INT64_MIN
    requires -reach <= hw <= reach && -reach <= hh <= reach && -reach <= a <= reach && -reach <= b <= reach
    ensures Contained(Octagon(hw, hh, a, b), reach)
  {}

  /** A radius beyond both half sides can push the corners further out than half a metre. */
  lemma RoundRectIsContained(w: i64, h: i64, radius: i64)
    requires Small(w) && Small(h) && radius <= REACH
    ensures radius > 0 ==> InsetFits(HalfOf(w), radius) && InsetFits(HalfOf(h), radius)
    ensures Contained(RoundRectSpans(w, h, radius), FAR_REACH)
    ensures radius <= 0 || Roundable(HalfOf(w), HalfOf(h), radius) ==> Contained(RoundRectSpans(w, h, radius), REACH)
  {
    hide RectSpans, Octagon, Within;
    if radius <= 0 {
      RectIsContained(w, h);
      WithinMore(RectSpans(w, h));
    } else {
      var hw, hh := HalfOf(w), HalfOf(h);
      OctagonIsContained(hw, hh, hw - radius, hh - radius, FAR_REACH);
      if Roundable(hw, hh, radius) {
        OctagonIsContained(hw, hh, hw - radius, hh - radius, REACH);
      }
    }
  }

  lemma RawIsContained(p: PadShapeParams)
    requires InRange(p)
    ensures ArithmeticFits(p)
    ensures RawSpans(p).Some? ==> Contained(RawSpans(p).value, FAR_REACH)
    ensures RawSpans(p).Some? && Acceptable(p) ==> Contained(RawSpans(p).value, REACH)
  {
    hide Within, RectSpans, CircleSpans, OvalSpans, RoundRectSpans, TrapezoidSpans, Roundable;
    match p.shape
    case Rect => RectIsContained(p.width, p.height); WithinMore(RectSpans(p.width, p.height));
    case Circle => CircleIsContained(p.width); WithinMore(CircleSpans(p.width));
    case Oval => OvalIsContained(p.width, p.height); WithinMore(OvalSpans(p.width, p.height));
    case RoundRect => RoundRectIsContained(p.width, p.height, p.radius);
    case Trapezoid =>
      TrapezoidIsContained(p.width, p.height, p.deltaX, p.deltaY);
      WithinMore(TrapezoidSpans(p.width, p.height, p.deltaX, p.deltaY));
  }

  /** With lengths of at most half a metre nothing overflows. */
  lemma InRangeFits(p: PadShapeParams)
    requires InRange(p)
    ensures NothingOverflows(p)
  {
    hide Within, Exact, RawSpans, InRange;
    RawIsContained(p);
    if RawSpans(p).Some? {
      WithinIsExact(RawSpans(p).value);
    }
  }

  /** A rounded rectangle whose radius exceeds half of its smaller side is built without
      complaint and crosses itself. */
  lemma OversizedRadius()
    ensures var p := PadShapeParams(RoundRect, 10, 10, 6, 0, 0);
            NothingOverflows(p) && ValidatePolygon(Finish(RawSpans(p).value)) != PolygonValid
  {
    hide NothingOverflows, RawSpans, Finish, ValidatePolygon;
    InRangeFits(PadShapeParams(RoundRect, 10, 10, 6, 0, 0));
    PadOutlineValidIff(PadShapeParams(RoundRect, 10, 10, 6, 0, 0));
  }

  /** Without any width the same radius that spoils a square gives a valid hourglass. */
  lemma HourglassIsValid()
    ensures var p := PadShapeParams(RoundRect, 0, 10, 3, 0, 0);
            NothingOverflows(p) && ValidatePolygon(Finish(RawSpans(p).value)) == PolygonValid
  {
    hide NothingOverflows, RawSpans, Finish, ValidatePolygon;
    InRangeFits(PadShapeParams(RoundRect, 0, 10, 3, 0, 0));
    PadOutlineValidIff(PadShapeParams(RoundRect, 0, 10, 3, 0, 0));
  }
}
