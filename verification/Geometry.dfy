/** The canonical primitives: points, spans, contours and polygons in signed
    64-bit nanometres. */
module Geometry {
  import opened Wrappers
  import opened Int64
  import opened Seqs

  datatype Point = Point(x: i64, y: i64)

  datatype ArcDirection = Clockwise | CounterClockwise

  /** A `std::variant` of a straight segment and a circular arc. */
  datatype Span =
    | Segment(start: Point, end: Point)
    | Arc(start: Point, end: Point, center: Point, direction: ArcDirection)

  datatype Contour = Contour(spans: seq<Span>)

  datatype Polygon = Polygon(outline: Contour, holes: seq<Contour>)

  const ORIGIN := Point(0, 0)

  predicate SumFits(a: Point, b: Point) { Fits(a.x + b.x) && Fits(a.y + b.y) }

  predicate DifferenceFits(a: Point, b: Point) { Fits(a.x - b.x) && Fits(a.y - b.y) }

  /** `operator+` of a release build. A debug build stops at the assertion when
      `SumFits` fails; a release build returns whatever the two checked calls wrote. */
  function Add(a: Point, b: Point): (r: Point)
    ensures SumFits(a, b) ==> r.x == a.x + b.x && r.y == a.y + b.y
  {
    match CheckedAdd(a.x, b.x)
    case None => ORIGIN
    case Some(x) =>
      match CheckedAdd(a.y, b.y)
      case None => Point(x, 0)
      case Some(y) => Point(x, y)
  }

  /** `operator-`, with the same release-build reading as `Add`. */
  function Sub(a: Point, b: Point): (r: Point)
    ensures DifferenceFits(a, b) ==> r.x == a.x - b.x && r.y == a.y - b.y
  {
    match CheckedSub(a.x, b.x)
    case None => ORIGIN
    case Some(x) =>
      match CheckedSub(a.y, b.y)
      case None => Point(x, 0)
      case Some(y) => Point(x, y)
  }

  /** What is left of a sum or a difference that overflows in a release build: the coordinates up to the
      first that does not fit, and zero from there on. */
  lemma OverflowLeavesZeros(a: Point, b: Point)
    ensures !SumFits(a, b) ==> Add(a, b) == if Fits(a.x + b.x) then Point(a.x + b.x, 0) else Point(0, 0)
    ensures !DifferenceFits(a, b) ==> Sub(a, b) == if Fits(a.x - b.x) then Point(a.x - b.x, 0) else Point(0, 0)
  {}

  /** The exact cross product of two displacements. */
  function Det(x1: int, y1: int, x2: int, y2: int): int { x1 * y2 - y1 * x2 }

  /** `cross`: the exact value, or nothing if a product or the difference overflows. */
  function Cross(a: Point, b: Point): (r: Option<i64>)
    ensures r == if Fits(a.x * b.y) && Fits(a.y * b.x) then Checked(Det(a.x, a.y, b.x, b.y)) else None
  {
    match CheckedMul(a.x, b.y)
    case None => None
    case Some(xy) =>
      match CheckedMul(a.y, b.x)
      case None => None
      case Some(yx) => CheckedSub(xy, yx)
  }

  /** `dot`, likewise. */
  function Dot(a: Point, b: Point): (r: Option<i64>)
    ensures r == if Fits(a.x * b.x) && Fits(a.y * b.y) then Checked(a.x * b.x + a.y * b.y) else None
  {
    match CheckedMul(a.x, b.x)
    case None => None
    case Some(xx) =>
      match CheckedMul(a.y, b.y)
      case None => None
      case Some(yy) => CheckedAdd(xx, yy)
  }

  /** `Arc::is_valid`: both endpoints at the same representable squared distance. */
  predicate ArcIsValid(arc: Span)
    requires arc.Arc?
  {
    var toStart, toEnd := Sub(arc.start, arc.center), Sub(arc.end, arc.center);
    Dot(toStart, toStart).Some? && Dot(toStart, toStart) == Dot(toEnd, toEnd)
  }

  function Opposite(d: ArcDirection): ArcDirection {
    if d == Clockwise then CounterClockwise else Clockwise
  }

  /** The same curve travelled the other way. */
  function ReverseSpan(s: Span): (r: Span)
    ensures r.start == s.end && r.end == s.start
    ensures r.Arc? == s.Arc?
    ensures s.Arc? ==> r.center == s.center && r.direction != s.direction
  {
    match s
    case Segment(a, b) => Segment(b, a)
    case Arc(a, b, c, d) => Arc(b, a, c, Opposite(d))
  }

  lemma ReverseSpanInvolution(s: Span)
    ensures ReverseSpan(ReverseSpan(s)) == s
  {}

  /** A whole contour travelled the other way. */
  function ReverseContour(c: Contour): (r: Contour)
    ensures |r.spans| == |c.spans|
    ensures forall i :: 0 <= i < |c.spans| ==> r.spans[i] == ReverseSpan(c.spans[|c.spans| - 1 - i])
  {
    Contour(Map(ReverseSpan, Reversed(c.spans)))
  }

  lemma ReverseContourInvolution(c: Contour)
    ensures ReverseContour(ReverseContour(c)) == c
  {
    var r := ReverseContour(ReverseContour(c)).spans;
    forall i | 0 <= i < |c.spans|
      ensures r[i] == c.spans[i]
    {
      ReverseSpanInvolution(c.spans[i]);
    }
    assert r == c.spans;
  }

  /** The vertices of a contour, one per span. */
  function Starts(c: Contour): (pts: seq<Point>)
    ensures |pts| == |c.spans|
    ensures forall i :: 0 <= i < |pts| ==> pts[i] == c.spans[i].start
  {
    Map((s: Span) => s.start, c.spans)
  }

  /** Every span ends where the next one, cyclically, starts. */
  predicate Continuous(c: Contour) {
    var n := |c.spans|;
    forall i :: 0 <= i < n ==> c.spans[i].end == c.spans[Next(i, n)].start
  }
}
