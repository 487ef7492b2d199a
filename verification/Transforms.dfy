/** Translation and exact quarter-turn rotation (`coordinate_util.hpp`, `rotate.cpp`). */
module Transforms {
  import opened Wrappers
  import opened Int64
  import opened Seqs
  import opened Geometry

  const FULL_TURN_E6: int := 360_000_000
  const QUARTER_TURN_E6: int := 90_000_000

  function TranslateSpan(s: Span, delta: Point): Span {
    match s
    case Segment(a, b) => Segment(Add(a, delta), Add(b, delta))
    case Arc(a, b, c, d) => Arc(Add(a, delta), Add(b, delta), Add(c, delta), d)
  }

  function TranslateContour(c: Contour, delta: Point): Contour {
    Contour(Map(s => TranslateSpan(s, delta), c.spans))
  }

  method Translate(c: Contour, delta: Point) returns (r: Contour)
    ensures r == TranslateContour(c, delta)
  {
    var result: seq<Span> := [];
    for i := 0 to |c.spans|
      invariant result == TranslateContour(c, delta).spans[..i]
    {
      result := result + [TranslateSpan(c.spans[i], delta)];
    }
    r := Contour(result);
  }

  /** `normalize_angle_e6`: the representative in `[0, 360)` degrees. */
  function NormalizeAngle(angle: i64): (r: i64)
    ensures 0 <= r < FULL_TURN_E6
    ensures r == angle % FULL_TURN_E6
  {
    TruncDivMod(angle, FULL_TURN_E6);
    var normalized := TruncMod(angle, FULL_TURN_E6);
    if normalized < 0 then normalized + FULL_TURN_E6 else normalized
  }

  /** `negate` of a release build: the most negative value has no negation. */
  function Negate(v: i64): (r: i64)
    ensures v != INT64_MIN ==> r == -v
  {
    match CheckedSub(0, v)
    case None => 0
    case Some(n) => n
  }

  predicate IsQuarterTurn(angle: i64) { NormalizeAngle(angle) % QUARTER_TURN_E6 == 0 }

  function QuarterTurns(angle: i64): (q: nat)
    requires IsQuarterTurn(angle)
    ensures q < 4
  {
    NormalizeAngle(angle) / QUARTER_TURN_E6
  }

  function RotateQuarterTurns(relative: Point, quarterTurns: nat): Point {
    match quarterTurns
    case 1 => Point(Negate(relative.y), relative.x)
    case 2 => Point(Negate(relative.x), Negate(relative.y))
    case 3 => Point(relative.y, Negate(relative.x))
    case _ => relative
  }

  /** `rotate(Point, origin, angle)` on the exact path. */
  function RotatePoint(p: Point, origin: Point, angle: i64): Point
    requires IsQuarterTurn(angle)
  {
    Add(origin, RotateQuarterTurns(Sub(p, origin), QuarterTurns(angle)))
  }

  function RotateSpan(s: Span, origin: Point, angle: i64): Span
    requires IsQuarterTurn(angle)
  {
    match s
    case Segment(a, b) => Segment(RotatePoint(a, origin, angle), RotatePoint(b, origin, angle))
    case Arc(a, b, c, d) =>
      Arc(RotatePoint(a, origin, angle), RotatePoint(b, origin, angle), RotatePoint(c, origin, angle), d)
  }

  function RotateContour(c: Contour, origin: Point, angle: i64): Contour
    requires IsQuarterTurn(angle)
  {
    Contour(seq(|c.spans|, i requires 0 <= i < |c.spans| => RotateSpan(c.spans[i], origin, angle)))
  }

  method Rotate(c: Contour, origin: Point, angle: i64) returns (r: Contour)
    requires IsQuarterTurn(angle)
    ensures r == RotateContour(c, origin, angle)
  {
    hide RotateSpan, IsQuarterTurn;
    var result: seq<Span> := [];
    for i := 0 to |c.spans|
      invariant |result| == i
      invariant forall k :: 0 <= k < i ==> result[k] == RotateSpan(c.spans[k], origin, angle)
    {
      result := result + [RotateSpan(c.spans[i], origin, angle)];
    }
    r := Contour(result);
    assert r.spans == RotateContour(c, origin, angle).spans;
  }

  function TranslatePolygon(p: Polygon, delta: Point): Polygon {
    Polygon(TranslateContour(p.outline, delta), Map(h => TranslateContour(h, delta), p.holes))
  }

  method TranslateWithHoles(p: Polygon, delta: Point) returns (r: Polygon)
    ensures r == TranslatePolygon(p, delta)
  {
    hide TranslateContour;
    var outline := Translate(p.outline, delta);
    var holes: seq<Contour> := [];
    for i := 0 to |p.holes|
      invariant |holes| == i && forall k :: 0 <= k < i ==> holes[k] == TranslateContour(p.holes[k], delta)
    {
      var hole := Translate(p.holes[i], delta);
      holes := holes + [hole];
    }
    r := Polygon(outline, holes);
    assert r.holes == TranslatePolygon(p, delta).holes;
  }

  function RotatePolygon(p: Polygon, origin: Point, angle: i64): (r: Polygon)
    requires IsQuarterTurn(angle)
    ensures r.outline == RotateContour(p.outline, origin, angle) && |r.holes| == |p.holes|
    ensures forall i :: 0 <= i < |p.holes| ==> r.holes[i] == RotateContour(p.holes[i], origin, angle)
  {
    Polygon(RotateContour(p.outline, origin, angle),
            seq(|p.holes|, i requires 0 <= i < |p.holes| => RotateContour(p.holes[i], origin, angle)))
  }

  method RotateWithHoles(p: Polygon, origin: Point, angle: i64) returns (r: Polygon)
    requires IsQuarterTurn(angle)
    ensures r == RotatePolygon(p, origin, angle)
  {
    hide RotateContour, IsQuarterTurn;
    var outline := Rotate(p.outline, origin, angle);
    var holes: seq<Contour> := [];
    for i := 0 to |p.holes|
      invariant |holes| == i && forall k :: 0 <= k < i ==> holes[k] == RotateContour(p.holes[k], origin, angle)
    {
      var hole := Rotate(p.holes[i], origin, angle);
      holes := holes + [hole];
    }
    r := Polygon(outline, holes);
    assert r.holes == RotatePolygon(p, origin, angle).holes;
  }
}
