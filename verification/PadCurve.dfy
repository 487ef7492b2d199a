/** What the pad outlines are: their vertices, their arcs, and how far they reach. */
module PadCurves {
  import opened Wrappers
  import opened Int64
  import opened Seqs
  import opened Geometry
  import opened Contours
  import opened ContourInvariance
  import opened Windings
  import opened PadShapes

  // ------------------------------------------------------------------ arcs that turn

  /** A displacement turned by 90 degrees in the direction of an arc. */
  function TurnedX(d: ArcDirection, x: int, y: int): int { if d == ArcDirection.CounterClockwise then -y else y }

  function TurnedY(d: ArcDirection, x: int, y: int): int { if d == ArcDirection.CounterClockwise then x else -x }

  /** The point of an arc a quarter of a turn behind its start. */
  function QuarterX(s: Span): int
    requires s.Arc?
  {
    s.center.x + TurnedX(s.direction, s.start.x - s.center.x, s.start.y - s.center.y)
  }

  function QuarterY(s: Span): int
    requires s.Arc?
  {
    s.center.y + TurnedY(s.direction, s.start.x - s.center.x, s.start.y - s.center.y)
  }

  /** The arc sweeps 90 degrees. */
  predicate IsQuarter(s: Span) { s.Arc? && s.end.x == QuarterX(s) && s.end.y == QuarterY(s) }

  /** The arc sweeps 180 degrees. */
  predicate IsHalf(s: Span) {
    s.Arc? && s.start.x + s.end.x == 2 * s.center.x && s.start.y + s.end.y == 2 * s.center.y
  }

  predicate HasRadius(s: Span, r: int) {
    s.Arc? && SquaredDistance(s.start, s.center) == r * r && SquaredDistance(s.end, s.center) == r * r
  }

  /** Travelled the other way, an arc is the same curve: it turns the other way, sweeps as far, and a half
      arc passes through the same middle. */
  lemma ReversedArc(s: Span)
    requires s.Arc?
    ensures var r := ReverseSpan(s);
            && r.Arc? && r.center == s.center && r.direction != s.direction
            && (IsQuarter(r) <==> IsQuarter(s)) && (IsHalf(r) <==> IsHalf(s))
            && (IsHalf(s) ==> QuarterX(r) == QuarterX(s) && QuarterY(r) == QuarterY(s))
  {}

  // ------------------------------------------------------------------------ vertices

  predicate HasVertex(c: Contour, x: int, y: int) {
    exists i :: 0 <= i < |c.spans| && StartsAt(c.spans[i], x, y)
  }

  predicate StartsAt(s: Span, x: int, y: int) { s.start.x == x && s.start.y == y }

  predicate AllSegments(c: Contour) { forall i :: 0 <= i < |c.spans| ==> c.spans[i].Segment? }

  /** Four straight edges, each along one of the axes. */
  predicate IsBox(c: Contour) {
    && |c.spans| == 4 && AllSegments(c) && Continuous(c)
    && forall i :: 0 <= i < 4 ==>
         c.spans[i].start.x == c.spans[i].end.x || c.spans[i].start.y == c.spans[i].end.y
  }

  /** The corners of a rectangle are exactly the four points at half its width and half its height. */
  lemma RectCorners(w: i64, h: i64)
    ensures IsBox(RectSpans(w, h))
    ensures forall x, y :: HasVertex(RectSpans(w, h), x, y) <==> Abs(x) == Abs(HalfOf(w)) && Abs(y) == Abs(HalfOf(h))
  {
    var c, hw, hh := RectSpans(w, h), HalfOf(w), HalfOf(h);
    assert StartsAt(c.spans[0], hw, -hh) && StartsAt(c.spans[1], hw, hh);
    assert StartsAt(c.spans[2], -hw, hh) && StartsAt(c.spans[3], -hw, -hh);
    hide RectSpans, HalfOf;
  }

  /** Half of a side is rounded toward zero. */
  lemma HalfRounds(v: i64)
    ensures Abs(v) - 1 <= 2 * Abs(HalfOf(v)) <= Abs(v) && (HalfOf(v) > 0 ==> v > 0) && (HalfOf(v) < 0 ==> v < 0)
  {}

  /** Half a delta longer on one side than half the side, half a delta shorter on the other: horizontally
      the left side is the longer one, vertically the upper side. */
  lemma TrapezoidCorners(w: i64, h: i64, dx: i64, dy: i64)
    requires if dx != 0 then ShearFits(HalfOf(h), HalfOf(dx)) else ShearFits(HalfOf(w), HalfOf(dy))
    ensures var c, hw, hh := TrapezoidSpans(w, h, dx, dy), HalfOf(w), HalfOf(h);
            && |c.spans| == 4 && AllSegments(c) && Continuous(c)
            && forall x, y :: HasVertex(c, x, y) <==>
                 if dx != 0 then || (x == hw && Abs(y) == Abs(hh - HalfOf(dx)))
                                 || (x == -hw && Abs(y) == Abs(hh + HalfOf(dx)))
                 else || (y == hh && Abs(x) == Abs(hw + HalfOf(dy)))
                      || (y == -hh && Abs(x) == Abs(hw - HalfOf(dy)))
  {
    hide HalfOf, HasVertex, ShearedX, ShearedY;
    if dx != 0 {
      ShearedXCorners(HalfOf(w), HalfOf(h) - HalfOf(dx), HalfOf(h) + HalfOf(dx));
    } else {
      ShearedYCorners(HalfOf(h), HalfOf(w) + HalfOf(dy), HalfOf(w) - HalfOf(dy));
    }
  }

  lemma ShearedXCorners(hw: i64, right: i64, left: i64)
    requires hw > INT64_MIN && right > INT64_MIN && left > INT64_MIN
    ensures var c := ShearedX(hw, right, left);
            && |c.spans| == 4 && AllSegments(c) && Continuous(c)
            && forall x, y :: HasVertex(c, x, y) <==>
                 (x == hw && Abs(y) == Abs(right)) || (x == -hw && Abs(y) == Abs(left))
  {
    var c := ShearedX(hw, right, left);
    assert StartsAt(c.spans[0], hw, -right) && StartsAt(c.spans[1], hw, right);
    assert StartsAt(c.spans[2], -hw, left) && StartsAt(c.spans[3], -hw, -left);
  }

  lemma ShearedYCorners(hh: i64, top: i64, bottom: i64)
    requires hh > INT64_MIN && top > INT64_MIN && bottom > INT64_MIN
    ensures var c := ShearedY(hh, top, bottom);
            && |c.spans| == 4 && AllSegments(c) && Continuous(c)
            && forall x, y :: HasVertex(c, x, y) <==>
                 (y == hh && Abs(x) == Abs(top)) || (y == -hh && Abs(x) == Abs(bottom))
  {
    var c := ShearedY(hh, top, bottom);
    assert StartsAt(c.spans[0], bottom, -hh) && StartsAt(c.spans[1], -bottom, -hh);
    assert StartsAt(c.spans[2], -top, hh) && StartsAt(c.spans[3], top, hh);
  }

  // ---------------------------------------------------------------------------- arcs

  /** A quarter arc round `center`, in the given direction. */
  predicate IsQuarterOf(s: Span, center: Point, d: ArcDirection, r: int) {
    s.Arc? && IsQuarter(s) && s.center == center && s.direction == d && HasRadius(s, r)
  }

  /** A circle is four quarter arcs round the origin, each counterclockwise and behind the one before. */
  lemma CircleIsRound(d: i64)
    ensures var c := CircleSpans(d);
            && |c.spans| == 4 && Continuous(c)
            && forall i :: 0 <= i < 4 ==> IsQuarterOf(c.spans[i], ORIGIN, ArcDirection.CounterClockwise, HalfOf(d))
  {
    CircleIsClosed(d);
    QuarterOfCircle(d, 0);
    hide IsQuarterOf, CircleSpans;
    forall i | 0 <= i < 4
      ensures IsQuarterOf(CircleSpans(d).spans[i], ORIGIN, ArcDirection.CounterClockwise, HalfOf(d))
    {
      QuarterOfCircle(d, i);
    }
  }

  lemma QuarterOfCircle(d: i64, i: nat)
    requires i < 4
    ensures |CircleSpans(d).spans| == 4
    ensures IsQuarterOf(CircleSpans(d).spans[i], ORIGIN, ArcDirection.CounterClockwise, HalfOf(d))
  {
    var s, r := CircleSpans(d).spans[i], HalfOf(d);
    RadiusBeside(s, r);
    hide HasRadius, HalfOf;
  }

  lemma RadiusBeside(s: Span, r: int)
    requires s.Arc? && Beside(s.start, s.center, r) && Beside(s.end, s.center, r)
    ensures HasRadius(s, r)
  {
    hide SquaredDistance, Beside;
    OneRadius(s.start, s.center, r);
    OneRadius(s.end, s.center, r);
  }

  /** It turns left all the way, so it is counterclockwise and stays as it is. */
  lemma CircleIsCounterClockwise(d: i64)
    requires ShoelaceFits(CircleSpans(d)) && HalfOf(d) != 0
    ensures OrientationOf(CircleSpans(d)) == Orientation.CounterClockwise
    ensures Finish(CircleSpans(d)).outline == CircleSpans(d)
  {
    CircleIsClosed(d);
    CircleSides(d);
    var c := CircleSpans(d);
    CircleOffLine(d);
    hide OneSided, OffLine, Continuous, ShoelaceFits, CircleSpans, DoubleArea;
    OneSidedOrientation(c, 1, 0, 2);
  }

  lemma CircleOffLine(d: i64)
    requires HalfOf(d) != 0
    ensures |CircleSpans(d).spans| == 4 && OffLine(CircleSpans(d), 0, 2)
  {
    SquareIsPositive(HalfOf(d));
    FirstSide(HalfOf(d));
    hide HalfOf, Det;
  }

  lemma FirstSide(r: int)
    ensures Det(0 - r, r - 0, -r - r, 0 - 0) == 2 * (r * r)
  {}

  /** A straight edge on a side of the rectangle, as long as the corners leave it. */
  predicate IsEdge(s: Span, hw: int, hh: int, a: int, b: int) {
    && s.Segment?
    && (|| (s.start.y == s.end.y && Abs(s.start.y) == Abs(hh) && s.start.x + s.end.x == 0 && Abs(s.start.x) == Abs(a))
        || (s.start.x == s.end.x && Abs(s.start.x) == Abs(hw) && s.start.y + s.end.y == 0 && Abs(s.start.y) == Abs(b)))
  }

  /** A quarter arc of radius `r` round a point at `(a, b)`, up to signs, that bulges away from the origin
      when `a` and `b` are positive. */
  predicate IsCorner(s: Span, a: int, b: int, r: int) {
    && s.Arc? && IsQuarter(s) && HasRadius(s, r) && Abs(s.center.x) == Abs(a) && Abs(s.center.y) == Abs(b)
    && Away(s.start.x - s.center.x, s.start.y - s.center.y, s.center, a, b, r)
    && Away(s.end.x - s.center.x, s.end.y - s.center.y, s.center, a, b, r)
  }

  predicate Away(dx: int, dy: int, center: Point, a: int, b: int, r: int) {
    (dx == 0 && dy * center.y == r * b) || (dy == 0 && dx * center.x == r * a)
  }

  /** A rounded rectangle consists, in turn, of straight edges on its sides and of quarter arcs of the
      given radius, whose centers are one radius inside the sides. */
  lemma RoundedParts(w: i64, h: i64, radius: i64)
    requires radius > 0 && InsetFits(HalfOf(w), radius) && InsetFits(HalfOf(h), radius)
    ensures var c, hw, hh := RoundRectSpans(w, h, radius), HalfOf(w), HalfOf(h);
            && |c.spans| == 8 && Continuous(c)
            && forall i :: 0 <= i < 8 ==>
                 if i % 2 == 0 then IsEdge(c.spans[i], hw, hh, hw - radius, hh - radius)
                 else IsCorner(c.spans[i], hw - radius, hh - radius, radius)
  {
    var hw, hh := HalfOf(w), HalfOf(h);
    hide Octagon, HalfOf, IsEdge, IsCorner;
    OctagonIsClosed(hw, hh, hw - radius, hh - radius);
    forall i | 0 <= i < 8
      ensures if i % 2 == 0 then IsEdge(RoundRectSpans(w, h, radius).spans[i], hw, hh, hw - radius, hh - radius)
              else IsCorner(RoundRectSpans(w, h, radius).spans[i], hw - radius, hh - radius, radius)
    {
      if i % 2 == 0 {
        OctagonEdge(hw, hh, hw - radius, hh - radius, i);
      } else {
        OctagonTurn(hw, hh, hw - radius, hh - radius, radius, i);
      }
    }
  }

  lemma OctagonEdge(hw: i64, hh: i64, a: i64, b: i64, i: nat)
    requires hw > INT64_MIN && hh > INT64_MIN && a > INT64_MIN && b > INT64_MIN && i < 8 && i % 2 == 0
    ensures IsEdge(Octagon(hw, hh, a, b).spans[i], hw, hh, a, b)
  {}

  lemma OctagonTurn(hw: i64, hh: i64, a: i64, b: i64, r: int, i: nat)
    requires Corners(hw, hh, a, b, r) && i < 8 && i % 2 == 1
    ensures IsCorner(Octagon(hw, hh, a, b).spans[i], a, b, r)
  {
    var s := Octagon(hw, hh, a, b).spans[i];
    OctagonArc(hw, hh, a, b, r, i);
    RadiusBeside(s, r);
    NegatedProduct(r, a);
    NegatedProduct(r, b);
    hide HasRadius;
  }

  lemma NegatedProduct(x: int, y: int)
    ensures (-x) * (-y) == x * y
  {}

  // ------------------------------------------------------------------- how far they reach

  /** A vertex, or the middle of a half arc. Between these a quarter arc that starts straight beside its
      center goes no further in any direction. */
  predicate SpanPasses(s: Span, x: int, y: int) { StartsAt(s, x, y) || HasMiddle(s, x, y) }

  predicate HasMiddle(s: Span, x: int, y: int) { IsHalf(s) && QuarterX(s) == x && QuarterY(s) == y }

  predicate Passes(c: Contour, x: int, y: int) {
    exists i :: 0 <= i < |c.spans| && SpanPasses(c.spans[i], x, y)
  }

  /** The outline reaches `ex` to the right and to the left and `ey` up and down, and no further. */
  ghost predicate Reaches(c: Contour, ex: int, ey: int) {
    && (forall x, y :: Passes(c, x, y) ==> -ex <= x <= ex && -ey <= y <= ey)
    && TouchesX(c, ex) && TouchesX(c, -ex) && TouchesY(c, ey) && TouchesY(c, -ey)
  }

  ghost predicate TouchesX(c: Contour, x: int) { exists y :: Passes(c, x, y) }

  ghost predicate TouchesY(c: Contour, y: int) { exists x :: Passes(c, x, y) }

  /** Four points on the four sides, and none beyond. */
  lemma ReachesBy(c: Contour, ex: int, ey: int, y0: int, y1: int, x0: int, x1: int)
    requires forall i :: 0 <= i < |c.spans| ==> SpanWithin(c.spans[i], ex, ey)
    requires Passes(c, ex, y0) && Passes(c, -ex, y1) && Passes(c, x0, ey) && Passes(c, x1, -ey)
    ensures Reaches(c, ex, ey)
  {
    hide SpanPasses, SpanWithin;
    forall x, y | Passes(c, x, y)
      ensures -ex <= x <= ex && -ey <= y <= ey
    {
      var i :| 0 <= i < |c.spans| && SpanPasses(c.spans[i], x, y);
      PassedWithin(c.spans[i], ex, ey, x, y);
    }
  }

  predicate SpanWithin(s: Span, ex: int, ey: int) {
    && -ex <= s.start.x <= ex && -ey <= s.start.y <= ey
    && (IsHalf(s) ==> -ex <= QuarterX(s) <= ex && -ey <= QuarterY(s) <= ey)
  }

  lemma PassedWithin(s: Span, ex: int, ey: int, x: int, y: int)
    requires SpanWithin(s, ex, ey) && SpanPasses(s, x, y)
    ensures -ex <= x <= ex && -ey <= y <= ey
  {}

  lemma PassesAt(c: Contour, i: nat, x: int, y: int)
    requires i < |c.spans| && SpanPasses(c.spans[i], x, y)
    ensures Passes(c, x, y)
  {
    hide SpanPasses;
  }

  /** Winding an outline canonically does not move it. */
  lemma FinishedReach(c: Contour, ex: int, ey: int)
    requires Continuous(c) && Reaches(c, ex, ey)
    ensures Reaches(Finish(c).outline, ex, ey)
  {
    hide OrientationOf, Passes, ReverseContour, Continuous;
    ReversedPasses(c);
  }

  lemma ReversedPasses(c: Contour)
    requires Continuous(c)
    ensures forall x, y :: Passes(ReverseContour(c), x, y) <==> Passes(c, x, y)
  {
    hide Passes, ReverseContour, Continuous;
    forall x, y
      ensures Passes(ReverseContour(c), x, y) <==> Passes(c, x, y)
    {
      if Passes(ReverseContour(c), x, y) {
        PassesBack(c, x, y);
      }
      if Passes(c, x, y) {
        PassesForth(c, x, y);
      }
    }
  }

  lemma PassesBack(c: Contour, x: int, y: int)
    requires Continuous(c) && Passes(ReverseContour(c), x, y)
    ensures Passes(c, x, y)
  {
    hide SpanPasses, ReverseContour, Continuous;
    var n, r := |c.spans|, ReverseContour(c);
    var i :| 0 <= i < n && SpanPasses(r.spans[i], x, y);
    ReversedSpanPasses(c, n - 1 - i, x, y);
  }

  lemma PassesForth(c: Contour, x: int, y: int)
    requires Continuous(c) && Passes(c, x, y)
    ensures Passes(ReverseContour(c), x, y)
  {
    hide SpanPasses, ReverseContour, Continuous;
    var i :| 0 <= i < |c.spans| && SpanPasses(c.spans[i], x, y);
    assert IsReversed(c, ReverseContour(c));
    hide Passes, IsReversed;
    SpanPassesReversed(c, ReverseContour(c), i, x, y);
  }

  lemma ReversedMiddle(s: Span, x: int, y: int)
    ensures HasMiddle(ReverseSpan(s), x, y) <==> HasMiddle(s, x, y)
  {
    if s.Arc? {
      ReversedArc(s);
    }
  }

  /** A reversed span starts where the next one starts. */
  lemma ReversedSpanPasses(c: Contour, i: nat, x: int, y: int)
    requires Continuous(c) && i < |c.spans| && SpanPasses(ReverseSpan(c.spans[i]), x, y)
    ensures Passes(c, x, y)
  {
    hide HasMiddle;
    var s, j := c.spans[i], Next(i, |c.spans|);
    ReversedMiddle(s, x, y);
    if StartsAt(ReverseSpan(s), x, y) {
      assert SpanPasses(c.spans[j], x, y);
    } else {
      assert SpanPasses(s, x, y);
    }
  }

  /** The span before it, reversed, starts where the span starts. */
  lemma SpanBefore(c: Contour, i: nat) returns (before: nat)
    requires Continuous(c) && i < |c.spans|
    ensures before < |c.spans| && c.spans[before].end == c.spans[i].start
  {
    before := if i == 0 then |c.spans| - 1 else i - 1;
  }

  predicate IsReversed(c: Contour, r: Contour) {
    |r.spans| == |c.spans| && forall i :: 0 <= i < |c.spans| ==> r.spans[|c.spans| - 1 - i] == ReverseSpan(c.spans[i])
  }

  lemma ReversedAt(c: Contour, r: Contour, i: nat)
    requires IsReversed(c, r) && i < |c.spans|
    ensures |r.spans| == |c.spans| && r.spans[|c.spans| - 1 - i] == ReverseSpan(c.spans[i])
  {}

  lemma SpanPassesReversed(c: Contour, r: Contour, i: nat, x: int, y: int)
    requires Continuous(c) && i < |c.spans| && SpanPasses(c.spans[i], x, y) && IsReversed(c, r)
    ensures Passes(r, x, y)
  {
    hide HasMiddle, StartsAt, Continuous, IsReversed, Passes;
    if StartsAt(c.spans[i], x, y) {
      StartPasses(c, r, i, x, y);
    } else {
      ReversedAt(c, r, i);
      ReversedMiddle(c.spans[i], x, y);
      PassesAt(r, |c.spans| - 1 - i, x, y);
    }
  }

  lemma StartPasses(c: Contour, r: Contour, i: nat, x: int, y: int)
    requires Continuous(c) && i < |c.spans| && StartsAt(c.spans[i], x, y) && IsReversed(c, r)
    ensures Passes(r, x, y)
  {
    hide HasMiddle, Continuous, IsReversed, Passes;
    var before := SpanBefore(c, i);
    ReversedAt(c, r, before);
    PassesAt(r, |c.spans| - 1 - before, x, y);
  }

  lemma RectReach(w: i64, h: i64)
    ensures Continuous(RectSpans(w, h)) && Reaches(RectSpans(w, h), Abs(HalfOf(w)), Abs(HalfOf(h)))
  {
    hide HalfOf;
    var c, hw, hh := RectSpans(w, h), HalfOf(w), HalfOf(h);
    hide Reaches;
    BoxReach(c, hw, hh, c.spans[0].start, c.spans[1].start, c.spans[2].start, c.spans[3].start);
  }

  lemma BoxReach(c: Contour, hw: int, hh: int, p: Point, q: Point, r: Point, s: Point)
    requires |c.spans| == 4 && AllSegments(c)
    requires c.spans[0].start == p && c.spans[1].start == q && c.spans[2].start == r && c.spans[3].start == s
    requires p.x == hw && p.y == -hh && q.x == hw && q.y == hh && r.x == -hw && r.y == hh && s.x == -hw && s.y == -hh
    ensures Reaches(c, Abs(hw), Abs(hh))
  {
    PassesAt(c, 0, hw, -hh);
    PassesAt(c, 1, hw, hh);
    PassesAt(c, 2, -hw, hh);
    PassesAt(c, 3, -hw, -hh);
    ReachesBy(c, Abs(hw), Abs(hh), Abs(hh), Abs(hh), Abs(hw), Abs(hw));
  }

  lemma CircleReach(d: i64)
    ensures Continuous(CircleSpans(d)) && Reaches(CircleSpans(d), Abs(HalfOf(d)), Abs(HalfOf(d)))
  {
    hide HalfOf, Reaches, CircleSpans, Continuous, SpanWithin, Passes;
    var c, r := CircleSpans(d), HalfOf(d);
    CircleIsClosed(d);
    CirclePasses(d);
    forall i | 0 <= i < 4
      ensures SpanWithin(c.spans[i], Abs(r), Abs(r))
    {
      CircleWithin(d, i);
    }
    ReachesBy(c, Abs(r), Abs(r), 0, 0, 0, 0);
  }

  lemma CircleWithin(d: i64, i: nat)
    requires i < 4
    ensures |CircleSpans(d).spans| == 4
    ensures SpanWithin(CircleSpans(d).spans[i], Abs(HalfOf(d)), Abs(HalfOf(d)))
  {
    hide HalfOf;
  }

  lemma CirclePasses(d: i64)
    ensures var c, r := CircleSpans(d), Abs(HalfOf(d));
            |c.spans| == 4 && Passes(c, r, 0) && Passes(c, -r, 0) && Passes(c, 0, r) && Passes(c, 0, -r)
  {
    hide HalfOf;
    var c, r := CircleSpans(d), HalfOf(d);
    hide Passes, HasMiddle;
    PassesAt(c, 0, r, 0);
    PassesAt(c, 1, 0, r);
    PassesAt(c, 2, -r, 0);
    PassesAt(c, 3, 0, -r);
    hide CircleSpans;
  }

  lemma RoundedReach(w: i64, h: i64, radius: i64)
    requires 0 < radius <= HalfOf(w) && radius <= HalfOf(h)
    ensures var c := RoundRectSpans(w, h, radius); Continuous(c) && Reaches(c, HalfOf(w), HalfOf(h))
  {
    var hw, hh := HalfOf(w), HalfOf(h);
    hide Octagon, Reaches, HalfOf, Continuous;
    OctagonIsClosed(hw, hh, hw - radius, hh - radius);
    OctagonReach(hw, hh, hw - radius, hh - radius, radius);
  }

  lemma OctagonReach(hw: i64, hh: i64, a: i64, b: i64, r: int)
    requires Corners(hw, hh, a, b, r) && 0 <= a && 0 <= b
    ensures Reaches(Octagon(hw, hh, a, b), hw, hh)
  {
    var c := Octagon(hw, hh, a, b);
    forall i | 0 <= i < 8
      ensures SpanWithin(c.spans[i], hw, hh)
    {
      OctagonWithin(hw, hh, a, b, r, i);
    }
    hide SpanWithin, Reaches;
    PassesAt(c, 6, hw, b);
    PassesAt(c, 2, -hw, -b);
    PassesAt(c, 4, -a, hh);
    PassesAt(c, 0, a, -hh);
    ReachesBy(c, hw, hh, b, -b, -a, a);
  }

  lemma OctagonWithin(hw: i64, hh: i64, a: i64, b: i64, r: int, i: nat)
    requires Corners(hw, hh, a, b, r) && 0 <= a && 0 <= b && i < 8
    ensures SpanWithin(Octagon(hw, hh, a, b).spans[i], hw, hh)
  {}

  /** The half arcs of an oval bulge away from the origin, or towards it. */
  predicate BulgesOut(s: Span) {
    IsHalf(s) && (QuarterX(s) - s.center.x) * s.center.x + (QuarterY(s) - s.center.y) * s.center.y > 0
  }

  predicate BulgesIn(s: Span) {
    IsHalf(s) && (QuarterX(s) - s.center.x) * s.center.x + (QuarterY(s) - s.center.y) * s.center.y < 0
  }

  lemma WideOvalReach(r: i64, halfFlat: i64)
    requires r >= 0 && halfFlat >= 0
    ensures Continuous(WideOvalSpans(r, halfFlat)) && Reaches(WideOvalSpans(r, halfFlat), halfFlat + r, r)
  {
    hide Reaches, SpanWithin, Passes, WideOvalSpans, Continuous, IsQuad, TwoRoundEnds;
    var c := WideOvalSpans(r, halfFlat);
    WideOvalIsQuad(r, halfFlat);
    QuadHasFour(c, false, halfFlat, halfFlat, r);
    WideOvalPasses(r, halfFlat);
    forall i | 0 <= i < 4
      ensures SpanWithin(c.spans[i], halfFlat + r, r)
    {
      WideOvalWithin(r, halfFlat, i);
    }
    ReachesBy(c, halfFlat + r, r, 0, 0, -halfFlat, halfFlat);
  }

  lemma WideOvalWithin(r: i64, halfFlat: i64, i: nat)
    requires r >= 0 && halfFlat >= 0 && i < 4
    ensures SpanWithin(WideOvalSpans(r, halfFlat).spans[i], halfFlat + r, r)
  {}

  lemma WideOvalPasses(r: i64, halfFlat: i64)
    requires r >= 0 && halfFlat >= 0
    ensures var c := WideOvalSpans(r, halfFlat);
            && Passes(c, halfFlat + r, 0) && Passes(c, -(halfFlat + r), 0)
            && Passes(c, -halfFlat, r) && Passes(c, halfFlat, -r)
  {
    hide Passes;
    var c := WideOvalSpans(r, halfFlat);
    PassesAt(c, 3, halfFlat + r, 0);
    PassesAt(c, 1, -(halfFlat + r), 0);
    PassesAt(c, 2, -halfFlat, r);
    PassesAt(c, 0, halfFlat, -r);
  }

  /** The caps of a wide oval bulge outward. */
  lemma WideCaps(r: i64, halfFlat: i64)
    requires r > 0 && halfFlat > 0
    ensures var c := WideOvalSpans(r, halfFlat); |c.spans| == 4 && BulgesOut(c.spans[1]) && BulgesOut(c.spans[3])
  {
    NegatedProduct(r, halfFlat);
    assert r * halfFlat > 0;
  }

  lemma TallOvalReach(r: i64, halfFlat: i64)
    requires r >= 0 && halfFlat >= 0
    ensures Continuous(TallOvalSpans(r, halfFlat))
    ensures Reaches(TallOvalSpans(r, halfFlat), r, Larger(halfFlat, r - halfFlat))
  {
    var c, e := TallOvalSpans(r, halfFlat), Larger(halfFlat, r - halfFlat);
    TallOvalIsClosed(r, halfFlat);
    hide Reaches, SpanWithin, Passes, TallOvalSpans, Continuous;
    TallOvalPasses(r, halfFlat);
    forall i | 0 <= i < 4
      ensures SpanWithin(c.spans[i], r, e)
    {
      TallOvalWithin(r, halfFlat, i);
    }
    if halfFlat >= r - halfFlat {
      ReachesBy(c, r, e, halfFlat, halfFlat, r, -r);
    } else {
      ReachesBy(c, r, e, halfFlat, halfFlat, 0, 0);
    }
  }

  lemma TallOvalIsClosed(r: i64, halfFlat: i64)
    requires r >= 0 && halfFlat >= 0
    ensures Continuous(TallOvalSpans(r, halfFlat)) && |TallOvalSpans(r, halfFlat).spans| == 4
  {}

  lemma TallOvalWithin(r: i64, halfFlat: i64, i: nat)
    requires r >= 0 && halfFlat >= 0 && i < 4
    ensures SpanWithin(TallOvalSpans(r, halfFlat).spans[i], r, Larger(halfFlat, r - halfFlat))
  {}

  lemma TallOvalPasses(r: i64, halfFlat: i64)
    requires r >= 0 && halfFlat >= 0
    ensures var c := TallOvalSpans(r, halfFlat);
            && Passes(c, r, halfFlat) && Passes(c, -r, halfFlat) && Passes(c, -r, -halfFlat)
            && Passes(c, 0, r - halfFlat) && Passes(c, 0, halfFlat - r)
  {
    hide Passes;
    var c := TallOvalSpans(r, halfFlat);
    PassesAt(c, 3, r, halfFlat);
    PassesAt(c, 0, -r, halfFlat);
    PassesAt(c, 1, -r, -halfFlat);
    PassesAt(c, 1, 0, r - halfFlat);
    PassesAt(c, 3, 0, halfFlat - r);
  }

  /** Those of a tall one keep the direction they have in a wide one, so they bulge inward. */
  lemma TallCaps(r: i64, halfFlat: i64)
    requires r > 0 && halfFlat > 0
    ensures var c := TallOvalSpans(r, halfFlat); BulgesIn(c.spans[1]) && BulgesIn(c.spans[3])
  {
    NegatedProduct(r, halfFlat);
    assert r * halfFlat > 0;
    assert (-r) * halfFlat < 0;
  }

  function Larger(x: int, y: int): int { if x < y then y else x }

  // -------------------------------------------------------------------- main results

  /** Circle, rectangle, rounded rectangle, or an oval that is not taller than wide: the outline that is
      built reaches half the height up and down, and half the width to both sides; the width of an oval
      may come out one nanometre short on each side. */
  lemma PadFillsItsSize(p: PadShapeParams) returns (ex: int)
    requires ArithmeticFits(p) && RawSpans(p).Some? && p.width > 0 && p.height > 0 && p.shape != Trapezoid
    requires p.shape == RoundRect ==> p.radius <= HalfOf(p.width) && p.radius <= HalfOf(p.height)
    requires p.shape == Oval ==> p.width >= p.height
    ensures Reaches(Finish(RawSpans(p).value).outline, ex, HalfOf(p.height))
    ensures if p.shape == Oval then HalfOf(p.width) - 1 <= ex <= HalfOf(p.width) else ex == HalfOf(p.width)
  {
    hide Reaches, Finish, Continuous, RectSpans, CircleSpans, OvalSpans, RoundRectSpans, HalfOf;
    ex := HalfOf(p.width);
    HalvesAdd(p.width, p.height);
    match p.shape {
      case Rect => RectReach(p.width, p.height);
      case Circle => CircleReach(p.width);
      case Oval => ex := OvalReach(p.width, p.height);
      case RoundRect => RoundRectReach(p.width, p.height, p.radius);
    }
    FinishedReach(RawSpans(p).value, ex, HalfOf(p.height));
  }

  lemma OvalReach(w: i64, h: i64) returns (ex: int)
    requires OvalFits(w, h) && w >= h > 0
    ensures Continuous(OvalSpans(w, h)) && Reaches(OvalSpans(w, h), ex, HalfOf(h))
    ensures HalfOf(w) - 1 <= ex <= HalfOf(w)
  {
    hide Reaches, Continuous, CircleSpans, WideOvalSpans, HalfOf;
    HalvesAdd(w, h);
    if w == h {
      CircleReach(w);
      ex := HalfOf(w);
    } else {
      WideOvalReach(HalfOf(h), HalfOf(w - h));
      ex := HalfOf(w - h) + HalfOf(h);
    }
  }

  lemma RoundRectReach(w: i64, h: i64, radius: i64)
    requires w > 0 && h > 0 && radius <= HalfOf(w) && radius <= HalfOf(h)
    ensures radius > 0 ==> InsetFits(HalfOf(w), radius) && InsetFits(HalfOf(h), radius)
    ensures var c := RoundRectSpans(w, h, radius); Continuous(c) && Reaches(c, HalfOf(w), HalfOf(h))
  {
    if radius > 0 {
      RoundedReach(w, h, radius);
    } else {
      hide Reaches, Continuous, RectSpans, HalfOf;
      HalvesAdd(w, h);
      RectReach(w, h);
    }
  }

  /** A trapezoid reaches half a delta further on its longer side. */
  lemma TrapezoidReach(w: i64, h: i64, dx: i64, dy: i64)
    requires if dx != 0 then ShearFits(HalfOf(h), HalfOf(dx)) else ShearFits(HalfOf(w), HalfOf(dy))
    requires w >= 0 && h >= 0
    ensures Reaches(Finish(TrapezoidSpans(w, h, dx, dy)).outline,
                    HalfOf(w) + (if dx != 0 then 0 else Abs(HalfOf(dy))),
                    HalfOf(h) + (if dx != 0 then Abs(HalfOf(dx)) else 0))
  {
    var hw, hh := HalfOf(w), HalfOf(h);
    hide Reaches, Finish, Continuous, ShearedX, ShearedY;
    if dx != 0 {
      ShearedXReach(hw, hh - HalfOf(dx), hh + HalfOf(dx));
      FinishedReach(TrapezoidSpans(w, h, dx, dy), hw, hh + Abs(HalfOf(dx)));
    } else {
      ShearedYReach(hh, hw + HalfOf(dy), hw - HalfOf(dy));
      FinishedReach(TrapezoidSpans(w, h, dx, dy), hw + Abs(HalfOf(dy)), hh);
    }
  }

  lemma ShearedXReach(hw: i64, right: i64, left: i64)
    requires hw >= 0 && right > INT64_MIN && left > INT64_MIN
    ensures var c := ShearedX(hw, right, left); Continuous(c) && Reaches(c, hw, Larger(Abs(right), Abs(left)))
  {
    var c, e := ShearedX(hw, right, left), Larger(Abs(right), Abs(left));
    hide Reaches, Passes, ShearedX, Continuous, SpanWithin, IsQuad;
    ShearedXIsQuad(hw, right, left);
    QuadHasFour(c, true, -right, -left, -hw);
    ShearedXPasses(hw, right, left);
    forall i | 0 <= i < 4
      ensures SpanWithin(c.spans[i], hw, e)
    {
      ShearedXWithin(hw, right, left, i);
    }
    if Abs(right) < Abs(left) {
      ReachesBy(c, hw, e, right, left, -hw, -hw);
    } else {
      ReachesBy(c, hw, e, right, left, hw, hw);
    }
  }

  lemma ShearedXWithin(hw: i64, right: i64, left: i64, i: nat)
    requires hw >= 0 && right > INT64_MIN && left > INT64_MIN && i < 4
    ensures SpanWithin(ShearedX(hw, right, left).spans[i], hw, Larger(Abs(right), Abs(left)))
  {}

  lemma ShearedXPasses(hw: i64, right: i64, left: i64)
    requires hw > INT64_MIN && right > INT64_MIN && left > INT64_MIN
    ensures var c := ShearedX(hw, right, left);
            && Passes(c, hw, -right) && Passes(c, hw, right) && Passes(c, -hw, left) && Passes(c, -hw, -left)
  {
    hide Passes, HasMiddle;
    var c := ShearedX(hw, right, left);
    PassesAt(c, 0, hw, -right);
    PassesAt(c, 1, hw, right);
    PassesAt(c, 2, -hw, left);
    PassesAt(c, 3, -hw, -left);
  }

  lemma ShearedYReach(hh: i64, top: i64, bottom: i64)
    requires hh >= 0 && top > INT64_MIN && bottom > INT64_MIN
    ensures var c := ShearedY(hh, top, bottom); Continuous(c) && Reaches(c, Larger(Abs(top), Abs(bottom)), hh)
  {
    var c, e := ShearedY(hh, top, bottom), Larger(Abs(top), Abs(bottom));
    hide Reaches, Passes, ShearedY, Continuous, SpanWithin, IsQuad;
    ShearedYIsQuad(hh, top, bottom);
    QuadHasFour(c, false, bottom, top, hh);
    ShearedYPasses(hh, top, bottom);
    forall i | 0 <= i < 4
      ensures SpanWithin(c.spans[i], e, hh)
    {
      ShearedYWithin(hh, top, bottom, i);
    }
    if Abs(top) < Abs(bottom) {
      ReachesBy(c, e, hh, -hh, -hh, top, bottom);
    } else {
      ReachesBy(c, e, hh, hh, hh, top, bottom);
    }
  }

  lemma ShearedYWithin(hh: i64, top: i64, bottom: i64, i: nat)
    requires hh >= 0 && top > INT64_MIN && bottom > INT64_MIN && i < 4
    ensures SpanWithin(ShearedY(hh, top, bottom).spans[i], Larger(Abs(top), Abs(bottom)), hh)
  {}

  lemma ShearedYPasses(hh: i64, top: i64, bottom: i64)
    requires hh > INT64_MIN && top > INT64_MIN && bottom > INT64_MIN
    ensures var c := ShearedY(hh, top, bottom);
            && Passes(c, bottom, -hh) && Passes(c, -bottom, -hh) && Passes(c, -top, hh) && Passes(c, top, hh)
  {
    hide Passes, HasMiddle;
    var c := ShearedY(hh, top, bottom);
    PassesAt(c, 0, bottom, -hh);
    PassesAt(c, 1, -bottom, -hh);
    PassesAt(c, 2, -top, hh);
    PassesAt(c, 3, top, hh);
  }

  lemma HalvesAdd(w: i64, h: i64)
    requires w > 0 && h > 0
    ensures HalfOf(w) >= 0 && HalfOf(h) >= 0
    ensures w > h ==> HalfOf(w - h) >= 0 && HalfOf(w) - 1 <= HalfOf(w - h) + HalfOf(h) <= HalfOf(w)
  {}

  /** An oval that is taller than wide stays below its height, since its caps bulge inward, whichever
      way round the outline is finished. */
  lemma TallOvalFallsShort(w: i64, h: i64)
    requires OvalFits(w, h) && 2 <= w && w + 2 <= h
    ensures var c, ey := Finish(OvalSpans(w, h)).outline, Larger(HalfOf(h - w), HalfOf(w) - HalfOf(h - w));
            && Reaches(c, HalfOf(w), ey) && ey < HalfOf(h)
            && forall i :: 0 <= i < |c.spans| && c.spans[i].Arc? ==> BulgesIn(c.spans[i])
  {
    hide HalfOf, OvalSpans, TallOvalSpans, Finish, Reaches, BulgesIn, Larger, OvalFits;
    BelowHalf(w, h);
    TallSpans(w, h);
    TallOvalFinished(HalfOf(w), HalfOf(h - w));
    Below(HalfOf(w), HalfOf(h - w), HalfOf(h));
  }

  lemma TallSpans(w: i64, h: i64)
    requires OvalFits(w, h) && w < h
    ensures OvalSpans(w, h) == TallOvalSpans(HalfOf(w), HalfOf(h - w))
  {
    hide HalfOf, WideOvalSpans, SwapContour, TallOvalSpans;
    SwappedOval(HalfOf(w), HalfOf(h - w));
  }

  lemma Below(r: int, halfFlat: int, half: int)
    requires halfFlat < half && r - halfFlat < half
    ensures Larger(halfFlat, r - halfFlat) < half
  {}

  lemma TallOvalFinished(r: i64, halfFlat: i64)
    requires r > 0 && halfFlat > 0
    ensures var d := Finish(TallOvalSpans(r, halfFlat)).outline;
            && Reaches(d, r, Larger(halfFlat, r - halfFlat))
            && forall i :: 0 <= i < |d.spans| && d.spans[i].Arc? ==> BulgesIn(d.spans[i])
  {
    hide Finish, Reaches, Continuous, BulgesIn, Larger;
    TallOvalReach(r, halfFlat);
    FinishedReach(TallOvalSpans(r, halfFlat), r, Larger(halfFlat, r - halfFlat));
    TallCaps(r, halfFlat);
    FinishedCaps(TallOvalSpans(r, halfFlat));
  }

  lemma BelowHalf(w: i64, h: i64)
    requires OvalFits(w, h) && 2 <= w && w + 2 <= h
    ensures HalfOf(w) > 0 && HalfOf(h - w) > 0
    ensures HalfOf(h - w) < HalfOf(h) && HalfOf(w) - HalfOf(h - w) < HalfOf(h)
  {}

  lemma FinishedCaps(c: Contour)
    requires forall i :: 0 <= i < |c.spans| && c.spans[i].Arc? ==> BulgesIn(c.spans[i])
    ensures var d := Finish(c).outline; forall i :: 0 <= i < |d.spans| && d.spans[i].Arc? ==> BulgesIn(d.spans[i])
  {
    hide OrientationOf, ReverseContour, BulgesIn;
    var r, n := ReverseContour(c), |c.spans|;
    forall i | 0 <= i < n && r.spans[i].Arc?
      ensures BulgesIn(r.spans[i])
    {
      assert r.spans[i] == ReverseSpan(c.spans[n - 1 - i]);
      ReversedCap(c.spans[n - 1 - i]);
    }
  }

  lemma ReversedCap(s: Span)
    requires s.Arc? && BulgesIn(s)
    ensures BulgesIn(ReverseSpan(s))
  {
    ReversedArc(s);
  }

  lemma ReachIsUnique(c: Contour, ex: int, ey: int, ex': int, ey': int)
    requires Reaches(c, ex, ey) && Reaches(c, ex', ey')
    ensures ex == ex' && ey == ey'
  {
    hide Passes;
  }

  /** An oval whose sides do not round to the same reaches half its height exactly when it is not taller
      than wide. */
  lemma OvalFillsIff(w: i64, h: i64)
    requires OvalFits(w, h) && w >= 2 && h >= 2 && h != w + 1
    ensures (exists ex :: Reaches(Finish(OvalSpans(w, h)).outline, ex, HalfOf(h))) <==> w >= h
  {
    hide Reaches, Finish, OvalSpans, HalfOf, Larger, Continuous;
    if w >= h {
      var ex := OvalReach(w, h);
      FinishedReach(OvalSpans(w, h), ex, HalfOf(h));
    } else {
      TallOvalFallsShort(w, h);
      var ey := Larger(HalfOf(h - w), HalfOf(w) - HalfOf(h - w));
      forall ex
        ensures !Reaches(Finish(OvalSpans(w, h)).outline, ex, HalfOf(h))
      {
        if Reaches(Finish(OvalSpans(w, h)).outline, ex, HalfOf(h)) {
          ReachIsUnique(Finish(OvalSpans(w, h)).outline, ex, HalfOf(h), HalfOf(w), ey);
        }
      }
    }
  }
}
