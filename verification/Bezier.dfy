/** Flattening a cubic Bezier curve by repeated integer bisection. */
module Beziers {
  import opened Int64
  import opened Seqs
  import opened Geometry
  import opened SpatialIndexes

  datatype CubicBezier = CubicBezier(p0: Point, p1: Point, p2: Point, p3: Point)

  const FLATTEN_DEPTH: nat := 10

  function Midpoint(a: Point, b: Point): Point {
    var sum := Add(a, b);
    Point(TruncDiv(sum.x, 2), TruncDiv(sum.y, 2))
  }

  /** One bisection: the two halves, which share the point `left.p3 == right.p0`. */
  datatype Halves = Halves(left: CubicBezier, right: CubicBezier)

  function Split(c: CubicBezier): (h: Halves)
    ensures h.left.p0 == c.p0 && h.left.p3 == h.right.p0 && h.right.p3 == c.p3
  {
    var l1, mid, r1 := Midpoint(c.p0, c.p1), Midpoint(c.p1, c.p2), Midpoint(c.p2, c.p3);
    var l2, r2 := Midpoint(l1, mid), Midpoint(mid, r1);
    var split := Midpoint(l2, r2);
    Halves(CubicBezier(c.p0, l1, l2, split), CubicBezier(split, r2, r1, c.p3))
  }

  function Pow2(d: nat): (n: nat)
    ensures n > 0
  {
    if d == 0 then 1 else 2 * Pow2(d - 1)
  }

  /** The leaf endpoints after `depth` bisections, in curve order. */
  function Leaves(c: CubicBezier, depth: nat): (r: seq<Point>)
    ensures |r| == Pow2(depth)
    ensures r[|r| - 1] == c.p3
    decreases depth
  {
    if depth == 0 then [c.p3]
    else Leaves(Split(c).left, depth - 1) + Leaves(Split(c).right, depth - 1)
  }

  /** The whole polyline: point `k` stands for parameter `k / 2^depth`. */
  function Vertices(c: CubicBezier, depth: nat): (r: seq<Point>)
    ensures |r| == Pow2(depth) + 1
    ensures r[0] == c.p0 && r[Pow2(depth)] == c.p3
  {
    [c.p0] + Leaves(c, depth)
  }

  method Subdivide(c: CubicBezier, depth: nat, points: seq<Point>) returns (r: seq<Point>)
    ensures r == points + Leaves(c, depth)
    decreases depth
  {
    hide Midpoint;
    if depth == 0 {
      return points + [c.p3];
    }
    var l1 := Midpoint(c.p0, c.p1);
    var mid := Midpoint(c.p1, c.p2);
    var l2 := Midpoint(l1, mid);
    var r1 := Midpoint(c.p2, c.p3);
    var r2 := Midpoint(mid, r1);
    var split := Midpoint(l2, r2);
    r := Subdivide(CubicBezier(c.p0, l1, l2, split), depth - 1, points);
    r := Subdivide(CubicBezier(split, r2, r1, c.p3), depth - 1, r);
  }

  /** One segment between each two consecutive vertices. */
  ghost predicate Traces(segments: seq<Span>, c: CubicBezier, depth: nat) {
    var v := Vertices(c, depth);
    && |segments| == Pow2(depth)
    && forall i :: 0 <= i < |segments| ==> segments[i] == Segment(v[i], v[i + 1])
  }

  /** The segments are connected end to end from the first control point to the last. */
  lemma TraceIsConnected(segments: seq<Span>, c: CubicBezier, depth: nat)
    requires Traces(segments, c, depth)
    ensures |segments| == Pow2(depth)
    ensures segments[0].start == c.p0 && segments[|segments| - 1].end == c.p3
    ensures forall i :: 0 <= i < |segments| - 1 ==> segments[i].end == segments[i + 1].start
  {
    hide Vertices;
    var v := Vertices(c, depth);
    assert segments[0] == Segment(v[0], v[1]);
    forall i | 0 <= i < |segments| - 1
      ensures segments[i].end == segments[i + 1].start
    {
      assert segments[i] == Segment(v[i], v[i + 1]);
      assert segments[i + 1] == Segment(v[i + 1], v[i + 2]);
    }
  }

  /** Exactly 2^10 segments, through the vertices of ten bisections. */
  method FlattenCubicBezier(c: CubicBezier) returns (segments: seq<Span>)
    ensures Traces(segments, c, FLATTEN_DEPTH)
    ensures |segments| == 1024
  {
    hide Leaves, Traces, Pow2, Vertices;
    var points := Subdivide(c, FLATTEN_DEPTH, [c.p0]);
    segments := [];
    for i := 1 to |points|
      invariant |segments| == i - 1
      invariant forall j :: 0 <= j < i - 1 ==> segments[j] == Segment(points[j], points[j + 1])
    {
      segments := segments + [Segment(points[i - 1], points[i])];
    }
    PointsTrace(points, segments, c, FLATTEN_DEPTH);
    DepthTen();
  }

  lemma PointsTrace(points: seq<Point>, segments: seq<Span>, c: CubicBezier, depth: nat)
    requires points == [c.p0] + Leaves(c, depth) && |segments| == |points| - 1
    requires forall j :: 0 <= j < |segments| ==> segments[j] == Segment(points[j], points[j + 1])
    ensures Traces(segments, c, depth)
  {}

  lemma DepthTen()
    ensures Pow2(10) == 1024
  {
    assert Pow2(3) == 8;
    assert Pow2(6) == 64;
    assert Pow2(9) == 512;
  }

  /** Bisection splits the vertices at the middle one. */
  lemma VerticesSplit(c: CubicBezier, depth: nat, k: nat)
    requires depth > 0 && k <= Pow2(depth)
    ensures var h, half := Split(c), Pow2(depth - 1);
            Vertices(c, depth)[k] ==
            if k <= half then Vertices(h.left, depth - 1)[k] else Vertices(h.right, depth - 1)[k - half]
  {
    hide Split;
  }

  function ReverseCurve(c: CubicBezier): CubicBezier { CubicBezier(c.p3, c.p2, c.p1, c.p0) }

  lemma SplitReversed(c: CubicBezier)
    ensures Split(ReverseCurve(c)) == Halves(ReverseCurve(Split(c).right), ReverseCurve(Split(c).left))
  {
    MidpointCommutes(c.p0, c.p1);
    MidpointCommutes(c.p1, c.p2);
    MidpointCommutes(c.p2, c.p3);
    var l1, mid, r1 := Midpoint(c.p0, c.p1), Midpoint(c.p1, c.p2), Midpoint(c.p2, c.p3);
    MidpointCommutes(l1, mid);
    MidpointCommutes(mid, r1);
    MidpointCommutes(Midpoint(l1, mid), Midpoint(mid, r1));
    hide Midpoint;
  }

  lemma MidpointCommutes(a: Point, b: Point)
    ensures Midpoint(a, b) == Midpoint(b, a)
  {
    hide TruncDiv;
    assert Add(a, b) == Add(b, a);
  }

  /** The reversed curve flattens to the reversed polyline, rounding and all. */
  lemma {:induction false} ReversedCurve(c: CubicBezier, depth: nat)
    ensures Vertices(ReverseCurve(c), depth) == Reversed(Vertices(c, depth))
  {
    hide Split, Leaves;
    var v, w := Vertices(c, depth), Vertices(ReverseCurve(c), depth);
    var n := Pow2(depth);
    forall k | 0 <= k <= n
      ensures w[k] == v[n - k]
    {
      ReversedVertex(c, depth, k);
    }
    assert w == Reversed(v);
  }

  lemma {:induction false} ReversedVertex(c: CubicBezier, depth: nat, k: nat)
    requires k <= Pow2(depth)
    ensures Vertices(ReverseCurve(c), depth)[k] == Vertices(c, depth)[Pow2(depth) - k]
    decreases depth
  {
    hide Split, Vertices;
    if depth > 0 {
      var n, half := Pow2(depth), Pow2(depth - 1);
      SplitReversed(c);
      VerticesSplit(ReverseCurve(c), depth, k);
      VerticesSplit(c, depth, n - k);
      if k <= half {
        ReversedVertex(Split(c).right, depth - 1, k);
      } else {
        ReversedVertex(Split(c).left, depth - 1, k - half);
      }
    }
  }

  /** Every coordinate sum that `depth` levels of bisection form is representable. */
  predicate SumsFit(c: CubicBezier, depth: nat)
    decreases depth
  {
    depth == 0 ||
    (SplitFits(c) && SumsFit(Split(c).left, depth - 1) && SumsFit(Split(c).right, depth - 1))
  }

  predicate SplitFits(c: CubicBezier) {
    var l1, mid, r1 := Midpoint(c.p0, c.p1), Midpoint(c.p1, c.p2), Midpoint(c.p2, c.p3);
    var l2, r2 := Midpoint(l1, mid), Midpoint(mid, r1);
    && SumFits(c.p0, c.p1) && SumFits(c.p1, c.p2) && SumFits(c.p2, c.p3)
    && SumFits(l1, mid) && SumFits(mid, r1) && SumFits(l2, r2)
  }

  /** The sums an endpoint takes part in: with its neighbour, then with ever closer midpoints. */
  predicate EndFits(end: Point, neighbour: Point, depth: nat)
    decreases depth
  {
    depth == 0 || (SumFits(end, neighbour) && EndFits(end, Midpoint(end, neighbour), depth - 1))
  }

  /** Half of the coordinate range, inside which no sum of two points overflows. */
  predicate InHalfRange(p: Point) { SumFits(p, p) }

  lemma HalfRangeSums(p: Point, q: Point)
    requires InHalfRange(p) && InHalfRange(q)
    ensures SumFits(p, q) && InHalfRange(Midpoint(p, q))
  {}

  lemma MidpointInHalfRange(p: Point, q: Point)
    requires SumFits(p, q)
    ensures InHalfRange(Midpoint(p, q))
  {}

  lemma {:induction false} EndFitsInHalfRange(p: Point, q: Point, depth: nat)
    requires InHalfRange(p) && InHalfRange(q)
    ensures EndFits(p, q, depth)
    decreases depth
  {
    hide InHalfRange, SumFits, Midpoint;
    if depth > 0 {
      HalfRangeSums(p, q);
      EndFitsInHalfRange(p, Midpoint(p, q), depth - 1);
    }
  }

  /** Only the two ends can overflow below the first bisection: no sum overflows at any
      depth exactly when the middle sum and the two endpoint chains fit. */
  lemma {:induction false} SumsFitIff(c: CubicBezier, depth: nat)
    requires depth > 0
    ensures SumsFit(c, depth) <==>
            SumFits(c.p1, c.p2) && EndFits(c.p0, c.p1, depth) && EndFits(c.p3, c.p2, depth)
    decreases depth
  {
    hide SumsFit, EndFits, InHalfRange, SumFits, Midpoint;
    SumsFitStep(c, depth);
    EndFitsStep(c.p0, c.p1, depth);
    EndFitsStep(c.p3, c.p2, depth);
    SumFitsCommutes(c.p3, c.p2);
    MidpointCommutes(c.p3, c.p2);
    if SumFits(c.p0, c.p1) && SumFits(c.p1, c.p2) && SumFits(c.p2, c.p3) {
      InnerSumsFit(c);
      var left, right := Split(c).left, Split(c).right;
      if depth == 1 {
        NothingToFit(left, right);
      } else {
        EndFitsInHalfRange(left.p3, left.p2, depth - 1);
        EndFitsInHalfRange(right.p0, right.p1, depth - 1);
        SumsFitIff(left, depth - 1);
        SumsFitIff(right, depth - 1);
      }
    }
  }

  lemma SumsFitStep(c: CubicBezier, depth: nat)
    requires depth > 0
    ensures SumsFit(c, depth) <==>
            SplitFits(c) && SumsFit(Split(c).left, depth - 1) && SumsFit(Split(c).right, depth - 1)
  {
    hide SplitFits, Split;
  }

  lemma EndFitsStep(end: Point, neighbour: Point, depth: nat)
    requires depth > 0
    ensures EndFits(end, neighbour, depth) <==>
            SumFits(end, neighbour) && EndFits(end, Midpoint(end, neighbour), depth - 1)
  {
    hide SumFits, Midpoint;
  }

  lemma NothingToFit(left: CubicBezier, right: CubicBezier)
    ensures SumsFit(left, 0) && SumsFit(right, 0)
    ensures EndFits(left.p0, left.p1, 0) && EndFits(right.p3, right.p2, 0)
  {}

  /** Once the three outer sums fit, all others of the bisection do, and the inner control
      points of the halves are in half of the range. */
  lemma InnerSumsFit(c: CubicBezier)
    requires SumFits(c.p0, c.p1) && SumFits(c.p1, c.p2) && SumFits(c.p2, c.p3)
    ensures SplitFits(c)
    ensures var left, right := Split(c).left, Split(c).right;
            && InHalfRange(left.p2) && InHalfRange(left.p3) && InHalfRange(right.p0) && InHalfRange(right.p1)
            && SumFits(left.p1, left.p2) && SumFits(right.p1, right.p2)
  {
    hide InHalfRange, SumFits, Midpoint;
    var l1, mid, r1 := Midpoint(c.p0, c.p1), Midpoint(c.p1, c.p2), Midpoint(c.p2, c.p3);
    MidpointInHalfRange(c.p0, c.p1);
    MidpointInHalfRange(c.p1, c.p2);
    MidpointInHalfRange(c.p2, c.p3);
    HalfRangeSums(l1, mid);
    HalfRangeSums(mid, r1);
    var l2, r2 := Midpoint(l1, mid), Midpoint(mid, r1);
    HalfRangeSums(l2, r2);
    HalfRangeSums(l1, l2);
    HalfRangeSums(r2, r1);
  }

  lemma SumFitsCommutes(a: Point, b: Point)
    ensures SumFits(a, b) == SumFits(b, a)
  {}

  /** A condition on the four control points alone. */
  lemma HalfRangeCurveFits(c: CubicBezier, depth: nat)
    requires InHalfRange(c.p0) && InHalfRange(c.p1) && InHalfRange(c.p2) && InHalfRange(c.p3)
    ensures SumsFit(c, depth)
  {
    hide InHalfRange, SumFits, Midpoint, EndFits;
    if depth > 0 {
      HalfRangeSums(c.p1, c.p2);
      EndFitsInHalfRange(c.p0, c.p1, depth);
      EndFitsInHalfRange(c.p3, c.p2, depth);
      SumsFitIff(c, depth);
    }
  }

  /** The full coordinate range is not safe: at every depth, a curve that stays at one far
      point is flattened through the origin. */
  lemma FullRangeOverflows(depth: nat)
    requires depth > 0
    ensures var far := Point(INT64_MAX, 0);
            var c := CubicBezier(far, far, far, far);
            !SumsFit(c, depth) && Vertices(c, depth)[Pow2(depth - 1)] == ORIGIN
  {
    var far := Point(INT64_MAX, 0);
    var c := CubicBezier(far, far, far, far);
    assert Midpoint(far, far) == ORIGIN && Midpoint(ORIGIN, ORIGIN) == ORIGIN;
    assert Split(c).left.p3 == ORIGIN;
    hide Vertices, Midpoint, Split;
    VerticesSplit(c, depth, Pow2(depth - 1));
  }

  /** Every box that contains the control points contains every vertex. */
  lemma {:induction false} VerticesStayInBox(c: CubicBezier, depth: nat, box: BBox, k: nat)
    requires SumsFit(c, depth) && k <= Pow2(depth)
    requires box.Contains(c.p0) && box.Contains(c.p1) && box.Contains(c.p2) && box.Contains(c.p3)
    ensures box.Contains(Vertices(c, depth)[k])
    decreases depth
  {
    hide Vertices, Midpoint, BBox.Contains, SumFits;
    if depth > 0 {
      var l1, mid, r1 := Midpoint(c.p0, c.p1), Midpoint(c.p1, c.p2), Midpoint(c.p2, c.p3);
      MidpointInBox(c.p0, c.p1, box);
      MidpointInBox(c.p1, c.p2, box);
      MidpointInBox(c.p2, c.p3, box);
      var l2, r2 := Midpoint(l1, mid), Midpoint(mid, r1);
      MidpointInBox(l1, mid, box);
      MidpointInBox(mid, r1, box);
      MidpointInBox(l2, r2, box);
      VerticesSplit(c, depth, k);
      var half := Pow2(depth - 1);
      if k <= half {
        VerticesStayInBox(Split(c).left, depth - 1, box, k);
      } else {
        VerticesStayInBox(Split(c).right, depth - 1, box, k - half);
      }
    }
  }

  lemma MidpointInBox(a: Point, b: Point, box: BBox)
    requires SumFits(a, b) && box.Contains(a) && box.Contains(b)
    ensures box.Contains(Midpoint(a, b))
  {}

  // ---------------------------------------------------------------- point symmetry

  predicate Negatable(p: Point) { p.x != INT64_MIN && p.y != INT64_MIN }

  function Negated(p: Point): Point
    requires Negatable(p)
  {
    Point(-p.x, -p.y)
  }

  predicate CurveNegatable(c: CubicBezier) { Negatable(c.p0) && Negatable(c.p1) && Negatable(c.p2) && Negatable(c.p3) }

  function NegatedCurve(c: CubicBezier): CubicBezier
    requires CurveNegatable(c)
  {
    CubicBezier(Negated(c.p0), Negated(c.p1), Negated(c.p2), Negated(c.p3))
  }

  /** Halves are rounded toward zero, on either side of it. */
  lemma MidpointNegated(a: Point, b: Point)
    requires Negatable(a) && Negatable(b) && SumFits(a, b) && SumFits(Negated(a), Negated(b))
    ensures Negatable(Midpoint(a, b)) && Midpoint(Negated(a), Negated(b)) == Negated(Midpoint(a, b))
    ensures Abs(a.x + b.x) - 1 <= 2 * Abs(Midpoint(a, b).x) <= Abs(a.x + b.x)
    ensures Abs(a.y + b.y) - 1 <= 2 * Abs(Midpoint(a, b).y) <= Abs(a.y + b.y)
  {
    HalfNegated(a.x + b.x);
    HalfNegated(a.y + b.y);
    hide TruncDiv, Add;
  }

  lemma HalfNegated(v: int)
    ensures TruncDiv(-v, 2) == -TruncDiv(v, 2) && Abs(v) - 1 <= 2 * Abs(TruncDiv(v, 2)) <= Abs(v)
  {}

  lemma SplitNegated(c: CubicBezier)
    requires CurveNegatable(c) && SplitFits(c) && SplitFits(NegatedCurve(c))
    ensures CurveNegatable(Split(c).left) && CurveNegatable(Split(c).right)
    ensures Split(NegatedCurve(c)) == Halves(NegatedCurve(Split(c).left), NegatedCurve(Split(c).right))
  {
    hide Midpoint, SumFits, Negated;
    var d := NegatedCurve(c);
    var l1, mid, r1 := Midpoint(c.p0, c.p1), Midpoint(c.p1, c.p2), Midpoint(c.p2, c.p3);
    MidpointNegated(c.p0, c.p1);
    MidpointNegated(c.p1, c.p2);
    MidpointNegated(c.p2, c.p3);
    var l2, r2 := Midpoint(l1, mid), Midpoint(mid, r1);
    MidpointNegated(l1, mid);
    MidpointNegated(mid, r1);
    MidpointNegated(l2, r2);
  }

  /** Turning a curve by half a turn turns its polyline, vertex by vertex. */
  lemma {:induction false} NegatedLeaves(c: CubicBezier, depth: nat)
    requires CurveNegatable(c) && SumsFit(c, depth) && SumsFit(NegatedCurve(c), depth)
    ensures forall k :: 0 <= k < Pow2(depth) ==>
              Negatable(Leaves(c, depth)[k]) && Leaves(NegatedCurve(c), depth)[k] == Negated(Leaves(c, depth)[k])
    decreases depth
  {
    hide Split, SplitFits, Negated, Negatable;
    if depth > 0 {
      SplitNegated(c);
      NegatedLeaves(Split(c).left, depth - 1);
      NegatedLeaves(Split(c).right, depth - 1);
    } else {
      NegatedEnd(c);
    }
  }

  lemma NegatedEnd(c: CubicBezier)
    requires CurveNegatable(c)
    ensures Leaves(c, 0) == [c.p3] && Leaves(NegatedCurve(c), 0) == [Negated(c.p3)]
  {}
}
