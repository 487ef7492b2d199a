/** Exactness of the chord predicates where nothing overflows, the meaning of a proper
    crossing in the plane, and the motions under which validity and orientation do not change. */
module ContourInvariance {
  import opened Wrappers
  import opened Int64
  import opened Seqs
  import opened Geometry
  import opened CyclicSum
  import opened Products
  import opened Contours
  import opened Transforms

  /** Coordinates this far apart (about 2.1 m) never overflow a cross or dot product. */
  const SPREAD: int := 0x7FFF_FFFF

  predicate Near(a: Point, b: Point) {
    -SPREAD <= a.x - b.x <= SPREAD && -SPREAD <= a.y - b.y <= SPREAD
  }

  predicate SpansNear(s: Span, t: Span) {
    Near(s.start, t.start) && Near(s.start, t.end) && Near(s.end, t.start) && Near(s.end, t.end)
  }

  predicate CenterNear(s: Span) {
    s.Arc? ==> Near(s.start, s.center) && Near(s.end, s.center)
  }

  predicate Compact(c: Contour) {
    && (forall i, j :: 0 <= i < |c.spans| && 0 <= j < |c.spans| ==> SpansNear(c.spans[i], c.spans[j]))
    && (forall i :: 0 <= i < |c.spans| ==> CenterNear(c.spans[i]))
  }

  function Sign(v: int): int { if v > 0 then 1 else if v < 0 then -1 else 0 }

  /** Twice the signed area of the triangle `a`, `b`, `c`. */
  function Side(a: Point, b: Point, c: Point): int { Det(b.x - a.x, b.y - a.y, c.x - a.x, c.y - a.y) }

  lemma SmallProduct(a: int, b: int)
    requires -SPREAD <= a <= SPREAD && -SPREAD <= b <= SPREAD
    ensures -SPREAD * SPREAD <= a * b <= SPREAD * SPREAD
  {
    var x, y := Abs(a), Abs(b);
    assert 0 <= x * y <= SPREAD * SPREAD by {
      MulMonotone(x, SPREAD, y);
      MulMonotone(y, SPREAD, SPREAD);
    }
    assert a * b == x * y || a * b == -(x * y);
  }

  /** No step of the guarded orientation test overflows. */
  predicate SignFits(a: Point, b: Point, c: Point) {
    DifferenceFits(b, a) && DifferenceFits(c, a) && OrientationSign(a, b, c).Some?
  }

  /** Then it is exact. */
  lemma SignIsExact(a: Point, b: Point, c: Point)
    requires SignFits(a, b, c)
    ensures OrientationSign(a, b, c) == Some(Sign(Side(a, b, c)))
  {}

  lemma NearSignFits(a: Point, b: Point, c: Point)
    requires Near(b, a) && Near(c, a)
    ensures SignFits(a, b, c)
  {
    SmallProduct(b.x - a.x, c.y - a.y);
    SmallProduct(b.y - a.y, c.x - a.x);
  }

  /** No step of the crossing test overflows. */
  predicate CrossingFits(a1: Point, a2: Point, b1: Point, b2: Point) {
    && SignFits(a1, a2, b1) && SignFits(a1, a2, b2)
    && SignFits(b1, b2, a1) && SignFits(b1, b2, a2)
  }

  predicate FourNear(a1: Point, a2: Point, b1: Point, b2: Point) {
    && Near(a1, a2) && Near(a1, b1) && Near(a1, b2) && Near(a2, b1) && Near(a2, b2) && Near(b1, b2)
  }

  /** Each chord has its ends strictly on the two sides of the other's line. */
  predicate Separated(a1: Point, a2: Point, b1: Point, b2: Point) {
    Opposed(Side(a1, a2, b1), Side(a1, a2, b2)) && Opposed(Side(b1, b2, a1), Side(b1, b2, a2))
  }

  predicate Opposed(x: int, y: int) { x < 0 < y || y < 0 < x }

  lemma CrossingIsExact(a1: Point, a2: Point, b1: Point, b2: Point)
    requires CrossingFits(a1, a2, b1, b2)
    ensures ChordsProperlyCross(a1, a2, b1, b2) <==> Separated(a1, a2, b1, b2)
  {
    SignIsExact(a1, a2, b1);
    SignIsExact(a1, a2, b2);
    SignIsExact(b1, b2, a1);
    SignIsExact(b1, b2, a2);
    hide OrientationSign, Side;
  }

  lemma NearCrossingFits(a1: Point, a2: Point, b1: Point, b2: Point)
    requires FourNear(a1, a2, b1, b2)
    ensures CrossingFits(a1, a2, b1, b2)
  {
    hide SignFits;
    NearSignFits(a1, a2, b1);
    NearSignFits(a1, a2, b2);
    NearSignFits(b1, b2, a1);
    NearSignFits(b1, b2, a2);
  }

  // ------------------------------------------------- the meaning of a crossing

  /** The lines are not parallel and meet at an interior point of both chords. */
  ghost predicate MeetInside(a1: Point, a2: Point, b1: Point, b2: Point) {
    && Det(a2.x - a1.x, a2.y - a1.y, b2.x - b1.x, b2.y - b1.y) != 0
    && exists s: real, t: real :: MeetAt(a1, a2, b1, b2, s, t)
  }

  ghost predicate MeetAt(a1: Point, a2: Point, b1: Point, b2: Point, s: real, t: real) {
    && 0.0 < s < 1.0 && 0.0 < t < 1.0
    && a1.x as real + s * (a2.x - a1.x) as real == b1.x as real + t * (b2.x - b1.x) as real
    && a1.y as real + s * (a2.y - a1.y) as real == b1.y as real + t * (b2.y - b1.y) as real
  }

  /** The four sides in terms of `u = a2 - a1`, `v = b2 - b1`, `w = b1 - a1`. */
  lemma SidesByVectors(a1: Point, a2: Point, b1: Point, b2: Point)
    ensures var ux, uy, vx, vy, wx, wy := a2.x - a1.x, a2.y - a1.y, b2.x - b1.x, b2.y - b1.y, b1.x - a1.x, b1.y - a1.y;
            var d := Det(ux, uy, vx, vy);
            && Side(a1, a2, b1) == Det(ux, uy, wx, wy)
            && Side(a1, a2, b2) == Det(ux, uy, wx, wy) + d
            && Side(b1, b2, a1) == Det(wx, wy, vx, vy)
            && Side(b1, b2, a2) == Det(wx, wy, vx, vy) - d
  {
    var ux, uy, vx, vy, wx, wy := a2.x - a1.x, a2.y - a1.y, b2.x - b1.x, b2.y - b1.y, b1.x - a1.x, b1.y - a1.y;
    DetLinear(ux, uy, wx, wy, vx, vy);
    assert b2.x - a1.x == wx + vx && b2.y - a1.y == wy + vy;
    assert Det(vx, vy, -wx, -wy) == Det(wx, wy, vx, vy);
    DetLinear(vx, vy, -wx, -wy, ux, uy);
    assert a2.x - b1.x == -wx + ux && a2.y - b1.y == -wy + uy;
    assert Det(vx, vy, ux, uy) == -Det(ux, uy, vx, vy);
  }

  lemma DetLinear(ux: int, uy: int, wx: int, wy: int, vx: int, vy: int)
    ensures Det(ux, uy, wx + vx, wy + vy) == Det(ux, uy, wx, wy) + Det(ux, uy, vx, vy)
  {
    assert ux * (wy + vy) == ux * wy + ux * vy;
    assert uy * (wx + vx) == uy * wx + uy * vx;
  }

  function RDet(x1: real, y1: real, x2: real, y2: real): real { x1 * y2 - y1 * x2 }

  /** Cramer's rule in one coordinate. */
  lemma CramerIn(d: real, e: real, f: real, u: real, v: real, w: real, s: real, t: real)
    requires d != 0.0 && s * d == e && t * d == -f && e * u == d * w - f * v
    ensures s * u == w + t * v
  {
    Shuffle(s, d, u);
    Shuffle(t, d, v);
    NegatedFactors(f, v);
    SumTimes(w, t * v, d);
    DifferenceTimes(s * u, w + t * v, d);
    ProductSign(s * u - (w + t * v), d);
  }

  lemma Shuffle(s: real, d: real, u: real)
    ensures (s * u) * d == (s * d) * u
  {
    Associate(s, u, d);
    Associate(s, d, u);
    assert u * d == d * u;
  }

  lemma CramerIdentity(ux: real, uy: real, vx: real, vy: real, wx: real, wy: real)
    ensures RDet(wx, wy, vx, vy) * ux == RDet(ux, uy, vx, vy) * wx - RDet(ux, uy, wx, wy) * vx
    ensures RDet(wx, wy, vx, vy) * uy == RDet(ux, uy, vx, vy) * wy - RDet(ux, uy, wx, wy) * vy
  {
    ThreeFactors(ux, uy, vx, vy, wx, wy);
    DifferenceTimes(wx * vy, wy * vx, ux);
    DifferenceTimes(ux * vy, uy * vx, wx);
    DifferenceTimes(ux * wy, uy * wx, vx);
    DifferenceTimes(wx * vy, wy * vx, uy);
    DifferenceTimes(ux * vy, uy * vx, wy);
    DifferenceTimes(ux * wy, uy * wx, vy);
  }

  lemma ThreeFactors(ux: real, uy: real, vx: real, vy: real, wx: real, wy: real)
    ensures (wx * vy) * ux == (ux * vy) * wx && (wy * vx) * ux == (ux * wy) * vx && (uy * vx) * wx == (uy * wx) * vx
    ensures (wy * vx) * uy == (uy * vx) * wy && (wx * vy) * uy == (uy * wx) * vy && (ux * vy) * wy == (ux * wy) * vy
  {}

  /** Cramer's rule, componentwise. */
  lemma Cramer(ux: real, uy: real, vx: real, vy: real, wx: real, wy: real, s: real, t: real)
    requires var d := RDet(ux, uy, vx, vy);
             d != 0.0 && s * d == RDet(wx, wy, vx, vy) && t * d == -RDet(ux, uy, wx, wy)
    ensures s * ux == wx + t * vx && s * uy == wy + t * vy
  {
    hide RDet;
    var d, e, f := RDet(ux, uy, vx, vy), RDet(wx, wy, vx, vy), RDet(ux, uy, wx, wy);
    CramerIdentity(ux, uy, vx, vy, wx, wy);
    CramerIn(d, e, f, ux, vx, wx, s, t);
    CramerIn(d, e, f, uy, vy, wy, s, t);
  }

  /** The converse: a common point fixes both parameters. */
  lemma CramerConverse(ux: real, uy: real, vx: real, vy: real, wx: real, wy: real, s: real, t: real)
    requires s * ux == wx + t * vx && s * uy == wy + t * vy
    ensures s * RDet(ux, uy, vx, vy) == RDet(wx, wy, vx, vy)
    ensures t * RDet(ux, uy, vx, vy) == -RDet(ux, uy, wx, wy)
  {
    FirstParameter(ux, uy, vx, vy, wx, wy, s, t);
    FirstParameter(vx, vy, ux, uy, -wx, -wy, t, s);
    NegatedFactors(wx, uy);
    NegatedFactors(wy, ux);
    NegatedFactors(t, RDet(ux, uy, vx, vy));
    assert RDet(vx, vy, ux, uy) == -RDet(ux, uy, vx, vy);
  }

  lemma FirstParameter(ux: real, uy: real, vx: real, vy: real, wx: real, wy: real, s: real, t: real)
    requires s * ux == wx + t * vx && s * uy == wy + t * vy
    ensures s * RDet(ux, uy, vx, vy) == RDet(wx, wy, vx, vy)
  {
    Associate(s, ux, vy);
    Associate(s, uy, vx);
    Associate(t, vx, vy);
    Associate(t, vy, vx);
    assert vx * vy == vy * vx;
    SumTimes(wx, t * vx, vy);
    SumTimes(wy, t * vy, vx);
    TimesSum(s, ux * vy, -(uy * vx));
    NegatedFactors(s, uy * vx);
  }

  lemma DetAsReal(x1: int, y1: int, x2: int, y2: int)
    ensures Det(x1, y1, x2, y2) as real == RDet(x1 as real, y1 as real, x2 as real, y2 as real)
  {
    assert (x1 * y2) as real == x1 as real * y2 as real;
    assert (y1 * x2) as real == y1 as real * x2 as real;
  }

  /** `s` is `e / d` and strictly between 0 and 1. */
  ghost predicate Interior(s: real, e: int, d: int) {
    0.0 < s < 1.0 && s * d as real == e as real
  }

  lemma OppositeIsInterior(e: int, d: int) returns (s: real)
    requires Opposed(e, e - d)
    ensures Interior(s, e, d)
  {
    var f := d as real;
    s := e as real / f;
    QuotientTimes(e as real, f);
    ProductSign(s, f);
    DifferenceTimes(s, 1.0, f);
    ProductSign(s - 1.0, f);
  }

  lemma InteriorIsOpposite(s: real, e: int, d: int)
    requires d != 0 && Interior(s, e, d)
    ensures Opposed(e, e - d)
  {
    var f := d as real;
    ProductSign(s, f);
    DifferenceTimes(s, 1.0, f);
    ProductSign(s - 1.0, f);
  }

  /** `s * u` and `w + t * v` are the same vector, with both parameters interior. */
  ghost predicate VectorsMeet(ux: int, uy: int, vx: int, vy: int, wx: int, wy: int, s: real, t: real) {
    && 0.0 < s < 1.0 && 0.0 < t < 1.0
    && s * ux as real == wx as real + t * vx as real
    && s * uy as real == wy as real + t * vy as real
  }

  lemma OpposedVectorsMeet(ux: int, uy: int, vx: int, vy: int, wx: int, wy: int) returns (s: real, t: real)
    requires var d, e, f := Det(ux, uy, vx, vy), Det(wx, wy, vx, vy), -Det(ux, uy, wx, wy);
             Opposed(e, e - d) && Opposed(f, f - d)
    ensures VectorsMeet(ux, uy, vx, vy, wx, wy, s, t)
  {
    DetAsReal(ux, uy, vx, vy);
    DetAsReal(wx, wy, vx, vy);
    DetAsReal(ux, uy, wx, wy);
    hide Det, RDet;
    var d := Det(ux, uy, vx, vy);
    s := OppositeIsInterior(Det(wx, wy, vx, vy), d);
    t := OppositeIsInterior(-Det(ux, uy, wx, wy), d);
    Cramer(ux as real, uy as real, vx as real, vy as real, wx as real, wy as real, s, t);
  }

  lemma MeetingVectorsOppose(ux: int, uy: int, vx: int, vy: int, wx: int, wy: int, s: real, t: real)
    requires VectorsMeet(ux, uy, vx, vy, wx, wy, s, t)
    requires Det(ux, uy, vx, vy) != 0
    ensures var d, e, f := Det(ux, uy, vx, vy), Det(wx, wy, vx, vy), -Det(ux, uy, wx, wy);
            Opposed(e, e - d) && Opposed(f, f - d)
  {
    DetAsReal(ux, uy, vx, vy);
    DetAsReal(wx, wy, vx, vy);
    DetAsReal(ux, uy, wx, wy);
    hide Det, RDet;
    CramerConverse(ux as real, uy as real, vx as real, vy as real, wx as real, wy as real, s, t);
    InteriorIsOpposite(s, Det(wx, wy, vx, vy), Det(ux, uy, vx, vy));
    InteriorIsOpposite(t, -Det(ux, uy, wx, wy), Det(ux, uy, vx, vy));
  }

  lemma MeetAtVectors(a1: Point, a2: Point, b1: Point, b2: Point, s: real, t: real)
    ensures MeetAt(a1, a2, b1, b2, s, t) <==>
            VectorsMeet(a2.x - a1.x, a2.y - a1.y, b2.x - b1.x, b2.y - b1.y, b1.x - a1.x, b1.y - a1.y, s, t)
  {}

  lemma SeparatedMeansMeeting(a1: Point, a2: Point, b1: Point, b2: Point)
    ensures Separated(a1, a2, b1, b2) <==> MeetInside(a1, a2, b1, b2)
  {
    var ux, uy, vx, vy, wx, wy := a2.x - a1.x, a2.y - a1.y, b2.x - b1.x, b2.y - b1.y, b1.x - a1.x, b1.y - a1.y;
    SidesByVectors(a1, a2, b1, b2);
    hide Det, Side, MeetAt, VectorsMeet;
    if Separated(a1, a2, b1, b2) {
      var s, t := OpposedVectorsMeet(ux, uy, vx, vy, wx, wy);
      MeetAtVectors(a1, a2, b1, b2, s, t);
    }
    if MeetInside(a1, a2, b1, b2) {
      var s: real, t: real :| MeetAt(a1, a2, b1, b2, s, t);
      MeetAtVectors(a1, a2, b1, b2, s, t);
      MeetingVectorsOppose(ux, uy, vx, vy, wx, wy, s, t);
    }
  }

  /** Where nothing overflows, `chords_properly_cross` answers whether the open chords
      meet transversally at a point of the plane. */
  lemma CrossingMeansMeeting(a1: Point, a2: Point, b1: Point, b2: Point)
    requires CrossingFits(a1, a2, b1, b2)
    ensures ChordsProperlyCross(a1, a2, b1, b2) <==> MeetInside(a1, a2, b1, b2)
  {
    CrossingIsExact(a1, a2, b1, b2);
    SeparatedMeansMeeting(a1, a2, b1, b2);
  }

  // -------------------------------------------------------------- rigid motions

  /** A quarter-turn rotation followed by a translation, in unbounded integers. */
  datatype Motion = Motion(quarterTurns: nat, tx: int, ty: int)

  function TurnX(q: nat, x: int, y: int): int {
    match q case 1 => -y case 2 => -x case 3 => y case _ => x
  }

  function TurnY(q: nat, x: int, y: int): int {
    match q case 1 => x case 2 => -y case 3 => -x case _ => y
  }

  predicate PointImage(m: Motion, p: Point, r: Point) {
    && r.x == TurnX(m.quarterTurns, p.x, p.y) + m.tx
    && r.y == TurnY(m.quarterTurns, p.x, p.y) + m.ty
  }

  predicate SpanImage(m: Motion, s: Span, t: Span) {
    && s.Arc? == t.Arc?
    && PointImage(m, s.start, t.start) && PointImage(m, s.end, t.end)
    && (s.Arc? ==> PointImage(m, s.center, t.center) && t.direction == s.direction)
  }

  /** `d` is exactly the image of `c`: nothing overflowed on the way. */
  predicate ContourImage(m: Motion, c: Contour, d: Contour) {
    |d.spans| == |c.spans| && forall i :: 0 <= i < |c.spans| ==> SpanImage(m, c.spans[i], d.spans[i])
  }

  lemma TurnKeepsDet(q: nat, ux: int, uy: int, vx: int, vy: int)
    ensures Det(TurnX(q, ux, uy), TurnY(q, ux, uy), TurnX(q, vx, vy), TurnY(q, vx, vy)) == Det(ux, uy, vx, vy)
  {
    assert Det(-uy, ux, -vy, vx) == Det(ux, uy, vx, vy);
    assert Det(-ux, -uy, -vx, -vy) == Det(ux, uy, vx, vy);
    assert Det(uy, -ux, vy, -vx) == Det(ux, uy, vx, vy);
  }

  /** Turning once more is turning once after turning. */
  lemma TurnsCompose(q: nat, x: int, y: int)
    requires q < 3
    ensures TurnX(q + 1, x, y) == TurnX(1, TurnX(q, x, y), TurnY(q, x, y))
    ensures TurnY(q + 1, x, y) == TurnY(1, TurnX(q, x, y), TurnY(q, x, y))
  {}

  lemma SideImage(m: Motion, a: Point, b: Point, c: Point, a': Point, b': Point, c': Point)
    requires PointImage(m, a, a') && PointImage(m, b, b') && PointImage(m, c, c')
    ensures Side(a', b', c') == Side(a, b, c)
  {
    var ux, uy, vx, vy := b.x - a.x, b.y - a.y, c.x - a.x, c.y - a.y;
    TurnKeepsDet(m.quarterTurns, ux, uy, vx, vy);
    hide Det;
    assert b'.x - a'.x == TurnX(m.quarterTurns, ux, uy) && b'.y - a'.y == TurnY(m.quarterTurns, ux, uy);
    assert c'.x - a'.x == TurnX(m.quarterTurns, vx, vy) && c'.y - a'.y == TurnY(m.quarterTurns, vx, vy);
  }

  lemma EqualImage(m: Motion, a: Point, b: Point, a': Point, b': Point)
    requires PointImage(m, a, a') && PointImage(m, b, b')
    ensures a' == b' <==> a == b
  {}

  /** Points moved by the same amount have the same difference, overflow included. */
  lemma SameDifference(m: Motion, a: Point, b: Point, a': Point, b': Point)
    requires m.quarterTurns == 0 && PointImage(m, a, a') && PointImage(m, b, b')
    ensures Sub(a', b') == Sub(a, b)
  {}

  lemma SameSign(m: Motion, a: Point, b: Point, c: Point, a': Point, b': Point, c': Point)
    requires PointImage(m, a, a') && PointImage(m, b, b') && PointImage(m, c, c')
    requires m.quarterTurns == 0 || (SignFits(a, b, c) && SignFits(a', b', c'))
    ensures OrientationSign(a', b', c') == OrientationSign(a, b, c)
  {
    if m.quarterTurns == 0 {
      SameDifference(m, b, a, b', a');
      SameDifference(m, c, a, c', a');
      hide Sub, Cross;
    } else {
      hide OrientationSign, Side, PointImage;
      SignIsExact(a, b, c);
      SignIsExact(a', b', c');
      SideImage(m, a, b, c, a', b', c');
    }
  }

  /** The crossing test answers the same for the image of two chords: always under a translation,
      and under quarter turns where it overflows for neither. */
  lemma CrossingOfImage(m: Motion, a1: Point, a2: Point, b1: Point, b2: Point,
                        a1': Point, a2': Point, b1': Point, b2': Point)
    requires PointImage(m, a1, a1') && PointImage(m, a2, a2') && PointImage(m, b1, b1') && PointImage(m, b2, b2')
    requires m.quarterTurns == 0 || (CrossingFits(a1, a2, b1, b2) && CrossingFits(a1', a2', b1', b2'))
    ensures ChordsProperlyCross(a1', a2', b1', b2') <==> ChordsProperlyCross(a1, a2, b1, b2)
  {
    hide OrientationSign, SignFits, PointImage;
    SameSign(m, a1, a2, b1, a1', a2', b1');
    SameSign(m, a1, a2, b2, a1', a2', b2');
    SameSign(m, b1, b2, a1, b1', b2', a1');
    SameSign(m, b1, b2, a2, b1', b2', a2');
  }

  /** No test that `validate` may make of the contour overflows. */
  predicate TestsFit(c: Contour) {
    && (forall i, j :: 0 <= i < j < |c.spans| && !IsAdjacent(i, j, |c.spans|) ==> SpansFit(c.spans[i], c.spans[j]))
    && (forall i :: 0 <= i < |c.spans| && c.spans[i].Arc? ==> ArcFits(c.spans[i]))
  }

  predicate SpansFit(s: Span, t: Span) { CrossingFits(s.start, s.end, t.start, t.end) }

  predicate ArcFits(s: Span)
    requires s.Arc?
  {
    DistanceFits(s.start, s.center) && DistanceFits(s.end, s.center)
  }

  predicate DistanceFits(p: Point, center: Point) {
    DifferenceFits(p, center) && Dot(Sub(p, center), Sub(p, center)).Some?
  }

  lemma CompactFits(c: Contour)
    requires Compact(c)
    ensures TestsFit(c)
  {
    forall i, j | 0 <= i < j < |c.spans|
      ensures SpansFit(c.spans[i], c.spans[j])
    {
      var s, t := c.spans[i], c.spans[j];
      assert SpansNear(s, s) && SpansNear(t, t) && SpansNear(s, t);
      NearCrossingFits(s.start, s.end, t.start, t.end);
    }
    hide SpansFit, SpansNear, DistanceFits;
    forall i | 0 <= i < |c.spans| && c.spans[i].Arc?
      ensures ArcFits(c.spans[i])
    {
      NearDistanceFits(c.spans[i].start, c.spans[i].center);
      NearDistanceFits(c.spans[i].end, c.spans[i].center);
    }
  }

  lemma NearDistanceFits(p: Point, center: Point)
    requires Near(p, center)
    ensures DistanceFits(p, center)
  {
    SmallProduct(p.x - center.x, p.x - center.x);
    SmallProduct(p.y - center.y, p.y - center.y);
  }

  /** The tests of a contour and of its image come out alike. */
  predicate SameTests(m: Motion, c: Contour, d: Contour) { m.quarterTurns == 0 || (TestsFit(c) && TestsFit(d)) }

  lemma SpansCrossImage(m: Motion, c: Contour, d: Contour, i: nat, j: nat)
    requires ContourImage(m, c, d) && SameTests(m, c, d)
    requires i < j < |c.spans| && !IsAdjacent(i, j, |c.spans|)
    ensures SpansCross(d, i, j) <==> SpansCross(c, i, j)
  {
    hide ChordsProperlyCross, PointImage, CrossingFits, ArcFits;
    var s, t, s', t' := c.spans[i], c.spans[j], d.spans[i], d.spans[j];
    assert SpanImage(m, s, s') && SpanImage(m, t, t');
    assert m.quarterTurns != 0 ==> SpansFit(s, t) && SpansFit(s', t');
    CrossingOfImage(m, s.start, s.end, t.start, t.end, s'.start, s'.end, t'.start, t'.end);
  }

  /** The squared distance `Arc::is_valid` compares. */
  function SquaredDistance(p: Point, center: Point): int {
    (p.x - center.x) * (p.x - center.x) + (p.y - center.y) * (p.y - center.y)
  }

  lemma DistanceIsExact(p: Point, center: Point)
    requires DistanceFits(p, center)
    ensures Dot(Sub(p, center), Sub(p, center)) == Some(SquaredDistance(p, center))
  {}

  lemma DistanceImage(m: Motion, p: Point, c: Point, p': Point, c': Point)
    requires PointImage(m, p, p') && PointImage(m, c, c')
    ensures SquaredDistance(p', c') == SquaredDistance(p, c)
  {
    var x, y := p.x - c.x, p.y - c.y;
    assert (-x) * (-x) == x * x && (-y) * (-y) == y * y;
    assert p'.x - c'.x == TurnX(m.quarterTurns, x, y) && p'.y - c'.y == TurnY(m.quarterTurns, x, y);
  }

  lemma ArcImage(m: Motion, s: Span, t: Span)
    requires s.Arc? && SpanImage(m, s, t) && (m.quarterTurns == 0 || (ArcFits(s) && ArcFits(t)))
    ensures ArcIsValid(t) <==> ArcIsValid(s)
  {
    if m.quarterTurns == 0 {
      SameDifference(m, s.start, s.center, t.start, t.center);
      SameDifference(m, s.end, s.center, t.end, t.center);
    } else {
      DistanceIsExact(s.start, s.center);
      DistanceIsExact(s.end, s.center);
      DistanceIsExact(t.start, t.center);
      DistanceIsExact(t.end, t.center);
      DistanceImage(m, s.start, s.center, t.start, t.center);
      DistanceImage(m, s.end, s.center, t.end, t.center);
    }
    hide SquaredDistance, Dot, Sub, PointImage;
  }

  lemma DefectsImage(m: Motion, c: Contour, d: Contour)
    requires ContourImage(m, c, d) && SameTests(m, c, d)
    ensures SpanDefects(d) == SpanDefects(c)
  {
    hide ArcIsValid, SpansFit, ArcFits;
    var n := |c.spans|;
    forall i | 0 <= i < n
      ensures SpanDefect(d, i) == SpanDefect(c, i)
    {
      assert SpanImage(m, c.spans[i], d.spans[i]) && SpanImage(m, c.spans[Next(i, n)], d.spans[Next(i, n)]);
      EqualImage(m, c.spans[i].end, c.spans[Next(i, n)].start, d.spans[i].end, d.spans[Next(i, n)].start);
      if c.spans[i].Arc? {
        ArcImage(m, c.spans[i], d.spans[i]);
      }
    }
  }

  /** Contour validity, down to which defect is reported, is the same for every exact image
      under a translation, and under quarter turns where no test overflows. */
  lemma ValidityOfImage(m: Motion, c: Contour, d: Contour)
    requires ContourImage(m, c, d) && SameTests(m, c, d)
    ensures Validate(d) == Validate(c)
  {
    hide SpansCross, SpanDefects, ContourImage, FirstSome, SameTests;
    DefectsImage(m, c, d);
    assert |d.spans| == |c.spans| by {
      SameLengths(m, c, d);
    }
    forall i: nat, j: nat | i < j < |c.spans| && !IsAdjacent(i, j, |c.spans|)
      ensures SpansCross(d, i, j) <==> SpansCross(c, i, j)
    {
      SpansCrossImage(m, c, d, i, j);
    }
    assert SelfIntersects(d) <==> SelfIntersects(c);
  }

  lemma SameLengths(m: Motion, c: Contour, d: Contour)
    requires ContourImage(m, c, d)
    ensures |d.spans| == |c.spans|
  {}

  // ------------------------------------------------- area under rigid motions

  /** The part of the moved shoelace term that telescopes. */
  function Drift(m: Motion, p: Point): int {
    Det(m.tx, m.ty, TurnX(m.quarterTurns, p.x, p.y), TurnY(m.quarterTurns, p.x, p.y))
  }

  function DriftWeight(m: Motion): Weight { (a, b) => Drift(m, b) - Drift(m, a) }

  lemma AreaWeightImage(m: Motion, a: Point, b: Point, a': Point, b': Point)
    requires PointImage(m, a, a') && PointImage(m, b, b')
    ensures AreaWeight(a', b') == AreaWeight(a, b) + DriftWeight(m)(a, b)
  {
    var ax, ay := TurnX(m.quarterTurns, a.x, a.y), TurnY(m.quarterTurns, a.x, a.y);
    var bx, by' := TurnX(m.quarterTurns, b.x, b.y), TurnY(m.quarterTurns, b.x, b.y);
    TurnKeepsDet(m.quarterTurns, a.x, a.y, b.x, b.y);
    DetShift(ax, ay, bx, by', m.tx, m.ty);
    hide Det, TurnX, TurnY;
  }

  lemma DetShift(ax: int, ay: int, bx: int, by': int, tx: int, ty: int)
    ensures Det(ax + tx, ay + ty, bx + tx, by' + ty)
            == Det(ax, ay, bx, by') + Det(tx, ty, bx, by') - Det(tx, ty, ax, ay)
  {
    assert (ax + tx) * (by' + ty) == ax * by' + ax * ty + tx * by' + tx * ty;
    assert (ay + ty) * (bx + tx) == ay * bx + ay * tx + ty * bx + ty * tx;
  }

  lemma {:induction false} AreaSumImage(m: Motion, c: Contour, d: Contour, k: nat)
    requires ContourImage(m, c, d) && k <= |c.spans|
    ensures EdgeSum(AreaWeight, Starts(d), k)
            == EdgeSum(AreaWeight, Starts(c), k) + EdgeSum(DriftWeight(m), Starts(c), k)
  {
    hide AreaWeight, DriftWeight, PointImage;
    if k > 0 {
      AreaSumImage(m, c, d, k - 1);
      var i, j := k - 1, Next(k - 1, |c.spans|);
      assert SpanImage(m, c.spans[i], d.spans[i]) && SpanImage(m, c.spans[j], d.spans[j]);
      AreaWeightImage(m, Starts(c)[i], Starts(c)[j], Starts(d)[i], Starts(d)[j]);
    }
  }

  lemma AreaOfImage(m: Motion, c: Contour, d: Contour)
    requires ContourImage(m, c, d)
    ensures DoubleArea(d) == DoubleArea(c)
  {
    AreaSumImage(m, c, d, |c.spans|);
    CyclicTelescopes(DriftWeight(m), p => Drift(m, p), Starts(c));
  }

  /** So is the orientation, wherever both computations overflow or neither does. */
  lemma OrientationOfImage(m: Motion, c: Contour, d: Contour)
    requires ContourImage(m, c, d)
    requires ShoelaceFits(c) <==> ShoelaceFits(d)
    ensures OrientationOf(d) == OrientationOf(c)
  {
    AreaOfImage(m, c, d);
  }

  // --------------------------------------------- translate and rotate are exact

  predicate TranslationFits(c: Contour, delta: Point) {
    forall i :: 0 <= i < |c.spans| ==>
      && SumFits(c.spans[i].start, delta) && SumFits(c.spans[i].end, delta)
      && (c.spans[i].Arc? ==> SumFits(c.spans[i].center, delta))
  }

  lemma TranslateIsImage(c: Contour, delta: Point)
    requires TranslationFits(c, delta)
    ensures ContourImage(Motion(0, delta.x, delta.y), c, TranslateContour(c, delta))
  {}

  /** Every checked step of the rotation of one point succeeds. */
  predicate PointRotationFits(p: Point, origin: Point, q: nat) {
    && DifferenceFits(p, origin)
    && p.x - origin.x != INT64_MIN && p.y - origin.y != INT64_MIN
    && Fits(origin.x + TurnX(q, p.x - origin.x, p.y - origin.y))
    && Fits(origin.y + TurnY(q, p.x - origin.x, p.y - origin.y))
  }

  predicate RotationFits(c: Contour, origin: Point, q: nat) {
    forall i :: 0 <= i < |c.spans| ==>
      && PointRotationFits(c.spans[i].start, origin, q) && PointRotationFits(c.spans[i].end, origin, q)
      && (c.spans[i].Arc? ==> PointRotationFits(c.spans[i].center, origin, q))
  }

  function RotationMotion(origin: Point, q: nat): Motion {
    Motion(q, origin.x - TurnX(q, origin.x, origin.y), origin.y - TurnY(q, origin.x, origin.y))
  }

  lemma RotatePointIsImage(p: Point, origin: Point, angle: i64)
    requires IsQuarterTurn(angle) && PointRotationFits(p, origin, QuarterTurns(angle))
    ensures PointImage(RotationMotion(origin, QuarterTurns(angle)), p, RotatePoint(p, origin, angle))
  {
    hide IsQuarterTurn, QuarterTurns, Add, Sub, RotateQuarterTurns;
    TurnIsExact(Sub(p, origin), QuarterTurns(angle));
  }

  lemma TurnIsExact(p: Point, q: nat)
    requires p.x != INT64_MIN && p.y != INT64_MIN
    ensures RotateQuarterTurns(p, q).x == TurnX(q, p.x, p.y) && RotateQuarterTurns(p, q).y == TurnY(q, p.x, p.y)
  {}

  /** A positive quarter turn is counterclockwise: what it makes of a point is at a right angle to it, to
      its left, and as far away. Further turns repeat it. */
  lemma QuarterTurnIsLeft(p: Point, angle: i64)
    requires angle % FULL_TURN_E6 == 90_000_000 && p.x != INT64_MIN && p.y != INT64_MIN
    ensures IsQuarterTurn(angle)
    ensures var r := RotatePoint(p, ORIGIN, angle);
            && p.x * r.x + p.y * r.y == 0
            && Det(p.x, p.y, r.x, r.y) == p.x * p.x + p.y * p.y == r.x * r.x + r.y * r.y
  {
    OneQuarter(angle);
    hide IsQuarterTurn, QuarterTurns, RotatePoint, Det;
    TurnedOnce(p, angle);
    RightAngle(p.x, p.y);
  }

  lemma OneQuarter(angle: i64)
    requires angle % FULL_TURN_E6 == 90_000_000
    ensures IsQuarterTurn(angle) && QuarterTurns(angle) == 1
  {
    assert NormalizeAngle(angle) == 90_000_000;
    hide NormalizeAngle;
  }

  lemma TurnedOnce(p: Point, angle: i64)
    requires IsQuarterTurn(angle) && QuarterTurns(angle) == 1 && p.x != INT64_MIN && p.y != INT64_MIN
    ensures RotatePoint(p, ORIGIN, angle) == Point(-p.y, p.x)
  {
    hide IsQuarterTurn, QuarterTurns;
  }

  lemma RightAngle(x: int, y: int)
    ensures x * -y + y * x == 0 && Det(x, y, -y, x) == x * x + y * y == -y * -y + x * x
  {}

  /** The angles that are quarter turns, and how many. */
  lemma QuarterTurnsIff(angle: i64, q: nat)
    requires q < 4
    ensures IsQuarterTurn(angle) && QuarterTurns(angle) == q <==> (angle - 90_000_000 * q) % 360_000_000 == 0
  {
    Congruent(angle, 90_000_000 * q);
    WholeQuarters(NormalizeAngle(angle), q);
    hide NormalizeAngle;
  }

  lemma Congruent(angle: int, k: nat)
    requires k < FULL_TURN_E6
    ensures (angle - k) % FULL_TURN_E6 == 0 <==> angle % FULL_TURN_E6 == k
  {}

  lemma WholeQuarters(r: nat, q: nat)
    ensures r % QUARTER_TURN_E6 == 0 && r / QUARTER_TURN_E6 == q <==> r == 90_000_000 * q
  {}

  lemma RotateIsImage(c: Contour, origin: Point, angle: i64)
    requires IsQuarterTurn(angle) && RotationFits(c, origin, QuarterTurns(angle))
    ensures ContourImage(RotationMotion(origin, QuarterTurns(angle)), c, RotateContour(c, origin, angle))
  {
    var m, d := RotationMotion(origin, QuarterTurns(angle)), RotateContour(c, origin, angle);
    forall i | 0 <= i < |c.spans|
      ensures SpanImage(m, c.spans[i], d.spans[i])
    {
      RotatePointIsImage(c.spans[i].start, origin, angle);
      RotatePointIsImage(c.spans[i].end, origin, angle);
      if c.spans[i].Arc? {
        RotatePointIsImage(c.spans[i].center, origin, angle);
      }
    }
  }

  lemma ValidityTranslated(c: Contour, delta: Point)
    requires TranslationFits(c, delta)
    ensures Validate(TranslateContour(c, delta)) == Validate(c)
  {
    TranslateIsImage(c, delta);
    ValidityOfImage(Motion(0, delta.x, delta.y), c, TranslateContour(c, delta));
  }

  lemma ValidityRotated(c: Contour, origin: Point, angle: i64)
    requires IsQuarterTurn(angle) && RotationFits(c, origin, QuarterTurns(angle))
    requires TestsFit(c) && TestsFit(RotateContour(c, origin, angle))
    ensures Validate(RotateContour(c, origin, angle)) == Validate(c)
  {
    RotateIsImage(c, origin, angle);
    ValidityOfImage(RotationMotion(origin, QuarterTurns(angle)), c, RotateContour(c, origin, angle));
  }

  // ------------------------------------------------------------------ reversal

  lemma SideSwap(a: Point, b: Point, p: Point)
    ensures Side(b, a, p) == -Side(a, b, p)
  {
    DetSwap(a, b, p);
    hide Det;
  }

  /** Reversing both chords and exchanging them leaves the crossing test alone. */
  lemma CrossingReversed(a1: Point, a2: Point, b1: Point, b2: Point)
    requires CrossingFits(a1, a2, b1, b2) && CrossingFits(b2, b1, a2, a1)
    ensures ChordsProperlyCross(b2, b1, a2, a1) <==> ChordsProperlyCross(a1, a2, b1, b2)
  {
    hide ChordsProperlyCross, Side, CrossingFits;
    CrossingIsExact(a1, a2, b1, b2);
    CrossingIsExact(b2, b1, a2, a1);
    SideSwap(a1, a2, b1);
    SideSwap(a1, a2, b2);
    SideSwap(b1, b2, a1);
    SideSwap(b1, b2, a2);
  }

  lemma SpansCrossReversed(c: Contour, i: nat, j: nat)
    requires TestsFit(c) && TestsFit(ReverseContour(c)) && i < j < |c.spans| && !IsAdjacent(i, j, |c.spans|)
    ensures var n := |c.spans|; SpansCross(ReverseContour(c), n - 1 - j, n - 1 - i) <==> SpansCross(c, i, j)
  {
    hide ChordsProperlyCross, CrossingFits, ArcFits, ReverseContour;
    var n, s, t := |c.spans|, c.spans[i], c.spans[j];
    var r := ReverseContour(c);
    assert r.spans[n - 1 - j] == ReverseSpan(t) && r.spans[n - 1 - i] == ReverseSpan(s);
    assert SpansFit(s, t) && SpansFit(r.spans[n - 1 - j], r.spans[n - 1 - i]);
    CrossingReversed(s.start, s.end, t.start, t.end);
  }

  lemma SelfIntersectionReversed(c: Contour)
    requires TestsFit(c) && TestsFit(ReverseContour(c)) && SelfIntersects(c)
    ensures SelfIntersects(ReverseContour(c))
  {
    hide SpansCross, TestsFit, ReverseContour;
    var n, r := |c.spans|, ReverseContour(c);
    var i, j :| 0 <= i < j < n && !IsAdjacent(i, j, n) && SpansCross(c, i, j);
    SpansCrossReversed(c, i, j);
    assert !IsAdjacent(n - 1 - j, n - 1 - i, n) && SpansCross(r, n - 1 - j, n - 1 - i);
  }

  lemma ContinuousReversed(c: Contour)
    requires Continuous(c)
    ensures Continuous(ReverseContour(c))
  {
    var n, r := |c.spans|, ReverseContour(c);
    forall i | 0 <= i < n
      ensures r.spans[i].end == r.spans[Next(i, n)].start
    {
      var j := n - 1 - Next(i, n);
      assert c.spans[j].end == c.spans[Next(j, n)].start;
    }
  }

  lemma ArcsReversed(c: Contour)
    requires ArcsValid(c)
    ensures ArcsValid(ReverseContour(c))
  {}

  /** Where no test overflows, a contour is valid exactly when its reversal is. */
  lemma ValidityReversed(c: Contour)
    requires TestsFit(c) && TestsFit(ReverseContour(c))
    ensures Validate(ReverseContour(c)) == Valid <==> Validate(c) == Valid
  {
    var r := ReverseContour(c);
    ValidMeans(c);
    ValidMeans(r);
    ReverseContourInvolution(c);
    hide Validate, SelfIntersects, ArcsValid, Continuous, TestsFit, ReverseContour;
    if Validate(c) == Valid {
      ContinuousReversed(c);
      ArcsReversed(c);
      if SelfIntersects(r) {
        SelfIntersectionReversed(r);
      }
    }
    if Validate(r) == Valid {
      ContinuousReversed(r);
      ArcsReversed(r);
      if SelfIntersects(c) {
        SelfIntersectionReversed(c);
      }
    }
  }
}
