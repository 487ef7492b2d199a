/** Containment and polygon validity under translations and quarter turns. */
module PolygonInvariance {
  import opened Wrappers
  import opened Int64
  import opened Seqs
  import opened Geometry
  import opened CyclicSum
  import opened Products
  import opened Contours
  import opened Polygons
  import opened Transforms
  import opened ContourInvariance

  // ------------------------------------------- one edge, seen from the point

  /** The containment test on an edge from `u` to `v`, both relative to the point. */
  predicate Flips(ux: int, uy: int, vx: int, vy: int) { Rises(uy, vy, Det(ux, uy, vx, vy)) }

  predicate Rises(u: int, v: int, det: int) { (u > 0) != (v > 0) && if v > u then det > 0 else det < 0 }

  /** The point is on the edge, ends included. */
  predicate Through(ux: int, uy: int, vx: int, vy: int) {
    Det(ux, uy, vx, vy) == 0 && ux * vx + uy * vy <= 0
  }

  /** The part of the plane between the ray towards increasing x and the ray that `q` quarter
      turns make of it, each with the ends that its test counts. */
  predicate Between(q: nat, x: int, y: int) {
    match q
    case 1 => x > 0 && y <= 0
    case 2 => y > 0 || (y == 0 && x < 0)
    case 3 => y > 0 && x >= 0
    case _ => false
  }

  lemma SignsOf(x: int, y: int)
    ensures x * y > 0 <==> (x > 0 && y > 0) || (x < 0 && y < 0)
    ensures x * y < 0 <==> (x > 0 && y < 0) || (x < 0 && y > 0)
  {}

  lemma FourSigns(ux: int, uy: int, vx: int, vy: int)
    ensures ux * vy > 0 <==> (ux > 0 && vy > 0) || (ux < 0 && vy < 0)
    ensures ux * vy < 0 <==> (ux > 0 && vy < 0) || (ux < 0 && vy > 0)
    ensures uy * vx > 0 <==> (uy > 0 && vx > 0) || (uy < 0 && vx < 0)
    ensures uy * vx < 0 <==> (uy > 0 && vx < 0) || (uy < 0 && vx > 0)
    ensures ux * vx > 0 <==> (ux > 0 && vx > 0) || (ux < 0 && vx < 0)
    ensures ux * vx < 0 <==> (ux > 0 && vx < 0) || (ux < 0 && vx > 0)
    ensures uy * vy > 0 <==> (uy > 0 && vy > 0) || (uy < 0 && vy < 0)
    ensures uy * vy < 0 <==> (uy > 0 && vy < 0) || (uy < 0 && vy > 0)
  {
    SignsOf(ux, vy);
    SignsOf(uy, vx);
    SignsOf(ux, vx);
    SignsOf(uy, vy);
  }

  /** Seen from a point off the edge, the test and the turned test disagree exactly when the
      edge leads into or out of the part between the two rays. */
  lemma FlipsTurned(q: nat, ux: int, uy: int, vx: int, vy: int)
    requires q < 4
    ensures var turned := Flips(TurnX(q, ux, uy), TurnY(q, ux, uy), TurnX(q, vx, vy), TurnY(q, vx, vy));
            if Through(ux, uy, vx, vy) then !Flips(ux, uy, vx, vy) && !turned
            else (Flips(ux, uy, vx, vy) != turned) == (Between(q, ux, uy) != Between(q, vx, vy))
  {
    TurnKeepsDet(q, ux, uy, vx, vy);
    FourSigns(ux, uy, vx, vy);
    if q == 1 {
      OneTurn(ux, uy, vx, vy, ux * vy, uy * vx, ux * vx, uy * vy);
    } else if q == 2 {
      TwoTurns(ux, uy, vx, vy, ux * vy, uy * vx, ux * vx, uy * vy);
    } else if q == 3 {
      ThreeTurns(ux, uy, vx, vy, ux * vy, uy * vx, ux * vx, uy * vy);
    }
  }

  /** The products of the coordinates, as far as their signs go. */
  predicate Signed(ux: int, uy: int, vx: int, vy: int, xy: int, yx: int, xx: int, yy: int) {
    && (xy > 0 <==> (ux > 0 && vy > 0) || (ux < 0 && vy < 0)) && (xy < 0 <==> (ux > 0 && vy < 0) || (ux < 0 && vy > 0))
    && (yx > 0 <==> (uy > 0 && vx > 0) || (uy < 0 && vx < 0)) && (yx < 0 <==> (uy > 0 && vx < 0) || (uy < 0 && vx > 0))
    && (xx > 0 <==> (ux > 0 && vx > 0) || (ux < 0 && vx < 0)) && (xx < 0 <==> (ux > 0 && vx < 0) || (ux < 0 && vx > 0))
    && (yy > 0 <==> (uy > 0 && vy > 0) || (uy < 0 && vy < 0)) && (yy < 0 <==> (uy > 0 && vy < 0) || (uy < 0 && vy > 0))
  }

  lemma OneTurn(ux: int, uy: int, vx: int, vy: int, xy: int, yx: int, xx: int, yy: int)
    requires Signed(ux, uy, vx, vy, xy, yx, xx, yy)
    ensures var det, dot := xy - yx, xx + yy;
            if det == 0 && dot <= 0 then !Rises(uy, vy, det) && !Rises(ux, vx, det)
            else (Rises(uy, vy, det) != Rises(ux, vx, det)) == (Between(1, ux, uy) != Between(1, vx, vy))
  {}

  lemma TwoTurns(ux: int, uy: int, vx: int, vy: int, xy: int, yx: int, xx: int, yy: int)
    requires Signed(ux, uy, vx, vy, xy, yx, xx, yy)
    ensures var det, dot := xy - yx, xx + yy;
            if det == 0 && dot <= 0 then !Rises(uy, vy, det) && !Rises(-uy, -vy, det)
            else (Rises(uy, vy, det) != Rises(-uy, -vy, det)) == (Between(2, ux, uy) != Between(2, vx, vy))
  {}

  lemma ThreeTurns(ux: int, uy: int, vx: int, vy: int, xy: int, yx: int, xx: int, yy: int)
    requires Signed(ux, uy, vx, vy, xy, yx, xx, yy)
    ensures var det, dot := xy - yx, xx + yy;
            if det == 0 && dot <= 0 then !Rises(uy, vy, det) && !Rises(-ux, -vx, det)
            else (Rises(uy, vy, det) != Rises(-ux, -vx, det)) == (Between(3, ux, uy) != Between(3, vx, vy))
  {}

  // -------------------------------------------------------- one edge, in place

  /** The vertex is in the part between the two rays from `p`. */
  predicate InPart(q: nat, p: Point, a: Point) { Between(q, a.x - p.x, a.y - p.y) }

  /** `p` is on the edge, ends included. */
  predicate Touches(a: Point, b: Point, p: Point) { Through(a.x - p.x, a.y - p.y, b.x - p.x, b.y - p.y) }

  /** `p` is on the edge, and `q` quarter turns carry the edge over the counted side. */
  predicate Disturbs(q: nat, a: Point, b: Point, p: Point) { Touches(a, b, p) && InPart(q, p, a) != InPart(q, p, b) }

  /** The containment test of this edge does not overflow. */
  predicate EdgeFits(a: Point, b: Point, p: Point) {
    Straddles(a, b, p) ==> DifferenceFits(b, a) && DifferenceFits(p, a) && EdgeCross(a, b, p).Some?
  }

  /** Then it only depends on what is seen from the point. */
  lemma EdgeIsExact(a: Point, b: Point, p: Point)
    requires EdgeFits(a, b, p)
    ensures !EdgeOverflows(a, b, p)
    ensures Toggles(a, b, p) <==> Flips(a.x - p.x, a.y - p.y, b.x - p.x, b.y - p.y)
  {
    SeenFrom(a.x - p.x, a.y - p.y, b.x - p.x, b.y - p.y);
    assert Straddles(a, b, p) ==> EdgeCross(a, b, p) == Some(Det(b.x - a.x, b.y - a.y, p.x - a.x, p.y - a.y));
    hide Det, EdgeCross;
  }

  lemma NearEdgeIsExact(a: Point, b: Point, p: Point)
    requires Near(a, b) && Near(a, p)
    ensures !EdgeOverflows(a, b, p)
    ensures Toggles(a, b, p) <==> Flips(a.x - p.x, a.y - p.y, b.x - p.x, b.y - p.y)
  {
    SmallProduct(b.x - a.x, p.y - a.y);
    SmallProduct(b.y - a.y, p.x - a.x);
    assert EdgeFits(a, b, p);
    hide EdgeFits, Toggles, EdgeOverflows, Flips;
    EdgeIsExact(a, b, p);
  }

  lemma SeenFrom(ux: int, uy: int, vx: int, vy: int)
    ensures Det(vx - ux, vy - uy, -ux, -uy) == Det(ux, uy, vx, vy)
  {}

  lemma SeenImage(m: Motion, a: Point, p: Point, a': Point, p': Point)
    requires PointImage(m, a, a') && PointImage(m, p, p')
    ensures a'.x - p'.x == TurnX(m.quarterTurns, a.x - p.x, a.y - p.y)
    ensures a'.y - p'.y == TurnY(m.quarterTurns, a.x - p.x, a.y - p.y)
  {}

  /** What a motion does to the test of one edge. */
  lemma EdgeOfImage(m: Motion, a: Point, b: Point, p: Point, a': Point, b': Point, p': Point)
    requires PointImage(m, a, a') && PointImage(m, b, b') && PointImage(m, p, p') && m.quarterTurns < 4
    requires EdgeFits(a, b, p) && EdgeFits(a', b', p')
    ensures var q := m.quarterTurns;
            (Toggles(a, b, p) != Toggles(a', b', p')) == ((InPart(q, p, a) != InPart(q, p, b)) != Disturbs(q, a, b, p))
  {
    hide Toggles, EdgeFits, Flips, Through, Between, TurnX, TurnY, PointImage;
    EdgeIsExact(a, b, p);
    EdgeIsExact(a', b', p');
    SeenImage(m, a, p, a', p');
    SeenImage(m, b, p, b', p');
    FlipsTurned(m.quarterTurns, a.x - p.x, a.y - p.y, b.x - p.x, b.y - p.y);
  }

  // ------------------------------------------------------------ a whole contour

  function PartOf(q: nat, p: Point, a: Point): int { Bit(InPart(q, p, a)) }

  function PartWeight(q: nat, p: Point): Weight { (a, b) => PartOf(q, p, b) - PartOf(q, p, a) }

  function DisturbWeight(q: nat, p: Point): Weight { (a, b) => Bit(Disturbs(q, a, b, p)) }

  /** The edges through `p` that `q` quarter turns carry over the counted side. */
  function Disturbances(q: nat, c: Contour, p: Point): int { Cyclic(DisturbWeight(q, p), Starts(c)) }

  /** The containment test overflows at no edge. */
  predicate EdgesFit(c: Contour, p: Point) {
    forall i :: 0 <= i < |c.spans| ==> EdgeFits(Starts(c)[i], Starts(c)[Next(i, |c.spans|)], p)
  }

  predicate Even(before: int, after: int, part: int, disturbed: int) { (before + after - part - disturbed) % 2 == 0 }

  lemma EdgeParity(m: Motion, c: Contour, d: Contour, p: Point, p': Point, i: nat)
    requires ContourImage(m, c, d) && PointImage(m, p, p') && m.quarterTurns < 4
    requires EdgesFit(c, p) && EdgesFit(d, p') && i < |c.spans|
    ensures var j := Next(i, |c.spans|);
            var a, b, a', b' := Starts(c)[i], Starts(c)[j], Starts(d)[i], Starts(d)[j];
            Even(ToggleWeight(p)(a, b), ToggleWeight(p')(a', b'), PartWeight(m.quarterTurns, p)(a, b),
                 DisturbWeight(m.quarterTurns, p)(a, b))
  {
    hide Toggles, InPart, Disturbs, PointImage, EdgeFits;
    var j := Next(i, |c.spans|);
    assert SpanImage(m, c.spans[i], d.spans[i]) && SpanImage(m, c.spans[j], d.spans[j]);
    var a, b, q := Starts(c)[i], Starts(c)[j], m.quarterTurns;
    EdgeOfImage(m, a, b, p, Starts(d)[i], Starts(d)[j], p');
    hide Starts, EdgesFit, ContourImage, SpanImage;
    ParityOf(Toggles(a, b, p), Toggles(Starts(d)[i], Starts(d)[j], p'), InPart(q, p, a), InPart(q, p, b),
      Disturbs(q, a, b, p));
  }

  function Bit(b: bool): int { if b then 1 else 0 }

  lemma ParityOf(before: bool, after: bool, from: bool, to: bool, disturbed: bool)
    requires (before != after) == ((from != to) != disturbed)
    ensures Even(Bit(before), Bit(after), Bit(to) - Bit(from), Bit(disturbed))
  {}

  lemma EvenSum(a: int, b: int, c: int, d: int, x: int, y: int, z: int, w: int)
    requires Even(a, b, c, d) && Even(x, y, z, w)
    ensures Even(a + x, b + y, c + z, d + w)
  {}

  lemma {:induction false} SumParity(m: Motion, c: Contour, d: Contour, p: Point, p': Point, k: nat)
    requires ContourImage(m, c, d) && PointImage(m, p, p') && m.quarterTurns < 4
    requires EdgesFit(c, p) && EdgesFit(d, p') && k <= |c.spans|
    ensures var q := m.quarterTurns;
            Even(EdgeSum(ToggleWeight(p), Starts(c), k), EdgeSum(ToggleWeight(p'), Starts(d), k),
                 EdgeSum(PartWeight(q, p), Starts(c), k), EdgeSum(DisturbWeight(q, p), Starts(c), k))
  {
    hide ContourImage, PointImage, EdgesFit, ToggleWeight, PartWeight, DisturbWeight, Even;
    SameLengths(m, c, d);
    if k > 0 {
      var i, j, q := k - 1, Next(k - 1, |c.spans|), m.quarterTurns;
      var a, b, a', b' := Starts(c)[i], Starts(c)[j], Starts(d)[i], Starts(d)[j];
      SumParity(m, c, d, p, p', i);
      EdgeParity(m, c, d, p, p', i);
      EvenSum(EdgeSum(ToggleWeight(p), Starts(c), i), EdgeSum(ToggleWeight(p'), Starts(d), i),
        EdgeSum(PartWeight(q, p), Starts(c), i), EdgeSum(DisturbWeight(q, p), Starts(c), i),
        ToggleWeight(p)(a, b), ToggleWeight(p')(a', b'), PartWeight(q, p)(a, b), DisturbWeight(q, p)(a, b));
    } else {
      NoEdges();
    }
  }

  lemma NoEdges()
    ensures Even(0, 0, 0, 0)
  {}

  lemma NoEdgeOverflows(c: Contour, p: Point)
    requires EdgesFit(c, p)
    ensures !SomeEdgeOverflows(c, p)
  {
    hide EdgeFits, EdgeOverflows;
    forall i | 0 <= i < |c.spans|
      ensures !EdgeOverflows(Starts(c)[i], Starts(c)[Next(i, |c.spans|)], p)
    {
      EdgeIsExact(Starts(c)[i], Starts(c)[Next(i, |c.spans|)], p);
    }
  }

  /** Under a translation every edge answers the same, overflow included. */
  lemma EdgeTranslated(m: Motion, a: Point, b: Point, p: Point, a': Point, b': Point, p': Point)
    requires PointImage(m, a, a') && PointImage(m, b, b') && PointImage(m, p, p') && m.quarterTurns == 0
    ensures Toggles(a', b', p') == Toggles(a, b, p) && EdgeOverflows(a', b', p') == EdgeOverflows(a, b, p)
  {
    SameDifference(m, b, a, b', a');
    SameDifference(m, p, a, p', a');
    hide Sub, Cross;
  }

  lemma {:induction false} TogglesTranslated(m: Motion, c: Contour, d: Contour, p: Point, p': Point, k: nat)
    requires ContourImage(m, c, d) && PointImage(m, p, p') && m.quarterTurns == 0 && k <= |c.spans|
    ensures EdgeSum(ToggleWeight(p'), Starts(d), k) == EdgeSum(ToggleWeight(p), Starts(c), k)
    ensures forall i :: 0 <= i < k ==>
              var j := Next(i, |c.spans|);
              EdgeOverflows(Starts(d)[i], Starts(d)[j], p') == EdgeOverflows(Starts(c)[i], Starts(c)[j], p)
  {
    hide Toggles, EdgeOverflows, PointImage;
    if k > 0 {
      TogglesTranslated(m, c, d, p, p', k - 1);
      var i, j := k - 1, Next(k - 1, |c.spans|);
      assert SpanImage(m, c.spans[i], d.spans[i]) && SpanImage(m, c.spans[j], d.spans[j]);
      EdgeTranslated(m, Starts(c)[i], Starts(c)[j], p, Starts(d)[i], Starts(d)[j], p');
    }
  }

  lemma ContainmentTranslated(m: Motion, c: Contour, d: Contour, p: Point, p': Point)
    requires ContourImage(m, c, d) && PointImage(m, p, p') && m.quarterTurns == 0
    ensures StrictlyContains(d, p') == StrictlyContains(c, p)
  {
    TogglesTranslated(m, c, d, p, p', |c.spans|);
    hide EdgeOverflows, ToggleWeight, EdgeSum, PointImage, SpanImage;
  }

  /** The containment tests of a contour and of its image overflow nowhere, or cannot differ. */
  predicate SameEdges(m: Motion, c: Contour, d: Contour, p: Point, p': Point) {
    m.quarterTurns == 0 || (EdgesFit(c, p) && EdgesFit(d, p'))
  }

  /** Under a translation and quarter turns the containment verdict changes if and only if an odd
      number of edges through the point is carried over the counted side. */
  lemma ContainmentOfImage(m: Motion, c: Contour, d: Contour, p: Point, p': Point)
    requires ContourImage(m, c, d) && PointImage(m, p, p') && m.quarterTurns < 4 && SameEdges(m, c, d, p, p')
    ensures (StrictlyContains(d, p') == StrictlyContains(c, p)) <==> Disturbances(m.quarterTurns, c, p) % 2 == 0
  {
    hide SomeEdgeOverflows, ToggleWeight, PartWeight, DisturbWeight, PointImage, EdgesFit, EdgeSum;
    if m.quarterTurns == 0 {
      hide StrictlyContains;
      ContainmentTranslated(m, c, d, p, p');
      NoDisturbance(0, c, p, |c.spans|);
    } else {
      NoEdgeOverflows(c, p);
      NoEdgeOverflows(d, p');
      SumParity(m, c, d, p, p', |c.spans|);
      PartsCancel(m.quarterTurns, c, p);
    }
  }

  /** Round the contour the part is left as often as it is entered. */
  lemma PartsCancel(q: nat, c: Contour, p: Point)
    ensures Cyclic(PartWeight(q, p), Starts(c)) == 0
  {
    hide InPart;
    CyclicTelescopes(PartWeight(q, p), a => PartOf(q, p, a), Starts(c));
  }

  /** No edge passes through `p`. */
  predicate OffEdges(c: Contour, p: Point) {
    forall i :: 0 <= i < |c.spans| ==> !Touches(Starts(c)[i], Starts(c)[Next(i, |c.spans|)], p)
  }

  lemma {:induction false} NoDisturbance(q: nat, c: Contour, p: Point, k: nat)
    requires k <= |c.spans| && (OffEdges(c, p) || q == 0)
    ensures EdgeSum(DisturbWeight(q, p), Starts(c), k) == 0
  {
    hide Touches;
    if k > 0 {
      NoDisturbance(q, c, p, k - 1);
    }
  }

  /** It never changes under a translation, nor for a point off the edges. */
  lemma ContainmentKept(m: Motion, c: Contour, d: Contour, p: Point, p': Point)
    requires ContourImage(m, c, d) && PointImage(m, p, p') && m.quarterTurns < 4
    requires SameEdges(m, c, d, p, p') && (OffEdges(c, p) || m.quarterTurns == 0)
    ensures StrictlyContains(d, p') == StrictlyContains(c, p)
  {
    hide StrictlyContains, PointImage, SameEdges, OffEdges, ContourImage;
    ContainmentOfImage(m, c, d, p, p');
    NoDisturbance(m.quarterTurns, c, p, |c.spans|);
  }

  // ------------------------------------------------- on an edge means on its chord

  /** In one coordinate: opposite displacements are the two parts of the edge. */
  lemma ParameterOf(ux: int, uy: int, vx: int, vy: int) returns (t: real)
    requires Through(ux, uy, vx, vy) && ux != vx
    ensures 0.0 <= t <= 1.0
    ensures t * (vx - ux) as real == -ux as real && t * (vy - uy) as real == -uy as real
  {
    FourSigns(ux, uy, vx, vy);
    t := RatioInUnit(-ux, vx - ux);
    SameRatio(ux, uy, vx, vy, t);
  }

  lemma SameRatio(ux: int, uy: int, vx: int, vy: int, t: real)
    requires Det(ux, uy, vx, vy) == 0 && ux != vx && t * (vx - ux) as real == -ux as real
    ensures t * (vy - uy) as real == -uy as real
  {
    var d, e := (vx - ux) as real, (vy - uy) as real;
    IntProduct(ux, vy - uy);
    IntProduct(uy, vx - ux);
    CrossedProducts(ux, uy, vx, vy);
    Associate(t, d, e);
    Associate(t, e, d);
    NegatedFactors(ux as real, e);
    NegatedFactors(uy as real, d);
    DifferenceTimes(t * e, -uy as real, d);
    ProductSign(t * e - (-uy as real), d);
  }

  lemma CrossedProducts(ux: int, uy: int, vx: int, vy: int)
    requires Det(ux, uy, vx, vy) == 0
    ensures ux * (vy - uy) == uy * (vx - ux)
  {}

  /** A point that an edge passes through is on the chord, as real geometry in the plane. */
  lemma TouchesIsOnChord(a: Point, b: Point, p: Point)
    requires Touches(a, b, p)
    ensures OnChord(a, b, p)
  {
    var ux, uy, vx, vy := a.x - p.x, a.y - p.y, b.x - p.x, b.y - p.y;
    assert Through(ux, uy, vx, vy);
    if ux != vx {
      hide Through;
      var t := ParameterOf(ux, uy, vx, vy);
      assert AtParameter(a, b, p, t);
    } else if uy != vy {
      hide Through;
      Through90(ux, uy, vx, vy);
      var t := ParameterOf(uy, ux, vy, vx);
      assert AtParameter(a, b, p, t);
    } else {
      SquaresVanish(ux, uy);
      assert AtParameter(a, b, p, 0.0);
    }
  }

  lemma Through90(ux: int, uy: int, vx: int, vy: int)
    requires Through(ux, uy, vx, vy)
    ensures Through(uy, ux, vy, vx)
  {}

  lemma SquaresVanish(x: int, y: int)
    requires x * x + y * y <= 0
    ensures x == 0 && y == 0
  {
    SignsOf(x, x);
    SignsOf(y, y);
  }

  lemma OffChordsIsOffEdges(c: Contour, p: Point)
    requires !OnSomeChord(c, p)
    ensures OffEdges(c, p)
  {
    hide Touches, OnChord;
    forall i | 0 <= i < |c.spans|
      ensures !Touches(Starts(c)[i], Starts(c)[Next(i, |c.spans|)], p)
    {
      if Touches(Starts(c)[i], Starts(c)[Next(i, |c.spans|)], p) {
        TouchesIsOnChord(Starts(c)[i], Starts(c)[Next(i, |c.spans|)], p);
      }
    }
  }

  // ------------------------------------------------------------ outlines with holes

  predicate PolygonImage(m: Motion, p: Polygon, r: Polygon) {
    && ContourImage(m, p.outline, r.outline) && |r.holes| == |p.holes|
    && forall i :: 0 <= i < |p.holes| ==> ContourImage(m, p.holes[i], r.holes[i])
  }

  /** No crossing test between the outline and a hole overflows. */
  predicate CrossingsFit(c: Contour, h: Contour) {
    forall i, j :: 0 <= i < |c.spans| && 0 <= j < |h.spans| ==> SpansFit(c.spans[i], h.spans[j])
  }

  /** No test of a hole overflows. */
  predicate HoleTestsFit(c: Contour, h: Contour) {
    TestsFit(h) && CrossingsFit(c, h) && (h.spans != [] ==> EdgesFit(c, h.spans[0].start))
  }

  /** No test that `validate` may make of the polygon overflows. */
  predicate PolygonTestsFit(p: Polygon) {
    TestsFit(p.outline) && forall i :: 0 <= i < |p.holes| ==> HoleTestsFit(p.outline, p.holes[i])
  }

  /** Each shoelace sum overflows before and after, or neither before nor after. */
  predicate AreasAlike(p: Polygon, r: Polygon) {
    && |r.holes| == |p.holes| && (ShoelaceFits(r.outline) <==> ShoelaceFits(p.outline))
    && forall i :: 0 <= i < |p.holes| ==> (ShoelaceFits(r.holes[i]) <==> ShoelaceFits(p.holes[i]))
  }

  /** The tests of a hole and of its image come out alike, up to containment. */
  predicate SameHoleTests(m: Motion, c: Contour, h: Contour, c': Contour, h': Contour) {
    m.quarterTurns == 0 || (HoleTestsFit(c, h) && HoleTestsFit(c', h'))
  }

  predicate SamePolygonTests(m: Motion, p: Polygon, r: Polygon) {
    m.quarterTurns == 0 || (PolygonTestsFit(p) && PolygonTestsFit(r))
  }

  /** The turns do not change whether the first vertex of the hole is inside the outline. */
  predicate Undisturbed(q: nat, outline: Contour, hole: Contour) {
    hole.spans == [] || Disturbances(q, outline, hole.spans[0].start) % 2 == 0
  }

  lemma NoCrossingOfImage(m: Motion, c: Contour, h: Contour, c': Contour, h': Contour)
    requires ContourImage(m, c, c') && ContourImage(m, h, h')
    requires m.quarterTurns == 0 || (CrossingsFit(c, h) && CrossingsFit(c', h'))
    ensures NoChordCrossing(c', h') <==> NoChordCrossing(c, h)
  {
    forall i, j | 0 <= i < |c.spans| && 0 <= j < |h.spans|
      ensures ChordsProperlyCross(c'.spans[i].start, c'.spans[i].end, h'.spans[j].start, h'.spans[j].end)
              <==> ChordsProperlyCross(c.spans[i].start, c.spans[i].end, h.spans[j].start, h.spans[j].end)
    {
      CrossOfImage(m, c, h, c', h', i, j);
    }
    hide ChordsProperlyCross, ContourImage, CrossingsFit;
  }

  lemma CrossOfImage(m: Motion, c: Contour, h: Contour, c': Contour, h': Contour, i: nat, j: nat)
    requires ContourImage(m, c, c') && ContourImage(m, h, h') && i < |c.spans| && j < |h.spans|
    requires m.quarterTurns == 0 || (CrossingsFit(c, h) && CrossingsFit(c', h'))
    ensures ChordsProperlyCross(c'.spans[i].start, c'.spans[i].end, h'.spans[j].start, h'.spans[j].end)
            <==> ChordsProperlyCross(c.spans[i].start, c.spans[i].end, h.spans[j].start, h.spans[j].end)
  {
    hide ChordsProperlyCross, PointImage, CrossingFits;
    var s, t, s', t' := c.spans[i], h.spans[j], c'.spans[i], h'.spans[j];
    assert SpanImage(m, s, s') && SpanImage(m, t, t');
    assert m.quarterTurns != 0 ==> SpansFit(s, t) && SpansFit(s', t');
    CrossingOfImage(m, s.start, s.end, t.start, t.end, s'.start, s'.end, t'.start, t'.end);
  }

  /** The containment of the first vertex of a hole. */
  lemma FirstVertexOfImage(m: Motion, c: Contour, h: Contour, c': Contour, h': Contour)
    requires ContourImage(m, c, c') && ContourImage(m, h, h') && m.quarterTurns < 4 && h.spans != []
    requires SameHoleTests(m, c, h, c', h')
    ensures StrictlyContains(c', h'.spans[0].start) == StrictlyContains(c, h.spans[0].start)
            <==> Undisturbed(m.quarterTurns, c, h)
  {
    hide StrictlyContains, PointImage, EdgesFit, CrossingsFit, TestsFit, Disturbances;
    assert SpanImage(m, h.spans[0], h'.spans[0]);
    ContainmentOfImage(m, c, c', h.spans[0].start, h'.spans[0].start);
  }

  /** What is wrong with a hole is the same for the image, exactly when the hole is undisturbed or
      already something else is wrong with it. */
  lemma HoleDefectOfImage(m: Motion, c: Contour, h: Contour, c': Contour, h': Contour)
    requires ContourImage(m, c, c') && HoleMoves(m, c, h, c', h') && m.quarterTurns < 4
    ensures HoleDefect(c', h') == HoleDefect(c, h) <==>
            || Undisturbed(m.quarterTurns, c, h)
            || Validate(h) != Valid || OrientationOf(h) != Orientation.Clockwise || !NoChordCrossing(c, h)
  {
    hide Validate, OrientationOf, NoChordCrossing, StrictlyContains, ContourImage, TestsFit, CrossingsFit, EdgesFit,
      ShoelaceFits, Undisturbed;
    ValidityOfImage(m, h, h');
    OrientationOfImage(m, h, h');
    NoCrossingOfImage(m, c, h, c', h');
    if Validate(h) == Valid {
      ValidHasSpans(h);
      FirstVertexOfImage(m, c, h, c', h');
    }
  }

  lemma ValidHasSpans(c: Contour)
    requires Validate(c) == Valid
    ensures c.spans != []
  {
    hide SelfIntersects, ArcsValid, Continuous;
    ValidMeans(c);
  }

  lemma {:induction false} FirstDefectOfImage(m: Motion, c: Contour, hs: seq<Contour>, c': Contour, hs': seq<Contour>)
    requires |hs'| == |hs| && ContourImage(m, c, c') && m.quarterTurns < 4
    requires forall i :: 0 <= i < |hs| ==> HoleMoves(m, c, hs[i], c', hs'[i]) && Undisturbed(m.quarterTurns, c, hs[i])
    ensures FirstHoleDefect(c', hs') == FirstHoleDefect(c, hs)
  {
    hide HoleDefect, ContourImage, HoleMoves, Undisturbed;
    if hs != [] {
      HoleDefectOfImage(m, c, hs[0], c', hs'[0]);
      FirstDefectOfImage(m, c, hs[1..], c', hs'[1..]);
    }
  }

  /** A hole and its image: the tests and the areas come out alike, up to containment. */
  predicate HoleMoves(m: Motion, c: Contour, h: Contour, c': Contour, h': Contour) {
    ContourImage(m, h, h') && SameHoleTests(m, c, h, c', h') && (ShoelaceFits(h') <==> ShoelaceFits(h))
  }

  lemma HolesMove(m: Motion, p: Polygon, r: Polygon)
    requires PolygonImage(m, p, r) && SamePolygonTests(m, p, r) && AreasAlike(p, r)
    ensures forall i :: 0 <= i < |p.holes| ==> HoleMoves(m, p.outline, p.holes[i], r.outline, r.holes[i])
    ensures SameTests(m, p.outline, r.outline)
  {
    hide ContourImage, TestsFit, HoleTestsFit, ShoelaceFits;
  }

  /** The verdict on a polygon with holes, down to the defect that is reported, is kept by a
      translation and quarter turns that disturb no hole. */
  lemma PolygonOfImage(m: Motion, p: Polygon, r: Polygon)
    requires PolygonImage(m, p, r) && SamePolygonTests(m, p, r) && AreasAlike(p, r) && m.quarterTurns < 4
    requires forall i :: 0 <= i < |p.holes| ==> Undisturbed(m.quarterTurns, p.outline, p.holes[i])
    ensures ValidatePolygon(r) == ValidatePolygon(p)
  {
    hide Validate, OrientationOf, ContourImage, SamePolygonTests, SameTests, ShoelaceFits, Undisturbed,
      FirstHoleDefect, HoleMoves;
    HolesMove(m, p, r);
    ValidityOfImage(m, p.outline, r.outline);
    OrientationOfImage(m, p.outline, r.outline);
    FirstDefectOfImage(m, p.outline, p.holes, r.outline, r.holes);
  }

  /** A valid polygon stays valid if and only if no hole is disturbed. */
  lemma ValidPolygonOfImageIff(m: Motion, p: Polygon, r: Polygon)
    requires PolygonImage(m, p, r) && SamePolygonTests(m, p, r) && AreasAlike(p, r) && m.quarterTurns < 4
    requires ValidatePolygon(p) == PolygonValid
    ensures ValidatePolygon(r) == PolygonValid <==>
            forall i :: 0 <= i < |p.holes| ==> Undisturbed(m.quarterTurns, p.outline, p.holes[i])
  {
    hide Validate, OrientationOf, ContourImage, SamePolygonTests, ShoelaceFits, Undisturbed, ValidatePolygon,
      HoleDefect, StrictlyContains, NoChordCrossing, HoleMoves;
    ValidPolygonMeans(p);
    ValidPolygonMeans(r);
    HolesMove(m, p, r);
    if forall i :: 0 <= i < |p.holes| ==> Undisturbed(m.quarterTurns, p.outline, p.holes[i]) {
      PolygonOfImage(m, p, r);
    } else {
      var i :| 0 <= i < |p.holes| && !Undisturbed(m.quarterTurns, p.outline, p.holes[i]);
      assert HoleFits(p.outline, p.holes[i]);
      NoDefectIffFits(p.outline, p.holes[i]);
      NoDefectIffFits(r.outline, r.holes[i]);
      HoleDefectOfImage(m, p.outline, p.holes[i], r.outline, r.holes[i]);
    }
  }

  // ------------------------------------------------------- translate and rotate

  predicate PolygonTranslationFits(p: Polygon, delta: Point) {
    TranslationFits(p.outline, delta) && forall i :: 0 <= i < |p.holes| ==> TranslationFits(p.holes[i], delta)
  }

  predicate PolygonRotationFits(p: Polygon, origin: Point, q: nat) {
    RotationFits(p.outline, origin, q) && forall i :: 0 <= i < |p.holes| ==> RotationFits(p.holes[i], origin, q)
  }

  /** Moving a polygon with holes never changes the verdict on it. */
  lemma PolygonTranslated(p: Polygon, delta: Point)
    requires PolygonTranslationFits(p, delta) && AreasAlike(p, TranslatePolygon(p, delta))
    ensures ValidatePolygon(TranslatePolygon(p, delta)) == ValidatePolygon(p)
  {
    hide ValidatePolygon, ContourImage, TranslateContour, TranslationFits, AreasAlike, Undisturbed;
    var m := Motion(0, delta.x, delta.y);
    TranslateIsImage(p.outline, delta);
    forall i | 0 <= i < |p.holes|
      ensures ContourImage(m, p.holes[i], TranslateContour(p.holes[i], delta))
      ensures Undisturbed(0, p.outline, p.holes[i])
    {
      TranslateIsImage(p.holes[i], delta);
      StillUndisturbed(p.outline, p.holes[i]);
    }
    PolygonOfImage(m, p, TranslatePolygon(p, delta));
  }

  lemma StillUndisturbed(c: Contour, h: Contour)
    ensures Undisturbed(0, c, h)
  {
    if h.spans != [] {
      NoDisturbance(0, c, h.spans[0].start, |c.spans|);
    }
  }

  /** Turning it by a multiple of 90 degrees keeps the verdict when no hole is disturbed, and
      keeps a valid polygon valid only then. */
  lemma PolygonRotated(p: Polygon, origin: Point, angle: i64)
    requires IsQuarterTurn(angle) && PolygonRotationFits(p, origin, QuarterTurns(angle))
    requires var r := RotatePolygon(p, origin, angle);
             PolygonTestsFit(p) && PolygonTestsFit(r) && AreasAlike(p, r)
    ensures var kept := forall i :: 0 <= i < |p.holes| ==> Undisturbed(QuarterTurns(angle), p.outline, p.holes[i]);
            && (kept ==> ValidatePolygon(RotatePolygon(p, origin, angle)) == ValidatePolygon(p))
            && (ValidatePolygon(p) == PolygonValid ==>
                (ValidatePolygon(RotatePolygon(p, origin, angle)) == PolygonValid <==> kept))
  {
    hide ValidatePolygon, ContourImage, RotateContour, RotationFits, PolygonTestsFit, AreasAlike, Undisturbed,
      IsQuarterTurn, QuarterTurns;
    var m, r := RotationMotion(origin, QuarterTurns(angle)), RotatePolygon(p, origin, angle);
    RotateIsImage(p.outline, origin, angle);
    forall i | 0 <= i < |p.holes|
      ensures ContourImage(m, p.holes[i], r.holes[i])
    {
      RotateIsImage(p.holes[i], origin, angle);
    }
    if forall i :: 0 <= i < |p.holes| ==> Undisturbed(QuarterTurns(angle), p.outline, p.holes[i]) {
      PolygonOfImage(m, p, r);
    }
    if ValidatePolygon(p) == PolygonValid {
      ValidPolygonOfImageIff(m, p, r);
    }
  }

  /** In particular when every hole starts off the chords of the outline. */
  lemma OffChordsIsUndisturbed(q: nat, outline: Contour, hole: Contour)
    requires hole.spans != [] && !OnSomeChord(outline, hole.spans[0].start)
    ensures Undisturbed(q, outline, hole)
  {
    OffChordsIsOffEdges(outline, hole.spans[0].start);
    hide OffEdges, OnSomeChord;
    NoDisturbance(q, outline, hole.spans[0].start, |outline.spans|);
  }

  // -------------------------------------------------------- where the verdict turns

  /** Round four vertices the containment verdict is the parity of four tests. */
  lemma FourToggles(c: Contour, p: Point)
    requires |c.spans| == 4 && !SomeEdgeOverflows(c, p)
    ensures var v := Starts(c);
            StrictlyContains(c, p) <==>
            (Bit(Toggles(v[0], v[1], p)) + Bit(Toggles(v[1], v[2], p))
             + Bit(Toggles(v[2], v[3], p)) + Bit(Toggles(v[3], v[0], p))) % 2 == 1
  {
    hide Toggles, SomeEdgeOverflows;
    SumOfFour(ToggleWeight(p), Starts(c));
  }

  /** A square with two of its corners at the origin and at (size, size). */
  function Square(size: i64): Contour {
    Contour([Segment(Point(0, 0), Point(size, 0)), Segment(Point(size, 0), Point(size, size)),
             Segment(Point(size, size), Point(0, size)), Segment(Point(0, size), Point(0, 0))])
  }

  lemma SquareTurned(size: i64, angle: i64)
    requires -SPREAD <= size <= SPREAD && IsQuarterTurn(angle) && QuarterTurns(angle) == 2
    ensures RotateContour(Square(size), ORIGIN, angle) == Square(-size)
  {
    hide IsQuarterTurn, QuarterTurns;
    assert RotateContour(Square(size), ORIGIN, angle).spans == Square(-size).spans;
  }

  /** The tests of the four edges for a point on the left one. */
  lemma EdgesOfSquare(size: i64, y: i64)
    requires -SPREAD <= size <= SPREAD && (0 < y < size || size < y < 0)
    ensures var v, p := Starts(Square(size)), Point(0, y);
            && !EdgeOverflows(v[0], v[1], p) && !EdgeOverflows(v[1], v[2], p)
            && !EdgeOverflows(v[2], v[3], p) && !EdgeOverflows(v[3], v[0], p)
            && !Toggles(v[0], v[1], p) && (Toggles(v[1], v[2], p) <==> size > 0)
            && !Toggles(v[2], v[3], p) && !Toggles(v[3], v[0], p)
  {
    hide EdgeOverflows, Toggles;
    var p, a, b, c, d := Point(0, y), Point(0, 0), Point(size, 0), Point(size, size), Point(0, size);
    assert Starts(Square(size)) == [a, b, c, d];
    hide Starts, Square;
    NearEdgeIsExact(a, b, p);
    NearEdgeIsExact(b, c, p);
    NearEdgeIsExact(c, d, p);
    NearEdgeIsExact(d, a, p);
    assert Det(size, -y, size, size - y) == size * size;
    SignsOf(size, size);
  }

  lemma EdgePointContained(size: i64, y: i64)
    requires -SPREAD <= size <= SPREAD && (0 < y < size || size < y < 0)
    ensures StrictlyContains(Square(size), Point(0, y)) <==> size > 0
  {
    hide StrictlyContains, Toggles, EdgeOverflows, Starts;
    EdgesOfSquare(size, y);
    FourToggles(Square(size), Point(0, y));
  }

  /** A point on the left edge of a square counts as inside, and no longer after half a turn. */
  lemma EdgePointIsDisturbed(size: i64, y: i64, angle: i64)
    requires 0 < y < size <= SPREAD && IsQuarterTurn(angle) && QuarterTurns(angle) == 2
    ensures StrictlyContains(Square(size), Point(0, y))
    ensures !StrictlyContains(RotateContour(Square(size), ORIGIN, angle), RotatePoint(Point(0, y), ORIGIN, angle))
  {
    assert RotatePoint(Point(0, y), ORIGIN, angle) == Point(0, -y) by {
      hide IsQuarterTurn, QuarterTurns;
    }
    hide StrictlyContains, Square, RotateContour, RotatePoint, IsQuarterTurn, QuarterTurns;
    SquareTurned(size, angle);
    EdgePointContained(size, y);
    EdgePointContained(-size, -y);
  }
}
