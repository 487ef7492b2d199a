/** Zones as text: `sexpr_build.hpp`, `sexpr_util.hpp`, `export_zone_entry` and
    `parse_zone_outline`, and the round trip through the written file. */
module Zones {
  import opened Wrappers
  import opened Int64
  import opened Seqs
  import opened Geometry
  import opened Contours
  import opened Polygons
  import opened SExprs
  import opened SExprGrammar
  import D = Decimals
  import I = Identifiers

  // ------------------------------------------------------- building and looking up

  function Tagged(tag: string, rest: seq<SExpr>): SExpr { List([Symbol(tag)] + rest) }

  function CoordinatePair(tag: string, p: Point): SExpr {
    Tagged(tag, [Symbol(D.Format(p.x)), Symbol(D.Format(p.y))])
  }

  /** The `children` field, empty for an atom. */
  function Children(e: SExpr): seq<SExpr> { if e.List? then e.children else [] }

  /** The `text` field, empty for a list. */
  function Text(e: SExpr): string { if e.List? then "" else e.text }

  predicate HasTag(e: SExpr, tag: string) {
    e.List? && e.children != [] && e.children[0] == Symbol(tag)
  }

  /** Only a symbol at the head of a list is a tag. */
  lemma TagIsSymbol(head: SExpr, rest: seq<SExpr>, tag: string)
    ensures HasTag(List([head] + rest), tag) <==> head.Symbol? && head.text == tag
    ensures !HasTag(List([]), tag) && (!head.List? ==> !HasTag(head, tag))
  {}

  function FirstTagged(es: seq<SExpr>, tag: string): Option<SExpr> {
    if es == [] then None else if HasTag(es[0], tag) then Some(es[0]) else FirstTagged(es[1..], tag)
  }

  function AllTagged(es: seq<SExpr>, tag: string): seq<SExpr> {
    if es == [] then []
    else AllTagged(es[..|es| - 1], tag) + if HasTag(es[|es| - 1], tag) then [es[|es| - 1]] else []
  }

  function FindChild(e: SExpr, tag: string): Option<SExpr> { FirstTagged(Children(e), tag) }

  method FindAllChildren(e: SExpr, tag: string) returns (result: seq<SExpr>)
    ensures result == AllTagged(Children(e), tag)
  {
    result := [];
    var es := Children(e);
    for i := 0 to |es|
      invariant result == AllTagged(es[..i], tag)
    {
      assert es[..i + 1][..i] == es[..i];
      if HasTag(es[i], tag) {
        result := result + [es[i]];
      }
    }
    assert es[..|es|] == es;
  }

  // -------------------------------------------------------------------- importing

  function ParseCoordinatePair(e: SExpr): Option<Point> {
    var cs := Children(e);
    if |cs| < 3 then None
    else match (D.Parse(Text(cs[1])), D.Parse(Text(cs[2])))
      case (Some(x), Some(y)) => Some(Point(x, y))
      case _ => None
  }

  /** The entries of a `(pts ...)` node: only `(xy X Y)` is supported. */
  function ParsePoints(entries: seq<SExpr>): Option<seq<Point>> {
    if entries == [] then Some([])
    else
      var last := |entries| - 1;
      match (ParsePoints(entries[..last]),
             if HasTag(entries[last], "xy") then ParseCoordinatePair(entries[last]) else None)
      case (Some(ps), Some(p)) => Some(ps + [p])
      case _ => None
  }

  /** Straight edges from each point to the next and back to the first. */
  function ClosedPolyline(points: seq<Point>): Contour {
    Contour(seq(|points|, i requires 0 <= i < |points| => Segment(points[i], points[Next(i, |points|)])))
  }

  /** `parse_zone_polygon`; `None` is the thrown ImportError. */
  function ParsePolygonNode(e: SExpr): Option<Contour> {
    match FindChild(e, "pts")
    case None => None
    case Some(pts) =>
      if |Children(pts)| < 4 then None
      else match ParsePoints(Children(pts)[1..])
        case None => None
        case Some(points) => Some(ClosedPolyline(points))
  }

  method ParseZonePolygon(e: SExpr) returns (r: Option<Contour>)
    ensures r == ParsePolygonNode(e)
  {
    hide FirstTagged, HasTag, ParseCoordinatePair, ParsePoints, ClosedPolyline;
    var pts := FindChild(e, "pts");
    if pts.None? || |Children(pts.value)| < 4 {
      return None;
    }
    var points := CollectPoints(Children(pts.value)[1..]);
    if points.None? {
      return None;
    }
    var contour := ClosePoints(points.value);
    return Some(contour);
  }

  /** The loop over the `(xy ...)` entries. */
  method CollectPoints(entries: seq<SExpr>) returns (r: Option<seq<Point>>)
    ensures r == ParsePoints(entries)
  {
    hide HasTag, ParseCoordinatePair;
    var points: seq<Point> := [];
    for i := 0 to |entries|
      invariant ParsePoints(entries[..i]) == Some(points)
    {
      assert entries[..i + 1][..i] == entries[..i];
      var p := if HasTag(entries[i], "xy") then ParseCoordinatePair(entries[i]) else None;
      if p.None? {
        PointsFail(entries, i + 1);
        return None;
      }
      points := points + [p.value];
    }
    assert entries[..|entries|] == entries;
    return Some(points);
  }

  /** The loop that joins consecutive points. */
  method ClosePoints(points: seq<Point>) returns (c: Contour)
    ensures c == ClosedPolyline(points)
  {
    var spans: seq<Span> := [];
    for i := 0 to |points|
      invariant spans == ClosedPolyline(points).spans[..i]
    {
      NextIsModulo(i, |points|);
      spans := spans + [Segment(points[i], points[(i + 1) % |points|])];
    }
    assert ClosedPolyline(points).spans[..|points|] == ClosedPolyline(points).spans;
    c := Contour(spans);
  }

  lemma {:induction false} PointsFail(entries: seq<SExpr>, i: nat)
    requires i <= |entries| && ParsePoints(entries[..i]).None?
    ensures ParsePoints(entries).None?
  {
    hide HasTag, ParseCoordinatePair;
    if i < |entries| {
      assert entries[..|entries| - 1][..i] == entries[..i];
      PointsFail(entries[..|entries| - 1], i);
    } else {
      assert entries[..i] == entries;
    }
  }

  /** `canonicalize_hole_winding`. */
  function CanonicalHoleWinding(c: Contour): Contour { ReverseContour(CanonicalWinding(c)) }

  method CanonicalizeHoleWinding(c: Contour) returns (r: Contour)
    ensures r == CanonicalHoleWinding(c)
  {
    r := CanonicalizeWinding(c);
    r := ReverseSpansInPlace(r);
  }

  /** Without overflow, a hole of non-zero area always ends up clockwise. */
  lemma CanonicalHoleIsClockwise(c: Contour)
    requires Continuous(c)
    requires ShoelaceFits(c) && ShoelaceFits(ReverseContour(c))
    ensures OrientationOf(CanonicalHoleWinding(c)) == Orientation.Clockwise <==> DoubleArea(c) != 0
  {
    hide ShoelaceFits, DoubleArea, ReverseContour, Continuous;
    ReversalNegatesArea(c);
    ReverseContourInvolution(c);
  }

  function ParseHoles(nodes: seq<SExpr>): Option<seq<Contour>> {
    if nodes == [] then Some([])
    else
      var last := |nodes| - 1;
      match (ParseHoles(nodes[..last]), ParsePolygonNode(nodes[last]))
      case (Some(holes), Some(c)) => Some(holes + [CanonicalHoleWinding(c)])
      case _ => None
  }

  /** `parse_zone_outline`. */
  function ParseOutline(zone: SExpr): Option<Polygon> {
    var nodes := AllTagged(Children(zone), "polygon");
    if nodes == [] then None
    else match (ParsePolygonNode(nodes[0]), ParseHoles(nodes[1..]))
      case (Some(c), Some(holes)) => Some(Polygon(CanonicalWinding(c), holes))
      case _ => None
  }

  method ParseZoneOutline(zone: SExpr) returns (r: Option<Polygon>)
    ensures r == ParseOutline(zone)
  {
    hide AllTagged, ParsePolygonNode, CanonicalHoleWinding, CanonicalWinding;
    var nodes := FindAllChildren(zone, "polygon");
    if nodes == [] {
      return None;
    }
    var first := ParseZonePolygon(nodes[0]);
    if first.None? {
      return None;
    }
    var outline := CanonicalizeWinding(first.value);
    var rest, holes: seq<Contour> := nodes[1..], [];
    for i := 0 to |rest|
      invariant ParseHoles(rest[..i]) == Some(holes)
    {
      assert rest[..i + 1][..i] == rest[..i];
      var c := ParseZonePolygon(rest[i]);
      if c.None? {
        HolesFail(rest, i + 1);
        return None;
      }
      var hole := CanonicalizeHoleWinding(c.value);
      holes := holes + [hole];
    }
    assert rest[..|rest|] == rest;
    return Some(Polygon(outline, holes));
  }

  lemma {:induction false} HolesFail(nodes: seq<SExpr>, i: nat)
    requires i <= |nodes| && ParseHoles(nodes[..i]).None?
    ensures ParseHoles(nodes).None?
  {
    hide ParsePolygonNode, CanonicalHoleWinding;
    if i < |nodes| {
      assert nodes[..|nodes| - 1][..i] == nodes[..i];
      HolesFail(nodes[..|nodes| - 1], i);
    } else {
      assert nodes[..i] == nodes;
    }
  }

  // ------------------------------------------------------- what an import comes to

  /** An entry of a point list that is read. */
  predicate IsPoint(entry: SExpr) { HasTag(entry, "xy") && ParseCoordinatePair(entry).Some? }

  lemma {:induction false} PointsIff(entries: seq<SExpr>)
    ensures ParsePoints(entries).Some? <==> forall i :: 0 <= i < |entries| ==> IsPoint(entries[i])
    ensures ParsePoints(entries).Some? ==>
              var points := ParsePoints(entries).value;
              && |points| == |entries|
              && forall i :: 0 <= i < |entries| ==> Some(points[i]) == ParseCoordinatePair(entries[i])
  {
    hide HasTag, ParseCoordinatePair;
    if entries != [] {
      var last := |entries| - 1;
      PointsIff(entries[..last]);
      assert forall i :: 0 <= i < last ==> entries[..last][i] == entries[i];
      assert entries[last] == entries[|entries| - 1];
    }
  }

  /** The entries of the first point list of a polygon node, behind its tag. */
  function EntriesOf(e: SExpr): seq<SExpr> {
    match FindChild(e, "pts")
    case None => []
    case Some(pts) => if Children(pts) == [] then [] else Children(pts)[1..]
  }

  /** A polygon node is read exactly when its point list holds at least three entries and all of
      them are points; they become the vertices, in order, of a closed contour of straight edges. */
  lemma PolygonNodeIff(e: SExpr)
    ensures ParsePolygonNode(e).Some? <==>
            |EntriesOf(e)| >= 3 && forall i :: 0 <= i < |EntriesOf(e)| ==> IsPoint(EntriesOf(e)[i])
    ensures ParsePolygonNode(e).Some? ==>
              var c := ParsePolygonNode(e).value;
              && Straight(c) && Continuous(c) && |c.spans| == |EntriesOf(e)|
              && forall i :: 0 <= i < |c.spans| ==> Some(c.spans[i].start) == ParseCoordinatePair(EntriesOf(e)[i])
  {
    hide FirstTagged, IsPoint, ParsePoints, ParseCoordinatePair, Children;
    PointsIff(EntriesOf(e));
    PointsAreRead(EntriesOf(e));
  }

  lemma PointsAreRead(entries: seq<SExpr>)
    ensures forall i :: 0 <= i < |entries| && IsPoint(entries[i]) ==> ParseCoordinatePair(entries[i]).Some?
  {
    hide ParseCoordinatePair;
  }

  /** The polygon nodes of a zone, the first of which is the outline. */
  function PolygonsOf(zone: SExpr): seq<SExpr> { AllTagged(Children(zone), "polygon") }

  lemma {:induction false} HolesIff(nodes: seq<SExpr>)
    ensures ParseHoles(nodes).Some? <==> forall i :: 0 <= i < |nodes| ==> ParsePolygonNode(nodes[i]).Some?
    ensures ParseHoles(nodes).Some? ==>
              && |ParseHoles(nodes).value| == |nodes|
              && forall i :: 0 <= i < |nodes| ==>
                   ParseHoles(nodes).value[i] == CanonicalHoleWinding(ParsePolygonNode(nodes[i]).value)
  {
    hide ParsePolygonNode, CanonicalHoleWinding;
    if nodes != [] {
      var last := |nodes| - 1;
      HolesIff(nodes[..last]);
      assert forall i :: 0 <= i < last ==> nodes[..last][i] == nodes[i];
    }
  }

  /** A zone is read exactly when it has a polygon node and all of them are read. */
  lemma ParseOutlineIff(zone: SExpr)
    ensures ParseOutline(zone).Some? <==>
            && PolygonsOf(zone) != []
            && forall i :: 0 <= i < |PolygonsOf(zone)| ==> ParsePolygonNode(PolygonsOf(zone)[i]).Some?
  {
    hide ParsePolygonNode, AllTagged, ParseHoles, CanonicalWinding, Children;
    var nodes := PolygonsOf(zone);
    if nodes != [] {
      HolesIff(nodes[1..]);
      assert forall i :: 1 <= i < |nodes| ==> nodes[i] == nodes[1..][i - 1];
    }
  }

  /** One way round or the other. */
  predicate SameEdges(c: Contour, d: Contour) { d == c || d == ReverseContour(c) }

  /** Whatever zone is read, its outline is not clockwise; a hole is clockwise, unless it has no area
      or its shoelace sum overflows one way round; and each is the contour of its node, possibly turned. */
  lemma ImportedWindings(zone: SExpr)
    requires ParseOutline(zone).Some?
    ensures var p, nodes := ParseOutline(zone).value, PolygonsOf(zone);
            && |nodes| == |p.holes| + 1
            && (forall i :: 0 <= i < |nodes| ==> ParsePolygonNode(nodes[i]).Some?)
            && SameEdges(ParsePolygonNode(nodes[0]).value, p.outline)
            && OrientationOf(p.outline) != Orientation.Clockwise
            && forall i :: 0 <= i < |p.holes| ==> HoleIsWound(ParsePolygonNode(nodes[i + 1]).value, p.holes[i])
  {
    hide ParsePolygonNode, AllTagged, ParseHoles, OrientationOf, HoleIsWound, Children;
    ParseOutlineIff(zone);
    var nodes := PolygonsOf(zone);
    HolesIff(nodes[1..]);
    assert forall i :: 1 <= i < |nodes| ==> nodes[i] == nodes[1..][i - 1];
    ParsedIsContinuous(nodes[0]);
    CanonicalIsNeverClockwise(ParsePolygonNode(nodes[0]).value);
    forall i | 0 <= i < |nodes[1..]|
      ensures HoleIsWound(ParsePolygonNode(nodes[1..][i]).value, ParseOutline(zone).value.holes[i])
    {
      ParsedIsContinuous(nodes[1..][i]);
      CanonicalHoleIsWound(ParsePolygonNode(nodes[1..][i]).value);
    }
  }

  /** `h` is `c` one way round or the other; clockwise exactly when it has area, where nothing overflows. */
  predicate HoleIsWound(c: Contour, h: Contour) {
    && SameEdges(c, h)
    && (ShoelaceFits(c) && ShoelaceFits(ReverseContour(c)) ==>
          (OrientationOf(h) == Orientation.Clockwise <==> DoubleArea(c) != 0))
  }

  lemma CanonicalHoleIsWound(c: Contour)
    requires Continuous(c)
    ensures HoleIsWound(c, CanonicalHoleWinding(c))
  {
    ReverseContourInvolution(c);
    hide ShoelaceFits, DoubleArea, ReverseContour, OrientationOf;
    if ShoelaceFits(c) && ShoelaceFits(ReverseContour(c)) {
      CanonicalHoleIsClockwise(c);
    }
  }

  lemma ParsedIsContinuous(e: SExpr)
    requires ParsePolygonNode(e).Some?
    ensures Continuous(ParsePolygonNode(e).value)
  {
    hide FirstTagged, ParsePoints, Children;
  }

  // -------------------------------------------------------------------- exporting

  predicate Straight(c: Contour) { forall i :: 0 <= i < |c.spans| ==> c.spans[i].Segment? }

  function PointEntries(c: Contour): (es: seq<SExpr>)
    ensures |es| == |c.spans|
    ensures forall i :: 0 <= i < |es| ==> es[i] == CoordinatePair("xy", c.spans[i].start)
  {
    seq(|c.spans|, i requires 0 <= i < |c.spans| => CoordinatePair("xy", c.spans[i].start))
  }

  function PolygonNode(c: Contour): SExpr { Tagged("polygon", [Tagged("pts", PointEntries(c))]) }

  /** `export_zone_polygon`; `None` is the ExportError thrown on an arc. */
  method ExportZonePolygon(c: Contour) returns (r: Option<SExpr>)
    ensures r == if Straight(c) then Some(PolygonNode(c)) else None
  {
    hide CoordinatePair;
    var points: seq<SExpr> := [];
    for i := 0 to |c.spans|
      invariant points == PointEntries(c)[..i]
      invariant forall k :: 0 <= k < i ==> c.spans[k].Segment?
    {
      if c.spans[i].Arc? {
        return None;
      }
      points := points + [CoordinatePair("xy", c.spans[i].start)];
    }
    assert PointEntries(c)[..|c.spans|] == PointEntries(c);
    return Some(Tagged("polygon", [Tagged("pts", points)]));
  }

  predicate AllStraight(p: Polygon) {
    Straight(p.outline) && forall i :: 0 <= i < |p.holes| ==> Straight(p.holes[i])
  }

  /** The children in front of the polygons: an optional net, the layer, the uuid. */
  function Header(layer: string, net: Option<string>, uuid: string): seq<SExpr> {
    (if net.Some? then [Tagged("net", [Str(net.value)])] else [])
    + [Tagged("layer", [Str(layer)]), Tagged("uuid", [Str(uuid)])]
  }

  function PolygonNodes(p: Polygon): (es: seq<SExpr>)
    ensures |es| == |p.holes| + 1
    ensures es[0] == PolygonNode(p.outline)
    ensures forall i :: 0 <= i < |p.holes| ==> es[i + 1] == PolygonNode(p.holes[i])
  {
    [PolygonNode(p.outline)] + Map(PolygonNode, p.holes)
  }

  function ZoneNode(p: Polygon, layer: string, net: Option<string>, uuid: string): SExpr {
    Tagged("zone", Header(layer, net, uuid) + PolygonNodes(p))
  }

  /** The identifier text of a copper pour. */
  function PourUuid(pourId: nat): string { I.Derived("pcbir:geometry:copper_pour:" + D.NatText(pourId)) }

  /** `export_zone_entry`. */
  method ExportZoneEntry(p: Polygon, layer: string, net: Option<string>, pourId: nat) returns (r: Option<SExpr>)
    ensures r == if AllStraight(p) then Some(ZoneNode(p, layer, net, PourUuid(pourId))) else None
  {
    hide PolygonNode, Straight, I.Derived, D.NatText;
    var uuid := I.Derive("pcbir:geometry:copper_pour:" + D.NatText(pourId));
    var children: seq<SExpr> := [];
    if net.Some? {
      children := children + [Tagged("net", [Str(net.value)])];
    }
    children := children + [Tagged("layer", [Str(layer)])];
    children := children + [Tagged("uuid", [Str(uuid)])];
    assert children == Header(layer, net, uuid);
    hide Header, PolygonNodes;
    var outline := ExportZonePolygon(p.outline);
    if outline.None? {
      return None;
    }
    children := children + [outline.value];
    ghost var header := Header(layer, net, uuid);
    NodesStart(p);
    for i := 0 to |p.holes|
      invariant children == header + PolygonNodes(p)[..i + 1]
      invariant forall k :: 0 <= k < i ==> Straight(p.holes[k])
    {
      var hole := ExportZonePolygon(p.holes[i]);
      if hole.None? {
        return None;
      }
      NodesStep(header, p, i);
      children := children + [hole.value];
    }
    assert PolygonNodes(p)[..|p.holes| + 1] == PolygonNodes(p);
    return Some(Tagged("zone", children));
  }

  lemma NodesStart(p: Polygon)
    ensures PolygonNodes(p)[..1] == [PolygonNode(p.outline)]
  {
    hide PolygonNode;
  }

  lemma NodesStep(header: seq<SExpr>, p: Polygon, i: nat)
    requires i < |p.holes|
    ensures header + PolygonNodes(p)[..i + 1] + [PolygonNode(p.holes[i])] == header + PolygonNodes(p)[..i + 2]
  {
    hide PolygonNode, PolygonNodes;
    PrefixStep(header, PolygonNodes(p), i + 1);
  }

  lemma PrefixStep<T>(h: seq<T>, s: seq<T>, i: nat)
    requires i < |s|
    ensures h + s[..i] + [s[i]] == h + s[..i + 1]
  {}

  // --------------------------------------------------------------- the round trip

  /** The decimal format writes every coordinate but cannot read this one back. */
  predicate ReadablePoint(p: Point) { p.x != INT64_MIN && p.y != INT64_MIN }

  predicate ReadableTo(c: Contour, k: nat)
    requires k <= |c.spans|
  {
    forall i :: 0 <= i < k ==> ReadablePoint(c.spans[i].start)
  }

  predicate Readable(c: Contour) { ReadableTo(c, |c.spans|) }

  predicate AllReadable(p: Polygon) {
    Readable(p.outline) && forall i :: 0 <= i < |p.holes| ==> Readable(p.holes[i])
  }

  lemma PairRoundTrip(p: Point)
    ensures HasTag(CoordinatePair("xy", p), "xy")
    ensures ParseCoordinatePair(CoordinatePair("xy", p)) == if ReadablePoint(p) then Some(p) else None
  {
    D.FormatParseRoundTrip(p.x);
    D.FormatParseRoundTrip(p.y);
    hide D.Parse, D.Format;
  }

  lemma {:induction false} PointsRoundTrip(c: Contour, k: nat)
    requires k <= |c.spans|
    ensures ParsePoints(PointEntries(c)[..k]) == if ReadableTo(c, k) then Some(Starts(c)[..k]) else None
  {
    hide CoordinatePair, HasTag, ParseCoordinatePair, ReadablePoint;
    if k > 0 {
      PointsRoundTrip(c, k - 1);
      PairRoundTrip(c.spans[k - 1].start);
      var entries := PointEntries(c)[..k];
      assert entries[..k - 1] == PointEntries(c)[..k - 1];
      assert entries[k - 1] == CoordinatePair("xy", c.spans[k - 1].start);
      assert Starts(c)[..k] == Starts(c)[..k - 1] + [c.spans[k - 1].start];
    }
  }

  lemma StartsClose(c: Contour)
    requires Straight(c) && Continuous(c)
    ensures ClosedPolyline(Starts(c)) == c
  {
    assert ClosedPolyline(Starts(c)).spans == c.spans;
  }

  /** The `(pts ...)` node is found inside the polygon node, with the entries behind its tag. */
  lemma PointsFound(c: Contour)
    ensures FindChild(PolygonNode(c), "pts") == Some(Tagged("pts", PointEntries(c)))
    ensures Children(Tagged("pts", PointEntries(c))) == [Symbol("pts")] + PointEntries(c)
  {
    hide PointEntries;
    var pts := Tagged("pts", PointEntries(c));
    var es := Children(PolygonNode(c));
    assert es == [Symbol("polygon"), pts];
    assert es[1..][0] == pts && HasTag(pts, "pts") && !HasTag(es[0], "pts");
    assert FirstTagged(es, "pts") == FirstTagged(es[1..], "pts");
  }

  lemma NodeRoundTrip(c: Contour)
    requires Straight(c) && Continuous(c) && |c.spans| >= 3
    ensures ParsePolygonNode(PolygonNode(c)) == if Readable(c) then Some(c) else None
  {
    hide ParsePoints, ClosedPolyline, PointEntries, PolygonNode, FindChild, ReadableTo, Straight, Continuous;
    PointsFound(c);
    assert ([Symbol("pts")] + PointEntries(c))[1..] == PointEntries(c);
    PointsRoundTrip(c, |c.spans|);
    assert PointEntries(c)[..|c.spans|] == PointEntries(c) && Starts(c)[..|c.spans|] == Starts(c);
    StartsClose(c);
  }

  /** Closed, and long enough to be written. */
  predicate Closed(c: Contour) { Continuous(c) && |c.spans| >= 3 }

  predicate HolesReadable(holes: seq<Contour>) { forall i :: 0 <= i < |holes| ==> Readable(holes[i]) }

  predicate HolesReady(holes: seq<Contour>) {
    forall i :: 0 <= i < |holes| ==> Straight(holes[i]) && Closed(holes[i])
  }

  lemma {:induction false} HolesRoundTrip(holes: seq<Contour>)
    requires HolesReady(holes)
    ensures ParseHoles(Map(PolygonNode, holes))
            == if HolesReadable(holes) then Some(Map(CanonicalHoleWinding, holes)) else None
  {
    hide PolygonNode, ParsePolygonNode, Readable, Straight, Continuous, CanonicalHoleWinding;
    if holes != [] {
      var last := |holes| - 1;
      HolesRoundTrip(holes[..last]);
      NodeRoundTrip(holes[last]);
      assert Map(PolygonNode, holes)[..last] == Map(PolygonNode, holes[..last]);
      assert Map(CanonicalHoleWinding, holes)
             == Map(CanonicalHoleWinding, holes[..last]) + [CanonicalHoleWinding(holes[last])];
      assert holes == holes[..last] + [holes[last]];
    } else {
      assert Map(CanonicalHoleWinding, holes) == [];
    }
  }

  lemma {:induction false} AllTaggedConcat(a: seq<SExpr>, b: seq<SExpr>, tag: string)
    ensures AllTagged(a + b, tag) == AllTagged(a, tag) + AllTagged(b, tag)
  {
    if b == [] {
      assert a + b == a;
    } else {
      AllTaggedConcat(a, b[..|b| - 1], tag);
      assert (a + b)[..|a + b| - 1] == a + b[..|b| - 1];
    }
  }

  lemma {:induction false} AllTaggedAll(es: seq<SExpr>, tag: string)
    requires forall i :: 0 <= i < |es| ==> HasTag(es[i], tag)
    ensures AllTagged(es, tag) == es
  {
    hide HasTag;
    if es != [] {
      AllTaggedAll(es[..|es| - 1], tag);
    }
  }

  lemma {:induction false} AllTaggedNone(es: seq<SExpr>, tag: string)
    requires forall i :: 0 <= i < |es| ==> !HasTag(es[i], tag)
    ensures AllTagged(es, tag) == []
  {
    hide HasTag;
    if es != [] {
      AllTaggedNone(es[..|es| - 1], tag);
    }
  }

  lemma HeaderHasNoPolygon(layer: string, net: Option<string>, uuid: string)
    ensures var es := [Symbol("zone")] + Header(layer, net, uuid);
            forall i :: 0 <= i < |es| ==> !HasTag(es[i], "polygon")
  {}

  lemma PolygonNodeTagged(c: Contour)
    ensures HasTag(PolygonNode(c), "polygon")
  {}

  /** Looking up the polygons of an exported zone finds exactly the polygons. */
  lemma PolygonsFound(p: Polygon, layer: string, net: Option<string>, uuid: string)
    ensures AllTagged(Children(ZoneNode(p, layer, net, uuid)), "polygon") == PolygonNodes(p)
  {
    hide HasTag, Header, PolygonNode, PolygonNodes, AllTagged;
    var header, nodes := [Symbol("zone")] + Header(layer, net, uuid), PolygonNodes(p);
    assert Children(ZoneNode(p, layer, net, uuid)) == header + nodes;
    AllTaggedConcat(header, nodes, "polygon");
    HeaderHasNoPolygon(layer, net, uuid);
    AllTaggedNone(header, "polygon");
    forall i | 0 <= i < |nodes|
      ensures HasTag(nodes[i], "polygon")
    {
      PolygonNodeTagged(if i == 0 then p.outline else p.holes[i - 1]);
    }
    AllTaggedAll(nodes, "polygon");
  }

  predicate AllClosed(p: Polygon) {
    Closed(p.outline) && forall i :: 0 <= i < |p.holes| ==> Closed(p.holes[i])
  }

  /** The polygon with its outline and its holes wound as the importer winds them. */
  function Wound(p: Polygon): Polygon {
    Polygon(CanonicalWinding(p.outline), Map(CanonicalHoleWinding, p.holes))
  }

  /** Importing an exported zone gives every contour back, wound canonically. */
  lemma TreeRoundTrip(p: Polygon, layer: string, net: Option<string>, uuid: string)
    requires AllStraight(p) && AllClosed(p)
    ensures ParseOutline(ZoneNode(p, layer, net, uuid)) == if AllReadable(p) then Some(Wound(p)) else None
  {
    hide PolygonNode, ParsePolygonNode, ParseHoles, ZoneNode, OrientationOf, Readable, Straight, Continuous,
      AllTagged, CanonicalWinding, CanonicalHoleWinding, Children;
    PolygonsFound(p, layer, net, uuid);
    NodeRoundTrip(p.outline);
    HolesRoundTrip(p.holes);
    assert PolygonNodes(p)[1..] == Map(PolygonNode, p.holes);
  }

  /** A polygon whose outline is not clockwise and whose holes are. */
  predicate Canonical(p: Polygon) {
    && OrientationOf(p.outline) != Orientation.Clockwise
    && forall i :: 0 <= i < |p.holes| ==> OrientationOf(p.holes[i]) == Orientation.Clockwise
  }

  /** Winding leaves it as it is. */
  lemma CanonicalIsWound(p: Polygon)
    requires Canonical(p)
    ensures Wound(p) == p
  {
    hide OrientationOf, ReverseContour;
    forall i | 0 <= i < |p.holes|
      ensures CanonicalHoleWinding(p.holes[i]) == p.holes[i]
    {
      ReverseContourInvolution(p.holes[i]);
    }
    assert Wound(p).holes == p.holes;
  }

  // --------------------------------------------------- the tree survives the text

  lemma {:induction false} AllWellFormedIf(es: seq<SExpr>)
    requires forall i :: 0 <= i < |es| ==> WellFormed(es[i])
    ensures AllWellFormed(es)
  {
    if es != [] {
      AllWellFormedIf(es[1..]);
    }
  }

  lemma {:induction false} NestingBound(es: seq<SExpr>, n: nat)
    requires forall i :: 0 <= i < |es| ==> Nesting(es[i]) <= n
    ensures NestingOf(es) <= n
  {
    if es != [] {
      NestingBound(es[1..], n);
    }
  }

  /** `e` is well formed and nests at most `n` lists. */
  ghost predicate Sound(e: SExpr, n: nat) { WellFormed(e) && Nesting(e) <= n }

  lemma TaggedSound(tag: string, rest: seq<SExpr>, n: nat)
    requires SymbolText(tag)
    requires forall i :: 0 <= i < |rest| ==> Sound(rest[i], n)
    ensures Sound(Tagged(tag, rest), n + 1)
  {
    var es := [Symbol(tag)] + rest;
    forall i | 0 <= i < |es|
      ensures WellFormed(es[i]) && Nesting(es[i]) <= n
    {
      if i > 0 {
        assert es[i] == rest[i - 1] && Sound(rest[i - 1], n);
      }
    }
    AllWellFormedIf(es);
    NestingBound(es, n);
  }

  lemma FormatIsSymbol(v: i64)
    ensures SymbolText(D.Format(v))
  {
    D.FormattedMagnitude(v);
    hide D.Formatted, D.Magnitude;
    NumeralIsSymbol(D.Formatted(v));
  }

  lemma NumeralIsSymbol(n: D.Numeral)
    requires D.WellFormed(n)
    ensures SymbolText(D.NumeralText(n))
  {
    DigitsAreNoTerminators(n.int');
    DigitsAreNoTerminators(n.frac);
    hide D.AllDigits, IsAtomTerminator;
    assert !IsAtomTerminator('-') && !IsAtomTerminator('+') && !IsAtomTerminator('.') by { SignsAreNoTerminators(); }
  }

  lemma DigitsAreNoTerminators(s: string)
    requires D.AllDigits(s)
    ensures forall i :: 0 <= i < |s| ==> !IsAtomTerminator(s[i])
  {}

  lemma SignsAreNoTerminators()
    ensures !IsAtomTerminator('-') && !IsAtomTerminator('+') && !IsAtomTerminator('.')
  {}

  lemma PairSound(p: Point)
    ensures Sound(CoordinatePair("xy", p), 1)
  {
    FormatIsSymbol(p.x);
    FormatIsSymbol(p.y);
    hide D.Format, SymbolText;
    assert SymbolText("xy") by { LiteralSymbols(); }
    TaggedSound("xy", [Symbol(D.Format(p.x)), Symbol(D.Format(p.y))], 0);
  }

  lemma LiteralSymbols()
    ensures SymbolText("xy") && SymbolText("pts") && SymbolText("polygon") && SymbolText("zone")
    ensures SymbolText("net") && SymbolText("layer") && SymbolText("uuid")
  {}

  lemma PolygonNodeSound(c: Contour)
    ensures Sound(PolygonNode(c), 3)
  {
    LiteralSymbols();
    forall i | 0 <= i < |c.spans|
      ensures Sound(PointEntries(c)[i], 1)
    {
      PairSound(c.spans[i].start);
    }
    hide Sound, SymbolText, PointEntries;
    TaggedSound("pts", PointEntries(c), 1);
    TaggedSound("polygon", [Tagged("pts", PointEntries(c))], 2);
  }

  lemma StrSound(text: string, n: nat)
    ensures Sound(Str(text), n)
  {}

  ghost predicate AllSound(es: seq<SExpr>, n: nat) { forall i :: 0 <= i < |es| ==> Sound(es[i], n) }

  lemma AllSoundConcat(a: seq<SExpr>, b: seq<SExpr>, n: nat)
    requires AllSound(a, n) && AllSound(b, n)
    ensures AllSound(a + b, n)
  {
    hide Sound;
  }

  lemma PolygonNodesSound(p: Polygon)
    ensures AllSound(PolygonNodes(p), 3)
  {
    hide Sound, PolygonNode, PolygonNodes;
    forall i | 0 <= i < |PolygonNodes(p)|
      ensures Sound(PolygonNodes(p)[i], 3)
    {
      PolygonNodeSound(if i == 0 then p.outline else p.holes[i - 1]);
    }
  }

  lemma ZoneNodeSound(p: Polygon, layer: string, net: Option<string>, uuid: string)
    ensures Sound(ZoneNode(p, layer, net, uuid), 4)
  {
    LiteralSymbols();
    forall i | 0 <= i < |Header(layer, net, uuid)|
      ensures Sound(Header(layer, net, uuid)[i], 3)
    {
      HeaderSound(layer, net, uuid, i);
    }
    PolygonNodesSound(p);
    AllSoundConcat(Header(layer, net, uuid), PolygonNodes(p), 3);
    hide Sound, SymbolText, PolygonNodes, Header;
    TaggedSound("zone", Header(layer, net, uuid) + PolygonNodes(p), 3);
  }

  lemma HeaderSound(layer: string, net: Option<string>, uuid: string, i: nat)
    requires i < |Header(layer, net, uuid)|
    ensures Sound(Header(layer, net, uuid)[i], 3)
  {
    LiteralSymbols();
    StrSound(layer, 2);
    StrSound(uuid, 2);
    hide Sound, SymbolText;
    TaggedSound("layer", [Str(layer)], 2);
    TaggedSound("uuid", [Str(uuid)], 2);
    if net.Some? {
      StrSound(net.value, 2);
      TaggedSound("net", [Str(net.value)], 2);
    }
  }

  /** Exporting a zone, writing the file, parsing it and importing the zone gives back every
      contour, wound canonically, for any layer, net and uuid text, exactly when no coordinate is
      the most negative 64-bit value. */
  lemma ZoneTextRoundTrip(p: Polygon, layer: string, net: Option<string>, uuid: string)
    requires AllStraight(p) && AllClosed(p)
    ensures var text := Write(ZoneNode(p, layer, net, uuid));
            && Parse(text) == Some(ZoneNode(p, layer, net, uuid))
            && ParseOutline(Parse(text).value) == if AllReadable(p) then Some(Wound(p)) else None
  {
    hide Write, Parse, ParseOutline, ZoneNode, AllReadable, Wound;
    ZoneNodeSound(p, layer, net, uuid);
    WriteParseRoundTrip(ZoneNode(p, layer, net, uuid));
    TreeRoundTrip(p, layer, net, uuid);
  }

  /** In particular every valid straight-edged polygon comes back span for span. */
  lemma ValidZoneRoundTrip(p: Polygon, layer: string, net: Option<string>, uuid: string)
    requires AllStraight(p) && AllReadable(p) && ValidatePolygon(p) == PolygonValid
    ensures Parse(Write(ZoneNode(p, layer, net, uuid))).Some?
    ensures ParseOutline(Parse(Write(ZoneNode(p, layer, net, uuid))).value) == Some(p)
  {
    hide Validate, OrientationOf, Continuous, NoChordCrossing, StrictlyContains, ValidatePolygon, SelfIntersects,
      ArcsValid, Wound;
    ValidPolygonMeans(p);
    ValidMeans(p.outline);
    forall i | 0 <= i < |p.holes|
      ensures Closed(p.holes[i]) && OrientationOf(p.holes[i]) == Orientation.Clockwise
    {
      assert HoleFits(p.outline, p.holes[i]);
      ValidMeans(p.holes[i]);
    }
    CanonicalIsWound(p);
    hide Write, Parse, ZoneNode, ParseOutline;
    ZoneTextRoundTrip(p, layer, net, uuid);
  }
}
