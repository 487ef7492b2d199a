/** Small texts and trees written out in full, as a file shows them. */
module WrittenExamples {
  import opened Wrappers
  import opened Int64
  import opened Geometry
  import opened Transforms
  import opened SExprs
  import opened Zones
  import opened PadShapes
  import opened Lookups
  import opened PadCodecs
  import opened Footprints
  import D = Decimals
  import I = Identifiers

  // ------------------------------------------------------------------------ layout

  const INNER := List([Symbol("b"), List([])])
  const OUTER := List([Symbol("a"), INNER, Symbol("c")])

  lemma EmptyList()
    ensures NodeText(List([]), 2) == "()"
  {
    assert ChildrenText([], 2, true) == "";
  }

  lemma FirstChild(child: SExpr, more: seq<SExpr>, depth: nat, first: bool)
    ensures ChildrenText([child] + more, depth, first)
            == Separator(child, depth, first) + (if child.List? then NodeText(child, depth + 1) else AtomText(child))
               + ChildrenText(more, depth, false)
  {
    assert ([child] + more)[1..] == more;
  }

  lemma Blanks()
    ensures Spaces(0) == "" && Spaces(2) == "  " && Spaces(4) == "    "
  {}

  lemma ListText(node: SExpr, depth: nat)
    requires node.List?
    ensures NodeText(node, depth)
            == "(" + ChildrenText(node.children, depth, true)
               + (if HasList(node.children) then "\n" + Spaces(depth * 2) else "") + ")"
  {}

  lemma InnerChildren()
    ensures ChildrenText(INNER.children, 1, true) == "b\n    ()"
  {
    EmptyList();
    Blanks();
    hide NodeText, Spaces;
    var last: seq<SExpr> := [List([])];
    assert last + [] == last && INNER.children == [Symbol("b")] + last;
    FirstChild(List([]), [], 1, false);
    assert ChildrenText(last, 1, false) == "\n    ()";
    FirstChild(Symbol("b"), last, 1, true);
  }

  lemma InnerText()
    ensures NodeText(INNER, 1) == "(b\n    ()\n  )"
  {
    InnerChildren();
    Blanks();
    assert INNER.children[1].List?;
    hide NodeText, Spaces, ChildrenText;
    ListText(INNER, 1);
  }

  lemma OuterChildren()
    ensures ChildrenText(OUTER.children, 0, true) == "a\n  (b\n    ()\n  ) c"
  {
    InnerText();
    Blanks();
    hide NodeText, Spaces;
    var last := [Symbol("c")];
    var two := [INNER] + last;
    assert last + [] == last && OUTER.children == [Symbol("a")] + two;
    FirstChild(Symbol("c"), [], 0, false);
    assert ChildrenText(last, 0, false) == " c";
    FirstChild(INNER, last, 0, false);
    hide ChildrenText;
    InnerJoined();
    FirstChild(Symbol("a"), two, 0, true);
    OuterJoined();
  }

  lemma InnerJoined()
    ensures "\n" + "  " + "(b\n    ()\n  )" + " c" == "\n  (b\n    ()\n  ) c"
  {}

  lemma OuterJoined()
    ensures "" + "a" + "\n  (b\n    ()\n  ) c" == "a\n  (b\n    ()\n  ) c"
  {}

  /** Atoms stand on the line of their list, behind single blanks; a list stands on a line of its own,
      two blanks deeper than the list around it, which is closed on another line of its own. */
  lemma LayoutExample()
    ensures Write(OUTER) == "(a\n  (b\n    ()\n  ) c\n)\n"
  {
    OuterChildren();
    Blanks();
    assert OUTER.children[1].List?;
    hide NodeText, Spaces, ChildrenText;
    ListText(OUTER, 0);
    Joined();
  }

  lemma Joined()
    ensures "(" + "a\n  (b\n    ()\n  ) c" + ("\n" + "") + ")" + "\n" == "(a\n  (b\n    ()\n  ) c\n)\n"
  {}

  // ------------------------------------------------------------------------- trees

  /** A triangle on the net GND, without holes. */
  const TRIANGLE := Polygon(Contour([
    Segment(Point(0, 0), Point(2_000_000, 0)), Segment(Point(2_000_000, 0), Point(0, 1_500_000)),
    Segment(Point(0, 1_500_000), Point(0, 0))]), [])

  function Leaf(tag: string, atom: SExpr): SExpr { List([Symbol(tag), atom]) }

  function Position(tag: string, x: i64, y: i64): SExpr {
    List([Symbol(tag), Symbol(D.Format(x)), Symbol(D.Format(y))])
  }

  lemma TreesAre(tag: string, atom: SExpr, x: i64, y: i64)
    ensures Tagged(tag, [atom]) == Leaf(tag, atom)
    ensures Tagged(tag, [Symbol(D.Format(x)), Symbol(D.Format(y))]) == Position(tag, x, y)
  {
    hide D.Format;
    assert [Symbol(tag)] + [atom] == [Symbol(tag), atom];
    assert [Symbol(tag)] + [Symbol(D.Format(x)), Symbol(D.Format(y))] == Position(tag, x, y).children;
  }

  lemma TrianglePoints()
    ensures PolygonNode(TRIANGLE.outline)
            == List([Symbol("polygon"),
                     List([Symbol("pts"), Position("xy", 0, 0), Position("xy", 2_000_000, 0),
                           Position("xy", 0, 1_500_000)])])
  {
    hide D.Format, Tagged, Position;
    TreesAre("xy", Symbol(""), 0, 0);
    TreesAre("xy", Symbol(""), 2_000_000, 0);
    TreesAre("xy", Symbol(""), 0, 1_500_000);
    var es := [Position("xy", 0, 0), Position("xy", 2_000_000, 0), Position("xy", 0, 1_500_000)];
    assert PointEntries(TRIANGLE.outline) == es;
    TaggedList("pts", es, [Symbol("pts"), es[0], es[1], es[2]]);
    var pts := Tagged("pts", es);
    TaggedList("polygon", [pts], [Symbol("polygon"), pts]);
  }

  lemma TaggedList(tag: string, rest: seq<SExpr>, es: seq<SExpr>)
    requires [Symbol(tag)] + rest == es
    ensures Tagged(tag, rest) == List(es)
  {}

  lemma PourExample()
    ensures PourUuid(5) == I.Derived("pcbir:geometry:copper_pour:" + "5")
  {
    assert D.NatText(5) == "5";
    hide I.Derived, D.NatText;
  }

  lemma ZoneExample()
    ensures ZoneNode(TRIANGLE, "F.Cu", Some("GND"), "u")
            == List([Symbol("zone"), Leaf("net", Str("GND")), Leaf("layer", Str("F.Cu")), Leaf("uuid", Str("u")),
                     List([Symbol("polygon"),
                           List([Symbol("pts"), Position("xy", 0, 0), Position("xy", 2_000_000, 0),
                                 Position("xy", 0, 1_500_000)])])])
  {
    TrianglePoints();
    hide D.Format, Tagged, Position, PolygonNode, Leaf;
    TreesAre("net", Str("GND"), 0, 0);
    TreesAre("layer", Str("F.Cu"), 0, 0);
    TreesAre("uuid", Str("u"), 0, 0);
    var outline := PolygonNode(TRIANGLE.outline);
    var es := [Leaf("net", Str("GND")), Leaf("layer", Str("F.Cu")), Leaf("uuid", Str("u")), outline];
    assert Header("F.Cu", Some("GND"), "u") + PolygonNodes(TRIANGLE) == es;
    TaggedList("zone", es, [Symbol("zone")] + es);
    assert [Symbol("zone")] + es == [Symbol("zone"), es[0], es[1], es[2], es[3]];
  }

  /** A rounded rectangle of 1 mm by 0.5 mm with a radius of 0.125 mm, turned by 90 degrees. */
  const ROUNDED := PadRecord("1", Point(1_000_000, 2_000_000), 90_000_000,
                             PadShapeParams(RoundRect, 1_000_000, 500_000, 125_000, 0, 0), 1, 1)

  lemma PadExample()
    ensures IsQuarterTurn(0) && IsQuarterTurn(-0)
    ensures ExportPad(OneLayer("F.Cu"), 7, ROUNDED, ORIGIN, 0)
            == Some(List([Symbol("pad"), Str("1"), Symbol("smd"), Symbol("roundrect"),
                          List([Symbol("at"), Symbol(D.Format(1_000_000)), Symbol(D.Format(2_000_000)),
                                Symbol(D.Format(270_000_000))]),
                          Position("size", 1_000_000, 500_000),
                          List([Symbol("layers"), Str("F.Cu"), Str("F.Mask"), Str("F.Paste")]),
                          Leaf("net", Str("GND")),
                          Leaf("roundrect_rratio", Symbol(D.Format(250_000))),
                          Leaf("uuid", Str(I.Derived("pcbir:geometry:pad:" + D.NatText(7))))]))
  {
    hide D.Format, I.Derived, D.NatText, Tagged, Position, Leaf, AtNode, LocalPoint, IsQuarterTurn, NormalizeAngle,
      TextsOf, ShapeChildren, NumberPair, NamesOf, PadNode;
    NoTurn();
    RoundedAt();
    RoundedTexts();
    RoundedShape();
    SizeIs();
    var layers := ["F.Cu", "F.Mask", "F.Paste"];
    var uuid := I.Derived("pcbir:geometry:pad:" + D.NatText(7));
    TreesAre("net", Str("GND"), 0, 0);
    TreesAre("uuid", Str(uuid), 0, 0);
    LayersAre(layers);
    NodeIs(ROUNDED, layers, "GND", uuid, Leaf("roundrect_rratio", Symbol(D.Format(250_000))), 0);
  }

  lemma LayersAre(names: seq<string>)
    requires |names| == 3
    ensures Tagged("layers", NamesOf(names)) == List([Symbol("layers"), Str(names[0]), Str(names[1]), Str(names[2])])
  {
    assert NamesOf(names) == [Str(names[0]), Str(names[1]), Str(names[2])];
    TaggedList("layers", NamesOf(names), [Symbol("layers"), Str(names[0]), Str(names[1]), Str(names[2])]);
  }

  /** The node of a pad with a net and one child for its shape. */
  lemma NodeIs(pad: PadRecord, layers: seq<string>, net: string, uuid: string, shape: SExpr, turn: i64)
    requires turn > INT64_MIN && IsQuarterTurn(-turn) && pad.rotation > INT64_MIN
    requires ShapeChildren(pad.params) == Some([shape])
    ensures PadNode(pad, PadTexts(layers, Some(net), uuid), ORIGIN, turn)
            == Some(List([Symbol("pad"), Str(pad.number), Symbol("smd"), Symbol(Keyword(pad.params.shape)),
                          AtNode(LocalPoint(pad.position, ORIGIN, turn), pad.rotation),
                          NumberPair("size", pad.params.width, pad.params.height), Tagged("layers", NamesOf(layers)),
                          Tagged("net", [Str(net)]), shape, Tagged("uuid", [Str(uuid)])]))
  {
    hide AtNode, LocalPoint, IsQuarterTurn, NormalizeAngle, ShapeChildren, NumberPair, NamesOf, Keyword;
    var front := [Str(pad.number), Symbol("smd"), Symbol(Keyword(pad.params.shape)),
                  AtNode(LocalPoint(pad.position, ORIGIN, turn), pad.rotation),
                  NumberPair("size", pad.params.width, pad.params.height), Tagged("layers", NamesOf(layers))];
    var es := front + [Tagged("net", [Str(net)])] + [shape] + [Tagged("uuid", [Str(uuid)])];
    assert PadNode(pad, PadTexts(layers, Some(net), uuid), ORIGIN, turn) == Some(Tagged("pad", es));
    assert [Symbol("pad")] + es
           == [Symbol("pad"), front[0], front[1], front[2], front[3], front[4], front[5],
               Tagged("net", [Str(net)]), shape, Tagged("uuid", [Str(uuid)])];
  }

  lemma SizeIs()
    ensures NumberPair("size", 1_000_000, 500_000) == Position("size", 1_000_000, 500_000)
  {
    TreesAre("size", Symbol(""), 1_000_000, 500_000);
  }

  lemma RoundedTexts()
    ensures TextsOf(OneLayer("F.Cu"), 7, ROUNDED)
            == Some(PadTexts(["F.Cu", "F.Mask", "F.Paste"], Some("GND"),
                             I.Derived("pcbir:geometry:pad:" + D.NatText(7))))
  {
    SideLayers("F.Cu", "F.");
    assert "F." + "Mask" == "F.Mask" && "F." + "Paste" == "F.Paste";
    hide I.Derived, D.NatText, PadLayerNames;
  }

  lemma RoundedShape()
    ensures ShapeChildren(ROUNDED.params) == Some([Leaf("roundrect_rratio", Symbol(D.Format(250_000)))])
  {
    RoundedRatio();
    hide RatioE6, D.Format;
    TreesAre("roundrect_rratio", Symbol(D.Format(250_000)), 0, 0);
  }

  lemma RoundedAt()
    ensures IsQuarterTurn(-0)
    ensures LocalPoint(ROUNDED.position, ORIGIN, 0) == ROUNDED.position
    ensures AtNode(ROUNDED.position, ROUNDED.rotation)
            == List([Symbol("at"), Symbol(D.Format(1_000_000)), Symbol(D.Format(2_000_000)),
                     Symbol(D.Format(270_000_000))])
  {
    hide D.Format;
    assert NormalizeAngle(-90_000_000) == 270_000_000;
  }

  lemma RoundedRatio()
    ensures RatioE6(125_000, 1_000_000, 500_000) == Some(250_000)
  {}

  /** A footprint on the bottom side, and the texts in front of its pads. */
  const RESISTOR := FootprintRecord("R1", "10k", Point(1_500_000, -250_000), 0, Side.Bottom, [])

  function Property(key: string, value: string, layer: string, kind: string): SExpr {
    List([Symbol("property"), Str(key), Str(value), List([Symbol("at"), Symbol("0"), Symbol("0")]),
          Leaf("layer", Str(layer)),
          Leaf("uuid", Str(I.Derived("pcbir:geometry:footprint_property:" + D.NatText(3) + ":" + kind)))])
  }

  lemma FootprintExample(t: Tables)
    ensures Turnable(RESISTOR)
    ensures Exported(t, Ids(3, []), RESISTOR)
            == Some(List([Symbol("footprint"), Str("PCBIR:R1"), Leaf("layer", Str("B.Cu")),
                          Leaf("uuid", Str(I.Derived("pcbir:geometry:footprint:" + D.NatText(3)))),
                          Position("at", 1_500_000, -250_000),
                          Property("Reference", "R1", "B.SilkS", "reference"),
                          Property("Value", "10k", "B.Fab", "value")]))
  {
    hide Front, Leaf, Position, Property, Exported, Turnable;
    FrontExample();
    ResistorTurns();
    ExportedFront(t, 3, RESISTOR);
    SevenChildren(Front(RESISTOR, 3));
  }

  lemma SevenChildren(es: seq<SExpr>)
    requires |es| == 6
    ensures Tagged("footprint", es) == List([Symbol("footprint"), es[0], es[1], es[2], es[3], es[4], es[5]])
  {
    TaggedList("footprint", es, [Symbol("footprint"), es[0], es[1], es[2], es[3], es[4], es[5]]);
  }

  lemma ResistorTurns()
    ensures Turnable(RESISTOR)
  {
    NoTurn();
    hide IsQuarterTurn;
  }

  lemma ExportedFront(t: Tables, id: nat, f: FootprintRecord)
    requires Turnable(f) && f.pads == []
    ensures Exported(t, Ids(id, []), f) == Some(Tagged("footprint", Front(f, id)))
  {
    hide Front, IsQuarterTurn;
    assert Front(f, id) + [] == Front(f, id);
  }

  lemma PropertyIs(key: string, value: string, layer: string, kind: string)
    ensures PropertyNode(key, value, layer, 3, kind) == Property(key, value, layer, kind)
  {
    hide I.Derived, D.NatText, Tagged, D.Format, Position;
    var uuid := Str(I.Derived("pcbir:geometry:footprint_property:" + D.NatText(3) + ":" + kind));
    var zero := [Symbol("0"), Symbol("0")];
    TreesAre("layer", Str(layer), 0, 0);
    TreesAre("uuid", uuid, 0, 0);
    TaggedList("at", zero, [Symbol("at"), Symbol("0"), Symbol("0")]);
    hide Leaf;
    var es := [Str(key), Str(value), Tagged("at", zero), Leaf("layer", Str(layer)), Leaf("uuid", uuid)];
    TaggedList("property", es, [Symbol("property")] + es);
  }

  lemma ResistorAt()
    ensures AtNode(Point(1_500_000, -250_000), 0) == Position("at", 1_500_000, -250_000)
  {
    assert NormalizeAngle(-0) == 0;
    TreesAre("at", Symbol(""), 1_500_000, -250_000);
    hide D.Format, Tagged, Position;
    assert [Symbol(D.Format(1_500_000)), Symbol(D.Format(-250_000))] + []
           == [Symbol(D.Format(1_500_000)), Symbol(D.Format(-250_000))];
  }

  lemma BottomTexts()
    ensures SidePrefix(Side.Bottom) + "Cu" == "B.Cu" && SidePrefix(Side.Bottom) + "SilkS" == "B.SilkS"
    ensures SidePrefix(Side.Bottom) + "Fab" == "B.Fab" && LibraryName("R1") == "PCBIR:R1"
  {}

  lemma FrontExample()
    ensures Front(RESISTOR, 3)
            == [Str("PCBIR:R1"), Leaf("layer", Str("B.Cu")),
                Leaf("uuid", Str(I.Derived("pcbir:geometry:footprint:" + D.NatText(3)))),
                Position("at", 1_500_000, -250_000),
                Property("Reference", "R1", "B.SilkS", "reference"), Property("Value", "10k", "B.Fab", "value")]
  {
    BottomTexts();
    ResistorAt();
    hide D.Format, I.Derived, D.NatText, Tagged, Position, Leaf, Property, PropertyNode, AtNode, SidePrefix,
      LibraryName;
    TreesAre("layer", Str("B.Cu"), 0, 0);
    TreesAre("uuid", Str(I.Derived("pcbir:geometry:footprint:" + D.NatText(3))), 0, 0);
    PropertyIs("Reference", "R1", "B.SilkS", "reference");
    PropertyIs("Value", "10k", "B.Fab", "value");
  }
}
