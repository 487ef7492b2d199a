/** One pad through the file: its rotation and placement, its shape, its layer and its net. */
module PadCodecs {
  import opened Wrappers
  import opened Int64
  import opened Geometry
  import opened Transforms
  import opened SExprs
  import opened SExprGrammar
  import opened Zones
  import opened PadShapes
  import opened PadPlacements
  import opened Lookups
  import D = Decimals
  import I = Identifiers

  // -------------------------------------------------------------------- rotations

  /** `format_kicad_rotation_e6`: the clockwise angle that is written, or nothing for zero. */
  function FormatRotation(rotation: i64): Option<i64>
    requires rotation > INT64_MIN
  {
    var kicad := NormalizeAngle(-rotation);
    if kicad == 0 then None else Some(kicad)
  }

  /** `parse_kicad_rotation_e6`; `None` is the ImportError of a malformed number. */
  function ParseRotation(at: SExpr): Option<i64> {
    var cs := Children(at);
    if |cs| < 4 then Some(0)
    else match D.Parse(Text(cs[3]))
      case None => None
      case Some(value) => D.ParseIffDenotes(Text(cs[3]), value); Some(NormalizeAngle(-value))
  }

  /** The `(at X Y [ANGLE])` node of a footprint or a pad. */
  function AtNode(p: Point, rotation: i64): SExpr
    requires rotation > INT64_MIN
  {
    Tagged("at", [Symbol(D.Format(p.x)), Symbol(D.Format(p.y))]
                 + match FormatRotation(rotation) case None => [] case Some(k) => [Symbol(D.Format(k))])
  }

  lemma TwoTurns(r: int)
    ensures (-((-r) % FULL_TURN_E6)) % FULL_TURN_E6 == r % FULL_TURN_E6
  {
    NegatedTurn(r);
    NegatedTurn((-r) % FULL_TURN_E6);
  }

  lemma NegatedTurn(r: int)
    ensures (-r) % FULL_TURN_E6 == if r % FULL_TURN_E6 == 0 then 0 else FULL_TURN_E6 - r % FULL_TURN_E6
  {
    var q, m := r / FULL_TURN_E6, r % FULL_TURN_E6;
    if m == 0 {
      TurnsAndRest(-r, -q, 0);
    } else {
      TurnsAndRest(-r, -q - 1, FULL_TURN_E6 - m);
    }
  }

  lemma TurnsAndRest(r: int, q: int, m: nat)
    requires r == q * FULL_TURN_E6 + m && m < FULL_TURN_E6
    ensures r % FULL_TURN_E6 == m
  {}

  /** Every rotation comes back reduced to one full turn, and so does every readable position. */
  lemma AtRoundTrip(p: Point, rotation: i64)
    requires rotation > INT64_MIN
    ensures ParseRotation(AtNode(p, rotation)) == Some(NormalizeAngle(rotation))
    ensures ParseCoordinatePair(AtNode(p, rotation)) == if ReadablePoint(p) then Some(p) else None
  {
    hide D.Format, D.Parse;
    D.FormatParseRoundTrip(p.x);
    D.FormatParseRoundTrip(p.y);
    TwoTurns(rotation);
    match FormatRotation(rotation)
    case None =>
    case Some(k) => D.FormatParseRoundTrip(k);
  }

  /** A file counts angles clockwise: what is written for a rotation is between zero and a full turn and
      makes a full turn with it, and nothing is written for whole turns; what is read makes a full turn
      with the text. */
  lemma FileAnglesAreClockwise(rotation: i64, at: SExpr)
    requires rotation > INT64_MIN
    ensures FormatRotation(rotation).None? <==> rotation % 360_000_000 == 0
    ensures FormatRotation(rotation).Some? ==>
              var k := FormatRotation(rotation).value; 0 < k < 360_000_000 && (k + rotation) % 360_000_000 == 0
    ensures |Children(at)| >= 4 && D.Parse(Text(Children(at)[3])).Some? ==>
              && ParseRotation(at).Some? && 0 <= ParseRotation(at).value < 360_000_000
              && (ParseRotation(at).value + D.Parse(Text(Children(at)[3])).value) % 360_000_000 == 0
  {
    hide FormatRotation, ParseRotation, D.Parse, Children, Text;
    WrittenAngle(rotation);
    if |Children(at)| >= 4 && D.Parse(Text(Children(at)[3])).Some? {
      ReadAngle(at);
    }
  }

  /** A stored angle of 90 degrees moves a point on the positive x axis to the negative y axis. */
  lemma StoredNinetyTurnsDown(at: SExpr, x: i64)
    requires |Children(at)| >= 4 && D.Parse(Text(Children(at)[3])) == Some(90_000_000) && x != INT64_MIN
    ensures var rotation := ParseRotation(at);
            && rotation.Some? && IsQuarterTurn(rotation.value)
            && RotatePoint(Point(x, 0), ORIGIN, rotation.value) == Point(0, -x)
  {
    hide D.Parse, Children, Text, RotatePoint, IsQuarterTurn;
    ThreeQuarters(x);
  }

  lemma ThreeQuarters(x: i64)
    requires x != INT64_MIN
    ensures NormalizeAngle(-90_000_000) == 270_000_000 && IsQuarterTurn(270_000_000)
    ensures RotatePoint(Point(x, 0), ORIGIN, 270_000_000) == Point(0, -x)
  {
    assert NormalizeAngle(270_000_000) == 270_000_000 && QuarterTurns(270_000_000) == 3;
    hide NormalizeAngle;
  }

  lemma WrittenAngle(rotation: i64)
    requires rotation > INT64_MIN
    ensures FormatRotation(rotation).None? <==> rotation % 360_000_000 == 0
    ensures FormatRotation(rotation).Some? ==>
              var k := FormatRotation(rotation).value; 0 < k < 360_000_000 && (k + rotation) % 360_000_000 == 0
  {
    NegatedTurn(rotation);
    FullTurn(rotation);
  }

  lemma ReadAngle(at: SExpr)
    requires |Children(at)| >= 4 && D.Parse(Text(Children(at)[3])).Some?
    ensures ParseRotation(at).Some? && 0 <= ParseRotation(at).value < 360_000_000
    ensures (ParseRotation(at).value + D.Parse(Text(Children(at)[3])).value) % 360_000_000 == 0
  {
    hide D.Parse, Children, Text;
    var text := Text(Children(at)[3]);
    D.ParseIffDenotes(text, D.Parse(text).value);
    hide D.Denotes;
    FullTurn(D.Parse(text).value);
  }

  lemma FullTurn(v: int)
    ensures ((-v) % FULL_TURN_E6 + v) % FULL_TURN_E6 == 0
  {
    var q, m := (-v) / FULL_TURN_E6, (-v) % FULL_TURN_E6;
    TurnsAndRest(m + v, -q, 0);
  }

  // -------------------------------------------------------------------- placement

  datatype Placement = Placement(center: Point, rotation: i64)

  /** `resolve_absolute_placement` under a footprint turned by a multiple of 90 degrees. */
  function ResolvePlacement(pad: SExpr, position: Point, rotation: i64): Option<Placement>
    requires IsQuarterTurn(rotation)
  {
    match FindChild(pad, "at")
    case None => None
    case Some(at) =>
      match (ParseCoordinatePair(at), ParseRotation(at))
      case (Some(local), Some(angle)) => Some(Placement(Add(position, RotatePoint(local, ORIGIN, rotation)), angle))
      case _ => None
  }

  /** `footprint_local_point`, likewise. */
  function LocalPoint(absolute: Point, position: Point, rotation: i64): Point
    requires rotation > INT64_MIN && IsQuarterTurn(-rotation)
  {
    RotatePoint(Sub(absolute, position), ORIGIN, -rotation)
  }

  /** The offset from the footprint is representable, and so is its negation. */
  predicate OffsetFits(absolute: Point, position: Point) {
    && DifferenceFits(absolute, position)
    && absolute.x - position.x != INT64_MIN && absolute.y - position.y != INT64_MIN
  }

  lemma OppositeTurns(rotation: i64)
    requires rotation > INT64_MIN && IsQuarterTurn(rotation)
    ensures IsQuarterTurn(-rotation) && IsQuarterTurn(NormalizeAngle(rotation))
    ensures QuarterTurns(NormalizeAngle(rotation)) == QuarterTurns(rotation)
    ensures QuarterTurns(-rotation) == (4 - QuarterTurns(rotation)) % 4
  {
    NegatedTurn(rotation);
  }

  /** Quarter turns back and forth restore the absolute point to the nanometre. */
  lemma LocalPointInverts(absolute: Point, position: Point, rotation: i64)
    requires rotation > INT64_MIN && IsQuarterTurn(rotation) && OffsetFits(absolute, position)
    ensures IsQuarterTurn(-rotation) && IsQuarterTurn(NormalizeAngle(rotation))
    ensures ReadablePoint(LocalPoint(absolute, position, rotation))
    ensures Add(position, RotatePoint(LocalPoint(absolute, position, rotation), ORIGIN, NormalizeAngle(rotation)))
            == absolute
  {
    OppositeTurns(rotation);
    hide NormalizeAngle, IsQuarterTurn, QuarterTurns, Add, Sub, RotateQuarterTurns;
    var offset, q := Sub(absolute, position), QuarterTurns(rotation);
    FromOrigin(offset);
    BackAndForth(offset, q);
    FromOrigin(RotateQuarterTurns(offset, (4 - q) % 4));
  }

  lemma FromOrigin(p: Point)
    ensures Sub(p, ORIGIN) == p && Add(ORIGIN, p) == p
  {}

  lemma BackAndForth(offset: Point, q: nat)
    requires q < 4 && ReadablePoint(offset)
    ensures var turned := RotateQuarterTurns(offset, (4 - q) % 4);
            ReadablePoint(turned) && RotateQuarterTurns(turned, q) == offset
  {}

  // ------------------------------------------------------------ the corner radius

  /** `roundrect_ratio_e6`; `None` is the ExportError of an overflow. */
  function RatioE6(radius: i64, width: i64, height: i64): Option<i64> {
    var side := Lesser(width, height);
    if side <= 0 then Some(0)
    else match CheckedMul(radius, D.SCALE_PER_UNIT)
      case None => None
      case Some(scaled) => QuotientFits(scaled, side); Some(TruncDiv(scaled, side))
  }

  /** The radius `parse_pad_shape_params` computes; `None` is its ImportError. */
  function RadiusOfRatio(ratio: i64, width: i64, height: i64): Option<i64> {
    match CheckedMul(ratio, Lesser(width, height))
    case None => None
    case Some(scaled) => QuotientFits(scaled, D.SCALE_PER_UNIT); Some(TruncDiv(scaled, D.SCALE_PER_UNIT))
  }

  lemma QuotientFits(n: i64, d: int)
    requires d > 0
    ensures Abs(TruncDiv(n, d)) <= Abs(n)
  {
    var q := Abs(n) / d;
    assert q * d <= Abs(n);
    MulMonotone(1, d, q);
  }

  function CeilingDiv(n: nat, d: nat): (q: nat)
    requires d > 0
    ensures d * q < n + d && n <= d * q
  {
    (n + d - 1) / d
  }

  /** What one export and import takes off the magnitude of a radius, for a positive side. */
  function Loss(radius: nat, side: nat): nat
    requires side > 0
  {
    CeilingDiv(radius * D.SCALE_PER_UNIT % side, D.SCALE_PER_UNIT)
  }

  lemma LossFacts(radius: nat, m: nat)
    requires m > 0
    ensures Loss(radius, m) <= radius
    ensures Loss(radius, m) == 0 <==> radius * D.SCALE_PER_UNIT % m == 0
    ensures Loss(radius, m) <= CeilingDiv(m - 1, D.SCALE_PER_UNIT)
  {
    var n := radius * D.SCALE_PER_UNIT;
    QuotientParts(n, m, n / m, n % m);
    FloorLoss(radius, n, n % m);
    LossBound(n % m, m);
    hide CeilingDiv;
  }

  lemma LossBound(r: nat, m: nat)
    requires r < m
    ensures CeilingDiv(r, D.SCALE_PER_UNIT) <= CeilingDiv(m - 1, D.SCALE_PER_UNIT)
    ensures CeilingDiv(r, D.SCALE_PER_UNIT) == 0 <==> r == 0
  {}

  lemma FloorLoss(radius: nat, n: nat, r: nat)
    requires n == radius * D.SCALE_PER_UNIT && r <= n
    ensures CeilingDiv(r, D.SCALE_PER_UNIT) <= radius
    ensures (n - r) / D.SCALE_PER_UNIT == radius - CeilingDiv(r, D.SCALE_PER_UNIT)
  {}

  lemma QuotientParts(n: nat, m: nat, q: nat, r: nat)
    requires m > 0 && q == n / m && r == n % m
    ensures q * m == n - r && 0 <= r < m && r <= n && 0 <= q <= n
  {
    assert n == q * m + r;
    MulMonotone(1, m, q);
  }

  /** The value with the magnitude of `magnitude` and the sign of `v`. */
  function Signed(v: int, magnitude: int): int { if v < 0 then -magnitude else magnitude }

  /** The radius after one export and import: none for a side that is not positive,
      and otherwise the old one less its loss, toward zero. */
  function AfterCycle(radius: int, side: int): (r: int)
    ensures radius >= 0 ==> 0 <= r <= radius
    ensures radius <= 0 ==> radius <= r <= 0
  {
    if side <= 0 then 0
    else
      LossFacts(Abs(radius), side);
      Signed(radius, Abs(radius) - Loss(Abs(radius), side))
  }

  /** Division with truncation keeps the sign and divides the magnitude. */
  lemma TruncSigned(n: int, d: int)
    requires d > 0
    ensures TruncDiv(n, d) == Signed(n, Abs(n) / d)
  {}

  /** No multiple of the unit is the most negative value, so fitting does not depend on the sign. */
  lemma ScaledIsSymmetric(radius: int)
    ensures Fits(radius * D.SCALE_PER_UNIT) <==> Abs(radius) * D.SCALE_PER_UNIT <= INT64_MAX
    ensures Abs(radius * D.SCALE_PER_UNIT) == Abs(radius) * D.SCALE_PER_UNIT
  {}

  lemma SignedTimes(v: int, magnitude: int, m: int)
    ensures Signed(v, magnitude) * m == Signed(v, magnitude * m)
  {}

  /** The quotient written by the exporter, times the side, is the scaled radius less a remainder. */
  lemma RatioTimesSide(radius: i64, m: nat)
    requires m > 0 && Fits(radius * D.SCALE_PER_UNIT)
    ensures var n := Abs(radius) * D.SCALE_PER_UNIT;
            var ratio := TruncDiv(radius * D.SCALE_PER_UNIT, m);
            && INT64_MIN < ratio <= INT64_MAX
            && 0 <= n % m <= n && ratio * m == Signed(radius, n - n % m) && Fits(ratio * m)
  {
    ScaledIsSymmetric(radius);
    var n := Abs(radius) * D.SCALE_PER_UNIT;
    TruncSigned(radius * D.SCALE_PER_UNIT, m);
    QuotientParts(n, m, n / m, n % m);
    SignedTimes(radius, n / m, m);
  }

  /** What the importer makes of that product. */
  lemma RadiusOfProduct(radius: i64, m: nat)
    requires m > 0
    ensures var n := Abs(radius) * D.SCALE_PER_UNIT;
            n % m <= n && TruncDiv(Signed(radius, n - n % m), D.SCALE_PER_UNIT) == AfterCycle(radius, m)
  {
    var n := Abs(radius) * D.SCALE_PER_UNIT;
    QuotientParts(n, m, n / m, n % m);
    TruncSigned(Signed(radius, n - n % m), D.SCALE_PER_UNIT);
    FloorLoss(Abs(radius), n, n % m);
    ZeroHasNoParts(n - n % m);
  }

  lemma ZeroHasNoParts(n: nat)
    ensures n / D.SCALE_PER_UNIT == 0 || n > 0
  {}

  /** The exporter fails exactly when the side is positive and the scaled radius overflows. */
  lemma RatioExistsIff(radius: i64, width: i64, height: i64)
    ensures RatioE6(radius, width, height).Some? <==>
            Lesser(width, height) <= 0 || Fits(radius * D.SCALE_PER_UNIT)
  {}

  lemma CycleOfPositiveSide(radius: i64, width: i64, height: i64)
    requires Lesser(width, height) > 0 && Fits(radius * D.SCALE_PER_UNIT)
    ensures var ratio := RatioE6(radius, width, height);
            && ratio.Some? && ratio.value > INT64_MIN
            && RadiusOfRatio(ratio.value, width, height) == Some(AfterCycle(radius, Lesser(width, height)))
  {
    hide AfterCycle, Signed, TruncDiv;
    var m := Lesser(width, height);
    RatioTimesSide(radius, m);
    RadiusOfProduct(radius, m);
  }

  /** One cycle, for every radius and both sides. It fails only when the exporter's product
      overflows; otherwise it loses exactly `Loss` of the magnitude, or all of it when the
      smaller side is not positive. The radius is reproduced if and only if it is zero, or
      the side is positive and divides the scaled radius. */
  lemma RadiusCycle(radius: i64, width: i64, height: i64)
    ensures var m, ratio := Lesser(width, height), RatioE6(radius, width, height);
            && (ratio.Some? <==> m <= 0 || Fits(radius * D.SCALE_PER_UNIT))
            && (ratio.Some? ==>
                && ratio.value > INT64_MIN
                && RadiusOfRatio(ratio.value, width, height) == Some(AfterCycle(radius, m)))
    ensures var m := Lesser(width, height);
            AfterCycle(radius, m) == radius <==> radius == 0 || (m > 0 && Abs(radius) * D.SCALE_PER_UNIT % m == 0)
    ensures var m := Lesser(width, height);
            m > 0 ==> Abs(radius - AfterCycle(radius, m)) <= CeilingDiv(m - 1, D.SCALE_PER_UNIT)
  {
    hide TruncDiv, CeilingDiv, Loss;
    var m := Lesser(width, height);
    RatioExistsIff(radius, width, height);
    if m > 0 {
      LossFacts(Abs(radius), m);
      if Fits(radius * D.SCALE_PER_UNIT) {
        hide RatioE6, RadiusOfRatio;
        CycleOfPositiveSide(radius, width, height);
      }
    } else {
      NothingTimes(width, height);
    }
  }

  lemma NothingTimes(width: i64, height: i64)
    ensures RadiusOfRatio(0, width, height) == Some(0)
  {}

  /** The exporter's comment promises the same radius on every reload; a third of a unit does not survive. */
  lemma ThirdOfUnitIsLost()
    ensures RatioE6(1, 3, 3) == Some(333333) && RadiusOfRatio(333333, 3, 3) == Some(0)
  {}

  /** The radius that repeated cycles end at. */
  function Settled(radius: i64, width: i64, height: i64): int
    decreases Abs(radius)
  {
    var next := AfterCycle(radius, Lesser(width, height));
    if next == radius then radius else Settled(next, width, height)
  }

  lemma SmallerFits(radius: i64, next: int)
    requires Fits(radius * D.SCALE_PER_UNIT) && Abs(next) <= Abs(radius)
    ensures Fits(next * D.SCALE_PER_UNIT)
  {}

  /** Repeated cycles of an exportable radius reach one that survives unchanged. */
  lemma {:induction false} SettledIsStable(radius: i64, width: i64, height: i64)
    requires RatioE6(radius, width, height).Some?
    ensures var s := Settled(radius, width, height);
            && Abs(s) <= Abs(radius) && Fits(s)
            && RatioE6(s, width, height).Some?
            && RadiusOfRatio(RatioE6(s, width, height).value, width, height) == Some(s)
    ensures var s, m := Settled(radius, width, height), Lesser(width, height);
            s == 0 || (m > 0 && Abs(s) * D.SCALE_PER_UNIT % m == 0)
    decreases Abs(radius)
  {
    hide AfterCycle, RatioE6, RadiusOfRatio, CeilingDiv, TruncDiv;
    RadiusCycle(radius, width, height);
    var next := AfterCycle(radius, Lesser(width, height));
    if next != radius {
      if Lesser(width, height) > 0 {
        SmallerFits(radius, next);
      }
      RatioExistsIff(next, width, height);
      SettledIsStable(next, width, height);
    }
  }

  // ------------------------------------------------------------------------- pads

  /** A surface-mount pad with a known parametric shape, as the workspaces and the shape
      extension record it; its layer and its net are ids, and the null id stands for no net. */
  datatype PadRecord = PadRecord(number: string, position: Point, rotation: i64, params: PadShapeParams,
                                 layer: nat, net: nat)

  /** The texts of the written node that come from outside the pad. */
  datatype PadTexts = PadTexts(layers: seq<string>, net: Option<string>, uuid: string)

  /** What the tables give a pad to write; `None` is the ExportError of a dangling reference. */
  function TextsOf(t: Tables, padId: nat, pad: PadRecord): Option<PadTexts> {
    match (NameOf(t.layers, pad.layer), NetName(t.nets, pad.net))
    case (Some(copper), Some(net)) =>
      Some(PadTexts(PadLayerNames(copper), net, I.Derived("pcbir:geometry:pad:" + D.NatText(padId))))
    case _ => None
  }

  function Keyword(shape: PadShape): string {
    match shape
    case Rect => "rect"
    case Circle => "circle"
    case Oval => "oval"
    case RoundRect => "roundrect"
    case Trapezoid => "trapezoid"
  }

  /** `parse_pad_shape_kind`. */
  function ShapeOf(text: string): Option<PadShape> {
    if text == "rect" then Some(Rect)
    else if text == "circle" then Some(Circle)
    else if text == "oval" then Some(Oval)
    else if text == "roundrect" then Some(RoundRect)
    else if text == "trapezoid" then Some(Trapezoid)
    else None
  }

  function Number(tag: string, v: i64): SExpr { Tagged(tag, [Symbol(D.Format(v))]) }

  function NumberPair(tag: string, v: i64, w: i64): SExpr { Tagged(tag, [Symbol(D.Format(v)), Symbol(D.Format(w))]) }

  /** The one child that only a rounded rectangle or a trapezoid has. */
  function ShapeChildren(p: PadShapeParams): Option<seq<SExpr>> {
    match p.shape
    case RoundRect =>
      (match RatioE6(p.radius, p.width, p.height)
       case None => None
       case Some(ratio) => Some([Number("roundrect_rratio", ratio)]))
    case Trapezoid => Some([NumberPair("rect_delta", p.deltaX, p.deltaY)])
    case _ => Some([])
  }

  function NamesOf(names: seq<string>): (r: seq<SExpr>)
    ensures |r| == |names| && forall i :: 0 <= i < |r| ==> r[i] == Str(names[i])
  {
    seq(|names|, i requires 0 <= i < |names| => Str(names[i]))
  }

  function NetChildren(net: Option<string>): seq<SExpr> {
    match net case None => [] case Some(name) => [Tagged("net", [Str(name)])]
  }

  /** The node of `export_parametric_pad`; `None` is the ExportError of the corner radius. */
  function PadNode(pad: PadRecord, texts: PadTexts, position: Point, rotation: i64): Option<SExpr>
    requires rotation > INT64_MIN && IsQuarterTurn(-rotation) && pad.rotation > INT64_MIN
  {
    match ShapeChildren(pad.params)
    case None => None
    case Some(shapeChildren) =>
      Some(Tagged("pad",
        [Str(pad.number), Symbol("smd"), Symbol(Keyword(pad.params.shape)),
         AtNode(LocalPoint(pad.position, position, rotation), pad.rotation),
         NumberPair("size", pad.params.width, pad.params.height),
         Tagged("layers", NamesOf(texts.layers))]
        + NetChildren(texts.net) + shapeChildren + [Tagged("uuid", [Str(texts.uuid)])]))
  }

  /** `export_parametric_pad`; `None` is its ExportError. */
  function ExportPad(t: Tables, padId: nat, pad: PadRecord, position: Point, rotation: i64): Option<SExpr>
    requires rotation > INT64_MIN && IsQuarterTurn(-rotation) && pad.rotation > INT64_MIN
  {
    match TextsOf(t, padId, pad)
    case None => None
    case Some(texts) => PadNode(pad, texts, position, rotation)
  }

  /** The first value of a child, where the child itself may be missing. */
  function FirstValue(e: SExpr): Option<i64> {
    if |Children(e)| < 2 then None else D.Parse(Text(Children(e)[1]))
  }

  /** `parse_pad_shape_params`; `None` is its ImportError. */
  function ParseShapeParams(pad: SExpr, shape: PadShape): Option<PadShapeParams> {
    match FindChild(pad, "size")
    case None => None
    case Some(size) =>
      match ParseCoordinatePair(size)
      case None => None
      case Some(wh) =>
        match shape
        case RoundRect =>
          (match FindChild(pad, "roundrect_rratio")
           case None => Some(PadShapeParams(shape, wh.x, wh.y, 0, 0, 0))
           case Some(node) =>
             match FirstValue(node)
             case None => None
             case Some(ratio) =>
               match RadiusOfRatio(ratio, wh.x, wh.y)
               case None => None
               case Some(radius) => Some(PadShapeParams(shape, wh.x, wh.y, radius, 0, 0)))
        case Trapezoid =>
          (match FindChild(pad, "rect_delta")
           case None => Some(PadShapeParams(shape, wh.x, wh.y, 0, 0, 0))
           case Some(node) =>
             match ParseCoordinatePair(node)
             case None => None
             case Some(delta) => Some(PadShapeParams(shape, wh.x, wh.y, 0, delta.x, delta.y)))
        case _ => Some(PadShapeParams(shape, wh.x, wh.y, 0, 0, 0))
  }

  /** What an import comes to: a value, an ImportError, an overflow of outline arithmetic,
      which is undefined in C++, or a branch beyond this model. */
  datatype Import<+T> = Imported(value: T) | Refused | Undefined | Beyond

  /** A pad with the outline around its own origin. */
  datatype BuiltPad = BuiltPad(pad: PadRecord, outline: Polygon)

  /** `build_pad_outline` on the parameters that were read, and the layer that was found. */
  function Completed(pad: PadRecord, layer: Option<nat>): Import<BuiltPad> {
    if !ArithmeticFits(pad.params) then Undefined
    else match (RawSpans(pad.params), layer)
      case (Some(spans), Some(id)) => Imported(BuiltPad(pad.(layer := id), Finish(spans)))
      case _ => Refused
  }

  /** The surface-mount, parametric branch of `import_pad`; drilled pads and custom outlines
      take branches of their own. */
  function ImportPad(pad: SExpr, position: Point, rotation: i64, t: Tables): Import<BuiltPad>
    requires IsQuarterTurn(rotation)
  {
    var cs := Children(pad);
    if |cs| < 4 || !cs[1].Str? || !cs[2].Symbol? || !cs[3].Symbol? then Refused
    else match (ResolvePlacement(pad, position, rotation), ResolveNet(pad, NetIndex(t.nets)))
      case (Some(placement), Some(net)) =>
        if cs[2].text == "thru_hole" || cs[2].text == "np_thru_hole" then Beyond
        else if cs[2].text != "smd" && cs[2].text != "connect" then Refused
        else if cs[3].text == "custom" then Beyond
        else
          (match ShapeOf(cs[3].text)
           case None => Refused
           case Some(shape) =>
             match ParseShapeParams(pad, shape)
             case None => Refused
             case Some(params) =>
               Completed(PadRecord(cs[1].text, placement.center, placement.rotation, params, NULL_ID, net),
                         ResolveCopperLayer(pad, t.layers)))
      case _ => Refused
  }

  /** What an export and an import make of the parameters: the fields other shapes use
      are dropped, and a corner radius may shrink. */
  function Reloaded(p: PadShapeParams): PadShapeParams {
    match p.shape
    case RoundRect => p.(radius := AfterCycle(p.radius, Lesser(p.width, p.height)), deltaX := 0, deltaY := 0)
    case Trapezoid => p.(radius := 0)
    case _ => p.(radius := 0, deltaX := 0, deltaY := 0)
  }

  /** The exporter can compute the corner radius ratio. */
  predicate RadiusWritable(p: PadShapeParams) {
    p.shape == RoundRect ==> Lesser(p.width, p.height) <= 0 || Fits(p.radius * D.SCALE_PER_UNIT)
  }

  /** No length that is written is the one value that the decimal codec cannot read back. */
  predicate LengthsReadable(p: PadShapeParams) {
    && p.width != INT64_MIN && p.height != INT64_MIN
    && (p.shape == Trapezoid ==> p.deltaX != INT64_MIN && p.deltaY != INT64_MIN)
  }

  /** The first child with a tag, when every child before it has another tag or none. */
  lemma {:induction false} FirstTaggedAt(es: seq<SExpr>, tag: string, i: nat)
    requires i < |es| && HasTag(es[i], tag) && forall k :: 0 <= k < i ==> !HasTag(es[k], tag)
    ensures FirstTagged(es, tag) == Some(es[i])
  {
    hide HasTag;
    if i > 0 {
      FirstTaggedAt(es[1..], tag, i - 1);
    }
  }

  lemma PairReads(tag: string, v: i64, w: i64)
    requires v != INT64_MIN && w != INT64_MIN
    ensures ParseCoordinatePair(NumberPair(tag, v, w)) == Some(Point(v, w))
  {
    hide D.Format, D.Parse;
    D.FormatParseRoundTrip(v);
    D.FormatParseRoundTrip(w);
  }

  lemma NumberReads(tag: string, v: i64)
    requires v != INT64_MIN
    ensures FirstValue(Number(tag, v)) == Some(v)
  {
    hide D.Format, D.Parse;
    D.FormatParseRoundTrip(v);
  }

  /** Looking up the children of a written pad. */
  lemma PadChildren(pad: PadRecord, texts: PadTexts, position: Point, rotation: i64)
    requires rotation > INT64_MIN && IsQuarterTurn(-rotation) && pad.rotation > INT64_MIN
    requires ShapeChildren(pad.params).Some?
    ensures var e := PadNode(pad, texts, position, rotation).value;
            && FindChild(e, "at") == Some(AtNode(LocalPoint(pad.position, position, rotation), pad.rotation))
            && FindChild(e, "size") == Some(NumberPair("size", pad.params.width, pad.params.height))
            && (pad.params.shape == RoundRect ==>
                FindChild(e, "roundrect_rratio") == Some(ShapeChildren(pad.params).value[0]))
            && (pad.params.shape == Trapezoid ==>
                FindChild(e, "rect_delta") == Some(ShapeChildren(pad.params).value[0]))
  {
    hide LocalPoint, D.Format, RatioE6, NormalizeAngle, IsQuarterTurn, FirstTagged;
    var e := PadNode(pad, texts, position, rotation).value;
    var es := Children(e);
    FirstTaggedAt(es, "at", 4);
    FirstTaggedAt(es, "size", 5);
    var k := 7 + |NetChildren(texts.net)|;
    if pad.params.shape == RoundRect {
      FirstTaggedAt(es, "roundrect_rratio", k);
    } else if pad.params.shape == Trapezoid {
      FirstTaggedAt(es, "rect_delta", k);
    }
  }

  lemma PadHead(pad: PadRecord, texts: PadTexts, position: Point, rotation: i64)
    requires rotation > INT64_MIN && IsQuarterTurn(-rotation) && pad.rotation > INT64_MIN
    requires ShapeChildren(pad.params).Some?
    ensures PadNode(pad, texts, position, rotation).Some?
    ensures var cs := Children(PadNode(pad, texts, position, rotation).value);
            && |cs| >= 4 && cs[1] == Str(pad.number) && cs[2] == Symbol("smd")
            && cs[3] == Symbol(Keyword(pad.params.shape)) && ShapeOf(cs[3].text) == Some(pad.params.shape)
    ensures HasTag(PadNode(pad, texts, position, rotation).value, "pad")
  {
    hide AtNode, ShapeChildren, NormalizeAngle, IsQuarterTurn, Keyword, ShapeOf, LocalPoint, NumberPair, NetChildren,
      NamesOf;
    KeywordReads(pad.params.shape);
  }

  lemma ShapeReads(pad: PadRecord, texts: PadTexts, position: Point, rotation: i64)
    requires rotation > INT64_MIN && IsQuarterTurn(-rotation) && pad.rotation > INT64_MIN
    requires RadiusWritable(pad.params) && LengthsReadable(pad.params)
    ensures PadNode(pad, texts, position, rotation).Some?
    ensures var e := PadNode(pad, texts, position, rotation).value;
            ParseShapeParams(e, pad.params.shape) == Some(Reloaded(pad.params))
  {
    hide PadNode, FindChild, ParseCoordinatePair, FirstValue, RatioE6, RadiusOfRatio, Number, NumberPair,
      NormalizeAngle, IsQuarterTurn, AtNode, LocalPoint, AfterCycle, Lesser, CeilingDiv;
    var p := pad.params;
    ShapeIsWritten(p);
    assert PadNode(pad, texts, position, rotation).Some? by { PadHead(pad, texts, position, rotation); }
    PadChildren(pad, texts, position, rotation);
    PairReads("size", p.width, p.height);
    if p.shape == Trapezoid {
      PairReads("rect_delta", p.deltaX, p.deltaY);
    } else if p.shape == RoundRect {
      RadiusCycle(p.radius, p.width, p.height);
      NumberReads("roundrect_rratio", RatioE6(p.radius, p.width, p.height).value);
    }
  }

  lemma ShapeIsWritten(p: PadShapeParams)
    requires RadiusWritable(p)
    ensures ShapeChildren(p).Some?
    ensures p.shape == RoundRect ==> RatioE6(p.radius, p.width, p.height).Some?
  {
    hide RatioE6;
    RatioExistsIff(p.radius, p.width, p.height);
  }

  /** The five keywords and what they stand for. */
  lemma ShapeKeywords(text: string, shape: PadShape)
    ensures ShapeOf(text) == Some(shape) <==> text == Keyword(shape)
    ensures Keyword(Rect) == "rect" && Keyword(Circle) == "circle" && Keyword(Oval) == "oval"
    ensures Keyword(RoundRect) == "roundrect" && Keyword(Trapezoid) == "trapezoid"
  {}

  lemma KeywordReads(shape: PadShape)
    ensures ShapeOf(Keyword(shape)) == Some(shape)
  {}

  /** The layer and the net that the written names lead back to. */
  function LayerReloaded(layers: Listing, id: nat): nat {
    match NameOf(layers, id) case None => id case Some(name) => LastNamed(layers, name)
  }

  function NetReloaded(nets: Listing, id: nat): nat {
    match NetName(nets, id)
    case Some(Some(name)) => if name in NetIndex(nets) then NetIndex(nets)[name] else id
    case _ => id
  }

  /** What a pad is after one export and import of its footprint under the same tables. */
  function PadReloaded(t: Tables, pad: PadRecord): PadRecord {
    PadRecord(pad.number, pad.position, NormalizeAngle(pad.rotation), Reloaded(pad.params),
              LayerReloaded(t.layers, pad.layer), NetReloaded(t.nets, pad.net))
  }

  /** The tables know the layer of the pad, and its net if it has one. */
  predicate Listed(t: Tables, pad: PadRecord) {
    NameOf(t.layers, pad.layer).Some? && NetName(t.nets, pad.net).Some?
  }

  predicate PadFits(pad: PadRecord, position: Point) {
    && pad.rotation > INT64_MIN && OffsetFits(pad.position, position)
    && RadiusWritable(pad.params) && LengthsReadable(pad.params)
  }

  /** The layer has a name that the importer takes for copper, and that does not lead to the null id. */
  predicate CopperNamed(t: Tables, pad: PadRecord) {
    && NameOf(t.layers, pad.layer).Some? && NamesCopper(NameOf(t.layers, pad.layer).value)
    && LayerReloaded(t.layers, pad.layer) != NULL_ID
  }

  /** The ids come back exactly when no later layer and no earlier net has the same name. */
  lemma PadKeepsIdsIff(t: Tables, pad: PadRecord)
    requires DistinctIds(t.layers) && DistinctIds(t.nets) && Listed(t, pad)
    ensures PadReloaded(t, pad).layer == pad.layer <==> IsLast(t.layers, pad.layer)
    ensures PadReloaded(t, pad).net == pad.net <==> pad.net == NULL_ID || IsFirst(t.nets, pad.net)
  {
    hide IsLast, IsFirst, DistinctIds, NameOf, LastNamed, NetIndex, Reloaded, NormalizeAngle;
    LayerComesBackIff(t.layers, pad.layer);
    if pad.net != NULL_ID {
      NetComesBackIff(t.nets, pad.net);
    }
  }

  lemma PlacementReads(pad: PadRecord, texts: PadTexts, position: Point, rotation: i64)
    requires rotation > INT64_MIN && IsQuarterTurn(rotation) && PadFits(pad, position)
    ensures IsQuarterTurn(-rotation) && IsQuarterTurn(NormalizeAngle(rotation))
    ensures PadNode(pad, texts, position, rotation).Some?
    ensures ResolvePlacement(PadNode(pad, texts, position, rotation).value, position, NormalizeAngle(rotation))
            == Some(Placement(pad.position, NormalizeAngle(pad.rotation)))
  {
    hide PadNode, FindChild, ParseCoordinatePair, ParseRotation, AtNode, LocalPoint, NormalizeAngle, IsQuarterTurn,
      RotatePoint, Add, ShapeChildren;
    ShapeIsWritten(pad.params);
    LocalPointInverts(pad.position, position, rotation);
    PadHead(pad, texts, position, rotation);
    PadChildren(pad, texts, position, rotation);
    AtRoundTrip(LocalPoint(pad.position, position, rotation), pad.rotation);
  }

  /** The importer builds an outline from these parameters after a cycle: a circle needs equal
      sides, and the arithmetic of an oval or a trapezoid has to fit. */
  predicate Buildable(p: PadShapeParams) {
    && (p.shape == Circle ==> p.width == p.height)
    && (p.shape == Oval || p.shape == Trapezoid ==> ArithmeticFits(p))
  }

  /** A reloaded radius is too small for the arithmetic of a rounded rectangle to overflow. */
  lemma ReloadedFits(p: PadShapeParams)
    ensures ArithmeticFits(Reloaded(p)) <==> p.shape == RoundRect || ArithmeticFits(p)
    ensures Buildable(p) <==> ArithmeticFits(Reloaded(p)) && RawSpans(Reloaded(p)).Some?
  {
    hide Loss, RectSpans, CircleSpans, OvalSpans, TrapezoidSpans, RoundRectSpans;
  }

  /** The importer returns `pad` with the outline of its parameters. */
  predicate Gives(r: Import<BuiltPad>, pad: PadRecord) {
    && r.Imported? && r.value.pad == pad
    && ArithmeticFits(pad.params) && RawSpans(pad.params).Some?
    && r.value.outline == Finish(RawSpans(pad.params).value)
  }

  /** Under a footprint turned by a multiple of 90 degrees, and one stackup and net table, a
      pad keeps its number, its absolute position to the nanometre, its rotation modulo a full
      turn and its shape, although the importer only knows the footprint's reduced rotation.
      Two kinds of pads are written and then refused: circles of unequal sides, and pads on a
      layer whose name the importer does not take for copper. */
  lemma PadRoundTrip(t: Tables, padId: nat, pad: PadRecord, position: Point, rotation: i64)
    requires rotation > INT64_MIN && IsQuarterTurn(rotation) && PadFits(pad, position) && Listed(t, pad)
    ensures IsQuarterTurn(-rotation) && IsQuarterTurn(NormalizeAngle(rotation))
    ensures ExportPad(t, padId, pad, position, rotation).Some?
    ensures var e := ExportPad(t, padId, pad, position, rotation).value;
            var r := ImportPad(e, position, NormalizeAngle(rotation), t);
            && (r.Imported? <==> Buildable(pad.params) && CopperNamed(t, pad))
            && (r == Refused <==> if Buildable(pad.params) then !CopperNamed(t, pad)
                                  else pad.params.shape == Circle && pad.params.width != pad.params.height)
            && (r.Imported? ==> Gives(r, PadReloaded(t, pad)))
            && (r.Imported? || r == Refused || r == Undefined)
  {
    OppositeTurns(rotation);
    PadIsRead(t, padId, pad, position, rotation);
    ReloadedFits(pad.params);
    hide ExportPad, ImportPad, NormalizeAngle, IsQuarterTurn, PadFits, Finish, ArithmeticFits, RawSpans, NamesCopper,
      NameOf, LastNamed, NetIndex, LayerReloaded, NetReloaded;
    CompletedIs(PadReloaded(t, pad), pad.params,
      if CopperNamed(t, pad) then Some(LayerReloaded(t.layers, pad.layer)) else None);
  }

  lemma CompletedIs(pad: PadRecord, written: PadShapeParams, layer: Option<nat>)
    requires pad.params == Reloaded(written) && (layer.Some? ==> layer.value == pad.layer)
    ensures var r := Completed(pad.(layer := NULL_ID), layer);
            && (r.Imported? <==> Buildable(written) && layer.Some?)
            && (r == Refused <==> if Buildable(written) then layer.None?
                                  else written.shape == Circle && written.width != written.height)
            && (r.Imported? ==> Gives(r, pad))
            && (r.Imported? || r == Refused || r == Undefined)
  {
    ReloadedFits(written);
    hide Finish, OvalFits, ShearFits, InsetFits, RectSpans, CircleSpans, OvalSpans, TrapezoidSpans, RoundRectSpans,
      AfterCycle;
  }

  lemma PadIsRead(t: Tables, padId: nat, pad: PadRecord, position: Point, rotation: i64)
    requires rotation > INT64_MIN && IsQuarterTurn(rotation) && PadFits(pad, position) && Listed(t, pad)
    ensures IsQuarterTurn(-rotation) && IsQuarterTurn(NormalizeAngle(rotation))
    ensures ExportPad(t, padId, pad, position, rotation).Some?
    ensures var layer := if CopperNamed(t, pad) then Some(LayerReloaded(t.layers, pad.layer)) else None;
            ImportPad(ExportPad(t, padId, pad, position, rotation).value, position, NormalizeAngle(rotation), t)
            == Completed(PadReloaded(t, pad).(layer := NULL_ID), layer)
  {
    OppositeTurns(rotation);
    var texts := TextsOf(t, padId, pad).value;
    ShapeReads(pad, texts, position, rotation);
    PlacementReads(pad, texts, position, rotation);
    PadHead(pad, texts, position, rotation);
    ReferencesRead(t, padId, pad, position, rotation);
    MountedKind(pad.params.shape);
    var e, turn := PadNode(pad, texts, position, rotation).value, NormalizeAngle(rotation);
    hide PadNode, ResolvePlacement, ResolveNet, ResolveCopperLayer, ParseShapeParams, NormalizeAngle, IsQuarterTurn,
      Keyword, ShapeOf, Reloaded, PadFits, Completed, Mounted, ImportPad, NameOf, LastNamed, NetIndex;
    ImportSteps(e, position, turn, t, Placement(pad.position, NormalizeAngle(pad.rotation)), pad.params.shape,
                Reloaded(pad.params), NetReloaded(t.nets, pad.net));
  }

  /** Looking up the net and the copper layer of a written pad. */
  lemma ReferencesRead(t: Tables, padId: nat, pad: PadRecord, position: Point, rotation: i64)
    requires rotation > INT64_MIN && IsQuarterTurn(-rotation) && pad.rotation > INT64_MIN
    requires ShapeChildren(pad.params).Some? && Listed(t, pad)
    ensures PadNode(pad, TextsOf(t, padId, pad).value, position, rotation).Some?
    ensures var e := PadNode(pad, TextsOf(t, padId, pad).value, position, rotation).value;
            && ResolveNet(e, NetIndex(t.nets)) == Some(NetReloaded(t.nets, pad.net))
            && ResolveCopperLayer(e, t.layers)
               == if CopperNamed(t, pad) then Some(LayerReloaded(t.layers, pad.layer)) else None
  {
    hide NameOf, LastNamed, NetIndex, I.Derived, D.NatText, FirstCopper, PadLayerNames, NamesOf, NamesCopper, PadNode,
      FindChild, LayerNames, NormalizeAngle, IsQuarterTurn, ShapeChildren;
    var texts := TextsOf(t, padId, pad).value;
    var copper := NameOf(t.layers, pad.layer).value;
    PadReferences(pad, texts, position, rotation);
    NamesAreRead(PadLayerNames(copper));
    WrittenLayer(copper, t.layers);
    if texts.net.Some? {
      KnownNet(t.nets, pad.net);
    }
  }

  lemma {:induction false} KnownNet(nets: Listing, id: nat)
    requires NameOf(nets, id).Some?
    ensures NameOf(nets, id).value in NetIndex(nets)
  {
    hide NetIndex, NameOf;
    var i := EntryOfName(nets, id);
    var j := FirstNamedAt(nets, NameOf(nets, id).value);
  }

  lemma NamesAreRead(names: seq<string>)
    ensures LayerNames(Tagged("layers", NamesOf(names))) == names
  {}

  lemma PadReferences(pad: PadRecord, texts: PadTexts, position: Point, rotation: i64)
    requires rotation > INT64_MIN && IsQuarterTurn(-rotation) && pad.rotation > INT64_MIN
    requires ShapeChildren(pad.params).Some?
    ensures PadNode(pad, texts, position, rotation).Some?
    ensures var e := PadNode(pad, texts, position, rotation).value;
            && FindChild(e, "layers") == Some(Tagged("layers", NamesOf(texts.layers)))
            && FindChild(e, "net")
               == match texts.net case None => None case Some(name) => Some(Tagged("net", [Str(name)]))
  {
    hide LocalPoint, D.Format, RatioE6, NormalizeAngle, IsQuarterTurn, FirstTagged;
    var es := Children(PadNode(pad, texts, position, rotation).value);
    FirstTaggedAt(es, "layers", 6);
    if texts.net.Some? {
      FirstTaggedAt(es, "net", 7);
    } else {
      FirstTaggedNone(es, "net");
    }
  }

  lemma {:induction false} FirstTaggedNone(es: seq<SExpr>, tag: string)
    requires forall k :: 0 <= k < |es| ==> !HasTag(es[k], tag)
    ensures FirstTagged(es, tag) == None
  {
    hide HasTag;
    if es != [] {
      FirstTaggedNone(es[1..], tag);
    }
  }

  /** The pad type and the shape lead to the branch of parametric surface-mount pads. */
  predicate Mounted(kind: string, shape: string) {
    && kind != "thru_hole" && kind != "np_thru_hole" && (kind == "smd" || kind == "connect")
    && shape != "custom"
  }

  lemma MountedKind(shape: PadShape)
    ensures Mounted("smd", Keyword(shape))
  {}

  lemma ImportSteps(e: SExpr, position: Point, rotation: i64, t: Tables, placement: Placement, shape: PadShape,
                    params: PadShapeParams, net: nat)
    requires IsQuarterTurn(rotation)
    requires |Children(e)| >= 4 && Children(e)[1].Str? && Children(e)[2].Symbol? && Children(e)[3].Symbol?
    requires Mounted(Children(e)[2].text, Children(e)[3].text) && ShapeOf(Children(e)[3].text) == Some(shape)
    requires ResolvePlacement(e, position, rotation) == Some(placement)
    requires ResolveNet(e, NetIndex(t.nets)) == Some(net) && ParseShapeParams(e, shape) == Some(params)
    ensures ImportPad(e, position, rotation, t)
            == Completed(PadRecord(Children(e)[1].text, placement.center, placement.rotation, params, NULL_ID, net),
                         ResolveCopperLayer(e, t.layers))
  {
    hide Children, ResolvePlacement, ResolveNet, ResolveCopperLayer, ParseShapeParams, ShapeOf, Completed,
      IsQuarterTurn, NetIndex;
  }

  lemma {:induction false} SymbolsAreNoChildren(es: seq<SExpr>, i: nat, text: string, other: string, tag: string)
    requires i < |es|
    ensures FirstTagged(es[i := Symbol(text)], tag) == FirstTagged(es[i := Symbol(other)], tag)
  {
    var x, y := es[i := Symbol(text)], es[i := Symbol(other)];
    if i == 0 {
      assert x[1..] == y[1..];
    } else {
      assert x[1..] == es[1..][i - 1 := Symbol(text)] && y[1..] == es[1..][i - 1 := Symbol(other)];
      SymbolsAreNoChildren(es[1..], i - 1, text, other, tag);
    }
  }

  /** A pad of the type `connect` is read like one of the type `smd`; a drilled pad is another branch;
      every other type is refused. */
  lemma PadTypes(es: seq<SExpr>, kind: string, position: Point, rotation: i64, t: Tables)
    requires IsQuarterTurn(rotation) && |es| >= 4
    ensures var r := ImportPad(List(es[2 := Symbol(kind)]), position, rotation, t);
            && (kind == "connect" ==> r == ImportPad(List(es[2 := Symbol("smd")]), position, rotation, t))
            && (kind == "thru_hole" || kind == "np_thru_hole" ==> r == Refused || r == Beyond)
            && (kind !in {"smd", "connect", "thru_hole", "np_thru_hole"} ==> r == Refused)
  {
    hide ResolvePlacement, ResolveNet, ResolveCopperLayer, ParseShapeParams, NetIndex, Completed, IsQuarterTurn,
      ShapeOf;
    SameChildren(es, kind, "smd");
    SameResolution(List(es[2 := Symbol(kind)]), List(es[2 := Symbol("smd")]), position, rotation, t);
  }

  predicate SameFor(e: SExpr, e': SExpr, tag: string) { FindChild(e, tag) == FindChild(e', tag) }

  ghost predicate SameLookups(e: SExpr, e': SExpr) { forall tag :: SameFor(e, e', tag) }

  lemma SameChildren(es: seq<SExpr>, kind: string, other: string)
    requires |es| >= 4
    ensures SameLookups(List(es[2 := Symbol(kind)]), List(es[2 := Symbol(other)]))
  {
    hide FirstTagged;
    var e, e' := List(es[2 := Symbol(kind)]), List(es[2 := Symbol(other)]);
    forall tag
      ensures SameFor(e, e', tag)
    {
      SymbolsAreNoChildren(es, 2, kind, other, tag);
    }
  }

  lemma SameResolution(e: SExpr, e': SExpr, position: Point, rotation: i64, t: Tables)
    requires IsQuarterTurn(rotation) && SameLookups(e, e')
    ensures ResolvePlacement(e, position, rotation) == ResolvePlacement(e', position, rotation)
    ensures ResolveNet(e, NetIndex(t.nets)) == ResolveNet(e', NetIndex(t.nets))
    ensures ResolveCopperLayer(e, t.layers) == ResolveCopperLayer(e', t.layers)
    ensures forall shape :: ParseShapeParams(e, shape) == ParseShapeParams(e', shape)
  {
    hide FindChild, ParseCoordinatePair, ParseRotation, NetIndex, IsQuarterTurn, FirstCopper, LayerNames,
      RadiusOfRatio, FirstValue, Children, Text, RotatePoint, Add;
    assert SameFor(e, e', "at") && SameFor(e, e', "net") && SameFor(e, e', "layers") && SameFor(e, e', "size");
    assert SameFor(e, e', "roundrect_rratio") && SameFor(e, e', "rect_delta");
  }

  /** What a pad that is read was in the file, whatever file it is. */
  lemma ImportedPadMeans(e: SExpr, position: Point, rotation: i64, t: Tables, b: BuiltPad)
    requires IsQuarterTurn(rotation) && ImportPad(e, position, rotation, t) == Imported(b)
    ensures |Children(e)| >= 4 && Children(e)[1] == Str(b.pad.number)
    ensures Children(e)[2] == Symbol("smd") || Children(e)[2] == Symbol("connect")
    ensures Children(e)[3] == Symbol(Keyword(b.pad.params.shape))
    ensures FindChild(e, "at").Some? && ParseRotation(FindChild(e, "at").value) == Some(b.pad.rotation)
    ensures var local := ParseCoordinatePair(FindChild(e, "at").value);
            local.Some? && b.pad.position == Add(position, RotatePoint(local.value, ORIGIN, rotation))
    ensures ResolveNet(e, NetIndex(t.nets)) == Some(b.pad.net)
    ensures ResolveCopperLayer(e, t.layers) == Some(b.pad.layer)
    ensures ParamsMean(e, b.pad.params)
    ensures Gives(Imported(b), b.pad)
  {
    hide ParseCoordinatePair, ParseRotation, ResolveNet, ResolveCopperLayer, FindChild, NetIndex, IsQuarterTurn,
      RotatePoint, Add, Finish, RawSpans, ArithmeticFits, ShapeOf, Keyword, ParseShapeParams, ParamsMean;
    var text := Children(e)[3].text;
    ShapeKeywords(text, b.pad.params.shape);
    ShapeOfParams(e, ShapeOf(text).value);
    ShapeKeywords(text, ShapeOf(text).value);
  }

  /** The size is what the file says; a missing ratio or delta means none, and no other shape has one. */
  predicate ParamsMean(e: SExpr, p: PadShapeParams) {
    && FindChild(e, "size").Some? && ParseCoordinatePair(FindChild(e, "size").value) == Some(Point(p.width, p.height))
    && (if p.shape == RoundRect && FindChild(e, "roundrect_rratio").Some? then
          var ratio := FirstValue(FindChild(e, "roundrect_rratio").value);
          ratio.Some? && RadiusOfRatio(ratio.value, p.width, p.height) == Some(p.radius)
        else p.radius == 0)
    && (if p.shape == Trapezoid && FindChild(e, "rect_delta").Some? then
          ParseCoordinatePair(FindChild(e, "rect_delta").value) == Some(Point(p.deltaX, p.deltaY))
        else p.deltaX == 0 && p.deltaY == 0)
  }

  lemma ShapeOfParams(e: SExpr, shape: PadShape)
    requires ParseShapeParams(e, shape).Some?
    ensures ParseShapeParams(e, shape).value.shape == shape && ParamsMean(e, ParseShapeParams(e, shape).value)
  {
    hide FindChild, ParseCoordinatePair, FirstValue, RadiusOfRatio;
  }

  /** A pad is exported unless a reference dangles or its corner radius overflows. */
  lemma PadExportedIff(t: Tables, padId: nat, pad: PadRecord, position: Point, rotation: i64)
    requires rotation > INT64_MIN && IsQuarterTurn(-rotation) && pad.rotation > INT64_MIN
    ensures ExportPad(t, padId, pad, position, rotation).Some? <==> Listed(t, pad) && RadiusWritable(pad.params)
  {
    RatioExistsIff(pad.params.radius, pad.params.width, pad.params.height);
    hide NameOf, RatioE6, I.Derived, D.NatText, AtNode, LocalPoint, NormalizeAngle, IsQuarterTurn, NumberPair, NamesOf,
      PadLayerNames;
  }

  /** An exported pad is found among the children of its footprint. */
  lemma ExportedIsPad(t: Tables, padId: nat, pad: PadRecord, position: Point, rotation: i64)
    requires rotation > INT64_MIN && IsQuarterTurn(-rotation) && pad.rotation > INT64_MIN
    requires ExportPad(t, padId, pad, position, rotation).Some?
    ensures HasTag(ExportPad(t, padId, pad, position, rotation).value, "pad")
  {
    PadHead(pad, TextsOf(t, padId, pad).value, position, rotation);
    hide TextsOf, ShapeChildren, NormalizeAngle, IsQuarterTurn, AtNode, LocalPoint, NumberPair, NetChildren, NamesOf,
      Keyword;
  }

  /** And it is well formed and nests two lists, whatever its texts are. */
  lemma ExportedIsSound(t: Tables, padId: nat, pad: PadRecord, position: Point, rotation: i64)
    requires rotation > INT64_MIN && IsQuarterTurn(-rotation) && pad.rotation > INT64_MIN
    requires ExportPad(t, padId, pad, position, rotation).Some?
    ensures Sound(ExportPad(t, padId, pad, position, rotation).value, 2)
  {
    PadSound(pad, TextsOf(t, padId, pad).value, position, rotation);
    hide TextsOf, PadNode, NormalizeAngle, IsQuarterTurn, Sound;
  }

  /** A pad whose values can all be written and read, that is exported, and that its own import refuses. */
  predicate WrittenAndRefused(t: Tables, padId: nat, pad: PadRecord, position: Point, rotation: i64)
    requires rotation > INT64_MIN && IsQuarterTurn(rotation) && IsQuarterTurn(-rotation)
  {
    && PadFits(pad, position) && ExportPad(t, padId, pad, position, rotation).Some?
    && IsQuarterTurn(NormalizeAngle(rotation))
    && ImportPad(ExportPad(t, padId, pad, position, rotation).value, position, NormalizeAngle(rotation), t) == Refused
  }

  lemma RefusedIf(t: Tables, padId: nat, pad: PadRecord, position: Point, rotation: i64)
    requires rotation > INT64_MIN && IsQuarterTurn(rotation) && IsQuarterTurn(-rotation)
    requires PadFits(pad, position) && Listed(t, pad)
    requires if Buildable(pad.params) then !CopperNamed(t, pad)
             else pad.params.shape == Circle && pad.params.width != pad.params.height
    ensures WrittenAndRefused(t, padId, pad, position, rotation)
  {
    hide ExportPad, ImportPad, NormalizeAngle, IsQuarterTurn, PadFits, CopperNamed, Listed, Buildable, Gives;
    PadRoundTrip(t, padId, pad, position, rotation);
  }

  lemma NoTurn()
    ensures IsQuarterTurn(0) && IsQuarterTurn(-0)
  {}

  /** The stackup and the nets of the two examples. */
  function OneLayer(name: string): Tables { Tables([Entry(1, name)], [Entry(1, "GND")]) }

  function PlainPad(shape: PadShape): PadRecord {
    PadRecord("1", ORIGIN, 0, PadShapeParams(shape, 10, 20, 0, 0, 0), 1, 1)
  }

  lemma PlainPadFits(shape: PadShape, name: string)
    ensures PadFits(PlainPad(shape), ORIGIN)
    ensures Listed(OneLayer(name), PlainPad(shape))
            && NameOf(OneLayer(name).layers, PlainPad(shape).layer) == Some(name)
  {}

  lemma TopIsNoCopper()
    ensures !NamesCopper("Top")
  {}

  /** For one, a pad on a copper layer that is called "Top". */
  lemma TopPadIsRefused()
    ensures IsQuarterTurn(0) && IsQuarterTurn(-0)
    ensures Listed(OneLayer("Top"), PlainPad(Rect)) && WrittenAndRefused(OneLayer("Top"), 1, PlainPad(Rect), ORIGIN, 0)
  {
    hide WrittenAndRefused, IsQuarterTurn, PadFits, Listed, OneLayer, NamesCopper;
    NoTurn();
    PlainPadFits(Rect, "Top");
    TopIsNoCopper();
    RefusedIf(OneLayer("Top"), 1, PlainPad(Rect), ORIGIN, 0);
  }

  /** For another, a circle of unequal sides on a layer that is called "F.Cu". */
  lemma UnequalCircleIsRefused()
    ensures IsQuarterTurn(0) && IsQuarterTurn(-0)
    ensures Listed(OneLayer("F.Cu"), PlainPad(Circle))
            && WrittenAndRefused(OneLayer("F.Cu"), 1, PlainPad(Circle), ORIGIN, 0)
  {
    hide WrittenAndRefused, IsQuarterTurn, PadFits, Listed, OneLayer;
    NoTurn();
    PlainPadFits(Circle, "F.Cu");
    RefusedIf(OneLayer("F.Cu"), 1, PlainPad(Circle), ORIGIN, 0);
  }

  /** The outline comes back span for span exactly when the shape has no corner radius,
      or the radius is reproduced. */
  lemma SameOutlineIff(p: PadShapeParams)
    requires Buildable(p) && ArithmeticFits(p)
    ensures ArithmeticFits(Reloaded(p))
    ensures RawSpans(Reloaded(p)) == RawSpans(p) <==>
            p.shape != RoundRect || p.radius <= 0 || AfterCycle(p.radius, Lesser(p.width, p.height)) == p.radius
  {
    ReloadedFits(p);
    hide RectSpans, CircleSpans, OvalSpans, TrapezoidSpans, AfterCycle;
    if p.shape == RoundRect && p.radius > 0 {
      DifferentCorners(p, AfterCycle(p.radius, Lesser(p.width, p.height)));
    }
  }

  /** Different radii, or a radius and none, give different spans. */
  lemma DifferentCorners(p: PadShapeParams, radius: int)
    requires p.shape == RoundRect && 0 <= radius <= p.radius && p.radius > 0
    requires ArithmeticFits(p) && ArithmeticFits(p.(radius := radius))
    ensures RoundRectSpans(p.width, p.height, radius) == RoundRectSpans(p.width, p.height, p.radius)
            <==> radius == p.radius
  {
    if 0 < radius {
      var hw, hh := HalfOf(p.width), HalfOf(p.height);
      assert Octagon(hw, hh, hw - radius, hh - radius).spans[0].start.x == hw - radius;
      assert Octagon(hw, hh, hw - p.radius, hh - p.radius).spans[0].start.x == hw - p.radius;
    } else {
      assert |RectSpans(p.width, p.height).spans| == 4;
    }
  }

  /** A pad that the importer takes, turned by a multiple of 90 degrees, gets back the outline on the
      board that its parameters have, whenever its corner radius, if it has one, is reproduced. */
  lemma PlacedOutlineSurvives(t: Tables, padId: nat, pad: PadRecord, position: Point, rotation: i64)
    requires rotation > INT64_MIN && IsQuarterTurn(rotation) && PadFits(pad, position) && Listed(t, pad)
    requires IsQuarterTurn(pad.rotation)
    requires Buildable(pad.params) && ArithmeticFits(pad.params) && CopperNamed(t, pad)
    requires pad.params.shape != RoundRect || pad.params.radius <= 0
             || AfterCycle(pad.params.radius, Lesser(pad.params.width, pad.params.height)) == pad.params.radius
    ensures IsQuarterTurn(-rotation) && IsQuarterTurn(NormalizeAngle(rotation))
    ensures ExportPad(t, padId, pad, position, rotation).Some? && RawSpans(pad.params).Some?
    ensures var e := ExportPad(t, padId, pad, position, rotation).value;
            var r := ImportPad(e, position, NormalizeAngle(rotation), t);
            && r.Imported? && IsQuarterTurn(r.value.pad.rotation)
            && PlacedOutline(r.value.outline.outline, r.value.pad.rotation, r.value.pad.position)
               == PlacedOutline(Finish(RawSpans(pad.params).value).outline, pad.rotation, pad.position)
  {
    OppositeTurns(pad.rotation);
    PadRoundTrip(t, padId, pad, position, rotation);
    ReloadedFits(pad.params);
    SameOutlineIff(pad.params);
    SameTurn(Finish(RawSpans(pad.params).value).outline, pad.rotation);
    hide ExportPad, ImportPad, NormalizeAngle, IsQuarterTurn, PadFits, Finish, ArithmeticFits, RawSpans, Reloaded,
      RotateContour, CopperNamed, Listed, LayerReloaded, NetReloaded;
  }

  lemma SameTurn(c: Contour, rotation: i64)
    requires rotation > INT64_MIN && IsQuarterTurn(rotation)
    ensures IsQuarterTurn(NormalizeAngle(rotation))
    ensures RotateContour(c, ORIGIN, NormalizeAngle(rotation)) == RotateContour(c, ORIGIN, rotation)
  {
    OppositeTurns(rotation);
    hide NormalizeAngle, IsQuarterTurn, QuarterTurns;
    assert RotateContour(c, ORIGIN, NormalizeAngle(rotation)).spans == RotateContour(c, ORIGIN, rotation).spans;
  }

  // ------------------------------------------------------ the tree survives the text

  lemma FootprintSymbols()
    ensures SymbolText("pad") && SymbolText("smd") && SymbolText("at") && SymbolText("size") && SymbolText("layers")
    ensures SymbolText("net") && SymbolText("uuid") && SymbolText("footprint")
    ensures SymbolText("roundrect_rratio") && SymbolText("rect_delta")
  {}

  lemma KeywordIsSymbol(shape: PadShape)
    ensures SymbolText(Keyword(shape))
  {}

  lemma SymbolSound(text: string, n: nat)
    requires SymbolText(text)
    ensures Sound(Symbol(text), n)
  {}

  function NumbersOf(vs: seq<i64>): (r: seq<SExpr>)
    ensures |r| == |vs| && forall i :: 0 <= i < |r| ==> r[i] == Symbol(D.Format(vs[i]))
  {
    seq(|vs|, i requires 0 <= i < |vs| => Symbol(D.Format(vs[i])))
  }

  lemma NumbersSound(tag: string, vs: seq<i64>)
    requires SymbolText(tag)
    ensures Sound(Tagged(tag, NumbersOf(vs)), 1)
  {
    hide D.Format, Sound, SymbolText, Tagged;
    forall i | 0 <= i < |NumbersOf(vs)|
      ensures Sound(NumbersOf(vs)[i], 0)
    {
      FormatIsSymbol(vs[i]);
      SymbolSound(D.Format(vs[i]), 0);
    }
    TaggedSound(tag, NumbersOf(vs), 0);
  }

  lemma FewNumbers(u: i64, v: i64, w: i64)
    ensures NumbersOf([u]) == [Symbol(D.Format(u))]
    ensures NumbersOf([u, v]) == [Symbol(D.Format(u)), Symbol(D.Format(v))]
    ensures NumbersOf([u, v, w]) == [Symbol(D.Format(u)), Symbol(D.Format(v)), Symbol(D.Format(w))]
  {
    hide D.Format;
  }

  lemma NumberSound(tag: string, v: i64)
    requires SymbolText(tag)
    ensures Sound(Number(tag, v), 1)
  {
    hide D.Format, Sound, SymbolText, Tagged, NumbersOf;
    NumbersSound(tag, [v]);
    FewNumbers(v, v, v);
  }

  lemma NumberPairSound(tag: string, v: i64, w: i64)
    requires SymbolText(tag)
    ensures Sound(NumberPair(tag, v, w), 1)
  {
    hide D.Format, Sound, SymbolText, Tagged, NumbersOf;
    NumbersSound(tag, [v, w]);
    FewNumbers(v, w, w);
  }

  lemma AtSound(p: Point, rotation: i64)
    requires rotation > INT64_MIN
    ensures Sound(AtNode(p, rotation), 1)
  {
    hide D.Format, Sound, SymbolText, Tagged, NormalizeAngle, NumbersOf;
    FootprintSymbols();
    var xy := [Symbol(D.Format(p.x)), Symbol(D.Format(p.y))];
    match FormatRotation(rotation)
    case None =>
      NumbersSound("at", [p.x, p.y]);
      FewNumbers(p.x, p.y, 0);
      assert xy + [] == xy;
    case Some(k) =>
      NumbersSound("at", [p.x, p.y, k]);
      FewNumbers(p.x, p.y, k);
      assert xy + [Symbol(D.Format(k))] == [Symbol(D.Format(p.x)), Symbol(D.Format(p.y)), Symbol(D.Format(k))];
  }

  lemma StringsSound(tag: string, names: seq<string>)
    requires SymbolText(tag)
    ensures Sound(Tagged(tag, NamesOf(names)), 1)
  {
    hide Sound, SymbolText, Tagged, NamesOf;
    forall i | 0 <= i < |NamesOf(names)|
      ensures Sound(NamesOf(names)[i], 0)
    {
      StrSound(names[i], 0);
    }
    TaggedSound(tag, NamesOf(names), 0);
  }

  lemma ShapeChildrenSound(p: PadShapeParams)
    requires ShapeChildren(p).Some?
    ensures AllSound(ShapeChildren(p).value, 1)
  {
    hide Sound, SymbolText, Tagged, RatioE6;
    FootprintSymbols();
    if p.shape == RoundRect {
      NumberSound("roundrect_rratio", RatioE6(p.radius, p.width, p.height).value);
    } else if p.shape == Trapezoid {
      NumberPairSound("rect_delta", p.deltaX, p.deltaY);
    }
  }

  lemma NetSound(net: Option<string>)
    ensures AllSound(NetChildren(net), 1)
  {
    hide Sound, SymbolText, Tagged;
    FootprintSymbols();
    if net.Some? {
      OneString("net", net.value);
    }
  }

  lemma OneString(tag: string, text: string)
    requires SymbolText(tag)
    ensures Sound(Tagged(tag, [Str(text)]), 1)
  {
    hide Sound, SymbolText, Tagged;
    StringsSound(tag, [text]);
    assert NamesOf([text]) == [Str(text)];
  }

  /** Whatever its texts are, a written pad is well formed and nests two lists. */
  lemma PadSound(pad: PadRecord, texts: PadTexts, position: Point, rotation: i64)
    requires rotation > INT64_MIN && IsQuarterTurn(-rotation) && pad.rotation > INT64_MIN
    requires PadNode(pad, texts, position, rotation).Some?
    ensures Sound(PadNode(pad, texts, position, rotation).value, 2)
  {
    hide Sound, SymbolText, Tagged, AtNode, NumberPair, NamesOf, NetChildren, ShapeChildren, LocalPoint, Keyword,
      NormalizeAngle, IsQuarterTurn;
    var at := AtNode(LocalPoint(pad.position, position, rotation), pad.rotation);
    var size, layers := NumberPair("size", pad.params.width, pad.params.height),
      Tagged("layers", NamesOf(texts.layers));
    var head := [Str(pad.number), Symbol("smd"), Symbol(Keyword(pad.params.shape)), at, size, layers];
    var uuid := Tagged("uuid", [Str(texts.uuid)]);
    FootprintSymbols();
    KeywordIsSymbol(pad.params.shape);
    StrSound(pad.number, 1);
    SymbolSound("smd", 1);
    SymbolSound(Keyword(pad.params.shape), 1);
    AtSound(LocalPoint(pad.position, position, rotation), pad.rotation);
    NumberPairSound("size", pad.params.width, pad.params.height);
    StringsSound("layers", texts.layers);
    OneString("uuid", texts.uuid);
    NetSound(texts.net);
    ShapeChildrenSound(pad.params);
    assert AllSound(head, 1) && AllSound([uuid], 1);
    AllSoundConcat(head, NetChildren(texts.net), 1);
    AllSoundConcat(head + NetChildren(texts.net), ShapeChildren(pad.params).value, 1);
    AllSoundConcat(head + NetChildren(texts.net) + ShapeChildren(pad.params).value, [uuid], 1);
    TaggedSound("pad", head + NetChildren(texts.net) + ShapeChildren(pad.params).value + [uuid], 1);
  }
}
