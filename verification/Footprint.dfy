/** A whole footprint entry: its export, its import, and the round trip through the file. */
module Footprints {
  import opened Wrappers
  import opened Int64
  import opened Geometry
  import opened Transforms
  import opened SExprs
  import opened SExprGrammar
  import opened Zones
  import opened PadShapes
  import opened Lookups
  import opened PadCodecs
  import D = Decimals
  import I = Identifiers

  datatype Side = Top | Bottom

  /** A footprint all of whose members are surface-mount pads with a known shape. */
  datatype FootprintRecord = FootprintRecord(reference: string, value: string, position: Point, rotation: i64,
                                             side: Side, pads: seq<PadRecord>)

  /** The ids of a footprint and of its pads, from which the written identifiers are derived. */
  datatype Ids = Ids(footprint: nat, pads: seq<nat>)

  // -------------------------------------------------------------------- exporting

  /** `side_prefix`. */
  function SidePrefix(side: Side): string { if side == Bottom then "B." else "F." }

  function Field(tag: string, text: string): SExpr { Tagged(tag, [Str(text)]) }

  /** `property_node`. */
  function PropertyNode(key: string, value: string, layer: string, id: nat, kind: string): SExpr {
    Tagged("property",
      [Str(key), Str(value), Tagged("at", [Symbol("0"), Symbol("0")]), Field("layer", layer),
       Field("uuid", I.Derived("pcbir:geometry:footprint_property:" + D.NatText(id) + ":" + kind))])
  }

  function LibraryName(reference: string): string { "PCBIR:" + if reference == "" then "FOOTPRINT" else reference }

  /** Everything in front of the pads: the library name, the layer, the uuid, the placement, the properties. */
  function Front(f: FootprintRecord, id: nat): (es: seq<SExpr>)
    requires f.rotation > INT64_MIN
    ensures |es| == 6
  {
    var prefix := SidePrefix(f.side);
    [Str(LibraryName(f.reference)),
     Field("layer", prefix + "Cu"),
     Field("uuid", I.Derived("pcbir:geometry:footprint:" + D.NatText(id))),
     AtNode(f.position, f.rotation),
     PropertyNode("Reference", f.reference, prefix + "SilkS", id, "reference"),
     PropertyNode("Value", f.value, prefix + "Fab", id, "value")]
  }

  /** The rotations for which the arithmetic of the exporter is exact and does not overflow. */
  predicate Turnable(f: FootprintRecord) {
    && f.rotation > INT64_MIN && IsQuarterTurn(-f.rotation)
    && forall i :: 0 <= i < |f.pads| ==> f.pads[i].rotation > INT64_MIN
  }

  /** The nodes of the first `k` pads; `None` is an ExportError. */
  function PadNodes(t: Tables, ids: Ids, f: FootprintRecord, k: nat): (r: Option<seq<SExpr>>)
    requires Turnable(f) && |ids.pads| == |f.pads| && k <= |f.pads|
    ensures r.Some? ==> |r.value| == k
  {
    if k == 0 then Some([])
    else match (PadNodes(t, ids, f, k - 1), ExportPad(t, ids.pads[k - 1], f.pads[k - 1], f.position, f.rotation))
      case (Some(nodes), Some(node)) => Some(nodes + [node])
      case _ => None
  }

  /** `export_footprint_entry`; `None` is its ExportError. */
  function Exported(t: Tables, ids: Ids, f: FootprintRecord): Option<SExpr>
    requires Turnable(f) && |ids.pads| == |f.pads|
  {
    match PadNodes(t, ids, f, |f.pads|)
    case None => None
    case Some(nodes) => Some(Tagged("footprint", Front(f, ids.footprint) + nodes))
  }

  method ExportFootprintEntry(t: Tables, ids: Ids, f: FootprintRecord) returns (r: Option<SExpr>)
    requires Turnable(f) && |ids.pads| == |f.pads|
    ensures r == Exported(t, ids, f)
  {
    hide ExportPad, AtNode, PropertyNode, Field, Front, NormalizeAngle, IsQuarterTurn;
    var children := Front(f, ids.footprint);
    ghost var nodes: seq<SExpr> := [];
    for i := 0 to |f.pads|
      invariant PadNodes(t, ids, f, i) == Some(nodes)
      invariant children == Front(f, ids.footprint) + nodes
    {
      var node := ExportPad(t, ids.pads[i], f.pads[i], f.position, f.rotation);
      if node.None? {
        PadNodesFail(t, ids, f, i + 1);
        return None;
      }
      children := children + [node.value];
      nodes := nodes + [node.value];
    }
    r := Some(Tagged("footprint", children));
  }

  lemma {:induction false} PadNodesFail(t: Tables, ids: Ids, f: FootprintRecord, k: nat)
    requires Turnable(f) && |ids.pads| == |f.pads| && k <= |f.pads| && PadNodes(t, ids, f, k).None?
    ensures PadNodes(t, ids, f, |f.pads|).None?
    decreases |f.pads| - k
  {
    hide ExportPad, IsQuarterTurn;
    if k < |f.pads| {
      PadNodesFail(t, ids, f, k + 1);
    }
  }

  // -------------------------------------------------------------------- importing

  /** The value of the first property with a key, or nothing to show. */
  function FirstProperty(nodes: seq<SExpr>, key: string): string {
    if nodes == [] then ""
    else
      var cs := Children(nodes[0]);
      if |cs| >= 3 && cs[1].Str? && cs[1].text == key then Text(cs[2]) else FirstProperty(nodes[1..], key)
  }

  /** A property with this key, and a value behind it. */
  predicate HasKey(node: SExpr, key: string) { |Children(node)| >= 3 && Children(node)[1] == Str(key) }

  /** The first property with the key gives the value; without one it is empty. */
  lemma {:induction false} FirstPropertyMeans(nodes: seq<SExpr>, key: string, i: nat)
    ensures i < |nodes| && HasKey(nodes[i], key) && (forall j :: 0 <= j < i ==> !HasKey(nodes[j], key)) ==>
              FirstProperty(nodes, key) == Text(Children(nodes[i])[2])
    ensures (forall j :: 0 <= j < |nodes| ==> !HasKey(nodes[j], key)) ==> FirstProperty(nodes, key) == ""
  {
    hide Children, Text;
    if nodes != [] {
      assert forall j :: 0 <= j < |nodes| - 1 ==> nodes[1..][j] == nodes[j + 1];
      if i > 0 {
        FirstPropertyMeans(nodes[1..], key, i - 1);
      } else {
        FirstPropertyMeans(nodes[1..], key, 0);
      }
    }
  }

  /** `find_property_value`. */
  function PropertyValue(e: SExpr, key: string): string { FirstProperty(AllTagged(Children(e), "property"), key) }

  method FindPropertyValue(e: SExpr, key: string) returns (value: string)
    ensures value == PropertyValue(e, key)
  {
    hide AllTagged;
    var nodes := FindAllChildren(e, "property");
    for i := 0 to |nodes|
      invariant FirstProperty(nodes, key) == FirstProperty(nodes[i..], key)
    {
      assert nodes[i..][1..] == nodes[i + 1..];
      var cs := Children(nodes[i]);
      if |cs| >= 3 && cs[1].Str? && cs[1].text == key {
        return Text(cs[2]);
      }
    }
    return "";
  }

  /** A footprint as it is read: its pads come with their outlines. */
  datatype BuiltFootprint = BuiltFootprint(reference: string, value: string, position: Point, rotation: i64,
                                           side: Side, pads: seq<BuiltPad>)

  /** The pads in order, up to the first one that is not imported. */
  function ImportPads(nodes: seq<SExpr>, position: Point, rotation: i64, t: Tables): Import<seq<BuiltPad>>
    requires IsQuarterTurn(rotation)
  {
    if nodes == [] then Imported([])
    else
      var last := |nodes| - 1;
      match ImportPads(nodes[..last], position, rotation, t)
      case Refused => Refused
      case Undefined => Undefined
      case Beyond => Beyond
      case Imported(pads) =>
        match ImportPad(nodes[last], position, rotation, t)
        case Refused => Refused
        case Undefined => Undefined
        case Beyond => Beyond
        case Imported(pad) => Imported(pads + [pad])
  }

  /** One iteration of `import_footprints`. A footprint that is not turned by a multiple of 90
      degrees is placed through floating point. */
  function ImportFootprint(e: SExpr, t: Tables): Import<BuiltFootprint> {
    match (FindChild(e, "layer"), FindChild(e, "at"))
    case (Some(layer), Some(at)) =>
      if |Children(layer)| < 2 then Refused
      else
        (match (ParseCoordinatePair(at), ParseRotation(at))
         case (Some(position), Some(rotation)) =>
           if !IsQuarterTurn(rotation) then Beyond
           else
             Assembled(BuiltFootprint(PropertyValue(e, "Reference"), PropertyValue(e, "Value"), position, rotation,
                                      SideOf(Text(Children(layer)[1])), []),
                       ImportPads(AllTagged(Children(e), "pad"), position, rotation, t))
         case _ => Refused)
    case _ => Refused
  }

  function SideOf(layer: string): Side { if layer == "B.Cu" then Bottom else Top }

  /** Only the layer "B.Cu" means the bottom side; the two sides are written as the layers of copper. */
  lemma SidesMean(layer: string, side: Side)
    ensures SideOf(layer) == Side.Bottom <==> layer == "B.Cu"
    ensures SidePrefix(side) + "Cu" == (if side == Side.Bottom then "B.Cu" else "F.Cu")
  {}

  /** The footprint with its pads, if they could be imported. */
  function Assembled(f: BuiltFootprint, pads: Import<seq<BuiltPad>>): Import<BuiltFootprint> {
    match pads
    case Refused => Refused
    case Undefined => Undefined
    case Beyond => Beyond
    case Imported(built) => Imported(f.(pads := built))
  }

  method ImportFootprintEntry(e: SExpr, t: Tables) returns (r: Import<BuiltFootprint>)
    ensures r == ImportFootprint(e, t)
  {
    hide FindChild, AllTagged, ImportPad, ParseCoordinatePair, ParseRotation, IsQuarterTurn, PropertyValue;
    var layer, at := FindChild(e, "layer"), FindChild(e, "at");
    if layer.None? || |Children(layer.value)| < 2 || at.None? {
      return Refused;
    }
    var position, rotation := ParseCoordinatePair(at.value), ParseRotation(at.value);
    if position.None? || rotation.None? {
      return Refused;
    }
    if !IsQuarterTurn(rotation.value) {
      return Beyond;
    }
    var side := SideOf(Text(Children(layer.value)[1]));
    var nodes := FindAllChildren(e, "pad");
    var pads := CollectPads(nodes, position.value, rotation.value, t);
    match pads
    case Refused => return Refused;
    case Undefined => return Undefined;
    case Beyond => return Beyond;
    case Imported(built) =>
      var reference := FindPropertyValue(e, "Reference");
      var value := FindPropertyValue(e, "Value");
      return Imported(BuiltFootprint(reference, value, position.value, rotation.value, side, built));
  }

  /** The loop over the pads. */
  method CollectPads(nodes: seq<SExpr>, position: Point, rotation: i64, t: Tables) returns (r: Import<seq<BuiltPad>>)
    requires IsQuarterTurn(rotation)
    ensures r == ImportPads(nodes, position, rotation, t)
  {
    hide ImportPad, IsQuarterTurn;
    var pads: seq<BuiltPad> := [];
    for i := 0 to |nodes|
      invariant ImportPads(nodes[..i], position, rotation, t) == Imported(pads)
    {
      assert nodes[..i + 1][..i] == nodes[..i];
      var pad := ImportPad(nodes[i], position, rotation, t);
      if !pad.Imported? {
        PadsStop(nodes, i + 1, position, rotation, t);
        match pad
        case Refused => return Refused;
        case Undefined => return Undefined;
        case Beyond => return Beyond;
      }
      pads := pads + [pad.value];
    }
    assert nodes[..|nodes|] == nodes;
    return Imported(pads);
  }

  lemma {:induction false} PadsStop(nodes: seq<SExpr>, i: nat, position: Point, rotation: i64, t: Tables)
    requires IsQuarterTurn(rotation) && i <= |nodes| && !ImportPads(nodes[..i], position, rotation, t).Imported?
    ensures ImportPads(nodes, position, rotation, t) == ImportPads(nodes[..i], position, rotation, t)
  {
    hide ImportPad, IsQuarterTurn;
    if i < |nodes| {
      var front := nodes[..|nodes| - 1];
      assert front[..i] == nodes[..i];
      PadsStop(front, i, position, rotation, t);
    } else {
      assert nodes[..i] == nodes;
    }
  }

  /** All pads are read, each on its own and in order, or the footprint is not. */
  lemma {:induction false} ImportPadsMeans(nodes: seq<SExpr>, position: Point, rotation: i64, t: Tables)
    requires IsQuarterTurn(rotation)
    ensures var r := ImportPads(nodes, position, rotation, t);
            && (r.Imported? <==> forall i :: 0 <= i < |nodes| ==> ImportPad(nodes[i], position, rotation, t).Imported?)
            && (r.Imported? ==>
                && |r.value| == |nodes|
                && forall i :: 0 <= i < |nodes| ==> ImportPad(nodes[i], position, rotation, t) == Imported(r.value[i]))
  {
    hide ImportPad, IsQuarterTurn;
    if nodes != [] {
      var last := |nodes| - 1;
      ImportPadsMeans(nodes[..last], position, rotation, t);
      assert forall i :: 0 <= i < last ==> nodes[..last][i] == nodes[i];
    }
  }

  /** Without a layer, a position or a readable angle a footprint is refused; what is read was in the file. */
  lemma ImportedFootprintMeans(e: SExpr, t: Tables)
    ensures var layer, at := FindChild(e, "layer"), FindChild(e, "at");
            var headed := layer.Some? && |Children(layer.value)| >= 2 && at.Some?
                          && ParseCoordinatePair(at.value).Some? && ParseRotation(at.value).Some?;
            && (!headed ==> ImportFootprint(e, t) == Refused)
            && (ImportFootprint(e, t).Imported? ==>
                var f, nodes := ImportFootprint(e, t).value, AllTagged(Children(e), "pad");
                && headed && f.position == ParseCoordinatePair(at.value).value
                && f.rotation == ParseRotation(at.value).value && IsQuarterTurn(f.rotation)
                && f.side == SideOf(Text(Children(layer.value)[1]))
                && f.reference == PropertyValue(e, "Reference") && f.value == PropertyValue(e, "Value")
                && |f.pads| == |nodes|
                && forall i :: 0 <= i < |nodes| ==>
                     ImportPad(nodes[i], f.position, f.rotation, t) == Imported(f.pads[i]))
  {
    hide FindChild, ParseCoordinatePair, ParseRotation, IsQuarterTurn, ImportPads, ImportPad, PropertyValue, AllTagged,
      SideOf, Children, Text;
    if ImportFootprint(e, t).Imported? {
      var f := ImportFootprint(e, t).value;
      ImportPadsMeans(AllTagged(Children(e), "pad"), f.position, f.rotation, t);
    }
  }

  // --------------------------------------------------------------- the round trip

  /** A footprint turned by a multiple of 90 degrees, all of whose values can be written and read. */
  predicate Exportable(t: Tables, ids: Ids, f: FootprintRecord) {
    && f.rotation > INT64_MIN && IsQuarterTurn(f.rotation) && ReadablePoint(f.position) && |ids.pads| == |f.pads|
    && forall i :: 0 <= i < |f.pads| ==> PadFits(f.pads[i], f.position) && Listed(t, f.pads[i])
  }

  /** The importer takes every pad: its outline can be built and its layer is found. */
  predicate AllImportable(t: Tables, f: FootprintRecord) {
    forall i :: 0 <= i < |f.pads| ==> Importable(t, f.pads[i])
  }

  predicate Importable(t: Tables, pad: PadRecord) { Buildable(pad.params) && CopperNamed(t, pad) }

  /** `b` is `f` after one export and import under the same tables. */
  predicate IsReloaded(b: BuiltFootprint, t: Tables, f: FootprintRecord) {
    && b.reference == f.reference && b.value == f.value && b.side == f.side
    && b.position == f.position && b.rotation == NormalizeAngle(f.rotation)
    && |b.pads| == |f.pads|
    && forall i :: 0 <= i < |b.pads| ==> Gives(Imported(b.pads[i]), PadReloaded(t, f.pads[i]))
  }

  lemma ExportableTurns(t: Tables, ids: Ids, f: FootprintRecord)
    requires Exportable(t, ids, f)
    ensures Turnable(f) && IsQuarterTurn(NormalizeAngle(f.rotation))
    ensures f.rotation > INT64_MIN && ReadablePoint(f.position) && |ids.pads| == |f.pads|
  {
    OppositeTurns(f.rotation);
    hide IsQuarterTurn, NormalizeAngle, OffsetFits, RadiusWritable, LengthsReadable, Listed;
  }

  /** The nodes of the pads are `pad` nodes, and importing them gives every pad back up to
      the first that cannot be imported. */
  lemma {:induction false} PadsRead(t: Tables, ids: Ids, f: FootprintRecord, k: nat)
    requires Exportable(t, ids, f) && Turnable(f) && IsQuarterTurn(NormalizeAngle(f.rotation)) && k <= |f.pads|
    ensures PadNodes(t, ids, f, k).Some?
    ensures forall i :: 0 <= i < k ==> HasTag(PadNodes(t, ids, f, k).value[i], "pad")
    ensures var r := ImportPads(PadNodes(t, ids, f, k).value, f.position, NormalizeAngle(f.rotation), t);
            PadsOutcome(r, t, f, k)
  {
    hide ExportPad, ImportPad, ImportPads, IsQuarterTurn, NormalizeAngle, PadFits, Listed, HasTag, Gives, PadReloaded,
      Buildable, CopperNamed;
    NoPads(f.position, NormalizeAngle(f.rotation), t);
    if k == 0 {
      assert PadNodes(t, ids, f, k).value == [];
    } else {
      PadsRead(t, ids, f, k - 1);
      var pad, turn := f.pads[k - 1], NormalizeAngle(f.rotation);
      PadRoundTrip(t, ids.pads[k - 1], pad, f.position, f.rotation);
      ExportedIsPad(t, ids.pads[k - 1], pad, f.position, f.rotation);
      var node := ExportPad(t, ids.pads[k - 1], pad, f.position, f.rotation).value;
      var nodes := PadNodes(t, ids, f, k - 1).value;
      OneMorePad(nodes, node, f.position, turn, t);
      assert PadNodes(t, ids, f, k).value == nodes + [node];
      OutcomeStep(ImportPads(nodes, f.position, turn, t), ImportPad(node, f.position, turn, t),
                  ImportPads(nodes + [node], f.position, turn, t), t, f, k);
    }
  }

  lemma NoPads(position: Point, rotation: i64, t: Tables)
    requires IsQuarterTurn(rotation)
    ensures ImportPads([], position, rotation, t) == Imported([])
  {}

  lemma OneMorePad(nodes: seq<SExpr>, node: SExpr, position: Point, rotation: i64, t: Tables)
    requires IsQuarterTurn(rotation)
    ensures var before, pad := ImportPads(nodes, position, rotation, t), ImportPad(node, position, rotation, t);
            var r := ImportPads(nodes + [node], position, rotation, t);
            && (r.Imported? <==> before.Imported? && pad.Imported?)
            && (r.Imported? ==> r.value == before.value + [pad.value])
            && (r.Beyond? ==> before.Beyond? || pad.Beyond?)
  {
    hide ImportPad, IsQuarterTurn;
    assert (nodes + [node])[..|nodes + [node]| - 1] == nodes;
  }

  /** The outcome for the first `k` pads. */
  predicate PadsOutcome(r: Import<seq<BuiltPad>>, t: Tables, f: FootprintRecord, k: nat)
    requires k <= |f.pads|
  {
    && (r.Imported? <==> forall i :: 0 <= i < k ==> Importable(t, f.pads[i]))
    && (r.Imported? || r == Refused || r == Undefined)
    && (r.Imported? ==> |r.value| == k
                        && forall i :: 0 <= i < k ==> Gives(Imported(r.value[i]), PadReloaded(t, f.pads[i])))
  }

  lemma OutcomeStep(before: Import<seq<BuiltPad>>, pad: Import<BuiltPad>, r: Import<seq<BuiltPad>>, t: Tables,
                    f: FootprintRecord, k: nat)
    requires 0 < k <= |f.pads| && PadsOutcome(before, t, f, k - 1)
    requires pad.Imported? <==> Importable(t, f.pads[k - 1])
    requires pad.Imported? ==> Gives(pad, PadReloaded(t, f.pads[k - 1]))
    requires !pad.Beyond?
    requires r.Imported? <==> before.Imported? && pad.Imported?
    requires r.Imported? ==> r.value == before.value + [pad.value]
    requires r.Beyond? ==> before.Beyond? || pad.Beyond?
    ensures PadsOutcome(r, t, f, k)
  {
    hide Importable, Gives, PadReloaded;
    if r.Imported? {
      assert pad == Imported(pad.value);
      assert forall i :: 0 <= i < k - 1 ==> r.value[i] == before.value[i];
    }
  }

  /** What stands in front of the pads holds the layer, the placement and the two properties,
      and no pad. */
  lemma FrontFound(f: FootprintRecord, id: nat, nodes: seq<SExpr>)
    requires f.rotation > INT64_MIN && forall i :: 0 <= i < |nodes| ==> HasTag(nodes[i], "pad")
    ensures var e := Tagged("footprint", Front(f, id) + nodes);
            && FindChild(e, "layer") == Some(Field("layer", SidePrefix(f.side) + "Cu"))
            && FindChild(e, "at") == Some(AtNode(f.position, f.rotation))
            && AllTagged(Children(e), "pad") == nodes
            && AllTagged(Children(e), "property") == Front(f, id)[4..]
  {
    hide HasTag, FirstTagged, AllTagged, Front, AtNode, PropertyNode, Field, SidePrefix, Tagged, Children,
      NormalizeAngle;
    var front := [Symbol("footprint")] + Front(f, id);
    EntryChildren(Front(f, id), nodes);
    FrontTags(f, id);
    SomeTagged(front, nodes);
  }

  lemma EntryChildren(front: seq<SExpr>, nodes: seq<SExpr>)
    requires |front| == 6
    ensures Children(Tagged("footprint", front + nodes)) == [Symbol("footprint")] + front + nodes
    ensures ([Symbol("footprint")] + front)[5..] == front[4..]
  {
    assert [Symbol("footprint")] + (front + nodes) == [Symbol("footprint")] + front + nodes;
  }

  lemma SomeTagged(front: seq<SExpr>, nodes: seq<SExpr>)
    requires |front| == 7 && HasTag(front[2], "layer") && HasTag(front[4], "at")
    requires forall i :: 0 <= i < 2 ==> !HasTag(front[i], "layer")
    requires forall i :: 0 <= i < 4 ==> !HasTag(front[i], "at")
    requires forall i :: 0 <= i < 7 ==> !HasTag(front[i], "pad")
    requires forall i :: 0 <= i < 7 ==> (HasTag(front[i], "property") <==> i >= 5)
    requires forall i :: 0 <= i < |nodes| ==> HasTag(nodes[i], "pad")
    ensures FirstTagged(front + nodes, "layer") == Some(front[2]) && FirstTagged(front + nodes, "at") == Some(front[4])
    ensures AllTagged(front + nodes, "pad") == nodes && AllTagged(front + nodes, "property") == front[5..]
  {
    forall i | 0 <= i < |nodes|
      ensures !HasTag(nodes[i], "property")
    {
      OneTag(nodes[i]);
    }
    hide HasTag, FirstTagged, AllTagged;
    FirstTaggedAt(front + nodes, "layer", 2);
    FirstTaggedAt(front + nodes, "at", 4);
    MiddleTagged(front, nodes, [], "pad");
    assert front + nodes + [] == front + nodes;
    MiddleTagged(front[..5], front[5..], nodes, "property");
    assert front[..5] + front[5..] == front;
  }

  lemma MiddleTagged(a: seq<SExpr>, b: seq<SExpr>, c: seq<SExpr>, tag: string)
    requires forall i :: 0 <= i < |a| ==> !HasTag(a[i], tag)
    requires forall i :: 0 <= i < |b| ==> HasTag(b[i], tag)
    requires forall i :: 0 <= i < |c| ==> !HasTag(c[i], tag)
    ensures AllTagged(a + b + c, tag) == b
  {
    hide HasTag, AllTagged;
    AllTaggedConcat(a + b, c, tag);
    AllTaggedConcat(a, b, tag);
    AllTaggedNone(a, tag);
    AllTaggedAll(b, tag);
    AllTaggedNone(c, tag);
    assert [] + b + [] == b;
  }

  lemma OneTag(e: SExpr)
    requires HasTag(e, "pad")
    ensures !HasTag(e, "property")
  {}

  lemma FrontTags(f: FootprintRecord, id: nat)
    requires f.rotation > INT64_MIN
    ensures var front := [Symbol("footprint")] + Front(f, id);
            && front[2] == Field("layer", SidePrefix(f.side) + "Cu") && front[4] == AtNode(f.position, f.rotation)
            && HasTag(front[2], "layer") && HasTag(front[4], "at")
            && (forall i :: 0 <= i < 2 ==> !HasTag(front[i], "layer"))
            && (forall i :: 0 <= i < 4 ==> !HasTag(front[i], "at"))
            && (forall i :: 0 <= i < 7 ==> !HasTag(front[i], "pad"))
            && (forall i :: 0 <= i < 7 ==> (HasTag(front[i], "property") <==> i >= 5))
  {
    hide I.Derived, D.NatText, D.Format, NormalizeAngle, SidePrefix, LibraryName;
  }

  /** The texts of the front are read back. */
  lemma FrontReads(f: FootprintRecord, id: nat)
    requires f.rotation > INT64_MIN
    ensures FirstProperty(Front(f, id)[4..], "Reference") == f.reference
    ensures FirstProperty(Front(f, id)[4..], "Value") == f.value
  {
    hide I.Derived, D.NatText, AtNode, SidePrefix, LibraryName;
    var first, second := Front(f, id)[4], Front(f, id)[5];
    assert Front(f, id)[4..] == [first, second] && [first, second][1..] == [second];
    assert Children(first)[1] == Str("Reference") && Children(first)[2] == Str(f.reference);
    assert Children(second)[1] == Str("Value") && Children(second)[2] == Str(f.value);
  }

  lemma SideReads(side: Side)
    ensures |Children(Field("layer", SidePrefix(side) + "Cu"))| == 2
    ensures SideOf(Text(Children(Field("layer", SidePrefix(side) + "Cu"))[1])) == side
  {
    var name := SidePrefix(side) + "Cu";
    assert "B." + "Cu" == "B.Cu" && ("F." + "Cu")[0] == 'F' && "B.Cu"[0] == 'B';
    assert side == Top ==> name[0] == 'F';
    assert Children(Field("layer", name)) == [Symbol("layer"), Str(name)];
  }

  /** The importer's steps on an entry with everything it looks for. */
  lemma ImportSteps(e: SExpr, t: Tables, layer: SExpr, at: SExpr, position: Point, rotation: i64)
    requires FindChild(e, "layer") == Some(layer) && |Children(layer)| == 2 && FindChild(e, "at") == Some(at)
    requires ParseCoordinatePair(at) == Some(position) && ParseRotation(at) == Some(rotation) && IsQuarterTurn(rotation)
    ensures var f := BuiltFootprint(PropertyValue(e, "Reference"), PropertyValue(e, "Value"), position, rotation,
                                    SideOf(Text(Children(layer)[1])), []);
            ImportFootprint(e, t) == Assembled(f, ImportPads(AllTagged(Children(e), "pad"), position, rotation, t))
  {
    hide FindChild, Children, ParseCoordinatePair, ParseRotation, IsQuarterTurn, PropertyValue, SideOf, Assembled,
      ImportPads, AllTagged;
  }

  /** Importing a written entry comes down to importing its pads. */
  lemma EntryReads(t: Tables, f: FootprintRecord, id: nat, nodes: seq<SExpr>)
    requires f.rotation > INT64_MIN && IsQuarterTurn(NormalizeAngle(f.rotation)) && ReadablePoint(f.position)
    requires forall i :: 0 <= i < |nodes| ==> HasTag(nodes[i], "pad")
    ensures ImportFootprint(Tagged("footprint", Front(f, id) + nodes), t)
            == Assembled(BuiltFootprint(f.reference, f.value, f.position, NormalizeAngle(f.rotation), f.side, []),
                         ImportPads(nodes, f.position, NormalizeAngle(f.rotation), t))
  {
    hide IsQuarterTurn, NormalizeAngle, ImportPads, HasTag, ParseCoordinatePair, ParseRotation, AtNode, FindChild,
      AllTagged, Front, Field, SidePrefix, FirstProperty, Tagged, Children, SideOf, ImportFootprint, Assembled;
    FrontFound(f, id, nodes);
    FrontReads(f, id);
    SideReads(f.side);
    AtRoundTrip(f.position, f.rotation);
    ImportSteps(Tagged("footprint", Front(f, id) + nodes), t, Field("layer", SidePrefix(f.side) + "Cu"),
                AtNode(f.position, f.rotation), f.position, NormalizeAngle(f.rotation));
  }

  /** Reading a written footprint back under the same tables gives its texts, its position, its
      rotation modulo a full turn, its side and every pad where it was, exactly when every
      pad can be imported: one circle of unequal sides, or one pad on a layer without a
      copper name, makes the whole file unreadable. */
  lemma FootprintRoundTrip(t: Tables, ids: Ids, f: FootprintRecord)
    requires Exportable(t, ids, f)
    ensures Turnable(f) && Exported(t, ids, f).Some?
    ensures var r := ImportFootprint(Exported(t, ids, f).value, t);
            && (r.Imported? <==> AllImportable(t, f))
            && (r.Imported? ==> IsReloaded(r.value, t, f))
            && (r.Imported? || r == Refused || r == Undefined)
  {
    hide IsQuarterTurn, NormalizeAngle, PadFits, Listed, Importable, Gives, PadReloaded, PadNodes, ImportPads, HasTag,
      Front, Tagged, ImportFootprint, Turnable, Exportable;
    ExportableTurns(t, ids, f);
    PadsRead(t, ids, f, |f.pads|);
    EntryReads(t, f, ids.footprint, PadNodes(t, ids, f, |f.pads|).value);
  }

  // ------------------------------------------------------------------ through a file

  lemma EntrySymbols()
    ensures SymbolText("property") && SymbolText("layer") && SymbolText("0")
  {}

  lemma FieldSound(tag: string, text: string)
    requires SymbolText(tag)
    ensures Sound(Field(tag, text), 1)
  {
    hide Sound, SymbolText;
    OneString(tag, text);
  }

  lemma OriginSound()
    ensures Sound(Tagged("at", [Symbol("0"), Symbol("0")]), 1)
  {
    hide Sound, SymbolText, Tagged;
    EntrySymbols();
    FootprintSymbols();
    SymbolSound("0", 0);
    TaggedSound("at", [Symbol("0"), Symbol("0")], 0);
  }

  lemma PropertySound(key: string, value: string, layer: string, id: nat, kind: string)
    ensures Sound(PropertyNode(key, value, layer, id, kind), 2)
  {
    hide Sound, SymbolText, Tagged, I.Derived, Field;
    EntrySymbols();
    FootprintSymbols();
    var uuid := Field("uuid", I.Derived("pcbir:geometry:footprint_property:" + D.NatText(id) + ":" + kind));
    StrSound(key, 1);
    StrSound(value, 1);
    OriginSound();
    FieldSound("layer", layer);
    FieldSound("uuid", I.Derived("pcbir:geometry:footprint_property:" + D.NatText(id) + ":" + kind));
    TaggedSound("property", [Str(key), Str(value), Tagged("at", [Symbol("0"), Symbol("0")]), Field("layer", layer),
      uuid], 1);
  }

  lemma FrontSound(f: FootprintRecord, id: nat)
    requires f.rotation > INT64_MIN
    ensures AllSound(Front(f, id), 2)
  {
    hide Sound, SymbolText, Tagged, I.Derived, Field, PropertyNode, AtNode, LibraryName;
    EntrySymbols();
    FootprintSymbols();
    var prefix, uuid := SidePrefix(f.side), I.Derived("pcbir:geometry:footprint:" + D.NatText(id));
    StrSound(LibraryName(f.reference), 2);
    FieldSound("layer", prefix + "Cu");
    FieldSound("uuid", uuid);
    AtSound(f.position, f.rotation);
    SoundWeaken(Field("layer", prefix + "Cu"), 1, 2);
    SoundWeaken(Field("uuid", uuid), 1, 2);
    SoundWeaken(AtNode(f.position, f.rotation), 1, 2);
    PropertySound("Reference", f.reference, prefix + "SilkS", id, "reference");
    PropertySound("Value", f.value, prefix + "Fab", id, "value");
  }

  lemma SoundWeaken(e: SExpr, m: nat, n: nat)
    requires Sound(e, m) && m <= n
    ensures Sound(e, n)
  {}

  lemma {:induction false} PadNodesSound(t: Tables, ids: Ids, f: FootprintRecord, k: nat)
    requires Turnable(f) && |ids.pads| == |f.pads| && k <= |f.pads| && PadNodes(t, ids, f, k).Some?
    ensures AllSound(PadNodes(t, ids, f, k).value, 2)
  {
    hide Sound, ExportPad, IsQuarterTurn;
    if k > 0 {
      PadNodesSound(t, ids, f, k - 1);
      ExportedIsSound(t, ids.pads[k - 1], f.pads[k - 1], f.position, f.rotation);
    }
  }

  /** A written footprint is a well-formed tree that nests three lists, whatever its texts and numbers are. */
  lemma FootprintSound(t: Tables, ids: Ids, f: FootprintRecord)
    requires Turnable(f) && |ids.pads| == |f.pads| && Exported(t, ids, f).Some?
    ensures Sound(Exported(t, ids, f).value, 3)
  {
    hide Sound, SymbolText, Tagged, Front, PadNodes, IsQuarterTurn;
    var nodes := PadNodes(t, ids, f, |f.pads|).value;
    FootprintSymbols();
    FrontSound(f, ids.footprint);
    PadNodesSound(t, ids, f, |f.pads|);
    AllSoundConcat(Front(f, ids.footprint), nodes, 2);
    TaggedSound("footprint", Front(f, ids.footprint) + nodes, 2);
  }

  /** The text of every written footprint is read back as the same tree, so the round trip holds through a file. */
  lemma FootprintTextRoundTrip(t: Tables, ids: Ids, f: FootprintRecord)
    requires Exportable(t, ids, f)
    ensures Turnable(f) && Exported(t, ids, f).Some?
    ensures Parse(Write(Exported(t, ids, f).value)) == Some(Exported(t, ids, f).value)
    ensures var r := ImportFootprint(Parse(Write(Exported(t, ids, f).value)).value, t);
            && (r.Imported? <==> AllImportable(t, f))
            && (r.Imported? ==> IsReloaded(r.value, t, f))
            && (r.Imported? || r == Refused || r == Undefined)
  {
    hide Parse, Write, ImportFootprint, Exportable, Exported, Turnable, AllImportable, IsReloaded;
    FootprintRoundTrip(t, ids, f);
    SameNumber(t, ids, f);
    FootprintSound(t, ids, f);
    WriteParseRoundTrip(Exported(t, ids, f).value);
  }

  lemma SameNumber(t: Tables, ids: Ids, f: FootprintRecord)
    requires Exportable(t, ids, f)
    ensures |ids.pads| == |f.pads|
  {}

  /** The export fails exactly when a layer or net id dangles, or a corner radius overflows. */
  lemma ExportedIff(t: Tables, ids: Ids, f: FootprintRecord)
    requires Turnable(f) && |ids.pads| == |f.pads|
    ensures Exported(t, ids, f).Some? <==>
            forall i :: 0 <= i < |f.pads| ==> Listed(t, f.pads[i]) && RadiusWritable(f.pads[i].params)
  {
    hide Listed, RadiusWritable, PadNodes, IsQuarterTurn, Front;
    PadNodesIff(t, ids, f, |f.pads|);
  }

  lemma {:induction false} PadNodesIff(t: Tables, ids: Ids, f: FootprintRecord, k: nat)
    requires Turnable(f) && |ids.pads| == |f.pads| && k <= |f.pads|
    ensures PadNodes(t, ids, f, k).Some? <==>
            forall i :: 0 <= i < k ==> Listed(t, f.pads[i]) && RadiusWritable(f.pads[i].params)
  {
    hide Listed, RadiusWritable, ExportPad, IsQuarterTurn;
    if k > 0 {
      PadNodesIff(t, ids, f, k - 1);
      PadExportedIff(t, ids.pads[k - 1], f.pads[k - 1], f.position, f.rotation);
    }
  }
}
