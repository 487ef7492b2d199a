/** Layers and nets by name: the lookups of `coordinate_util.hpp` and the layer names of a pad. */
module Lookups {
  import opened Wrappers
  import opened SExprs
  import opened Zones

  /** What `for_each` visits of the Layer or the Net table, in slot order. */
  type Listing = seq<Entry>

  datatype Entry = Entry(id: nat, name: string)

  /** The stackup and the connectivity snapshot that an export and an import are given. */
  datatype Tables = Tables(layers: Listing, nets: Listing)

  const NULL_ID: nat := 0

  // ---------------------------------------------------------------------- by name

  /** `find_layer_id_by_name`: a later entry overrides an earlier one; null when there is none. */
  function LastNamed(entries: Listing, name: string): nat {
    if entries == [] then NULL_ID
    else if entries[|entries| - 1].name == name then entries[|entries| - 1].id
    else LastNamed(entries[..|entries| - 1], name)
  }

  method FindLayerIdByName(entries: Listing, name: string) returns (result: nat)
    ensures result == LastNamed(entries, name)
  {
    result := NULL_ID;
    for i := 0 to |entries|
      invariant result == LastNamed(entries[..i], name)
    {
      assert entries[..i + 1][..i] == entries[..i];
      if entries[i].name == name {
        result := entries[i].id;
      }
    }
    assert entries[..|entries|] == entries;
  }

  /** `build_net_index`: an earlier entry keeps its name. */
  function NetIndex(entries: Listing): map<string, nat> {
    if entries == [] then map[]
    else
      var index, last := NetIndex(entries[..|entries| - 1]), entries[|entries| - 1];
      if last.name in index then index else index[last.name := last.id]
  }

  method BuildNetIndex(entries: Listing) returns (index: map<string, nat>)
    ensures index == NetIndex(entries)
  {
    index := map[];
    for i := 0 to |entries|
      invariant index == NetIndex(entries[..i])
    {
      assert entries[..i + 1][..i] == entries[..i];
      if entries[i].name !in index {
        index := index[entries[i].name := entries[i].id];
      }
    }
    assert entries[..|entries|] == entries;
  }

  /** `resolve_optional_net`: null without a net child, `None` for the ImportError of an unknown name. */
  function ResolveNet(node: SExpr, index: map<string, nat>): Option<nat> {
    match FindChild(node, "net")
    case None => Some(NULL_ID)
    case Some(net) =>
      if |Children(net)| < 2 then Some(NULL_ID)
      else if Text(Children(net)[1]) in index then Some(index[Text(Children(net)[1])])
      else None
  }

  /** An entry without a net, or with a net that has no name, is unconnected; only a name that no net
      has is refused; any other leads to the first net of that name. */
  lemma NetReadIff(node: SExpr, nets: Listing)
    ensures var net := FindChild(node, "net");
            var named := net.Some? && |Children(net.value)| >= 2;
            && (!named ==> ResolveNet(node, NetIndex(nets)) == Some(NULL_ID))
            && (named ==>
                var name := Text(Children(net.value)[1]);
                if exists k :: 0 <= k < |nets| && nets[k].name == name
                then exists i: nat :: FirstOfName(nets, name, i) && ResolveNet(node, NetIndex(nets)) == Some(nets[i].id)
                else ResolveNet(node, NetIndex(nets)).None?)
  {
    hide FindChild, NetIndex, Children, Text;
    var net := FindChild(node, "net");
    if net.Some? && |Children(net.value)| >= 2 {
      var name := Text(Children(net.value)[1]);
      if exists k :: 0 <= k < |nets| && nets[k].name == name {
        var i := FirstNamedAt(nets, name);
        assert FirstOfName(nets, name, i);
      } else {
        NotIndexed(nets, name);
      }
    }
  }

  predicate FirstOfName(entries: Listing, name: string, i: nat) {
    i < |entries| && entries[i].name == name && forall j :: 0 <= j < i ==> entries[j].name != name
  }

  /** `parse_layer_names`: the texts behind the tag. */
  function LayerNames(node: SExpr): (names: seq<string>)
    ensures |names| == if Children(node) == [] then 0 else |Children(node)| - 1
    ensures forall i :: 0 <= i < |names| ==> names[i] == Text(Children(node)[i + 1])
  {
    var es := Children(node);
    if es == [] then [] else seq(|es| - 1, i requires 0 <= i < |es| - 1 => Text(es[i + 1]))
  }

  method ParseLayerNames(node: SExpr) returns (names: seq<string>)
    ensures names == LayerNames(node)
  {
    names := [];
    var es := Children(node);
    if es == [] {
      return;
    }
    for i := 1 to |es|
      invariant |names| == i - 1
      invariant forall k :: 0 <= k < i - 1 ==> names[k] == Text(es[k + 1])
    {
      names := names + [Text(es[i])];
    }
    assert names == LayerNames(node);
  }

  predicate StartsWith(s: string, prefix: string) { |prefix| <= |s| && s[..|prefix|] == prefix }

  predicate EndsWith(s: string, suffix: string) { |suffix| <= |s| && s[|s| - |suffix|..] == suffix }

  /** A name that `resolve_pad_copper_layer` looks up at all. */
  predicate NamesCopper(name: string) { EndsWith(name, ".Cu") && name != "*.Cu" }

  /** The first copper name that the stackup knows; null when there is none. */
  function FirstCopper(names: seq<string>, layers: Listing): nat {
    if names == [] then NULL_ID
    else if NamesCopper(names[0]) && LastNamed(layers, names[0]) != NULL_ID then LastNamed(layers, names[0])
    else FirstCopper(names[1..], layers)
  }

  /** `resolve_pad_copper_layer`; `None` is its ImportError. */
  function ResolveCopperLayer(pad: SExpr, layers: Listing): Option<nat> {
    match FindChild(pad, "layers")
    case None => None
    case Some(node) =>
      var id := FirstCopper(LayerNames(node), layers);
      if id == NULL_ID then None else Some(id)
  }

  method ResolvePadCopperLayer(pad: SExpr, layers: Listing) returns (r: Option<nat>)
    ensures r == ResolveCopperLayer(pad, layers)
  {
    hide FindChild, NamesCopper, LastNamed;
    var node := FindChild(pad, "layers");
    if node.None? {
      return None;
    }
    var names := ParseLayerNames(node.value);
    for i := 0 to |names|
      invariant FirstCopper(names, layers) == FirstCopper(names[i..], layers)
    {
      assert names[i..][1..] == names[i + 1..];
      if NamesCopper(names[i]) {
        var id := FindLayerIdByName(layers, names[i]);
        if id != NULL_ID {
          return Some(id);
        }
      }
    }
    return None;
  }

  // ------------------------------------------------------------------------ by id

  /** `try_get(find(id))`: the entry with an id. */
  function NameOf(entries: Listing, id: nat): Option<string> {
    if entries == [] then None else if entries[0].id == id then Some(entries[0].name) else NameOf(entries[1..], id)
  }

  /** Ids are unique in a table. */
  predicate DistinctIds(entries: Listing) {
    forall i, j :: 0 <= i < j < |entries| ==> entries[i].id != entries[j].id
  }

  /** The net text of `net_field`: nothing for the null net, `None` for the ExportError of an unknown one. */
  function NetName(nets: Listing, id: nat): Option<Option<string>> {
    if id == NULL_ID then Some(None) else match NameOf(nets, id) case None => None case Some(name) => Some(Some(name))
  }

  /** `pad_layer_names`: the copper layer, and mask and paste of its side when it is on one. */
  function PadLayerNames(copper: string): (names: seq<string>)
    ensures |names| > 0 && names[0] == copper
  {
    if StartsWith(copper, "F.") then [copper, "F.Mask", "F.Paste"]
    else if StartsWith(copper, "B.") then [copper, "B.Mask", "B.Paste"]
    else [copper]
  }

  /** Mask and paste are those of the side that the name of the copper layer starts with; a name that
      starts with neither side has the copper layer alone. */
  lemma SideLayers(copper: string, side: string)
    requires side == "F." || side == "B."
    ensures StartsWith(copper, side) ==> PadLayerNames(copper) == [copper, side + "Mask", side + "Paste"]
    ensures !StartsWith(copper, "F.") && !StartsWith(copper, "B.") ==> PadLayerNames(copper) == [copper]
  {
    assert "F." + "Mask" == "F.Mask" && "F." + "Paste" == "F.Paste";
    assert "B." + "Mask" == "B.Mask" && "B." + "Paste" == "B.Paste";
    assert "F."[0] == 'F' && "B."[0] == 'B';
  }

  /** The copper names: something in front of ".Cu" that is not a lone star. */
  lemma CopperNames(stem: string, name: string)
    ensures NamesCopper(stem + ".Cu") <==> stem != "*"
    ensures NamesCopper(name) ==> name == name[..|name| - 3] + ".Cu"
  {
    var copper := stem + ".Cu";
    assert copper[|copper| - 3..] == ".Cu" && copper[..|stem|] == stem;
    assert "*.Cu" == "*" + ".Cu" && "*.Cu"[..1] == "*";
    if stem != "*" && |stem| == 1 {
      assert copper[0] == stem[0] && stem[0] != '*';
    }
  }

  /** The name `i` of the list is the first that is a copper name and that the stackup knows. */
  predicate FirstKnown(names: seq<string>, layers: Listing, i: nat) {
    && i < |names| && NamesCopper(names[i]) && LastNamed(layers, names[i]) != NULL_ID
    && forall j :: 0 <= j < i ==> !NamesCopper(names[j]) || LastNamed(layers, names[j]) == NULL_ID
  }

  /** It decides which layer a pad is on; without one there is none. */
  lemma {:induction false} FirstCopperMeans(names: seq<string>, layers: Listing)
    ensures forall i: nat :: FirstKnown(names, layers, i) ==> FirstCopper(names, layers) == LastNamed(layers, names[i])
    ensures FirstCopper(names, layers) != NULL_ID ==> exists i: nat :: FirstKnown(names, layers, i)
  {
    hide NamesCopper, LastNamed;
    if names != [] {
      FirstCopperMeans(names[1..], layers);
      forall i: nat | FirstKnown(names, layers, i)
        ensures FirstCopper(names, layers) == LastNamed(layers, names[i])
      {
        if i > 0 {
          assert names[1..][i - 1] == names[i];
          assert FirstKnown(names[1..], layers, i - 1);
        }
      }
      if FirstCopper(names, layers) != NULL_ID {
        if NamesCopper(names[0]) && LastNamed(layers, names[0]) != NULL_ID {
          assert FirstKnown(names, layers, 0);
        } else {
          var i: nat :| FirstKnown(names[1..], layers, i);
          assert names[1..][i] == names[i + 1];
          assert FirstKnown(names, layers, i + 1);
        }
      }
    }
  }

  // ------------------------------------------------------------- there and back

  lemma MaskIsNoCopper()
    ensures !NamesCopper("F.Mask") && !NamesCopper("F.Paste") && !NamesCopper("B.Mask") && !NamesCopper("B.Paste")
  {
    assert "F.Mask"[3..] == "ask" && "B.Mask"[3..] == "ask" && "F.Paste"[4..] == "ste" && "B.Paste"[4..] == "ste";
    assert "ask"[0] != ".Cu"[0] && "ste"[0] != ".Cu"[0];
  }

  /** The names written for a copper layer lead back to the last layer of that name, if the
      name is a copper name at all. */
  lemma WrittenLayer(copper: string, layers: Listing)
    ensures FirstCopper(PadLayerNames(copper), layers)
            == if NamesCopper(copper) then LastNamed(layers, copper) else NULL_ID
  {
    MaskIsNoCopper();
    hide NamesCopper, LastNamed, StartsWith;
    var names := PadLayerNames(copper);
    if |names| == 3 {
      FewNames(names[1], names[2], layers);
      assert names[1..] == [names[1], names[2]];
    } else {
      assert names[1..] == [];
    }
  }

  lemma FewNames(u: string, v: string, layers: Listing)
    requires !NamesCopper(u) && !NamesCopper(v)
    ensures FirstCopper([u, v], layers) == NULL_ID
  {
    hide NamesCopper, LastNamed;
    var rest, none: seq<string> := [v], [];
    assert [u, v][1..] == rest && rest[1..] == none;
    assert FirstCopper(none, layers) == NULL_ID;
    assert FirstCopper(rest, layers) == FirstCopper(none, layers);
  }

  lemma {:induction false} EntryOfName(entries: Listing, id: nat) returns (i: nat)
    requires NameOf(entries, id).Some?
    ensures i < |entries| && entries[i] == Entry(id, NameOf(entries, id).value)
  {
    if entries[0].id == id {
      i := 0;
    } else {
      i := EntryOfName(entries[1..], id);
      i := i + 1;
    }
  }

  /** No entry behind the one with this id has its name. */
  predicate IsLast(entries: Listing, id: nat) {
    exists i :: 0 <= i < |entries| && entries[i].id == id
                && forall j :: i < j < |entries| ==> entries[j].name != entries[i].name
  }

  /** No entry before the one with this id has its name. */
  predicate IsFirst(entries: Listing, id: nat) {
    exists i :: 0 <= i < |entries| && entries[i].id == id
                && forall j :: 0 <= j < i ==> entries[j].name != entries[i].name
  }

  lemma {:induction false} LastNamedAt(entries: Listing, name: string) returns (i: nat)
    requires exists k :: 0 <= k < |entries| && entries[k].name == name
    ensures i < |entries| && entries[i] == Entry(LastNamed(entries, name), name)
    ensures forall j :: i < j < |entries| ==> entries[j].name != name
  {
    var last := |entries| - 1;
    if entries[last].name == name {
      i := last;
    } else {
      i := LastNamedAt(entries[..last], name);
    }
  }

  lemma {:induction false} FirstNamedAt(entries: Listing, name: string) returns (i: nat)
    requires exists k :: 0 <= k < |entries| && entries[k].name == name
    ensures name in NetIndex(entries)
    ensures i < |entries| && entries[i] == Entry(NetIndex(entries)[name], name)
    ensures forall j :: 0 <= j < i ==> entries[j].name != name
  {
    var last := |entries| - 1;
    if exists k :: 0 <= k < last && entries[k].name == name {
      i := FirstNamedAt(entries[..last], name);
    } else {
      i := last;
      NotIndexed(entries[..last], name);
    }
  }

  lemma {:induction false} NotIndexed(entries: Listing, name: string)
    requires forall k :: 0 <= k < |entries| ==> entries[k].name != name
    ensures name !in NetIndex(entries)
  {
    if entries != [] {
      NotIndexed(entries[..|entries| - 1], name);
    }
  }

  /** The name of a layer leads back to that layer exactly when no later one has the same name. */
  lemma LayerComesBackIff(layers: Listing, id: nat)
    requires DistinctIds(layers) && NameOf(layers, id).Some?
    ensures LastNamed(layers, NameOf(layers, id).value) == id <==> IsLast(layers, id)
  {
    hide LastNamed, NameOf;
    var name := NameOf(layers, id).value;
    var own := EntryOfName(layers, id);
    var i := LastNamedAt(layers, name);
  }

  /** The name of a net leads back to a net of that name, and to the same one exactly when no
      earlier one has the same name. */
  lemma NetComesBackIff(nets: Listing, id: nat)
    requires DistinctIds(nets) && NameOf(nets, id).Some?
    ensures NameOf(nets, id).value in NetIndex(nets)
    ensures NetIndex(nets)[NameOf(nets, id).value] == id <==> IsFirst(nets, id)
  {
    hide NetIndex, NameOf;
    var name := NameOf(nets, id).value;
    var own := EntryOfName(nets, id);
    var i := FirstNamedAt(nets, name);
  }
}
