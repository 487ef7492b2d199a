/** The S-expression grammar stated declaratively, through concrete syntax trees
    that record every character, and the parser's exact relation to it. */
module SExprGrammar {
  import opened Wrappers
  import opened SExprs

  /** One character of a string literal's value, with the way it is spelled. */
  datatype Unit = Plain(c: char) | Escaped(c: char)

  /** An expression as it stands in a text; each list item carries the whitespace before it. */
  datatype Cst =
    | CSymbol(text: string)
    | CString(units: seq<Unit>)
    | CList(items: seq<Item>, tail: string)

  datatype Item = Item(space: string, tree: Cst)

  /** The characters that may stand between expressions, and those that end a symbol. */
  predicate Blank(c: char) { c in {' ', '\t', '\r', '\n'} }

  predicate Delimiter(c: char) { c in {' ', '\t', '\r', '\n', '(', ')', '"'} }

  predicate AllWhitespace(s: string) { forall i :: 0 <= i < |s| ==> Blank(s[i]) }

  predicate SymbolText(s: string) { s != "" && forall i :: 0 <= i < |s| ==> !Delimiter(s[i]) }

  /** The parser knows the same characters. */
  lemma SameCharacters()
    ensures forall c :: IsWhitespace(c) <==> Blank(c)
    ensures forall c :: IsAtomTerminator(c) <==> Delimiter(c)
  {}

  /** A backslash escapes a quote or a backslash; a lone backslash stands for
      itself, so it cannot be followed by either. No quote stands bare. */
  predicate ValidUnits(units: seq<Unit>) {
    units == [] ||
    match units[0]
    case Escaped(c) => (c == '"' || c == '\\') && ValidUnits(units[1..])
    case Plain(c) =>
      && c != '"'
      && (c == '\\' ==> |units| > 1 && units[1].Plain? && units[1].c != '\\')
      && ValidUnits(units[1..])
  }

  /** Whitespace is optional everywhere except between two symbols, which would
      otherwise read as one. */
  predicate Valid(t: Cst)
    decreases t, 0
  {
    match t
    case CSymbol(text) => SymbolText(text)
    case CString(units) => ValidUnits(units)
    case CList(items, tail) => AllWhitespace(tail) && ValidItems(items)
  }

  predicate ValidItems(items: seq<Item>)
    decreases items, 1
  {
    items != [] ==>
    && AllWhitespace(items[0].space)
    && Valid(items[0].tree)
    && (|items| > 1 && items[0].tree.CSymbol? && items[1].tree.CSymbol? ==> items[1].space != "")
    && ValidItems(items[1..])
  }

  function UnitText(unit: Unit): string { match unit case Plain(c) => [c] case Escaped(c) => ['\\', c] }

  function UnitsText(units: seq<Unit>): string {
    if units == [] then "" else UnitText(units[0]) + UnitsText(units[1..])
  }

  /** The text of a concrete tree, character for character. */
  function Flatten(t: Cst): string
    decreases t, 0
  {
    match t
    case CSymbol(text) => text
    case CString(units) => ['"'] + UnitsText(units) + ['"']
    case CList(items, tail) => ['('] + (ItemsText(items) + (tail + [')']))
  }

  function ItemsText(items: seq<Item>): string
    decreases items, 1
  {
    if items == [] then "" else items[0].space + (Flatten(items[0].tree) + ItemsText(items[1..]))
  }

  /** The tree a concrete tree spells. */
  function Abstract(t: Cst): SExpr
    decreases t, 0
  {
    match t
    case CSymbol(text) => Symbol(text)
    case CString(units) => Str(UnitsValue(units))
    case CList(items, _) => List(Abstracts(items))
  }

  function Abstracts(items: seq<Item>): seq<SExpr>
    decreases items, 1
  {
    if items == [] then [] else [Abstract(items[0].tree)] + Abstracts(items[1..])
  }

  function UnitsValue(units: seq<Unit>): string {
    if units == [] then "" else [units[0].c] + UnitsValue(units[1..])
  }

  /** How deeply lists are nested; an atom has depth 0. */
  function Nesting(e: SExpr): nat
    decreases e, 0
  {
    match e case List(children) => 1 + NestingOf(children) case _ => 0
  }

  function NestingOf(es: seq<SExpr>): nat
    decreases es, 1
  {
    if es == [] then 0 else Max(Nesting(es[0]), NestingOf(es[1..]))
  }

  function Max(a: nat, b: nat): nat { if a < b then b else a }

  /** `text` spells `e`: optional whitespace, one concrete tree, optional whitespace. */
  ghost predicate Spells(text: string, e: SExpr) {
    exists lead, t, trail :: Spelling(text, lead, t, trail) && Abstract(t) == e
  }

  ghost predicate Spelling(text: string, lead: string, t: Cst, trail: string) {
    AllWhitespace(lead) && Valid(t) && AllWhitespace(trail) && text == lead + (Flatten(t) + trail)
  }

  // ---------------------------------------------------------------- completeness

  /** Where a symbol may end. */
  predicate Ends(t: Cst, rest: string) {
    t.CSymbol? && rest != "" ==> IsAtomTerminator(rest[0])
  }

  lemma {:induction false} SkipPrefix(space: string, s: string)
    requires AllWhitespace(space)
    requires s != "" ==> !IsWhitespace(s[0])
    ensures SkipWhitespace(space + s) == s
  {
    if space == "" {
      assert space + s == s;
    } else {
      assert (space + s)[1..] == space[1..] + s;
      SkipPrefix(space[1..], s);
    }
  }

  lemma {:induction false} TakeWholeSymbol(text: string, rest: string)
    requires forall i :: 0 <= i < |text| ==> !IsAtomTerminator(text[i])
    requires rest != "" ==> IsAtomTerminator(rest[0])
    ensures TakeSymbol(text + rest) == (text, rest)
  {
    if text == "" {
      assert text + rest == rest;
    } else {
      assert (text + rest)[1..] == text[1..] + rest;
      TakeWholeSymbol(text[1..], rest);
      assert [text[0]] + text[1..] == text;
    }
  }

  lemma {:induction false} TakeWholeString(units: seq<Unit>, rest: string)
    requires ValidUnits(units)
    ensures TakeString(UnitsText(units) + (['"'] + rest)) == Some((UnitsValue(units), rest))
  {
    var s := UnitsText(units) + (['"'] + rest);
    if units == [] {
      assert s == ['"'] + rest && s[1..] == rest;
    } else {
      var tail := UnitsText(units[1..]) + (['"'] + rest);
      TakeWholeString(units[1..], rest);
      match units[0]
      case Escaped(c) =>
        assert s == ['\\', c] + tail && s[2..] == tail;
      case Plain(c) =>
        assert s == [c] + tail && s[1..] == tail;
        if c == '\\' {
          assert tail[0] == units[1].c;
        }
    }
  }

  /** A tree starts with neither whitespace nor a closing parenthesis; only a
      symbol starts with a character that could continue a symbol. */
  lemma FlattenStart(t: Cst, rest: string)
    requires Valid(t)
    ensures var s := Flatten(t) + rest;
            && s != "" && !IsWhitespace(s[0]) && s[0] != ')'
            && (IsAtomTerminator(s[0]) <==> !t.CSymbol?)
  {}

  /** What follows an item inside its list may follow it if it is a symbol. */
  lemma ItemEnds(items: seq<Item>, tail: string, rest: string)
    requires items != [] && ValidItems(items) && AllWhitespace(tail)
    ensures Ends(items[0].tree, ItemsText(items[1..]) + (tail + ([')'] + rest)))
  {
    var more := items[1..];
    if more == [] {
      assert ItemsText(more) + (tail + ([')'] + rest)) == tail + ([')'] + rest);
    } else {
      var s := Flatten(more[0].tree) + ItemsText(more[1..]);
      FlattenStart(more[0].tree, ItemsText(more[1..]));
      assert ItemsText(more) == more[0].space + s;
      if more[0].space == "" {
        assert ItemsText(more) == s;
      }
    }
  }

  /** Parsing the text of a tree gives the tree back if enough nesting levels are
      left, and an error otherwise. */
  lemma {:induction false} ParseFlatten(t: Cst, room: nat, rest: string)
    requires Valid(t) && Ends(t, rest)
    requires Flatten(t) + rest != "" && !IsWhitespace((Flatten(t) + rest)[0])
    ensures ParseExpr(Flatten(t) + rest, room)
            == if Nesting(Abstract(t)) <= room then Some((Abstract(t), rest)) else None
    decreases t, 0
  {
    var s := Flatten(t) + rest;
    match t
    case CSymbol(text) =>
      ParseFlattenSymbol(text, room, rest);
    case CString(units) =>
      ParseFlattenString(units, room, rest);
    case CList(items, tail) =>
      var body := ItemsText(items) + (tail + ([')'] + rest));
      assert s == ['('] + body;
      if room > 0 {
        ParseFlattenItems(items, tail, room - 1, rest);
      }
  }

  lemma ParseFlattenSymbol(text: string, room: nat, rest: string)
    requires Valid(CSymbol(text)) && Ends(CSymbol(text), rest)
    requires text + rest != "" && !IsWhitespace((text + rest)[0])
    ensures ParseExpr(text + rest, room) == Some((Symbol(text), rest))
  {
    TakeWholeSymbol(text, rest);
  }

  lemma ParseFlattenString(units: seq<Unit>, room: nat, rest: string)
    requires Valid(CString(units))
    ensures var s := Flatten(CString(units)) + rest;
            && s != "" && !IsWhitespace(s[0])
            && ParseExpr(s, room) == Some((Abstract(CString(units)), rest))
  {
    TakeWholeString(units, rest);
    assert Flatten(CString(units)) + rest == ['"'] + (UnitsText(units) + (['"'] + rest));
  }

  lemma {:induction false} ParseFlattenItems(items: seq<Item>, tail: string, room: nat, rest: string)
    requires ValidItems(items) && AllWhitespace(tail)
    ensures ParseItems(ItemsText(items) + (tail + ([')'] + rest)), room)
            == if NestingOf(Abstracts(items)) <= room then Some((Abstracts(items), rest)) else None
    decreases items, 1
  {
    var s := ItemsText(items) + (tail + ([')'] + rest));
    if items == [] {
      assert s == tail + ([')'] + rest);
      SkipPrefix(tail, [')'] + rest);
    } else {
      var item, after := items[0], ItemsText(items[1..]) + (tail + ([')'] + rest));
      assert s == item.space + (Flatten(item.tree) + after);
      FlattenStart(item.tree, after);
      SkipPrefix(item.space, Flatten(item.tree) + after);
      ItemEnds(items, tail, rest);
      ParseFlatten(item.tree, room, after);
      ParseFlattenItems(items[1..], tail, room, rest);
      assert Abstracts(items)[0] == Abstract(item.tree) && Abstracts(items)[1..] == Abstracts(items[1..]);
    }
  }

  // ------------------------------------------------------------------- soundness

  lemma {:induction false} SkippedPrefix(s: string) returns (space: string)
    ensures AllWhitespace(space) && s == space + SkipWhitespace(s)
  {
    hide IsWhitespace, AllWhitespace;
    if s != "" && IsWhitespace(s[0]) {
      var more := SkippedPrefix(s[1..]);
      space := [s[0]] + more;
      WhitespaceMore(s, more);
    } else {
      space := "";
      NoWhitespace(s);
    }
  }

  lemma WhitespaceMore(s: string, more: string)
    requires s != "" && IsWhitespace(s[0]) && AllWhitespace(more) && s[1..] == more + SkipWhitespace(s[1..])
    ensures AllWhitespace([s[0]] + more) && s == ([s[0]] + more) + SkipWhitespace(s)
  {
    assert Blank(s[0]);
    hide IsWhitespace, Blank;
    var rest := SkipWhitespace(s[1..]);
    assert SkipWhitespace(s) == rest;
    hide SkipWhitespace;
    Prepended(s, more, rest);
  }

  lemma Prepended(s: string, more: string, rest: string)
    requires s != "" && s[1..] == more + rest
    ensures s == ([s[0]] + more) + rest
  {
    assert s == [s[0]] + s[1..];
  }

  lemma NoWhitespace(s: string)
    ensures AllWhitespace("") && "" + s == s
  {}

  /** `s` starts with the symbol `text` and goes on with `rest`. */
  predicate Splits(s: string, text: string, rest: string) {
    && s == text + rest
    && (forall i :: 0 <= i < |text| ==> !IsAtomTerminator(text[i]))
    && (rest != "" ==> IsAtomTerminator(rest[0]))
  }

  lemma {:induction false} TakenSymbol(s: string)
    ensures Splits(s, TakeSymbol(s).0, TakeSymbol(s).1)
  {
    hide IsAtomTerminator;
    if s != "" && !IsAtomTerminator(s[0]) {
      TakenSymbol(s[1..]);
      var (text, rest) := TakeSymbol(s[1..]);
      SplitsMore(s, text, rest);
      hide Splits;
      assert TakeSymbol(s) == ([s[0]] + text, rest);
    }
  }

  lemma SplitsMore(s: string, text: string, rest: string)
    requires s != "" && !IsAtomTerminator(s[0]) && Splits(s[1..], text, rest)
    ensures Splits(s, [s[0]] + text, rest)
  {
    hide IsAtomTerminator;
    assert s == [s[0]] + s[1..];
  }

  lemma UnitsCons(unit: Unit, more: seq<Unit>, rest: string)
    ensures UnitsText([unit] + more) + rest == UnitText(unit) + (UnitsText(more) + rest)
    ensures UnitsValue([unit] + more) == [unit.c] + UnitsValue(more)
  {
    assert ([unit] + more)[1..] == more;
  }

  lemma UnitsValid(unit: Unit, more: seq<Unit>)
    requires ValidUnits(more)
    requires unit.Escaped? ==> unit.c == '"' || unit.c == '\\'
    requires unit.Plain? ==> unit.c != '"'
    requires unit == Plain('\\') ==> more != [] && more[0].Plain? && more[0].c != '\\'
    ensures ValidUnits([unit] + more)
  {
    assert ([unit] + more)[1..] == more;
  }

  lemma {:induction false} TakenString(s: string) returns (units: seq<Unit>)
    requires TakeString(s).Some?
    ensures var (text, rest) := TakeString(s).value;
            ValidUnits(units) && UnitsValue(units) == text && s == UnitsText(units) + (['"'] + rest)
  {
    var rest := TakeString(s).value.1;
    if s[0] == '"' {
      units := [];
      assert s == ['"'] + s[1..];
    } else {
      hide UnitsText, UnitsValue, ValidUnits;
      var escaped := s[0] == '\\' && |s| > 1 && (s[1] == '"' || s[1] == '\\');
      var unit := if escaped then Escaped(s[1]) else Plain(s[0]);
      var tail := if escaped then s[2..] else s[1..];
      var more := TakenString(tail);
      units := [unit] + more;
      assert s == UnitText(unit) + tail;
      UnitsCons(unit, more, ['"'] + rest);
      if unit == Plain('\\') {
        LoneBackslash(tail, more, rest);
      }
      UnitsValid(unit, more);
    }
  }

  /** After a backslash that escapes nothing comes a character that stands for itself. */
  lemma LoneBackslash(s: string, more: seq<Unit>, rest: string)
    requires ValidUnits(more) && s == UnitsText(more) + (['"'] + rest)
    requires s[0] != '"' && s[0] != '\\'
    ensures more != [] && more[0].Plain? && more[0].c != '\\'
  {}

  lemma FlattenList(items: seq<Item>, tail: string, rest: string)
    ensures Flatten(CList(items, tail)) + rest == ['('] + (ItemsText(items) + (tail + ([')'] + rest)))
  {}

  lemma FlattenString(units: seq<Unit>, rest: string)
    ensures Flatten(CString(units)) + rest == ['"'] + (UnitsText(units) + (['"'] + rest))
  {}

  /** Whatever the parser accepts is spelled by some concrete tree, and a symbol it
      returns was as long as it could be. */
  lemma {:induction false} ParsedExpr(s: string, room: nat) returns (t: Cst)
    requires s != "" && !IsWhitespace(s[0]) && ParseExpr(s, room).Some?
    ensures var (e, rest) := ParseExpr(s, room).value;
            Valid(t) && Abstract(t) == e && s == Flatten(t) + rest && Ends(t, rest)
    decreases |s|, 0
  {
    if s[0] == '(' {
      var items, tail := ParsedItems(s[1..], room - 1);
      t := CList(items, tail);
      assert s == ['('] + s[1..];
      FlattenList(items, tail, ParseItems(s[1..], room - 1).value.1);
    } else if s[0] == '"' {
      var units := TakenString(s[1..]);
      t := CString(units);
      assert s == ['"'] + s[1..];
      FlattenString(units, TakeString(s[1..]).value.1);
    } else {
      TakenSymbol(s);
      t := CSymbol(TakeSymbol(s).0);
    }
  }

  lemma {:induction false} ParsedItems(s: string, room: nat) returns (items: seq<Item>, tail: string)
    requires ParseItems(s, room).Some?
    ensures var (es, rest) := ParseItems(s, room).value;
            && ValidItems(items) && AllWhitespace(tail) && Abstracts(items) == es
            && s == ItemsText(items) + (tail + ([')'] + rest))
    decreases |s|, 1
  {
    var space := SkippedPrefix(s);
    var u := SkipWhitespace(s);
    if u[0] == ')' {
      items, tail := [], space;
      assert u == [')'] + u[1..];
      assert ItemsText([]) + (tail + u) == tail + u;
    } else {
      var tree := ParsedExpr(u, room);
      var (e, after) := ParseExpr(u, room).value;
      var more;
      more, tail := ParsedItems(after, room);
      items := [Item(space, tree)] + more;
      assert items[1..] == more;
      ItemsJoin(space, tree, more, tail, ParseItems(after, room).value.1, s, u, after);
      if tree.CSymbol? && more != [] && more[0].tree.CSymbol? && more[0].space == "" {
        FlattenStart(more[0].tree, ItemsText(more[1..]) + (tail + ([')'] + ParseItems(after, room).value.1)));
        assert false;
      }
    }
  }

  lemma ItemsJoin(space: string, tree: Cst, more: seq<Item>, tail: string,
      rest: string, s: string, u: string, after: string)
    requires s == space + u && u == Flatten(tree) + after && after == ItemsText(more) + (tail + ([')'] + rest))
    ensures s == ItemsText([Item(space, tree)] + more) + (tail + ([')'] + rest))
  {
    var items := [Item(space, tree)] + more;
    assert items[1..] == more;
    assert s == space + (Flatten(tree) + ItemsText(more)) + (tail + ([')'] + rest));
  }

  /** The parser never accepts more nesting than it was given room for. */
  lemma {:induction false} ParsedNesting(s: string, room: nat)
    requires s != "" && !IsWhitespace(s[0]) && ParseExpr(s, room).Some?
    ensures Nesting(ParseExpr(s, room).value.0) <= room
  {
    var t := ParsedExpr(s, room);
    var rest := ParseExpr(s, room).value.1;
    ParseFlatten(t, room, rest);
  }

  // ------------------------------------------------------------------ the theorem

  lemma ParsedIsSpelled(text: string)
    requires Parse(text).Some?
    ensures Spells(text, Parse(text).value) && Nesting(Parse(text).value) <= 256
  {
    var lead := SkippedPrefix(text);
    var s := SkipWhitespace(text);
    var t := ParsedExpr(s, MAX_NESTING_DEPTH);
    var rest := ParseExpr(s, MAX_NESTING_DEPTH).value.1;
    ParsedNesting(s, MAX_NESTING_DEPTH);
    var trail := SkippedPrefix(rest);
    assert trail + "" == trail;
    assert Spelling(text, lead, t, trail);
  }

  lemma SpelledIsParsed(text: string, lead: string, t: Cst, trail: string)
    requires Spelling(text, lead, t, trail)
    ensures Parse(text) == if Nesting(Abstract(t)) <= 256 then Some(Abstract(t)) else None
  {
    FlattenStart(t, trail);
    SkipPrefix(lead, Flatten(t) + trail);
    ParseFlatten(t, MAX_NESTING_DEPTH, trail);
    SkipPrefix(trail, "");
    assert trail + "" == trail;
  }

  /** `parse_sexpr` accepts exactly the texts that spell a tree of list nesting at
      most 256, and returns that tree. */
  lemma ParseIffSpells(text: string, e: SExpr)
    ensures Parse(text) == Some(e) <==> Spells(text, e) && Nesting(e) <= 256
  {
    if Parse(text) == Some(e) {
      ParsedIsSpelled(text);
    }
    if Spells(text, e) && Nesting(e) <= 256 {
      var lead, t, trail :| Spelling(text, lead, t, trail) && Abstract(t) == e;
      SpelledIsParsed(text, lead, t, trail);
    }
  }

  /** The grammar is unambiguous, at any nesting: a text spells at most one tree. */
  lemma SpellsUnique(text: string, e: SExpr, f: SExpr)
    requires Spells(text, e) && Spells(text, f)
    ensures e == f
  {
    var lead, t, trail :| Spelling(text, lead, t, trail) && Abstract(t) == e;
    var lead', t', trail' :| Spelling(text, lead', t', trail') && Abstract(t') == f;
    var room := Max(Nesting(e), Nesting(f));
    FlattenStart(t, trail);
    FlattenStart(t', trail');
    SkipPrefix(lead, Flatten(t) + trail);
    SkipPrefix(lead', Flatten(t') + trail');
    ParseFlatten(t, room, trail);
    ParseFlatten(t', room, trail');
  }

  /** Only the tree matters: texts that spell the same tree parse to the same result. */
  lemma WhitespaceInsensitive(text: string, text': string, e: SExpr)
    requires Spells(text, e) && Spells(text', e)
    ensures Parse(text) == Parse(text')
  {
    var lead, t, trail :| Spelling(text, lead, t, trail) && Abstract(t) == e;
    SpelledIsParsed(text, lead, t, trail);
    var lead', t', trail' :| Spelling(text', lead', t', trail') && Abstract(t') == e;
    SpelledIsParsed(text', lead', t', trail');
  }

  // -------------------------------------------------------------- the round trip

  /** Symbols are non-empty and contain no terminator; strings are arbitrary. */
  predicate WellFormed(e: SExpr)
    decreases e, 0
  {
    match e
    case Symbol(text) => SymbolText(text)
    case Str(_) => true
    case List(children) => AllWellFormed(children)
  }

  predicate AllWellFormed(es: seq<SExpr>)
    decreases es, 1
  {
    es != [] ==> WellFormed(es[0]) && AllWellFormed(es[1..])
  }

  lemma {:induction false} ValidIsWellFormed(t: Cst)
    requires Valid(t)
    ensures WellFormed(Abstract(t))
    decreases t, 0
  {
    if t.CList? {
      ValidAreWellFormed(t.items);
    }
  }

  lemma {:induction false} ValidAreWellFormed(items: seq<Item>)
    requires ValidItems(items)
    ensures AllWellFormed(Abstracts(items))
    decreases items, 1
  {
    if items != [] {
      ValidIsWellFormed(items[0].tree);
      ValidAreWellFormed(items[1..]);
      assert Abstracts(items)[1..] == Abstracts(items[1..]);
    }
  }

  /** The units `write_atom` spells a string with. */
  function WrittenUnits(text: string): seq<Unit> {
    if text == "" then []
    else [if text[0] == '"' || text[0] == '\\' then Escaped(text[0]) else Plain(text[0])] + WrittenUnits(text[1..])
  }

  lemma {:induction false} WrittenUnitsSpell(text: string)
    ensures ValidUnits(WrittenUnits(text)) && UnitsValue(WrittenUnits(text)) == text
    ensures UnitsText(WrittenUnits(text)) == EscapedText(text)
  {
    if text != "" {
      WrittenUnitsSpell(text[1..]);
      assert WrittenUnits(text)[1..] == WrittenUnits(text[1..]);
      assert text == [text[0]] + text[1..];
    }
  }

  /** The concrete tree `write_node` produces. */
  function WrittenTree(e: SExpr, depth: nat): Cst
    decreases e, 0
  {
    match e
    case Symbol(text) => CSymbol(text)
    case Str(text) => CString(WrittenUnits(text))
    case List(children) =>
      CList(WrittenItems(children, depth, true), if HasList(children) then "\n" + Spaces(depth * 2) else "")
  }

  function WrittenItems(es: seq<SExpr>, depth: nat, first: bool): seq<Item>
    decreases es, 1
  {
    if es == [] then []
    else [Item(Separator(es[0], depth, first), WrittenTree(es[0], depth + 1))] + WrittenItems(es[1..], depth, false)
  }

  lemma {:induction false} WrittenTreeSpells(e: SExpr, depth: nat)
    requires WellFormed(e)
    ensures Valid(WrittenTree(e, depth)) && Abstract(WrittenTree(e, depth)) == e
    ensures Flatten(WrittenTree(e, depth)) == NodeText(e, depth)
    decreases e, 0
  {
    match e
    case Symbol(_) =>
    case Str(text) => WrittenStringSpells(text, depth);
    case List(children) =>
      WrittenItemsSpell(children, depth, true);
      WrittenListSpells(children, depth);
  }

  lemma WrittenStringSpells(text: string, depth: nat)
    ensures var t := WrittenTree(Str(text), depth);
            Valid(t) && Abstract(t) == Str(text) && Flatten(t) == NodeText(Str(text), depth)
  {
    WrittenUnitsSpell(text);
    hide WrittenUnits, UnitsText, UnitsValue, ValidUnits, EscapedText;
  }

  lemma WrittenListSpells(children: seq<SExpr>, depth: nat)
    requires ValidItems(WrittenItems(children, depth, true))
             && Abstracts(WrittenItems(children, depth, true)) == children
    requires ItemsText(WrittenItems(children, depth, true)) == ChildrenText(children, depth, true)
    ensures var t := WrittenTree(List(children), depth);
            Valid(t) && Abstract(t) == List(children) && Flatten(t) == NodeText(List(children), depth)
  {
    hide ValidItems, WrittenItems, Abstracts, ItemsText, ChildrenText, HasList;
  }

  lemma {:induction false} WrittenItemsSpell(es: seq<SExpr>, depth: nat, first: bool)
    requires AllWellFormed(es)
    ensures ValidItems(WrittenItems(es, depth, first)) && Abstracts(WrittenItems(es, depth, first)) == es
    ensures ItemsText(WrittenItems(es, depth, first)) == ChildrenText(es, depth, first)
    decreases es, 1
  {
    if es != [] {
      hide Flatten, NodeText, WrittenTree, Separator, Valid, ChildrenText, WellFormed, ItemsText, Abstracts, ValidItems;
      var item := Item(Separator(es[0], depth, first), WrittenTree(es[0], depth + 1));
      var more := WrittenItems(es[1..], depth, false);
      WrittenTreeSpells(es[0], depth + 1);
      WrittenItemsSpell(es[1..], depth, false);
      WrittenSeparation(es, depth);
      ChildrenTextStep(es, depth, first);
      FirstItem(item, more);
      assert es == [es[0]] + es[1..];
    }
  }

  /** What the first item adds to the text, to the trees and to the conditions on them. */
  lemma FirstItem(item: Item, more: seq<Item>)
    ensures ItemsText([item] + more) == item.space + (Flatten(item.tree) + ItemsText(more))
    ensures Abstracts([item] + more) == [Abstract(item.tree)] + Abstracts(more)
    ensures (AllWhitespace(item.space) && Valid(item.tree) && ValidItems(more)
             && (more != [] && more[0].tree.CSymbol? ==> more[0].space != "")) ==> ValidItems([item] + more)
  {
    hide Flatten, Abstract, Valid, AllWhitespace;
    assert ([item] + more)[1..] == more;
  }

  lemma ChildrenTextStep(es: seq<SExpr>, depth: nat, first: bool)
    requires es != []
    ensures ChildrenText(es, depth, first)
            == Separator(es[0], depth, first) + (NodeText(es[0], depth + 1) + ChildrenText(es[1..], depth, false))
    ensures AllWhitespace(Separator(es[0], depth, first))
  {
    var child := if es[0].List? then NodeText(es[0], depth + 1) else AtomText(es[0]);
    assert child == NodeText(es[0], depth + 1);
    SeparatorIsWhitespace(es[0], depth, first);
    hide NodeText, AtomText, Separator;
    Concat3(Separator(es[0], depth, first), child, ChildrenText(es[1..], depth, false));
  }

  lemma Concat3(a: string, b: string, c: string)
    ensures a + b + c == a + (b + c)
  {}

  lemma SeparatorIsWhitespace(child: SExpr, depth: nat, first: bool)
    ensures AllWhitespace(Separator(child, depth, first))
  {}

  /** Two consecutive atoms are written with a blank between them. */
  lemma WrittenSeparation(es: seq<SExpr>, depth: nat)
    requires es != []
    ensures var more := WrittenItems(es[1..], depth, false);
            more != [] && more[0].tree.CSymbol? ==> more[0].space != ""
  {}

  lemma WrittenSpells(e: SExpr)
    requires WellFormed(e)
    ensures Spelling(Write(e), "", WrittenTree(e, 0), "\n") && Abstract(WrittenTree(e, 0)) == e
  {
    WrittenTreeSpells(e, 0);
    assert Write(e) == "" + (Flatten(WrittenTree(e, 0)) + "\n");
  }

  /** Writing a well-formed tree and parsing the text gives the tree back when it
      nests at most 256 lists; deeper, the parser rejects the text. */
  lemma WriteParseRoundTrip(e: SExpr)
    requires WellFormed(e)
    ensures Parse(Write(e)) == if Nesting(e) <= 256 then Some(e) else None
  {
    WrittenSpells(e);
    SpelledIsParsed(Write(e), "", WrittenTree(e, 0), "\n");
  }

  /** So it does for everything the parser produces. */
  lemma ParseWriteParse(text: string)
    requires Parse(text).Some?
    ensures WellFormed(Parse(text).value)
    ensures Parse(Write(Parse(text).value)) == Parse(text)
  {
    ParsedIsSpelled(text);
    var lead, t, trail :| Spelling(text, lead, t, trail) && Abstract(t) == Parse(text).value;
    ValidIsWellFormed(t);
    WriteParseRoundTrip(Parse(text).value);
  }
}
