/** `sexpr.cpp`: the generic S-expression tree, its parser and its writer. */
module SExprs {
  import opened Wrappers

  datatype SExpr = List(children: seq<SExpr>) | Symbol(text: string) | Str(text: string)

  const MAX_NESTING_DEPTH: nat := 256

  predicate IsWhitespace(c: char) { c == ' ' || c == '\t' || c == '\r' || c == '\n' }

  predicate IsAtomTerminator(c: char) { IsWhitespace(c) || c == '(' || c == ')' || c == '"' }

  // ------------------------------------------------- the parser, as a function

  function SkipWhitespace(s: string): (r: string)
    ensures |r| <= |s|
    ensures r != [] ==> !IsWhitespace(r[0])
  {
    if s != [] && IsWhitespace(s[0]) then SkipWhitespace(s[1..]) else s
  }

  /** The longest prefix without a terminator, and what follows it. */
  function TakeSymbol(s: string): (r: (string, string))
    ensures |r.0| + |r.1| == |s|
    ensures s != [] && !IsAtomTerminator(s[0]) ==> |r.0| > 0
  {
    if s != [] && !IsAtomTerminator(s[0]) then
      var (text, rest) := TakeSymbol(s[1..]);
      ([s[0]] + text, rest)
    else ("", s)
  }

  /** The body of a string literal after its opening quote: the unescaped text,
      and what follows the closing quote. */
  function TakeString(s: string): (r: Option<(string, string)>)
    ensures r.Some? ==> |r.value.1| < |s|
  {
    if s == [] then None
    else if s[0] == '"' then Some(("", s[1..]))
    else
      var skip := if s[0] == '\\' && |s| > 1 && (s[1] == '"' || s[1] == '\\') then 1 else 0;
      match TakeString(s[skip + 1..])
      case None => None
      case Some((text, rest)) => Some(([s[skip]] + text, rest))
  }

  /** `parse_expr`, called only where something other than whitespace follows: the
      expression and the rest of the text, or nothing if an error is thrown. `room` is
      how many more list levels may be opened. */
  function ParseExpr(s: string, room: nat): (r: Option<(SExpr, string)>)
    requires s != [] && !IsWhitespace(s[0])
    ensures r.Some? ==> |r.value.1| < |s|
    decreases |s|, 0
  {
    if s[0] == '(' then
      if room == 0 then None
      else match ParseItems(s[1..], room - 1)
        case None => None
        case Some((children, rest)) => Some((List(children), rest))
    else if s[0] == ')' then None
    else if s[0] == '"' then
      match TakeString(s[1..])
      case None => None
      case Some((text, rest)) => Some((Str(text), rest))
    else
      var (text, rest) := TakeSymbol(s);
      Some((Symbol(text), rest))
  }

  /** The loop of `parse_list`: items up to the closing parenthesis. */
  function ParseItems(s: string, room: nat): (r: Option<(seq<SExpr>, string)>)
    ensures r.Some? ==> |r.value.1| < |s|
    decreases |s|, 1
  {
    var t := SkipWhitespace(s);
    if t == [] then None
    else if t[0] == ')' then Some(([], t[1..]))
    else match ParseExpr(t, room)
      case None => None
      case Some((item, rest)) =>
        match ParseItems(rest, room)
        case None => None
        case Some((items, rest')) => Some(([item] + items, rest'))
  }

  /** `parse_sexpr`. */
  function Parse(text: string): Option<SExpr> {
    var s := SkipWhitespace(text);
    if s == [] then None
    else match ParseExpr(s, MAX_NESTING_DEPTH)
      case None => None
      case Some((root, rest)) => if SkipWhitespace(rest) == [] then Some(root) else None
  }

  // --------------------------------------------------- the parser, as it is run

  /** `Parser`: a cursor over a fixed text. A thrown SExprParseError is `None`. */
  class Parser {
    const text: string
    var pos: nat
    var depth: nat

    predicate Valid()
      reads this
    {
      pos <= |text| && depth <= MAX_NESTING_DEPTH
    }

    function Room(): nat
      requires Valid()
      reads this
    {
      MAX_NESTING_DEPTH - depth
    }

    /** The method returned what the function `spec` says, and after a success the
        cursor stands at the rest with the depth restored. */
    ghost predicate Outcome(r: Option<SExpr>, spec: Option<(SExpr, string)>, start: nat, depth0: nat)
      reads this
      requires Valid()
    {
      && (r.None? <==> spec.None?)
      && (r.Some? ==> start < pos && depth == depth0 && spec == Some((r.value, text[pos..])))
    }

    constructor (text: string)
      ensures Valid() && this.text == text && pos == 0 && depth == 0
    {
      this.text := text;
      pos, depth := 0, 0;
    }

    method ParseRoot() returns (r: Option<SExpr>)
      requires Valid() && pos == 0 && depth == 0
      modifies this
      ensures r == Parse(text)
    {
      SkipSpaces();
      assert text[0..] == text;
      if pos >= |text| {
        return None;
      }
      var root := ParseOne();
      if root.None? {
        return None;
      }
      SkipSpaces();
      if pos != |text| {
        return None;
      }
      return root;
    }

    method SkipSpaces()
      requires Valid()
      modifies this`pos
      ensures Valid() && text[pos..] == SkipWhitespace(text[old(pos)..]) && pos >= old(pos)
    {
      while pos < |text| && IsWhitespace(text[pos])
        invariant Valid() && pos >= old(pos)
        invariant SkipWhitespace(text[pos..]) == SkipWhitespace(text[old(pos)..])
      {
        assert text[pos..][1..] == text[pos + 1..];
        pos := pos + 1;
      }
    }

    /** `parse_expr`. */
    method ParseOne() returns (r: Option<SExpr>)
      requires Valid() && pos < |text| && !IsWhitespace(text[pos])
      modifies this
      ensures Valid() && pos >= old(pos)
      ensures Outcome(r, ParseExpr(text[old(pos)..], old(Room())), old(pos), old(depth))
      decreases |text| - pos, 1
    {
      var c := text[pos];
      if c == '(' {
        r := ParseList();
      } else if c == ')' {
        r := None;
      } else if c == '"' {
        r := ParseString();
      } else {
        r := ParseSymbol();
      }
    }

    method ParseList() returns (r: Option<SExpr>)
      requires Valid() && pos < |text| && text[pos] == '('
      modifies this
      ensures Valid() && pos >= old(pos)
      ensures Outcome(r, ParseExpr(text[old(pos)..], old(Room())), old(pos), old(depth))
      decreases |text| - pos, 0
    {
      hide ParseExpr, ParseItems, SkipWhitespace, Lists;
      ghost var goal := ParseExpr(text[pos..], Room());
      ListStarts(text, pos, Room());
      if depth >= MAX_NESTING_DEPTH {
        return None;
      }
      pos := pos + 1;
      depth := depth + 1;
      var children: seq<SExpr> := [];
      while true
        invariant Valid() && pos > old(pos) && depth == old(depth) + 1
        invariant Lists(goal, text, pos, Room(), children)
        decreases |text| - pos
      {
        ghost var before := pos;
        SkipSpaces();
        ListSkips(goal, text, before, pos, Room(), children);
        if pos >= |text| {
          return None;
        }
        if text[pos] == ')' {
          pos := pos + 1;
          depth := depth - 1;
          return Some(List(children));
        }
        ListGoesOn(goal, text, pos, Room(), children);
        var child := ParseOne();
        if child.None? {
          return None;
        }
        children := children + [child.value];
      }
    }

    method ParseString() returns (r: Option<SExpr>)
      requires Valid() && pos < |text| && text[pos] == '"'
      modifies this`pos
      ensures Valid() && pos >= old(pos)
      ensures Outcome(r, ParseExpr(text[old(pos)..], Room()), old(pos), depth)
    {
      hide ParseExpr, Escape, Reads;
      ghost var goal := ParseExpr(text[pos..], Room());
      LiteralStarts(text, pos, Room());
      pos := pos + 1;
      var value := "";
      while true
        invariant old(pos) < pos <= |text|
        invariant Reads(goal, text, pos, value)
        decreases |text| - pos
      {
        if pos >= |text| {
          LiteralUnclosed(goal, text, value);
          return None;
        }
        if text[pos] == '"' {
          LiteralCloses(goal, text, pos, value);
          pos := pos + 1;
          return Some(Str(value));
        }
        LiteralGoesOn(goal, text, pos, value);
        var skip := Escape(text, pos);
        value := value + [text[pos + skip]];
        pos := pos + skip + 1;
      }
    }

    method ParseSymbol() returns (r: Option<SExpr>)
      requires Valid() && pos < |text| && !IsAtomTerminator(text[pos])
      modifies this`pos
      ensures Valid() && pos >= old(pos)
      ensures Outcome(r, ParseExpr(text[old(pos)..], Room()), old(pos), depth)
    {
      hide ParseExpr, Spelled;
      ghost var goal := ParseExpr(text[pos..], Room());
      var start := pos;
      SymbolStarts(text, start, Room());
      while pos < |text| && !IsAtomTerminator(text[pos])
        invariant start <= pos <= |text| && (pos == start ==> !IsAtomTerminator(text[pos]))
        invariant Spelled(goal, text, start, pos)
      {
        SymbolStep(goal, text, start, pos);
        pos := pos + 1;
      }
      SymbolStop(goal, text, start, pos);
      r := Some(Symbol(text[start..pos]));
    }
  }

  /** The symbol that starts at `start` and goes on at `pos` is read as `goal`. */
  ghost predicate Spelled(goal: Option<(SExpr, string)>, text: string, start: nat, pos: nat)
    requires start <= pos <= |text|
  {
    var (more, rest) := TakeSymbol(text[pos..]);
    goal == Some((Symbol(text[start..pos] + more), rest))
  }

  lemma SymbolStarts(text: string, pos: nat, room: nat)
    requires pos < |text| && !IsAtomTerminator(text[pos])
    ensures Spelled(ParseExpr(text[pos..], room), text, pos, pos)
  {
    hide TakeSymbol;
    assert text[pos..pos] + TakeSymbol(text[pos..]).0 == TakeSymbol(text[pos..]).0;
  }

  lemma SymbolStep(goal: Option<(SExpr, string)>, text: string, start: nat, pos: nat)
    requires start <= pos < |text| && !IsAtomTerminator(text[pos]) && Spelled(goal, text, start, pos)
    ensures Spelled(goal, text, start, pos + 1)
  {
    assert text[pos..][1..] == text[pos + 1..];
    assert text[start..pos] + ([text[pos]] + TakeSymbol(text[pos + 1..]).0)
           == text[start..pos + 1] + TakeSymbol(text[pos + 1..]).0;
  }

  lemma SymbolStop(goal: Option<(SExpr, string)>, text: string, start: nat, pos: nat)
    requires start <= pos <= |text| && (pos == |text| || IsAtomTerminator(text[pos])) && Spelled(goal, text, start, pos)
    ensures goal == Some((Symbol(text[start..pos]), text[pos..]))
  {
    assert text[start..pos] + "" == text[start..pos];
  }

  /** The list whose items so far are `done` and that goes on at `pos` is read as `goal`. */
  ghost predicate Lists(goal: Option<(SExpr, string)>, text: string, pos: nat, room: nat, done: seq<SExpr>)
    requires pos <= |text|
  {
    goal == AsList(Resume(done, ParseItems(text[pos..], room)))
  }

  ghost function AsList(r: Option<(seq<SExpr>, string)>): Option<(SExpr, string)> {
    match r case None => None case Some((items, rest)) => Some((List(items), rest))
  }

  lemma ListStarts(text: string, pos: nat, room: nat)
    requires pos < |text| && text[pos] == '('
    ensures room == 0 ==> ParseExpr(text[pos..], room) == None
    ensures room > 0 ==> Lists(ParseExpr(text[pos..], room), text, pos + 1, room - 1, [])
  {
    assert text[pos..][1..] == text[pos + 1..];
    hide ParseItems;
    if room > 0 {
      ResumeNothing(ParseItems(text[pos + 1..], room - 1));
    }
  }

  /** Once the whitespace is skipped: the text ends, the list ends, or an item follows. */
  lemma ListSkips(goal: Option<(SExpr, string)>, text: string, before: nat, pos: nat, room: nat, done: seq<SExpr>)
    requires before <= |text| && pos <= |text| && text[pos..] == SkipWhitespace(text[before..])
    requires Lists(goal, text, before, room, done)
    ensures pos == |text| ==> goal == None
    ensures pos < |text| ==> !IsWhitespace(text[pos]) && Lists(goal, text, pos, room, done)
    ensures pos < |text| && text[pos] == ')' ==> goal == Some((List(done), text[pos + 1..]))
  {
    SkipsOnce(text[before..]);
    hide SkipWhitespace, ParseExpr;
    if pos < |text| {
      assert text[pos..][1..] == text[pos + 1..];
      assert done + [] == done;
    }
  }

  lemma {:induction false} SkipsOnce(s: string)
    ensures var t := SkipWhitespace(s); t != [] ==> !IsWhitespace(t[0]) && SkipWhitespace(t) == t
  {
    if s != [] && IsWhitespace(s[0]) {
      SkipsOnce(s[1..]);
    }
  }

  lemma ListGoesOn(goal: Option<(SExpr, string)>, text: string, pos: nat, room: nat, done: seq<SExpr>)
    requires pos < |text| && !IsWhitespace(text[pos]) && text[pos] != ')' && Lists(goal, text, pos, room, done)
    ensures ParseExpr(text[pos..], room) == None ==> goal == None
    ensures forall item, end :: pos < end <= |text| && ParseExpr(text[pos..], room) == Some((item, text[end..])) ==>
              Lists(goal, text, end, room, done + [item])
  {
    hide ParseExpr;
    forall item, end | pos < end <= |text| && ParseExpr(text[pos..], room) == Some((item, text[end..]))
      ensures Lists(goal, text, end, room, done + [item])
    {
      ResumeMore(done, item, ParseItems(text[end..], room));
    }
  }

  /** What the list parser returns when `done` items are already collected. */
  ghost function Resume(done: seq<SExpr>, rest: Option<(seq<SExpr>, string)>): Option<(seq<SExpr>, string)> {
    match rest case None => None case Some((items, tail)) => Some((done + items, tail))
  }

  lemma ResumeNothing(rest: Option<(seq<SExpr>, string)>)
    ensures Resume([], rest) == rest
  {
    if rest.Some? {
      assert [] + rest.value.0 == rest.value.0;
    }
  }

  lemma ResumeMore(done: seq<SExpr>, item: SExpr, rest: Option<(seq<SExpr>, string)>)
    ensures Resume(done + [item], rest) ==
            Resume(done, match rest case None => None case Some((items, tail)) => Some(([item] + items, tail)))
  {
    if rest.Some? {
      assert done + [item] + rest.value.0 == done + ([item] + rest.value.0);
    }
  }

  lemma ExprIsString(text: string, pos: nat, room: nat)
    requires pos < |text| && text[pos] == '"'
    ensures ParseExpr(text[pos..], room) == AsString(StringAt(text, pos + 1))
  {
    assert text[pos..][1..] == text[pos + 1..];
  }

  function AsString(r: Option<(string, string)>): Option<(SExpr, string)> {
    match r case None => None case Some((text, rest)) => Some((Str(text), rest))
  }

  /** The body of a string literal from position `pos` on. */
  function StringAt(text: string, pos: nat): Option<(string, string)>
    requires pos <= |text|
  {
    TakeString(text[pos..])
  }

  /** One iteration of the string loop: 1 if a backslash escapes the next character. */
  function Escape(text: string, pos: nat): (skip: nat)
    requires pos < |text|
    ensures pos + skip < |text|
  {
    if text[pos] == '\\' && pos + 1 < |text| && (text[pos + 1] == '"' || text[pos + 1] == '\\') then 1 else 0
  }

  lemma StringEnd(text: string, value: string)
    ensures ResumeText(value, StringAt(text, |text|)) == None
  {}

  lemma StringStep(text: string, pos: nat, value: string)
    requires pos < |text|
    ensures ResumeText(value, StringAt(text, pos)) ==
            if text[pos] == '"' then Some((value, text[pos + 1..]))
            else ResumeText(value + [text[pos + Escape(text, pos)]], StringAt(text, pos + Escape(text, pos) + 1))
  {
    var s := text[pos..];
    var skip := Escape(text, pos);
    assert s[skip + 1..] == text[pos + skip + 1..];
    if text[pos] == '"' {
      assert value + "" == value;
    } else {
      ResumeTextMore(value, text[pos + skip], StringAt(text, pos + skip + 1));
    }
  }

  /** The literal whose text so far is `value` and that goes on at `pos` is read as `goal`. */
  ghost predicate Reads(goal: Option<(SExpr, string)>, text: string, pos: nat, value: string)
    requires pos <= |text|
  {
    goal == AsString(ResumeText(value, StringAt(text, pos)))
  }

  lemma LiteralStarts(text: string, pos: nat, room: nat)
    requires pos < |text| && text[pos] == '"'
    ensures Reads(ParseExpr(text[pos..], room), text, pos + 1, "")
  {
    ExprIsString(text, pos, room);
    ResumeTextNothing(StringAt(text, pos + 1));
  }

  lemma LiteralUnclosed(goal: Option<(SExpr, string)>, text: string, value: string)
    requires Reads(goal, text, |text|, value)
    ensures goal == None
  {
    StringEnd(text, value);
  }

  lemma LiteralCloses(goal: Option<(SExpr, string)>, text: string, pos: nat, value: string)
    requires pos < |text| && text[pos] == '"' && Reads(goal, text, pos, value)
    ensures goal == Some((Str(value), text[pos + 1..]))
  {
    StringStep(text, pos, value);
  }

  lemma LiteralGoesOn(goal: Option<(SExpr, string)>, text: string, pos: nat, value: string)
    requires pos < |text| && text[pos] != '"' && Reads(goal, text, pos, value)
    ensures Reads(goal, text, pos + Escape(text, pos) + 1, value + [text[pos + Escape(text, pos)]])
  {
    StringStep(text, pos, value);
  }

  function Unescaped(c: char, rest: Option<(string, string)>): Option<(string, string)> {
    match rest case None => None case Some((text, tail)) => Some(([c] + text, tail))
  }

  ghost function ResumeText(done: string, rest: Option<(string, string)>): Option<(string, string)> {
    match rest case None => None case Some((text, tail)) => Some((done + text, tail))
  }

  lemma ResumeTextNothing(rest: Option<(string, string)>)
    ensures ResumeText([], rest) == rest
  {
    if rest.Some? {
      assert [] + rest.value.0 == rest.value.0;
    }
  }

  lemma ResumeTextMore(done: string, c: char, rest: Option<(string, string)>)
    ensures ResumeText(done + [c], rest) ==
            ResumeText(done, Unescaped(c, rest))
  {
    if rest.Some? {
      assert done + [c] + rest.value.0 == done + ([c] + rest.value.0);
    }
  }

  method ParseSexpr(text: string) returns (r: Option<SExpr>)
    ensures r == Parse(text)
  {
    var parser := new Parser(text);
    r := parser.ParseRoot();
  }

  // ------------------------------------------------------------------ the writer

  function Spaces(n: nat): string { seq(n, _ => ' ') }

  function EscapedText(text: string): string {
    if text == "" then ""
    else EscapedChar(text[0]) + EscapedText(text[1..])
  }

  /** A quote or a backslash behind a backslash, and every other character as it is. */
  function EscapedChar(c: char): string { if c == '"' || c == '\\' then ['\\', c] else [c] }

  function AtomText(atom: SExpr): string
    requires !atom.List?
  {
    if atom.Symbol? then atom.text else "\"" + EscapedText(atom.text) + "\""
  }

  /** `write_node`'s output for `node` at indentation `depth`. */
  function NodeText(node: SExpr, depth: nat): string
    decreases node, 0
  {
    if !node.List? then AtomText(node)
    else
      "(" + ChildrenText(node.children, depth, true)
      + (if HasList(node.children) then "\n" + Spaces(depth * 2) else "") + ")"
  }

  /** What precedes a child: an indented line for a list, a blank before a later atom. */
  function Separator(child: SExpr, depth: nat, first: bool): string {
    if child.List? then "\n" + Spaces((depth + 1) * 2) else if first then "" else " "
  }

  function ChildrenText(children: seq<SExpr>, depth: nat, first: bool): string
    decreases children, 1
  {
    if children == [] then ""
    else
      Separator(children[0], depth, first)
      + (if children[0].List? then NodeText(children[0], depth + 1) else AtomText(children[0]))
      + ChildrenText(children[1..], depth, false)
  }

  /** `write_sexpr`. */
  function Write(root: SExpr): string { NodeText(root, 0) + "\n" }

  lemma {:induction false} EscapedSnoc(text: string, c: char)
    ensures EscapedText(text + [c]) == EscapedText(text) + EscapedChar(c)
  {
    EscapedFirst(text + [c]);
    EscapedNothing();
    hide EscapedChar;
    if text == "" {
      assert text + [c] == [c] && [c][1..] == "";
      assert EscapedChar(c) + "" == EscapedChar(c) && "" + EscapedChar(c) == EscapedChar(c);
    } else {
      EscapedFirst(text);
      EscapedSnoc(text[1..], c);
      assert (text + [c])[1..] == text[1..] + [c];
      hide EscapedText;
      Joined(EscapedChar(text[0]), EscapedText(text[1..]), EscapedChar(c));
    }
  }

  lemma EscapedNothing()
    ensures EscapedText("") == ""
  {}

  lemma EscapedFirst(text: string)
    requires text != ""
    ensures EscapedText(text) == EscapedChar(text[0]) + EscapedText(text[1..])
  {}

  lemma Joined(x: string, y: string, z: string)
    ensures x + (y + z) == (x + y) + z
  {}

  lemma AppendedChar(start: string, text: string, i: nat)
    requires i < |text|
    ensures start + EscapedText(text[..i + 1]) == start + EscapedText(text[..i]) + EscapedChar(text[i])
    ensures start + EscapedText(text[..i]) + "\\" + [text[i]] == start + EscapedText(text[..i]) + ['\\', text[i]]
  {
    EscapedSnoc(text[..i], text[i]);
    assert text[..i + 1] == text[..i] + [text[i]];
    hide EscapedText;
    Joined(start, EscapedText(text[..i]), EscapedChar(text[i]));
  }

  method WriteAtom(atom: SExpr, out: string) returns (out': string)
    requires !atom.List?
    ensures out' == out + AtomText(atom)
  {
    if atom.Symbol? {
      return out + atom.text;
    }
    hide EscapedText;
    EscapedNothing();
    out' := out + "\"";
    ghost var start := out';
    var text := atom.text;
    for i := 0 to |text|
      invariant out' == start + EscapedText(text[..i])
    {
      var c := text[i];
      AppendedChar(start, text, i);
      if c == '"' || c == '\\' {
        out' := out' + "\\";
      }
      out' := out' + [c];
    }
    assert text[..|text|] == text;
    out' := out' + "\"";
  }

  function ChildText(child: SExpr, depth: nat, first: bool): string {
    Separator(child, depth, first) + if child.List? then NodeText(child, depth + 1) else AtomText(child)
  }

  lemma {:induction false} ChildrenSnoc(children: seq<SExpr>, child: SExpr, depth: nat, first: bool)
    ensures ChildrenText(children + [child], depth, first)
            == ChildrenText(children, depth, first) + ChildText(child, depth, first && children == [])
  {
    hide NodeText, AtomText, Separator;
    if children == [] {
      assert [child][1..] == [];
    } else {
      ChildrenSnoc(children[1..], child, depth, false);
      assert (children + [child])[1..] == children[1..] + [child];
    }
  }

  predicate HasList(children: seq<SExpr>) { exists c :: c in children && c.List? }

  /** `out'` is `out` followed by the opening parenthesis and the first `i` children. */
  ghost predicate Written(out: string, children: seq<SExpr>, depth: nat, i: nat, out': string, sawList: bool)
    requires i <= |children|
  {
    out' == out + "(" + ChildrenText(children[..i], depth, true) && sawList == HasList(children[..i])
  }

  lemma WrittenNothing(out: string, children: seq<SExpr>, depth: nat)
    ensures Written(out, children, depth, 0, out + "(", false)
  {
    assert children[..0] == [];
  }

  lemma Concat4(p: string, x: string, s: string, t: string, u: string)
    ensures p + x + s + t + u == p + (x + (s + t + u))
    ensures p + x + t + u == p + (x + (t + u))
    ensures p + x + u == p + (x + ("" + u))
  {}

  lemma WrittenChild(out: string, children: seq<SExpr>, depth: nat, i: nat, out': string, sawList: bool)
    requires i < |children| && Written(out, children, depth, i, out', sawList)
    ensures var child := children[i];
            if child.List? then
              Written(out, children, depth, i + 1,
                out' + "\n" + Spaces((depth + 1) * 2) + NodeText(child, depth + 1), true)
            else
              Written(out, children, depth, i + 1, (if i == 0 then out' else out' + " ") + AtomText(child), sawList)
  {
    var child, before := children[i], ChildrenText(children[..i], depth, true);
    WrittenPrefix(children, depth, i);
    hide NodeText, AtomText, Spaces, ChildrenText, HasList;
    if child.List? {
      Concat4(out + "(", before, "\n", Spaces((depth + 1) * 2), NodeText(child, depth + 1));
    } else {
      Concat4(out + "(", before, "", " ", AtomText(child));
    }
  }

  lemma WrittenPrefix(children: seq<SExpr>, depth: nat, i: nat)
    requires i < |children|
    ensures ChildrenText(children[..i + 1], depth, true)
            == ChildrenText(children[..i], depth, true) + ChildText(children[i], depth, i == 0)
    ensures HasList(children[..i + 1]) <==> HasList(children[..i]) || children[i].List?
  {
    hide NodeText, AtomText, Spaces, ChildrenText, HasList, ChildText;
    ChildrenSnoc(children[..i], children[i], depth, true);
    HasListSnoc(children[..i], children[i]);
    assert children[..i + 1] == children[..i] + [children[i]];
  }

  lemma HasListSnoc(children: seq<SExpr>, child: SExpr)
    ensures HasList(children + [child]) <==> HasList(children) || child.List?
  {}

  lemma WrittenAll(out: string, node: SExpr, depth: nat, out': string, sawList: bool)
    requires node.List? && Written(out, node.children, depth, |node.children|, out', sawList)
    ensures (if sawList then out' + "\n" + Spaces(depth * 2) else out') + ")" == out + NodeText(node, depth)
  {
    assert node.children[..|node.children|] == node.children;
    hide ChildrenText, Spaces;
  }

  method WriteNode(node: SExpr, depth: nat, out: string) returns (out': string)
    ensures out' == out + NodeText(node, depth)
    decreases node
  {
    if !node.List? {
      out' := WriteAtom(node, out);
      return;
    }
    hide Written, NodeText, AtomText, Spaces;
    var children := node.children;
    out' := out + "(";
    var wroteListChild, first := false, true;
    WrittenNothing(out, children, depth);
    for i := 0 to |children|
      invariant Written(out, children, depth, i, out', wroteListChild)
      invariant first == (i == 0)
    {
      var child := children[i];
      WrittenChild(out, children, depth, i, out', wroteListChild);
      if child.List? {
        out' := out' + "\n" + Spaces((depth + 1) * 2);
        out' := WriteNode(child, depth + 1, out');
        wroteListChild := true;
      } else {
        if !first {
          out' := out' + " ";
        }
        out' := WriteAtom(child, out');
      }
      first := false;
    }
    WrittenAll(out, node, depth, out', wroteListChild);
    if wroteListChild {
      out' := out' + "\n" + Spaces(depth * 2);
    }
    out' := out' + ")";
  }

  method WriteSexpr(root: SExpr) returns (out: string)
    ensures out == Write(root)
  {
    out := WriteNode(root, 0, "");
    assert "" + NodeText(root, 0) == NodeText(root, 0);
    out := out + "\n";
  }
}
