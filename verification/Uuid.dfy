/** UUID text and name-based UUIDs (RFC 4122, section 4.3). */
module Uuids {
  import opened Wrappers
  import opened Sha1Spec
  import opened Sha1Streaming

  /** `hex_nibble`: either letter case is read. */
  function Nibble(c: char): Option<nat> {
    if '0' <= c <= '9' then Some(c as nat - '0' as nat)
    else if 'a' <= c <= 'f' then Some(c as nat - 'a' as nat + 10)
    else if 'A' <= c <= 'F' then Some(c as nat - 'A' as nat + 10)
    else None
  }

  function HexDigit(n: nat): char
    requires n < 16
  {
    "0123456789abcdef"[n]
  }

  predicate LowercaseHex(c: char) { '0' <= c <= '9' || 'a' <= c <= 'f' }

  lemma NibbleOfDigit(n: nat)
    requires n < 16
    ensures Nibble(HexDigit(n)) == Some(n) && LowercaseHex(HexDigit(n))
  {}

  lemma DigitOfNibble(c: char)
    requires Nibble(c).Some?
    ensures Nibble(c).value < 16
    ensures HexDigit(Nibble(c).value) == c <==> LowercaseHex(c)
  {
    if LowercaseHex(c) {
      LowercaseDigits(c);
    }
  }

  lemma LowercaseDigits(c: char)
    requires LowercaseHex(c)
    ensures Nibble(c).Some? && HexDigit(Nibble(c).value) == c
  {
    if c <= '9' {
      assert c in "0123456789" by { assert "0123456789"[c as nat - '0' as nat] == c; }
    }
  }

  /** Every character but the hyphens. */
  function Undashed(text: string): (r: string)
    ensures '-' !in r
  {
    if text == "" then ""
    else
      Undashed(text[..|text| - 1]) + Kept(text[|text| - 1])
  }

  function Kept(c: char): (r: string)
    ensures '-' !in r
  {
    if c == '-' then "" else [c]
  }

  predicate AllHex(hex: string) { forall i :: 0 <= i < |hex| ==> Nibble(hex[i]).Some? }

  /** Byte `i` of a string of hex digits. */
  function HexByte(hex: string, i: nat): (b: Byte)
    requires 2 * i + 1 < |hex| && AllHex(hex)
    ensures b / 16 == Nibble(hex[2 * i]).value && b % 16 == Nibble(hex[2 * i + 1]).value
  {
    DigitOfNibble(hex[2 * i]);
    DigitOfNibble(hex[2 * i + 1]);
    16 * Nibble(hex[2 * i]).value + Nibble(hex[2 * i + 1]).value
  }

  function Decoded(hex: string): (r: Option<seq<Byte>>)
    requires |hex| == 32
    ensures r.Some? ==> |r.value| == 16
  {
    if AllHex(hex) then Some(seq(16, i requires 0 <= i < 16 => HexByte(hex, i))) else None
  }

  /** The sixteen bytes a UUID text spells, or nothing for a malformed text. */
  function Parse(text: string): (r: Option<seq<Byte>>)
    ensures r.Some? ==> |r.value| == 16
  {
    var hex := Undashed(text);
    if |hex| != 32 then None else Decoded(hex)
  }

  function HexText(bytes: seq<Byte>): (r: string)
    ensures |r| == 2 * |bytes|
    ensures forall i :: 0 <= i < |bytes| ==>
              r[2 * i] == HexDigit(bytes[i] / 16) && r[2 * i + 1] == HexDigit(bytes[i] % 16)
  {
    if bytes == [] then ""
    else
      var last := bytes[|bytes| - 1];
      HexText(bytes[..|bytes| - 1]) + [HexDigit(last / 16), HexDigit(last % 16)]
  }

  /** Thirty-two characters as five hyphenated groups. */
  function Grouped(hex: string): (r: string)
    requires |hex| == 32
    ensures |r| == 36
  {
    hex[..8] + "-" + hex[8..12] + "-" + hex[12..16] + "-" + hex[16..20] + "-" + hex[20..]
  }

  function Format(bytes: seq<Byte>): string
    requires |bytes| == 16
  {
    Grouped(HexText(bytes))
  }

  lemma {:induction false} HexTextIsHex(bytes: seq<Byte>)
    ensures forall k :: 0 <= k < |HexText(bytes)| ==> LowercaseHex(HexText(bytes)[k])
  {
    var hex := HexText(bytes);
    forall k | 0 <= k < |hex|
      ensures LowercaseHex(hex[k])
    {
      var i := k / 2;
      NibbleOfDigit(bytes[i] / 16);
      NibbleOfDigit(bytes[i] % 16);
      assert k == 2 * i || k == 2 * i + 1;
    }
  }

  lemma {:induction false} UndashedConcat(x: string, y: string)
    ensures Undashed(x + y) == Undashed(x) + Undashed(y)
  {
    hide Undashed, Kept;
    if y == "" {
      EmptyTail(x);
    } else {
      var n := |y| - 1;
      var z, c := y[..n], y[n];
      assert y == z + [c];
      UndashedConcat(x, z);
      UndashedSnoc(z, c);
      UndashedSnoc(x + z, c);
      Associate(x, z, [c]);
      Associate(Undashed(x), Undashed(z), Kept(c));
    }
  }

  lemma EmptyTail(x: string)
    ensures x + "" == x && Undashed("") == "" && Undashed(x) + "" == Undashed(x)
  {}

  lemma Associate(x: string, y: string, z: string)
    ensures x + y + z == x + (y + z)
  {}

  lemma UndashedSnoc(x: string, c: char)
    ensures Undashed(x + [c]) == Undashed(x) + Kept(c)
  {
    assert (x + [c])[..|x|] == x;
  }

  lemma {:induction false} UndashedKeeps(x: string)
    requires '-' !in x
    ensures Undashed(x) == x
  {
    if x != "" {
      UndashedKeeps(x[..|x| - 1]);
    }
  }

  lemma UndashedGroups(a: string, b: string)
    ensures Undashed(a + "-" + b) == Undashed(a) + Undashed(b)
  {
    UndashedConcat(a + "-", b);
    UndashedConcat(a, "-");
    assert Undashed("-") == "";
    assert Undashed(a) + "" == Undashed(a);
  }

  lemma UndashedGrouped(hex: string)
    requires |hex| == 32 && '-' !in hex
    ensures Undashed(Grouped(hex)) == hex
  {
    hide Undashed;
    var a, b, c, d, e := hex[..8], hex[8..12], hex[12..16], hex[16..20], hex[20..];
    UndashedGroups(a + "-" + b + "-" + c + "-" + d, e);
    UndashedGroups(a + "-" + b + "-" + c, d);
    UndashedGroups(a + "-" + b, c);
    UndashedGroups(a, b);
    UndashedKeeps(a);
    UndashedKeeps(b);
    UndashedKeeps(c);
    UndashedKeeps(d);
    UndashedKeeps(e);
    assert a + b + c + d + e == hex;
  }

  lemma ParseHex(text: string, bytes: seq<Byte>)
    requires |bytes| == 16 && Undashed(text) == HexText(bytes)
    ensures Parse(text) == Some(bytes)
  {
    var hex := HexText(bytes);
    HexTextIsHex(bytes);
    forall k | 0 <= k < 32
      ensures Nibble(hex[k]).Some?
    {
      LowercaseDigits(hex[k]);
    }
    forall i | 0 <= i < 16
      ensures HexByte(hex, i) == bytes[i]
    {
      NibbleOfDigit(bytes[i] / 16);
      NibbleOfDigit(bytes[i] % 16);
    }
    assert Parse(text).value == bytes;
  }

  /** Reading back what was written restores every byte. */
  lemma ParseFormat(bytes: seq<Byte>)
    requires |bytes| == 16
    ensures Parse(Format(bytes)) == Some(bytes)
  {
    HexTextIsHex(bytes);
    UndashedGrouped(HexText(bytes));
    ParseHex(Format(bytes), bytes);
  }

  // ------------------------------------------------------ which texts can be read

  /** Thirty-two hex digits of either case, with any number of hyphens anywhere among them. */
  predicate ThirtyTwoDigits(text: string) {
    && |text| - multiset(text)['-'] == 32
    && forall k :: 0 <= k < |text| ==> text[k] == '-' || Nibble(text[k]).Some?
  }

  predicate IsHyphenPlace(k: nat) { k == 8 || k == 13 || k == 18 || k == 23 }

  /** The form the declaration asks for: 36 characters, hyphens at the four places
      between the groups and a hex digit of either case everywhere else. */
  predicate StandardForm(text: string) {
    && |text| == 36
    && forall k :: 0 <= k < 36 ==> if IsHyphenPlace(k) then text[k] == '-' else Nibble(text[k]).Some?
  }

  /** The number that hexadecimal digits spell. */
  function HexValue(hex: string): nat
    requires AllHex(hex)
  {
    if hex == "" then 0 else 16 * HexValue(hex[..|hex| - 1]) + Nibble(hex[|hex| - 1]).value
  }

  lemma HexSnoc(hex: string, c: char)
    requires AllHex(hex) && Nibble(c).Some?
    ensures AllHex(hex + [c]) && HexValue(hex + [c]) == 16 * HexValue(hex) + Nibble(c).value
  {
    hide Nibble;
    assert (hex + [c])[..|hex|] == hex;
  }

  /** The text of bytes spells the same number in hexadecimal as the bytes, most significant first. */
  lemma {:induction false} HexTextSpells(bytes: seq<Byte>)
    ensures AllHex(HexText(bytes)) && HexValue(HexText(bytes)) == Value(bytes)
  {
    if bytes != [] {
      var front, last := bytes[..|bytes| - 1], bytes[|bytes| - 1];
      HexTextSpells(front);
      NibbleOfDigit(last / 16);
      NibbleOfDigit(last % 16);
      hide Nibble, HexDigit;
      HexSnoc(HexText(front), HexDigit(last / 16));
      HexSnoc(HexText(front) + [HexDigit(last / 16)], HexDigit(last % 16));
      assert HexText(bytes) == HexText(front) + [HexDigit(last / 16)] + [HexDigit(last % 16)];
    }
  }

  lemma {:induction false} DecodedSpells(hex: string, bytes: seq<Byte>, i: nat)
    requires |hex| == 2 * |bytes| && AllHex(hex) && i <= |bytes|
    requires forall k :: 0 <= k < |bytes| ==> bytes[k] == HexByte(hex, k)
    ensures AllHex(hex[..2 * i]) && HexValue(hex[..2 * i]) == Value(bytes[..i])
  {
    hide Nibble;
    if i > 0 {
      DecodedSpells(hex, bytes, i - 1);
      var front, high, low := hex[..2 * i - 2], hex[2 * i - 2], hex[2 * i - 1];
      assert bytes[i - 1] == HexByte(hex, i - 1);
      HexSnoc(front, high);
      HexSnoc(front + [high], low);
      assert hex[..2 * i] == front + [high] + [low];
      assert bytes[..i][..i - 1] == bytes[..i - 1];
    }
  }

  /** So do the bytes that are read: what is left of a text without its hyphens spells their number. */
  lemma ParseSpells(text: string)
    requires Parse(text).Some?
    ensures AllHex(Undashed(text)) && HexValue(Undashed(text)) == Value(Parse(text).value)
  {
    var hex, bytes := Undashed(text), Parse(text).value;
    hide Nibble, Undashed, HexByte;
    DecodedSpells(hex, bytes, 16);
    assert hex[..32] == hex && bytes[..16] == bytes;
  }

  /** Digits count from zero to fifteen in either case. */
  lemma NibbleOfEitherCase(n: nat)
    requires n < 16
    ensures Nibble("0123456789abcdef"[n]) == Nibble("0123456789ABCDEF"[n]) == Some(n)
  {}

  /** Five groups of hex digits of the right lengths, joined by hyphens. */
  lemma GroupsAreStandard(a: string, b: string, c: string, d: string, e: string)
    requires |a| == 8 && |b| == 4 && |c| == 4 && |d| == 4 && |e| == 12
    requires AllHex(a) && AllHex(b) && AllHex(c) && AllHex(d) && AllHex(e)
    ensures StandardForm(a + "-" + b + "-" + c + "-" + d + "-" + e)
  {
    hide Nibble;
  }

  lemma {:induction false} UndashedMeans(text: string)
    ensures |Undashed(text)| == |text| - multiset(text)['-']
    ensures forall c :: c in Undashed(text) <==> c in text && c != '-'
  {
    if text != "" {
      var front, last := text[..|text| - 1], text[|text| - 1];
      UndashedMeans(front);
      assert text == front + [last];
    }
  }

  /** The parser accepts exactly these texts. */
  lemma ParseIffDigits(text: string)
    ensures Parse(text).Some? <==> ThirtyTwoDigits(text)
  {
    hide Nibble, Undashed;
    UndashedMeans(text);
    var hex := Undashed(text);
    assert forall i :: 0 <= i < |hex| ==> hex[i] in text && hex[i] != '-';
    assert forall k :: 0 <= k < |text| && text[k] != '-' ==> text[k] in hex;
  }

  /** Hyphens at exactly the four places between the groups, and nowhere else. */
  predicate HyphensInPlace(text: string) {
    && 24 <= |text|
    && forall k :: 0 <= k < |text| ==> (text[k] == '-' <==> IsHyphenPlace(k))
  }

  lemma SplitAtHyphens(text: string)
    requires HyphensInPlace(text)
    ensures text == text[..8] + "-" + text[9..13] + "-" + text[14..18] + "-" + text[19..23] + "-" + text[24..]
    ensures '-' !in text[..8] && '-' !in text[9..13] && '-' !in text[14..18] && '-' !in text[19..23]
            && '-' !in text[24..]
  {}

  /** Four hyphens in place leave the digits of the five groups. */
  lemma UndashedInPlace(text: string)
    requires HyphensInPlace(text)
    ensures |text| >= 24
    ensures Undashed(text) == text[..8] + text[9..13] + text[14..18] + text[19..23] + text[24..]
  {
    assert 24 <= |text|;
    hide Undashed, HyphensInPlace;
    SplitAtHyphens(text);
    var a, b, c, d, e := text[..8], text[9..13], text[14..18], text[19..23], text[24..];
    UndashedGroups(a + "-" + b + "-" + c + "-" + d, e);
    UndashedGroups(a + "-" + b + "-" + c, d);
    UndashedGroups(a + "-" + b, c);
    UndashedGroups(a, b);
    UndashedKeeps(a);
    UndashedKeeps(b);
    UndashedKeeps(c);
    UndashedKeeps(d);
    UndashedKeeps(e);
  }

  lemma HyphenIsNoDigit()
    ensures Nibble('-').None?
  {}

  /** A text with its hyphens in place is accepted exactly when it has the standard form. */
  lemma ParseInPlaceIff(text: string)
    requires HyphensInPlace(text)
    ensures Parse(text).Some? <==> StandardForm(text)
  {
    hide Nibble, Undashed;
    UndashedInPlace(text);
    assert |Undashed(text)| == |text| - 4;
    UndashedMeans(text);
    hide Parse;
    ParseIffDigits(text);
    HyphenIsNoDigit();
  }

  /** The declaration promises an error for every text that is not of the standard form.
      The parser keeps that promise exactly where the text is of that form or does not
      hold thirty-two digits: it skips hyphens wherever they stand. */
  lemma ParseKeepsPromiseIff(text: string)
    ensures StandardForm(text) ==> Parse(text).Some?
    ensures (Parse(text).Some? <==> StandardForm(text)) <==> StandardForm(text) || !ThirtyTwoDigits(text)
  {
    hide Nibble, Parse, ThirtyTwoDigits;
    if StandardForm(text) {
      HyphenIsNoDigit();
      ParseInPlaceIff(text);
    }
    ParseIffDigits(text);
  }

  /** For instance, the digits alone are read although they are not of the standard form. */
  lemma ParseWithoutHyphens(bytes: seq<Byte>)
    requires |bytes| == 16
    ensures Parse(HexText(bytes)) == Some(bytes) && !StandardForm(HexText(bytes))
  {
    HexTextIsHex(bytes);
    UndashedKeeps(HexText(bytes));
    ParseHex(HexText(bytes), bytes);
  }

  // ------------------------------------------------------------- what is written

  /** What the writer produces: the standard form in lower case. */
  predicate Canonical(text: string) {
    && |text| == 36
    && forall k :: 0 <= k < 36 ==> if IsHyphenPlace(k) then text[k] == '-' else LowercaseHex(text[k])
  }

  /** `text` is its own digits in five groups, all of them in lower case. */
  predicate Regrouped(text: string) {
    var hex := Undashed(text);
    |hex| == 32 && text == Grouped(hex) && forall k :: 0 <= k < 32 ==> LowercaseHex(hex[k])
  }

  /** Where each character of the standard form comes from. */
  function DigitPlace(k: nat): nat
    requires k < 32
  {
    if k < 8 then k else if k < 12 then k + 1 else if k < 16 then k + 2 else if k < 20 then k + 3 else k + 4
  }

  lemma GroupedAt(hex: string)
    requires |hex| == 32
    ensures forall k :: 0 <= k < 36 && IsHyphenPlace(k) ==> Grouped(hex)[k] == '-'
    ensures forall k :: 0 <= k < 32 ==> Grouped(hex)[DigitPlace(k)] == hex[k]
  {}

  lemma EveryPlace(k: nat)
    requires k < 36
    ensures IsHyphenPlace(k) || exists i: nat :: i < 32 && DigitPlace(i) == k
  {
    if !IsHyphenPlace(k) {
      var i := if k < 8 then k else if k < 13 then k - 1 else if k < 18 then k - 2 else if k < 23 then k - 3 else k - 4;
      assert DigitPlace(i) == k;
    }
  }

  lemma CanonicalIsRegrouped(text: string)
    requires Canonical(text)
    ensures Regrouped(text)
  {
    hide Undashed;
    assert HyphensInPlace(text);
    UndashedInPlace(text);
    var hex := Undashed(text);
    forall k | 0 <= k < 32
      ensures hex[k] == text[DigitPlace(k)] && LowercaseHex(hex[k])
    {}
    SplitAtHyphens(text);
    SameGroups(text, hex);
  }

  lemma SameGroups(text: string, hex: string)
    requires |text| == 36 && hex == text[..8] + text[9..13] + text[14..18] + text[19..23] + text[24..]
    ensures hex[..8] == text[..8] && hex[8..12] == text[9..13] && hex[12..16] == text[14..18]
    ensures hex[16..20] == text[19..23] && hex[20..] == text[24..]
  {}

  lemma RegroupedIsCanonical(text: string)
    requires Regrouped(text)
    ensures Canonical(text)
  {
    hide Undashed, Grouped, LowercaseHex;
    var hex := Undashed(text);
    GroupedAt(hex);
    forall k | 0 <= k < 36
      ensures if IsHyphenPlace(k) then text[k] == '-' else LowercaseHex(text[k])
    {
      EveryPlace(k);
    }
  }

  /** Reading and writing back is the identity on exactly the texts in lower-case standard form. */
  lemma FormatParse(text: string)
    ensures Canonical(text) <==> Parse(text).Some? && Format(Parse(text).value) == text
  {
    hide Nibble, HexDigit, Grouped, LowercaseHex, Canonical;
    if Canonical(text) {
      CanonicalIsRegrouped(text);
      var hex := Undashed(text);
      forall k | 0 <= k < 32
        ensures Nibble(hex[k]).Some?
      {
        LowercaseDigits(hex[k]);
      }
      TextOfBytes(text);
    } else if Parse(text).Some? && Format(Parse(text).value) == text {
      var bytes := Parse(text).value;
      HexTextIsHex(bytes);
      LowercaseHasNoHyphen(HexText(bytes));
      UndashedGrouped(HexText(bytes));
      RegroupedIsCanonical(text);
      assert false;
    }
  }

  lemma LowercaseHasNoHyphen(hex: string)
    requires forall k :: 0 <= k < |hex| ==> LowercaseHex(hex[k])
    ensures '-' !in hex
  {}

  lemma TextOfBytes(text: string)
    requires Parse(text).Some? && forall k :: 0 <= k < 32 ==> LowercaseHex(Undashed(text)[k])
    ensures HexText(Parse(text).value) == Undashed(text)
  {
    hide Nibble, HexDigit, LowercaseHex, Undashed;
    var hex, bytes := Undashed(text), Parse(text).value;
    forall k | 0 <= k < 32
      ensures HexText(bytes)[k] == hex[k]
    {
      var i := k / 2;
      assert bytes[i] == HexByte(hex, i);
      DigitOfNibble(hex[2 * i]);
      DigitOfNibble(hex[2 * i + 1]);
      assert k == 2 * i || k == 2 * i + 1;
    }
    assert HexText(bytes) == hex;
  }

  /** The digits of the first `n` bytes, with the hyphens already due. */
  function Layout(hex: string, n: nat): string
    requires |hex| == 32 && n <= 16
  {
    if n < 4 then hex[..2 * n]
    else if n < 6 then hex[..8] + "-" + hex[8..2 * n]
    else if n < 8 then hex[..8] + "-" + hex[8..12] + "-" + hex[12..2 * n]
    else if n < 10 then hex[..8] + "-" + hex[8..12] + "-" + hex[12..16] + "-" + hex[16..2 * n]
    else hex[..8] + "-" + hex[8..12] + "-" + hex[12..16] + "-" + hex[16..20] + "-" + hex[20..2 * n]
  }

  lemma LayoutStep(hex: string, n: nat)
    requires |hex| == 32 && n < 16
    ensures Layout(hex, n + 1) ==
            Layout(hex, n) + [hex[2 * n]] + [hex[2 * n + 1]] + if n == 3 || n == 5 || n == 7 || n == 9 then "-" else ""
  {
    if n < 4 {
      GroupGrows("", hex, 0, n);
    } else if n < 6 {
      GroupGrows(hex[..8] + "-", hex, 8, n);
    } else if n < 8 {
      GroupGrows(hex[..8] + "-" + hex[8..12] + "-", hex, 12, n);
    } else if n < 10 {
      GroupGrows(hex[..8] + "-" + hex[8..12] + "-" + hex[12..16] + "-", hex, 16, n);
    } else {
      GroupGrows(hex[..8] + "-" + hex[8..12] + "-" + hex[12..16] + "-" + hex[16..20] + "-", hex, 20, n);
    }
  }

  lemma GroupGrows(before: string, hex: string, from: nat, n: nat)
    requires from <= 2 * n && 2 * n + 2 <= |hex|
    ensures var grown := before + hex[from..2 * n] + [hex[2 * n]] + [hex[2 * n + 1]];
            var group := before + hex[from..2 * n + 2];
            grown == group && grown + "" == group && group + "-" + hex[2 * n + 2..2 * n + 2] == group + "-"
    ensures "" + hex[0..2 * n] == hex[..2 * n] && "" + hex[0..2 * n + 2] == hex[..2 * n + 2]
  {
    assert hex[from..2 * n] + [hex[2 * n]] + [hex[2 * n + 1]] == hex[from..2 * n + 2];
  }

  method FormatUuid(bytes: seq<Byte>) returns (out: string)
    requires |bytes| == 16
    ensures out == Format(bytes)
  {
    hide HexDigit, HexText, Layout;
    ghost var hex := HexText(bytes);
    out := "";
    LayoutEnds(hex);
    for i := 0 to 16
      invariant out == Layout(hex, i)
    {
      LayoutStep(hex, i);
      out := out + [HexDigit(bytes[i] / 16)];
      out := out + [HexDigit(bytes[i] % 16)];
      if i == 3 || i == 5 || i == 7 || i == 9 {
        out := out + "-";
      }
    }
  }

  lemma LayoutEnds(hex: string)
    requires |hex| == 32
    ensures Layout(hex, 0) == "" && Layout(hex, 16) == Grouped(hex)
  {}

  method ParseUuid(text: string) returns (r: Option<seq<Byte>>)
    ensures r == Parse(text)
  {
    var hex := "";
    for k := 0 to |text|
      invariant hex == Undashed(text[..k])
    {
      assert text[..k + 1][..k] == text[..k];
      if text[k] != '-' {
        hex := hex + [text[k]];
      }
    }
    assert text[..|text|] == text;
    if |hex| != 32 {
      return None;
    }
    r := DecodeHex(hex);
  }

  method DecodeHex(hex: string) returns (r: Option<seq<Byte>>)
    requires |hex| == 32
    ensures r == Decoded(hex)
  {
    hide Nibble;
    var bytes: seq<Byte> := [];
    for i := 0 to 16
      invariant |bytes| == i
      invariant forall k :: 0 <= k < 2 * i ==> Nibble(hex[k]).Some?
      invariant forall j :: 0 <= j < i ==> bytes[j] == 16 * Nibble(hex[2 * j]).value + Nibble(hex[2 * j + 1]).value
    {
      var high, low := Nibble(hex[i * 2]), Nibble(hex[i * 2 + 1]);
      if high.None? || low.None? {
        return None;
      }
      DigitOfNibble(hex[i * 2]);
      DigitOfNibble(hex[i * 2 + 1]);
      bytes := bytes + [16 * high.value + low.value];
    }
    r := Some(bytes);
    assert bytes == Decoded(hex).value;
  }

  /** The version and variant fields of section 4.3 over the first sixteen bytes of a
      digest: the high bits of bytes 6 and 8 are fixed, every other bit is the digest's. */
  predicate IsVersion5(id: seq<Byte>, digest: seq<Byte>)
    requires |id| == 16 && |digest| == 20
  {
    && id[6] / 16 == 5 && id[6] % 16 == digest[6] % 16
    && id[8] / 64 == 2 && id[8] % 64 == digest[8] % 64
    && forall i :: 0 <= i < 16 && i != 6 && i != 8 ==> id[i] == digest[i]
  }

  /** The two in-place stamps: `(b & 0x0F) | 0x50` on byte 6 and `(b & 0x3F) | 0x80` on byte 8. */
  function Stamped(digest: seq<Byte>): (id: seq<Byte>)
    requires |digest| == 20
    ensures |id| == 16 && IsVersion5(id, digest)
  {
    digest[..16][6 := digest[6] % 16 + 0x50][8 := digest[8] % 64 + 0x80]
  }

  /** `text` is the standard form of the version 5 identifier of a namespace and a name. */
  predicate IsNameBased(text: string, namespace: seq<Byte>, name: seq<Byte>) {
    && Canonical(text)
    && Parse(text).Some?
    && IsVersion5(Parse(text).value, Digest(namespace + name))
  }

  lemma StampedText(text: string, digest: seq<Byte>)
    requires |digest| == 20 && text == Format(Stamped(digest))
    ensures Canonical(text) && Parse(text) == Some(Stamped(digest))
  {
    hide Format, Canonical, Parse;
    ParseFormat(Stamped(digest));
    FormatParse(text);
  }

  /** The text of the stamped digest. */
  function NameBased(namespace: seq<Byte>, name: seq<Byte>): string {
    Format(Stamped(Digest(namespace + name)))
  }

  lemma NameBasedMeans(namespace: seq<Byte>, name: seq<Byte>)
    ensures IsNameBased(NameBased(namespace, name), namespace, name)
  {
    hide Digest, Format, Canonical, Parse, IsVersion5;
    StampedText(NameBased(namespace, name), Digest(namespace + name));
  }

  /** Every namespace in standard form has name-based identifiers, and beyond them
      exactly those that hold thirty-two digits. */
  method UuidV5(namespaceUuid: string, name: seq<Byte>) returns (r: Option<string>)
    ensures StandardForm(namespaceUuid) ==> r.Some?
    ensures r.Some? <==> ThirtyTwoDigits(namespaceUuid)
    ensures r.Some? ==> Parse(namespaceUuid).Some?
    ensures r.Some? ==> r.value == NameBased(Parse(namespaceUuid).value, name)
    ensures r.Some? ==> IsNameBased(r.value, Parse(namespaceUuid).value, name)
  {
    hide Digest, Parse, Format, Canonical, IsVersion5, IsNameBased, Sha1.Absorbed, StandardForm, ThirtyTwoDigits;
    ParseKeepsPromiseIff(namespaceUuid);
    ParseIffDigits(namespaceUuid);
    var namespaceBytes := ParseUuid(namespaceUuid);
    if namespaceBytes.None? {
      return None;
    }
    var hasher := new Sha1();
    hasher.Update(namespaceBytes.value);
    hasher.Update(name);
    assert hasher.message == namespaceBytes.value + name;
    var digest := hasher.Finish();
    var text := FormatUuid(Stamped(digest));
    NameBasedMeans(namespaceBytes.value, name);
    r := Some(text);
  }

  /** The version digit and the variant digit of the text. */
  lemma Version5Digits(text: string, digest: seq<Byte>)
    requires |digest| == 20 && Canonical(text) && Parse(text).Some? && IsVersion5(Parse(text).value, digest)
    ensures |text| == 36 && text[14] == '5' && text[19] in "89ab"
  {
    hide Undashed, Parse, Canonical;
    FormatParse(text);
    var bytes := Parse(text).value;
    var hex := HexText(bytes);
    assert text == Grouped(hex);
    assert hex[12] == HexDigit(bytes[6] / 16);
    assert hex[16] == HexDigit(bytes[8] / 16);
    assert text[14] == hex[12] && text[19] == hex[16];
    assert 8 <= bytes[8] / 16 < 12;
    assert HexDigit(8) == '8' && HexDigit(9) == '9' && HexDigit(10) == 'a' && HexDigit(11) == 'b';
  }
}
