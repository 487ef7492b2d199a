/** `units.cpp`: exact conversion between decimal text and integers scaled by 10^6. */
module Decimals {
  import opened Wrappers
  import opened Int64

  const SCALE_PER_UNIT: nat := 1_000_000
  const FRACTION_DIGITS: nat := 6

  predicate IsDigit(c: char) { '0' <= c <= '9' }

  function DigitValue(c: char): nat
    requires IsDigit(c)
  {
    c as int - '0' as int
  }

  predicate AllDigits(s: string) { forall i :: 0 <= i < |s| ==> IsDigit(s[i]) }

  /** The number a digit string denotes. */
  function DigitsValue(s: string): nat
    requires AllDigits(s)
  {
    if s == "" then 0 else DigitsValue(s[..|s| - 1]) * 10 + DigitValue(s[|s| - 1])
  }

  function Pow10(n: nat): (p: nat)
    ensures p >= 1
  {
    if n == 0 then 1 else 10 * Pow10(n - 1)
  }

  // ----------------------------------------------------------------- the meaning

  /** `m` is the integer nearest to `int.frac` times 10^6, a tie going up. */
  predicate Nearest(m: int, int': string, frac: string)
    requires AllDigits(int' + frac)
  {
    var exact := 2 * DigitsValue(int' + frac) * SCALE_PER_UNIT;
    (2 * m - 1) * Pow10(|frac|) <= exact < (2 * m + 1) * Pow10(|frac|)
  }

  /** The parts of a decimal numeral; `sign` is "", "+" or "-". */
  datatype Numeral = Numeral(sign: string, int': string, dot: bool, frac: string)

  predicate WellFormed(n: Numeral) {
    && (n.sign == "" || n.sign == "+" || n.sign == "-")
    && AllDigits(n.int') && AllDigits(n.frac)
    && (n.int' != "" || n.frac != "")
    && (!n.dot ==> n.frac == "")
  }

  function NumeralText(n: Numeral): string {
    n.sign + (n.int' + if n.dot then ['.'] + n.frac else "")
  }

  function Signed(n: Numeral, m: int): int { if n.sign == "-" then -m else m }

  // ------------------------------------------------------- the parser's own steps

  function TakeDigits(s: string): (r: (string, string))
    ensures s == r.0 + r.1 && AllDigits(r.0)
    ensures r.1 != "" ==> !IsDigit(r.1[0])
  {
    if s != "" && IsDigit(s[0]) then
      var (digits, rest) := TakeDigits(s[1..]);
      assert s == [s[0]] + s[1..];
      ([s[0]] + digits, rest)
    else ("", s)
  }

  /** The syntactic half of `parse_decimal_e6`. */
  function ReadNumeral(text: string): (r: Option<Numeral>)
    ensures r.Some? ==> WellFormed(r.value)
  {
    var sign := if text != "" && (text[0] == '-' || text[0] == '+') then text[..1] else "";
    var (int', rest) := TakeDigits(text[|sign|..]);
    var dot := rest != "" && rest[0] == '.';
    var (frac, rest') := if dot then TakeDigits(rest[1..]) else ("", rest);
    if rest' != "" || (int' == "" && frac == "") then None else Some(Numeral(sign, int', dot, frac))
  }

  /** Zero-padded to six digits, the seventh digit deciding the rounding. */
  function FractionPart(frac: string): nat
    requires AllDigits(frac)
  {
    if |frac| <= FRACTION_DIGITS then DigitsValue(frac) * Pow10(FRACTION_DIGITS - |frac|)
    else DigitsValue(frac[..FRACTION_DIGITS]) + if DigitValue(frac[FRACTION_DIGITS]) >= 5 then 1 else 0
  }

  function Magnitude(n: Numeral): nat
    requires WellFormed(n)
  {
    DigitsValue(n.int') * SCALE_PER_UNIT + FractionPart(n.frac)
  }

  /** `parse_decimal_e6`; `None` is the thrown ImportError. */
  function Parse(text: string): Option<i64> {
    match ReadNumeral(text)
    case None => None
    case Some(n) =>
      if Magnitude(n) > INT64_MAX then None
      else var v: i64 := Signed(n, Magnitude(n)); Some(v)
  }

  // ------------------------------------------------------------------- arithmetic

  lemma DigitsSnoc(s: string, c: char)
    requires AllDigits(s) && IsDigit(c)
    ensures AllDigits(s + [c]) && DigitsValue(s + [c]) == DigitsValue(s) * 10 + DigitValue(c)
  {
    assert (s + [c])[..|s + [c]| - 1] == s;
  }

  lemma ShiftStep(u: nat, p: nat, v: nat, d: nat)
    ensures (u * p + v) * 10 + d == u * (10 * p) + (v * 10 + d)
  {
    assert (u * p) * 10 == u * (10 * p);
  }

  lemma {:induction false} DigitsConcat(a: string, b: string)
    requires AllDigits(a) && AllDigits(b)
    ensures AllDigits(a + b) && DigitsValue(a + b) == DigitsValue(a) * Pow10(|b|) + DigitsValue(b)
  {
    if b == "" {
      assert a + b == a;
    } else {
      hide DigitsValue;
      var init, c := b[..|b| - 1], b[|b| - 1];
      DigitsConcat(a, init);
      assert b == init + [c] && a + b == (a + init) + [c];
      DigitsSnoc(a + init, c);
      DigitsSnoc(init, c);
      ShiftStep(DigitsValue(a), Pow10(|init|), DigitsValue(init), DigitValue(c));
    }
  }

  lemma {:induction false} DigitsBound(s: string)
    requires AllDigits(s)
    ensures DigitsValue(s) < Pow10(|s|)
  {
    if s != "" {
      DigitsBound(s[..|s| - 1]);
    }
  }

  lemma {:induction false} Pow10Sum(a: nat, b: nat)
    ensures Pow10(a + b) == Pow10(a) * Pow10(b)
  {
    hide Pow10;
    Pow10Steps(a);
    if a > 0 {
      Pow10Sum(a - 1, b);
      Pow10Steps(a + b);
      TenfoldProduct(Pow10(a - 1), Pow10(b));
    }
  }

  lemma Pow10Steps(n: nat)
    ensures Pow10(n) == if n == 0 then 1 else 10 * Pow10(n - 1)
  {}

  lemma TenfoldProduct(p: int, q: int)
    ensures (10 * p) * q == 10 * (p * q)
  {}

  lemma Pow10Six()
    ensures Pow10(FRACTION_DIGITS) == SCALE_PER_UNIT
  {
    assert Pow10(3) == 1000;
    Pow10Sum(3, 3);
  }

  /** The value of a digit string only grows as digits are appended. */
  lemma DigitsPrefix(s: string, i: nat)
    requires AllDigits(s) && i <= |s|
    ensures DigitsValue(s[..i]) <= DigitsValue(s)
  {
    hide DigitsValue, Pow10;
    assert s == s[..i] + s[i..];
    DigitsConcat(s[..i], s[i..]);
    MulMonotone(1, Pow10(|s| - i), DigitsValue(s[..i]));
  }

  /** A short fraction is exact, so its scaled value is the nearest integer. */
  lemma ShortFraction(n: Numeral)
    requires WellFormed(n) && |n.frac| <= FRACTION_DIGITS
    ensures AllDigits(n.int' + n.frac) && Nearest(Magnitude(n), n.int', n.frac)
  {
    hide DigitsValue, Pow10;
    var p, q := Pow10(|n.frac|), Pow10(FRACTION_DIGITS - |n.frac|);
    var u, v := DigitsValue(n.int'), DigitsValue(n.frac);
    DigitsConcat(n.int', n.frac);
    Pow10Sum(|n.frac|, FRACTION_DIGITS - |n.frac|);
    Pow10Six();
    assert p * q == SCALE_PER_UNIT;
    ExactScaling(u, v, p, q);
    assert Magnitude(n) == u * SCALE_PER_UNIT + v * q && DigitsValue(n.int' + n.frac) == u * p + v;
    hide FractionPart, Magnitude;
    NearestExact(u * SCALE_PER_UNIT + v * q, (u * p + v) * SCALE_PER_UNIT, p);
  }

  lemma ExactScaling(u: nat, v: nat, p: nat, q: nat)
    requires p * q == SCALE_PER_UNIT
    ensures (u * p + v) * SCALE_PER_UNIT == (u * SCALE_PER_UNIT + v * q) * p
  {
    assert v * SCALE_PER_UNIT == (v * q) * p;
    assert (u * p) * SCALE_PER_UNIT == (u * SCALE_PER_UNIT) * p;
  }

  lemma NearestExact(m: nat, exact: nat, p: nat)
    requires p >= 1 && exact == m * p
    ensures (2 * m - 1) * p <= 2 * exact < (2 * m + 1) * p
  {
    assert (2 * m - 1) * p == 2 * (m * p) - p;
    assert (2 * m + 1) * p == 2 * (m * p) + p;
  }

  /** Past six digits, the seventh alone says on which side of the half the rest is. */
  lemma LongFraction(n: Numeral)
    requires WellFormed(n) && |n.frac| > FRACTION_DIGITS
    ensures AllDigits(n.int' + n.frac) && Nearest(Magnitude(n), n.int', n.frac)
  {
    hide DigitsValue;
    var kept, rest := n.frac[..FRACTION_DIGITS], n.frac[FRACTION_DIGITS..];
    var d, tail := rest[..1], rest[1..];
    var k := |tail|;
    assert n.frac == kept + rest && rest == d + tail;
    var u, a, r, t := DigitsValue(n.int'), DigitsValue(kept), DigitsValue(rest), DigitsValue(tail);
    DigitsConcat(n.int', n.frac);
    DigitsConcat(kept, rest);
    DigitsConcat(d, tail);
    DigitsOne(n.frac[FRACTION_DIGITS]);
    assert d == [n.frac[FRACTION_DIGITS]];
    hide Pow10;
    DigitsBound(tail);
    Pow10Six();
    Pow10Sum(FRACTION_DIGITS, k + 1);
    Pow10Step(k);
    RoundAtSeventh(u, a, DigitsValue(d), t, Pow10(k));
  }

  lemma DigitsOne(c: char)
    requires IsDigit(c)
    ensures DigitsValue([c]) == DigitValue(c)
  {
    assert [c][..0] == "";
  }

  lemma Pow10Step(k: nat)
    ensures Pow10(k + 1) == 10 * Pow10(k)
  {}

  lemma ScaleSum(u: int, a: int, e: int, p: int)
    ensures (u * SCALE_PER_UNIT + (a + e)) * (SCALE_PER_UNIT * p)
            == SCALE_PER_UNIT * (SCALE_PER_UNIT * (u * p) + a * p + e * p)
  {
    var q := SCALE_PER_UNIT * p;
    assert (u * SCALE_PER_UNIT) * q == SCALE_PER_UNIT * (u * q) && u * q == SCALE_PER_UNIT * (u * p);
    assert a * q == SCALE_PER_UNIT * (a * p) && e * q == SCALE_PER_UNIT * (e * p);
    assert (u * SCALE_PER_UNIT + (a + e)) * q == (u * SCALE_PER_UNIT) * q + a * q + e * q;
  }

  lemma HalfStep(m: int, q: int)
    ensures (2 * m - 1) * q == 2 * (m * q) - q && (2 * m + 1) * q == 2 * (m * q) + q
  {}

  lemma RoundAtSeventh(u: nat, a: nat, d: nat, t: nat, p: nat)
    requires t < p && d <= 9
    ensures var q, m := SCALE_PER_UNIT * (10 * p), u * SCALE_PER_UNIT + (a + if d >= 5 then 1 else 0);
            var exact := 2 * (u * q + (a * (10 * p) + (d * p + t))) * SCALE_PER_UNIT;
            (2 * m - 1) * q <= exact < (2 * m + 1) * q
  {
    var e := if d >= 5 then 1 else 0;
    ScaleSum(u, a, e, 10 * p);
    HalfStep(u * SCALE_PER_UNIT + (a + e), SCALE_PER_UNIT * (10 * p));
    ScaleSum(0, 0, u, 10 * p);
    if d >= 5 {
      MulMonotone(5, d, p);
      MulMonotone(d, 9, p);
    } else {
      MulMonotone(d, 4, p);
    }
  }

  lemma MagnitudeIsNearest(n: Numeral)
    requires WellFormed(n)
    ensures AllDigits(n.int' + n.frac) && Nearest(Magnitude(n), n.int', n.frac)
  {
    if |n.frac| <= FRACTION_DIGITS {
      ShortFraction(n);
    } else {
      LongFraction(n);
    }
  }

  lemma NearestUnique(m: int, m': int, int': string, frac: string)
    requires AllDigits(int' + frac) && Nearest(m, int', frac) && Nearest(m', int', frac)
    ensures m == m'
  {
    var p := Pow10(|frac|);
    if m < m' {
      MulMonotone(2 * m + 1, 2 * m' - 1, p);
    } else if m' < m {
      MulMonotone(2 * m' + 1, 2 * m - 1, p);
    }
  }

  // ------------------------------------------------------ the parser as it is run

  function DigitsAt(text: string, pos: nat): (string, string)
    requires pos <= |text|
  {
    TakeDigits(text[pos..])
  }

  lemma DigitsAtStep(text: string, start: nat, pos: nat)
    requires start <= pos < |text| && IsDigit(text[pos])
    ensures DigitsAt(text, pos).1 == DigitsAt(text, pos + 1).1
    ensures text[start..pos] + DigitsAt(text, pos).0 == text[start..pos + 1] + DigitsAt(text, pos + 1).0
  {
    assert text[pos..][1..] == text[pos + 1..];
    assert text[start..pos + 1] == text[start..pos] + [text[pos]];
  }

  lemma DigitsAtStop(text: string, start: nat, pos: nat)
    requires start <= pos <= |text| && (pos == |text| || !IsDigit(text[pos]))
    ensures DigitsAt(text, pos) == ("", text[pos..])
    ensures text[start..pos] + DigitsAt(text, pos).0 == text[start..pos]
  {}

  /** The digit-scanning loop. */
  method ScanDigits(text: string, start: nat) returns (pos: nat)
    requires start <= |text|
    ensures start <= pos <= |text|
    ensures DigitsAt(text, start) == (text[start..pos], text[pos..])
  {
    hide DigitsAt;
    pos := start;
    assert text[start..start] + DigitsAt(text, start).0 == DigitsAt(text, start).0;
    while pos < |text| && IsDigit(text[pos])
      invariant start <= pos <= |text|
      invariant DigitsAt(text, start) == (text[start..pos] + DigitsAt(text, pos).0, DigitsAt(text, pos).1)
    {
      DigitsAtStep(text, start, pos);
      pos := pos + 1;
    }
    DigitsAtStop(text, start, pos);
  }

  /** `accumulate_digits` from zero: the exact value, or an overflow exactly when it does not fit. */
  method AccumulateDigits(digits: string) returns (r: Option<i64>)
    requires AllDigits(digits)
    ensures r == Checked(DigitsValue(digits))
  {
    var out: i64 := 0;
    for i := 0 to |digits|
      invariant out == DigitsValue(digits[..i])
    {
      DigitsSnoc(digits[..i], digits[i]);
      assert digits[..i + 1] == digits[..i] + [digits[i]];
      DigitsPrefix(digits, i + 1);
      var scaled := CheckedMul(out, 10);
      if scaled.None? {
        return None;
      }
      var next := CheckedAdd(scaled.value, DigitValue(digits[i]));
      if next.None? {
        return None;
      }
      out := next.value;
    }
    assert digits[..|digits|] == digits;
    return Some(out);
  }

  lemma FractionBound(frac: string)
    requires AllDigits(frac)
    ensures FractionPart(frac) <= SCALE_PER_UNIT
    ensures |frac| > FRACTION_DIGITS ==> DigitsValue(frac[..FRACTION_DIGITS]) < SCALE_PER_UNIT
    ensures |frac| <= FRACTION_DIGITS ==> DigitsValue(frac) < SCALE_PER_UNIT
  {
    Pow10Six();
    if |frac| > FRACTION_DIGITS {
      DigitsBound(frac[..FRACTION_DIGITS]);
    } else {
      DigitsBound(frac);
      Pow10Sum(|frac|, FRACTION_DIGITS - |frac|);
      MulMonotone(DigitsValue(frac), Pow10(|frac|), Pow10(FRACTION_DIGITS - |frac|));
      MulMonotone(1, Pow10(FRACTION_DIGITS - |frac|), Pow10(|frac|));
    }
  }

  /** The six digits, the zero padding and the rounding of the seventh. */
  method ScaleFraction(frac: string) returns (fractionPart: i64)
    requires AllDigits(frac)
    ensures fractionPart == FractionPart(frac)
  {
    hide DigitsValue, FractionPart, Pow10;
    var used := if |frac| < FRACTION_DIGITS then |frac| else FRACTION_DIGITS;
    UsedDigits(frac, used);
    var kept := AccumulateDigits(frac[..used]);
    fractionPart := kept.value;
    ghost var goal := DigitsValue(frac[..used]) * Pow10(FRACTION_DIGITS - used);
    var i := used;
    while i < FRACTION_DIGITS
      invariant used <= i <= FRACTION_DIGITS && fractionPart >= 0
      invariant fractionPart * Pow10(FRACTION_DIGITS - i) == goal
    {
      PadStep(fractionPart, FRACTION_DIGITS - i, goal);
      fractionPart := fractionPart * 10;
      i := i + 1;
    }
    PadDone(fractionPart);
    if |frac| > FRACTION_DIGITS && DigitValue(frac[FRACTION_DIGITS]) >= 5 {
      fractionPart := fractionPart + 1;
    }
  }

  /** The digits that are read, and what padding and rounding make of them. */
  lemma UsedDigits(frac: string, used: nat)
    requires AllDigits(frac) && used == if |frac| < FRACTION_DIGITS then |frac| else FRACTION_DIGITS
    ensures DigitsValue(frac[..used]) < SCALE_PER_UNIT
    ensures DigitsValue(frac[..used]) * Pow10(FRACTION_DIGITS - used) <= SCALE_PER_UNIT
    ensures FractionPart(frac) == DigitsValue(frac[..used]) * Pow10(FRACTION_DIGITS - used)
              + if |frac| > FRACTION_DIGITS && DigitValue(frac[FRACTION_DIGITS]) >= 5 then 1 else 0
  {
    FractionBound(frac);
    PadDone(DigitsValue(frac[..used]));
    hide DigitsValue, Pow10;
    if |frac| <= FRACTION_DIGITS {
      assert frac[..used] == frac;
    }
  }

  lemma PadDone(f: int)
    ensures f * Pow10(0) == f
  {}

  lemma PadStep(f: int, n: nat, goal: int)
    requires n > 0 && 0 <= f && f * Pow10(n) == goal
    ensures (f * 10) * Pow10(n - 1) == goal && f * 10 <= goal
  {
    assert (f * 10) * Pow10(n - 1) == f * (10 * Pow10(n - 1));
    MulMonotone(1, Pow10(n - 1), f * 10);
  }

  /** The scanning half of `parse_decimal_e6`; `ok` is false where it throws. */
  method ScanNumeral(text: string) returns (ok: bool, negative: bool, integerDigits: string, fractionDigits: string)
    ensures ok <==> ReadNumeral(text).Some?
    ensures ok ==> var n := ReadNumeral(text).value;
                   (n.sign == "-") == negative && n.int' == integerDigits && n.frac == fractionDigits
  {
    hide TakeDigits;
    var pos := 0;
    negative := false;
    if pos < |text| && (text[pos] == '-' || text[pos] == '+') {
      negative := text[pos] == '-';
      pos := pos + 1;
    }
    ghost var sign := text[..pos];
    assert negative <==> sign == "-";
    var integerStart := pos;
    pos := ScanDigits(text, pos);
    integerDigits := text[integerStart..pos];
    fractionDigits := "";
    ghost var rest := text[pos..];
    assert TakeDigits(text[|sign|..]) == (integerDigits, rest);
    if pos < |text| && text[pos] == '.' {
      assert rest[1..] == text[pos + 1..];
      pos := pos + 1;
      var fractionStart := pos;
      pos := ScanDigits(text, pos);
      fractionDigits := text[fractionStart..pos];
    }
    ok := pos == |text| && (integerDigits != "" || fractionDigits != "");
  }

  method ParseDecimalE6(text: string) returns (r: Option<i64>)
    ensures r == Parse(text)
  {
    var ok, negative, integerDigits, fractionDigits := ScanNumeral(text);
    if !ok {
      return None;
    }
    hide ReadNumeral, TakeDigits, DigitsValue, FractionPart;
    FractionBound(fractionDigits);
    var integerPart := AccumulateDigits(integerDigits);
    if integerPart.None? {
      return None;
    }
    var fractionPart := ScaleFraction(fractionDigits);
    var scaledInteger := CheckedMul(integerPart.value, SCALE_PER_UNIT);
    if scaledInteger.None? {
      return None;
    }
    var magnitude := CheckedAdd(scaledInteger.value, fractionPart);
    if magnitude.None? {
      return None;
    }
    var value: i64 := if negative then -magnitude.value else magnitude.value;
    return Some(value);
  }

  // ------------------------------------------------------------------ the theorem

  lemma {:induction false} TakeAllDigits(digits: string, rest: string)
    requires AllDigits(digits) && (rest != "" ==> !IsDigit(rest[0]))
    ensures TakeDigits(digits + rest) == (digits, rest)
  {
    if digits == "" {
      assert digits + rest == rest;
    } else {
      TakeAllDigits(digits[1..], rest);
      assert (digits + rest)[1..] == digits[1..] + rest;
      assert digits == [digits[0]] + digits[1..];
    }
  }

  /** Reading the text of a numeral gives the numeral back: the notation is unambiguous. */
  lemma ReadNumeralText(n: Numeral)
    requires WellFormed(n)
    ensures ReadNumeral(NumeralText(n)) == Some(n)
  {
    hide TakeDigits;
    var text := NumeralText(n);
    var fraction := if n.dot then ['.'] + n.frac else "";
    assert text == n.sign + (n.int' + fraction);
    if n.sign == "" {
      assert text == n.int' + fraction;
      assert text[0] == if n.int' != "" then n.int'[0] else '.';
    } else {
      assert text[0] == n.sign[0] && text[..1] == n.sign;
    }
    assert text[|n.sign|..] == n.int' + fraction;
    TakeAllDigits(n.int', fraction);
    if n.dot {
      assert fraction[1..] == n.frac + "";
      TakeAllDigits(n.frac, "");
    }
  }

  lemma ReadNumeralSound(text: string)
    requires ReadNumeral(text).Some?
    ensures NumeralText(ReadNumeral(text).value) == text
  {
    var n := ReadNumeral(text).value;
    var rest := TakeDigits(text[|n.sign|..]).1;
    assert text == text[..|n.sign|] + text[|n.sign|..];
    if n.dot {
      assert rest == [rest[0]] + rest[1..];
      assert n.frac + "" == n.frac;
    }
  }

  /** `text` is a numeral whose value times 10^6, rounded half away from zero, is `v`. */
  ghost predicate Denotes(text: string, v: int) {
    exists n: Numeral, m: nat :: DenotesVia(text, v, n, m)
  }

  ghost predicate DenotesVia(text: string, v: int, n: Numeral, m: nat) {
    && WellFormed(n) && text == NumeralText(n)
    && AllDigits(n.int' + n.frac) && Nearest(m, n.int', n.frac)
    && v == Signed(n, m)
  }

  /** The parser succeeds exactly on the numerals whose rounded magnitude is at
      most 2^63 - 1, and returns the exactly rounded value. */
  lemma ParseIffDenotes(text: string, v: i64)
    ensures Parse(text) == Some(v) <==> v != INT64_MIN && Denotes(text, v)
  {
    hide Nearest, Magnitude, ReadNumeral, NumeralText;
    if Parse(text) == Some(v) {
      var n := ReadNumeral(text).value;
      ReadNumeralSound(text);
      MagnitudeIsNearest(n);
      assert DenotesVia(text, v, n, Magnitude(n));
    }
    if v != INT64_MIN && Denotes(text, v) {
      var n: Numeral, m: nat :| DenotesVia(text, v, n, m);
      ReadNumeralText(n);
      MagnitudeIsNearest(n);
      NearestUnique(m, Magnitude(n), n.int', n.frac);
    }
  }

  // ------------------------------------------------------------------- formatting

  function Digit(d: nat): (c: char)
    requires d < 10
    ensures IsDigit(c) && DigitValue(c) == d
  {
    '0' + d as char
  }

  /** `std::to_string` of a non-negative number. */
  function NatText(n: nat): (s: string)
    ensures s != "" && AllDigits(s) && DigitsValue(s) == n
    ensures n < 10 ==> |s| == 1
  {
    if n < 10 then
      DigitsOne(Digit(n));
      [Digit(n)]
    else
      DigitsSnoc(NatText(n / 10), Digit(n % 10));
      NatText(n / 10) + [Digit(n % 10)]
  }

  function Zeros(n: nat): (s: string)
    ensures |s| == n && AllDigits(s)
  {
    seq(n, _ => '0')
  }

  function TrimZeros(s: string): string {
    if s != "" && s[|s| - 1] == '0' then TrimZeros(s[..|s| - 1]) else s
  }

  /** A fraction as exactly six digits. */
  function PaddedText(fraction: nat): (s: string)
    requires fraction < SCALE_PER_UNIT
    ensures |s| == FRACTION_DIGITS && AllDigits(s) && DigitsValue(s) == fraction
  {
    var digits := NatText(fraction);
    NatTextLength(fraction, FRACTION_DIGITS);
    Pow10Six();
    DigitsConcat(Zeros(FRACTION_DIGITS - |digits|), digits);
    ZerosValue(FRACTION_DIGITS - |digits|);
    Zeros(FRACTION_DIGITS - |digits|) + digits
  }

  /** The fractional digits `format_decimal_e6` writes: padded, then trimmed. */
  function FractionText(fraction: nat): string
    requires fraction < SCALE_PER_UNIT
  {
    TrimZeros(PaddedText(fraction))
  }

  lemma {:induction false} NatTextLength(n: nat, k: nat)
    requires k >= 1 && n < Pow10(k)
    ensures |NatText(n)| <= k
  {
    if n >= 10 {
      assert k > 1;
      NatTextLength(n / 10, k - 1);
    }
  }

  /** The numeral `format_decimal_e6` writes. */
  function Formatted(v: i64): Numeral {
    var magnitude := Abs(v);
    var fraction := magnitude % SCALE_PER_UNIT;
    Numeral(if v < 0 then "-" else "",
            NatText(magnitude / SCALE_PER_UNIT),
            fraction != 0,
            if fraction != 0 then FractionText(fraction) else "")
  }

  function Format(v: i64): string { NumeralText(Formatted(v)) }

  lemma {:induction false} ZerosValue(k: nat)
    ensures DigitsValue(Zeros(k)) == 0
  {
    if k > 0 {
      ZerosValue(k - 1);
      assert Zeros(k)[..k - 1] == Zeros(k - 1);
    }
  }

  /** Trimming trailing zeros divides by a power of ten and never empties a non-zero number. */
  lemma {:induction false} TrimZerosValue(s: string)
    requires AllDigits(s)
    ensures var t := TrimZeros(s);
            && AllDigits(t) && |t| <= |s|
            && DigitsValue(t) * Pow10(|s| - |t|) == DigitsValue(s)
            && (DigitsValue(s) > 0 ==> t != "")
  {
    if s != "" && s[|s| - 1] == '0' {
      var init := s[..|s| - 1];
      TrimZerosValue(init);
      DigitsSnoc(init, '0');
      assert s == init + ['0'];
      Pow10Step(|init| - |TrimZeros(init)|);
      hide DigitsValue, Pow10;
      TenTimes(DigitsValue(TrimZeros(init)), Pow10(|init| - |TrimZeros(init)|));
    } else {
      PadDone(DigitsValue(s));
      hide Pow10;
    }
  }

  lemma TenTimes(v: int, p: int)
    ensures v * (10 * p) == (v * p) * 10
  {}

  lemma FractionTextValue(fraction: nat)
    requires 0 < fraction < SCALE_PER_UNIT
    ensures var t := FractionText(fraction);
            AllDigits(t) && t != "" && |t| <= FRACTION_DIGITS && FractionPart(t) == fraction
  {
    TrimZerosValue(PaddedText(fraction));
    hide PaddedText, DigitsValue, Pow10;
  }

  lemma FormattedMagnitude(v: i64)
    ensures WellFormed(Formatted(v)) && Magnitude(Formatted(v)) == Abs(v)
  {
    var fraction := Abs(v) % SCALE_PER_UNIT;
    hide FractionPart, FractionText, DigitsValue;
    if fraction != 0 {
      FractionTextValue(fraction);
    } else {
      EmptyFraction();
    }
  }

  lemma EmptyFraction()
    ensures FractionPart("") == 0
  {}

  /** The ten digits, by their values. */
  lemma DigitValues(c: char)
    ensures IsDigit(c) <==> c in "0123456789"
    ensures IsDigit(c) ==> "0123456789"[..DigitValue(c) + 1][DigitValue(c)] == c
  {
    if IsDigit(c) {
      assert "0123456789"[c as int - '0' as int] == c;
    }
  }

  lemma {:induction false} NatTextLeads(n: nat)
    requires n > 0
    ensures NatText(n)[0] != '0'
  {
    if n >= 10 {
      NatTextLeads(n / 10);
    }
  }

  lemma {:induction false} TrimmedEnd(s: string)
    ensures TrimZeros(s) != "" ==> TrimZeros(s)[|TrimZeros(s)| - 1] != '0'
  {
    if s != "" && s[|s| - 1] == '0' {
      TrimmedEnd(s[..|s| - 1]);
    }
  }

  /** Nothing is written that could be left out: no plus sign, no leading zero but the one in front of
      the point, no trailing zero behind it, and no point without a digit after it. */
  lemma FormatIsShortest(v: i64)
    ensures var n := Formatted(v);
            && Format(v) == NumeralText(n)
            && n.sign == (if v < 0 then "-" else "")
            && n.int' != "" && (n.int'[0] == '0' ==> n.int' == "0")
            && (n.dot <==> n.frac != "") && |n.frac| <= 6
            && (n.frac != "" ==> n.frac[|n.frac| - 1] != '0')
  {
    var whole, fraction := Abs(v) / SCALE_PER_UNIT, Abs(v) % SCALE_PER_UNIT;
    hide FractionPart, DigitsValue;
    if whole > 0 {
      NatTextLeads(whole);
    } else {
      assert NatText(0) == [Digit(0)];
    }
    if fraction != 0 {
      FractionTextValue(fraction);
      TrimmedEnd(PaddedText(fraction));
    }
    hide NatText, PaddedText, TrimZeros;
  }

  /** Formatting and parsing returns every value except the most negative one,
      whose magnitude the parser rejects. */
  lemma FormatParseRoundTrip(v: i64)
    ensures Parse(Format(v)) == if v != INT64_MIN then Some(v) else None
  {
    FormattedMagnitude(v);
    hide Magnitude, ReadNumeral, NumeralText;
    ReadNumeralText(Formatted(v));
  }

  method FormatDecimalE6(v: i64) returns (out: string)
    ensures out == Format(v)
  {
    hide FractionText, NatText, NumeralText;
    var negative := v < 0;
    // 0 - static_cast<uint64_t>(v): both steps modulo 2^64.
    var magnitude: nat := if negative then 0x1_0000_0000_0000_0000 - (v + 0x1_0000_0000_0000_0000) else v;
    var whole, fraction := magnitude / SCALE_PER_UNIT, magnitude % SCALE_PER_UNIT;
    assert magnitude == Abs(v);
    ghost var n := Formatted(v);
    out := "";
    if negative && magnitude != 0 {
      out := out + "-";
    }
    out := out + NatText(whole);
    assert out == n.sign + n.int';
    hide Formatted;
    assert n.dot <==> fraction != 0;
    if fraction != 0 {
      var digits := WriteFraction(fraction);
      out := out + ".";
      out := out + digits;
      assert n.frac == digits;
    }
    TextInParts(n);
  }

  lemma TextInParts(n: Numeral)
    ensures NumeralText(n) == n.sign + n.int' + if n.dot then "." + n.frac else ""
  {}

  /** The padding and the trimming loop of `format_decimal_e6`. */
  method WriteFraction(fraction: nat) returns (digits: string)
    requires 0 < fraction < SCALE_PER_UNIT
    ensures digits == FractionText(fraction)
  {
    NatTextLength(fraction, FRACTION_DIGITS) by { Pow10Six(); }
    digits := NatText(fraction);
    digits := Zeros(FRACTION_DIGITS - |digits|) + digits;
    assert digits == PaddedText(fraction);
    FractionTextValue(fraction);
    hide NatText, Zeros, FractionPart, DigitsValue, PaddedText;
    while digits[|digits| - 1] == '0'
      invariant digits != "" && TrimZeros(digits) == FractionText(fraction)
      decreases |digits|
    {
      digits := digits[..|digits| - 1];
    }
  }
}
