/**
 * Decimal text and NonSmallInts: `parse`, `of` (which goes through
 * `format!("{}", n)` and `parse`), and the digits `Display` writes.
 */
module Decimal {
  import opened Wrappers
  import opened Numeral
  import opened Compare

  // ---------------------------------------------------------------------
  // Characters and strings

  /** `char::is_whitespace`: the characters with the Unicode White_Space property. */
  predicate IsWhitespace(c: char) {
    || c == ' '
    || ('\U{9}' <= c <= '\U{D}')
    || c == '\U{85}' || c == '\U{A0}' || c == '\U{1680}'
    || ('\U{2000}' <= c <= '\U{200A}')
    || c == '\U{2028}' || c == '\U{2029}' || c == '\U{202F}' || c == '\U{205F}' || c == '\U{3000}'
  }

  /** `str::trim_start`: drop white space from the front. */
  function TrimStart(s: string): string {
    if s != [] && IsWhitespace(s[0]) then TrimStart(s[1..]) else s
  }

  /** `str::trim_end`: drop white space from the back. */
  function TrimEnd(s: string): string {
    if s != [] && IsWhitespace(s[|s| - 1]) then TrimEnd(s[..|s| - 1]) else s
  }

  /** `str::trim`: the string without leading and trailing white space. */
  function Trim(s: string): string {
    TrimEnd(TrimStart(s))
  }

  /** `char::is_digit(10)`. */
  predicate IsDecimalDigit(c: char) {
    '0' <= c <= '9'
  }

  /** `char::to_digit(10)` of a decimal digit. */
  function DigitValue(c: char): (v: nat)
    requires IsDecimalDigit(c)
    ensures v < 10
  {
    c as int - '0' as int
  }

  /** The character `format!` writes for a digit below 10. */
  function DigitChar(v: nat): (c: char)
    requires v < 10
    ensures IsDecimalDigit(c) && DigitValue(c) == v
  {
    ('0' as int + v) as char
  }

  predicate AllDecimalDigits(t: string) {
    forall i :: 0 <= i < |t| ==> IsDecimalDigit(t[i])
  }

  /** The digit values of a string of digits, in reading order. */
  function DigitValues(t: string): (vs: seq<nat>)
    requires AllDecimalDigits(t)
    ensures |vs| == |t|
  {
    seq<nat>(|t|, i requires 0 <= i < |t| => DigitValue(t[i]))
  }

  /** The number a string of decimal digits denotes, read left to right. */
  function DecimalValue(t: string): nat
    requires AllDecimalDigits(t)
  {
    if t == [] then 0 else 10 * DecimalValue(t[..|t| - 1]) + DigitValue(t[|t| - 1])
  }

  /** `Vec::reverse`. */
  function Reversed(s: seq<nat>): (r: seq<nat>)
    ensures |r| == |s|
    ensures forall i :: 0 <= i < |s| ==> r[i] == s[|s| - 1 - i]
  {
    if s == [] then [] else Reversed(s[1..]) + [s[0]]
  }

  /** The digits `parse` stores for a string of decimal digits: their values, reversed. */
  function DigitsOf(t: string): seq<nat>
    requires AllDecimalDigits(t)
  {
    Reversed(DigitValues(t))
  }

  /** `format!("{}", n)`: the decimal numeral of `n`, most significant digit first. */
  function DecimalString(n: nat): (s: string)
    ensures AllDecimalDigits(s) && |s| > 0
  {
    if n < 10 then [DigitChar(n)] else DecimalString(n / 10) + [DigitChar(n % 10)]
  }

  // ---------------------------------------------------------------------
  // parse, of and Display

  /**
   * `parse`: every character of the trimmed text must be a decimal digit;
   * the digits are collected in reading order and then reversed.
   */
  method Parse(n: string) returns (res: Option<seq<nat>>)
    ensures res.Some? <==> AllDecimalDigits(Trim(n))
    ensures res.Some? ==> res.value == DigitsOf(Trim(n))
    ensures res.Some? ==> ValidDigits(res.value) && Val(res.value) == DecimalValue(Trim(n))
  {
    var digits: seq<nat> := [];
    var isNumber := true;
    var t := Trim(n);
    for i := 0 to |t|
      invariant isNumber <==> AllDecimalDigits(t[..i])
      invariant isNumber ==> digits == DigitValues(t[..i])
    {
      var c := t[i];
      assert t[..i + 1] == t[..i] + [c];
      if IsDecimalDigit(c) {
        digits := digits + [DigitValue(c)];
      } else {
        isNumber := false;
      }
    }
    assert t[..|t|] == t;
    digits := Reversed(digits);
    if isNumber {
      res := Some(digits);
      DigitsOfValue(t);
    } else {
      res := None;
    }
  }

  /** `of`: format `n` in decimal and parse the text back. */
  method Of(n: U64) returns (r: seq<nat>)
    ensures r == DigitsOf(DecimalString(n))
    ensures r == if n == 0 then [0] else FromNat(n)
    ensures ValidDigits(r) && Val(r) == n
    ensures SigLen(r) == if n == 0 then 0 else |DecimalString(n)|
  {
    var strDigits := DecimalString(n);
    NumeralIsTrimmed(strDigits);
    var parsed := Parse(strDigits);
    r := parsed.value;
    OfDigits(n);
  }

  /** `Display::fmt`: "0" for zero, otherwise every stored digit from the top down. */
  function Render(d: seq<nat>): string {
    if IsZero(d) then "0" else RenderDigits(d)
  }

  /** The loop of `Display::fmt`: `write!(f, "{}", digit)` for the stored digits, top first. */
  function RenderDigits(d: seq<nat>): string {
    if d == [] then "" else DecimalString(d[|d| - 1]) + RenderDigits(d[..|d| - 1])
  }

  // ---------------------------------------------------------------------
  // Properties

  /** `trim_start` keeps a suffix that does not start with white space, and drops only white space. */
  lemma {:induction false} TrimStartDrops(s: string)
    ensures |TrimStart(s)| <= |s| && TrimStart(s) == s[|s| - |TrimStart(s)|..]
    ensures forall i :: 0 <= i < |s| - |TrimStart(s)| ==> IsWhitespace(s[i])
    ensures TrimStart(s) == [] || !IsWhitespace(TrimStart(s)[0])
  {
    if s != [] && IsWhitespace(s[0]) {
      TrimStartDrops(s[1..]);
    }
  }

  /** `trim_end` keeps a prefix that does not end with white space, and drops only white space. */
  lemma {:induction false} TrimEndDrops(s: string)
    ensures |TrimEnd(s)| <= |s| && TrimEnd(s) == s[..|TrimEnd(s)|]
    ensures forall i :: |TrimEnd(s)| <= i < |s| ==> IsWhitespace(s[i])
    ensures TrimEnd(s) == [] || !IsWhitespace(TrimEnd(s)[|TrimEnd(s)| - 1])
  {
    if s != [] && IsWhitespace(s[|s| - 1]) {
      TrimEndDrops(s[..|s| - 1]);
    }
  }

  /** `trim` keeps a piece of the text that neither starts nor ends with white space. */
  lemma TrimIsTrimmed(s: string)
    ensures |Trim(s)| <= |s|
    ensures Trim(s) == [] || (!IsWhitespace(Trim(s)[0]) && !IsWhitespace(Trim(s)[|Trim(s)| - 1]))
  {
    TrimStartDrops(s);
    TrimEndDrops(TrimStart(s));
  }

  lemma DigitValuesSnoc(t: string, c: char)
    requires AllDecimalDigits(t) && IsDecimalDigit(c)
    ensures AllDecimalDigits(t + [c]) && DigitValues(t + [c]) == DigitValues(t) + [DigitValue(c)]
  {
  }

  lemma ReversedSnoc(s: seq<nat>, v: nat)
    ensures Reversed(s + [v]) == [v] + Reversed(s)
  {
  }

  /** The digits `parse` stores are valid and denote the number read left to right. */
  lemma {:induction false} DigitsOfValue(t: string)
    requires AllDecimalDigits(t)
    ensures ValidDigits(DigitsOf(t)) && Val(DigitsOf(t)) == DecimalValue(t)
  {
    if t != [] {
      var init, c := t[..|t| - 1], t[|t| - 1];
      assert t == init + [c];
      DigitsOfValue(init);
      DigitValuesSnoc(init, c);
      ReversedSnoc(DigitValues(init), DigitValue(c));
      var r := DigitsOf(t);
      assert r == [DigitValue(c)] + DigitsOf(init);
      assert r[1..] == DigitsOf(init);
    }
  }

  /** A numeral has no white space to trim. */
  lemma NumeralIsTrimmed(s: string)
    requires AllDecimalDigits(s)
    ensures Trim(s) == s
  {
    assert s != [] ==> !IsWhitespace(s[0]) && !IsWhitespace(s[|s| - 1]);
  }

  /** `format!` writes the number back: the numeral denotes `n` and has no leading zero. */
  lemma {:induction false} DecimalStringValue(n: nat)
    ensures DecimalValue(DecimalString(n)) == n
    ensures n > 0 ==> DecimalString(n)[0] != '0'
  {
    var s := DecimalString(n);
    if n >= 10 {
      DecimalStringValue(n / 10);
      assert s[..|s| - 1] == DecimalString(n / 10);
      assert s[0] == DecimalString(n / 10)[0];
    }
  }

  /** Parsing the numeral of `n` stores the canonical digits of `n`; zero stores one zero. */
  lemma {:induction false} OfDigits(n: nat)
    ensures DigitsOf(DecimalString(n)) == if n == 0 then [0] else FromNat(n)
    ensures SigLen(DigitsOf(DecimalString(n))) == if n == 0 then 0 else |DecimalString(n)|
  {
    var s := DecimalString(n);
    if n < 10 {
      assert DigitValues(s) == [n];
      assert Reversed([n]) == [n];
      if n > 0 {
        assert FromNat(n) == [n % 10] + FromNat(n / 10);
      }
    } else {
      var init := DecimalString(n / 10);
      OfDigits(n / 10);
      DigitValuesSnoc(init, DigitChar(n % 10));
      ReversedSnoc(DigitValues(init), n % 10);
      assert DigitsOf(s) == [n % 10] + FromNat(n / 10);
      FromNatCanonical(n);
    }
  }

  /** For positive `n` the canonical digits end in a nonzero digit, so all of them are significant. */
  lemma FromNatCanonical(n: nat)
    requires n > 0
    ensures SigLen(FromNat(n)) == |FromNat(n)|
  {
  }

  /** Writing a digit sequence whose first (lowest) digit is `x` puts `x` last. */
  lemma {:induction false} RenderDigitsCons(x: nat, t: seq<nat>)
    ensures RenderDigits([x] + t) == RenderDigits(t) + DecimalString(x)
  {
    var d := [x] + t;
    if t != [] {
      assert d[|d| - 1] == t[|t| - 1];
      assert d[..|d| - 1] == [x] + t[..|t| - 1];
      RenderDigitsCons(x, t[..|t| - 1]);
    } else {
      assert d[..|d| - 1] == [];
    }
  }

  /** Writing the canonical digits of a positive number gives its numeral. */
  lemma {:induction false} RenderFromNat(n: nat)
    requires n > 0
    ensures RenderDigits(FromNat(n)) == DecimalString(n)
  {
    assert FromNat(n) == [n % 10] + FromNat(n / 10);
    RenderDigitsCons(n % 10, FromNat(n / 10));
    if n >= 10 {
      RenderFromNat(n / 10);
    } else {
      assert FromNat(n / 10) == [];
    }
  }

  /** `Display` of `of(n)` is `format!("{}", n)`. */
  lemma RenderOf(n: nat)
    ensures Render(if n == 0 then [0] else FromNat(n)) == DecimalString(n)
  {
    if n > 0 {
      RenderFromNat(n);
      assert !IsZero(FromNat(n));
    }
  }

  /** `write!(f, "{}", digit)` of a single digit is one character. */
  lemma DigitString(v: nat)
    requires v < 10
    ensures DecimalString(v) == [DigitChar(v)]
  {
  }

  /** Reading one more digit at the front of the text adds it at the top of the stored digits. */
  lemma DigitsOfCons(c: char, t: string)
    requires IsDecimalDigit(c) && AllDecimalDigits(t)
    ensures AllDecimalDigits([c] + t) && DigitsOf([c] + t) == DigitsOf(t) + [DigitValue(c)]
  {
    var s := [c] + t;
    assert AllDecimalDigits(s) by {
      forall i | 0 <= i < |s| ensures IsDecimalDigit(s[i]) {
        if i > 0 { assert s[i] == t[i - 1]; }
      }
    }
    var vs := DigitValues(s);
    assert vs[0] == DigitValue(c);
    assert vs[1..] == DigitValues(t) by {
      forall i | 0 <= i < |t| ensures vs[1..][i] == DigitValues(t)[i] {
        assert s[i + 1] == t[i];
      }
    }
  }

  /** The text written for valid digits is a numeral whose parse is the digits themselves. */
  lemma {:induction false} RenderDigitsParse(d: seq<nat>)
    requires ValidDigits(d)
    ensures AllDecimalDigits(RenderDigits(d)) && DigitsOf(RenderDigits(d)) == d
  {
    if d != [] {
      var init, top := d[..|d| - 1], d[|d| - 1];
      RenderDigitsParse(init);
      DigitString(top);
      assert RenderDigits(d) == [DigitChar(top)] + RenderDigits(init);
      DigitsOfCons(DigitChar(top), RenderDigits(init));
      assert d == init + [top];
    }
  }

  /**
   * The text `Display` writes parses back: to the very digits stored
   * (stored high zeros included) for a nonzero value, and to zero otherwise.
   */
  lemma RenderParses(d: seq<nat>)
    requires ValidDigits(d)
    ensures AllDecimalDigits(Render(d)) && Trim(Render(d)) == Render(d)
    ensures DigitsOf(Render(d)) == if IsZero(d) then [0] else d
    ensures Val(DigitsOf(Render(d))) == Val(d)
  {
    var t := Render(d);
    if IsZero(d) {
      assert t == "0";
      ZeroParses();
      IsZeroIffZero(d);
    } else {
      assert t == RenderDigits(d);
      RenderDigitsParse(d);
    }
    NumeralIsTrimmed(t);
  }

  /** The text "0" parses to a single zero digit. */
  lemma ZeroParses()
    ensures AllDecimalDigits("0") && DigitsOf("0") == [0] && Val([0]) == 0
  {
    assert DigitValues("0") == [0];
    assert Reversed([0]) == [0];
  }
}
