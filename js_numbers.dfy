/**
 * JavaScript number parsing and printing as the decoders use it: `Number.parseInt(s, 10)`,
 * `Number.parseFloat(s)`, the decimal text of an integer, and the `NaN` that a failed
 * parse carries through arithmetic. Values are exact: a parsed decimal is a `real`.
 */
module JsNumbers {
  import opened Wrappers
  import opened JsText

  /** A JavaScript number as the decoders see it: a finite value or `NaN`. */
  datatype Number = Finite(v: real) | NaN

  /** `a + b`: `NaN` absorbs. */
  function Plus(a: Number, b: Number): (r: Number)
    ensures r.Finite? <==> a.Finite? && b.Finite?
  {
    if a.Finite? && b.Finite? then Finite(a.v + b.v) else NaN
  }

  /** `a * k` for a constant factor. */
  function Times(a: Number, k: real): (r: Number)
    ensures r.Finite? <==> a.Finite?
  {
    if a.Finite? then Finite(a.v * k) else NaN
  }

  /** The number a parse yields: its value, or `NaN` when it failed. */
  function OfParse(p: Option<real>): (r: Number)
    ensures r.Finite? <==> p.Some?
  {
    if p.Some? then Finite(p.value) else NaN
  }

  function OfIntParse(p: Option<int>): (r: Number)
    ensures r.Finite? <==> p.Some?
  {
    if p.Some? then Finite(p.value as real) else NaN
  }

  predicate IsDigit(c: char) {
    '0' <= c <= '9'
  }

  function DigitValue(c: char): (d: nat)
    requires IsDigit(c)
    ensures d < 10
  {
    (c as int) - ('0' as int)
  }

  predicate AllDigits(s: string) {
    forall i :: 0 <= i < |s| ==> IsDigit(s[i])
  }

  /** The value of a string of decimal digits, most significant first. */
  function DigitsValue(s: string): nat
    requires AllDigits(s)
  {
    if s == [] then 0 else DigitsValue(s[..|s| - 1]) * 10 + DigitValue(s[|s| - 1])
  }

  /** The value of the digits after a decimal point: `0.d1d2...`. */
  function FractionValue(s: string): (r: real)
    requires AllDigits(s)
    ensures 0.0 <= r <= 1.0
  {
    if s == [] then 0.0 else (DigitValue(s[0]) as real + FractionValue(s[1..])) / 10.0
  }

  /** `x * 10^e` for a signed exponent. */
  function ScaleBy10(x: real, e: int): (r: real)
    ensures x >= 0.0 ==> r >= 0.0
    decreases if e < 0 then -e else e
  {
    if e == 0 then x
    else if e > 0 then ScaleBy10(x, e - 1) * 10.0
    else ScaleBy10(x, e + 1) / 10.0
  }

  /** The longest run of decimal digits at the start of `s`. */
  function DigitRun(s: string): (r: string)
    ensures |r| <= |s| && AllDigits(r)
    ensures |r| < |s| ==> !IsDigit(s[|r|])
    ensures r != [] <==> |s| > 0 && IsDigit(s[0])
  {
    if |s| > 0 && IsDigit(s[0]) then [s[0]] + DigitRun(s[1..]) else []
  }

  /** The run is a prefix of the text. */
  lemma {:induction false} DigitRunPrefix(s: string)
    ensures DigitRun(s) == s[..|DigitRun(s)|]
  {
    if |s| > 0 && IsDigit(s[0]) {
      DigitRunPrefix(s[1..]);
    }
  }

  /** The text after an optional leading `+` or `-`. */
  function Unsigned(s: string): string {
    if |s| > 0 && (s[0] == '+' || s[0] == '-') then s[1..] else s
  }

  predicate IsNegative(s: string) {
    |s| > 0 && s[0] == '-'
  }

  /**
   * `Number.parseInt(s, 10)`: leading white space, an optional sign, then the longest run of
   * digits; `None` stands for `NaN` (no digit at all).
   */
  function ParseInt(s: string): (r: Option<int>)
    ensures var u := Unsigned(TrimStart(s)); r.Some? <==> u != [] && IsDigit(u[0])
    ensures r.Some? && r.value < 0 ==> IsNegative(TrimStart(s))
  {
    var t := TrimStart(s);
    var z := DigitRun(Unsigned(t));
    if z == [] then None
    else if IsNegative(t) then Some(-(DigitsValue(z) as int))
    else Some(DigitsValue(z))
  }

  /** The exponent of a decimal literal's `e`/`E` part at the start of `s`; 0 when there is none. */
  function ExponentOf(s: string): int {
    if |s| >= 2 && (s[0] == 'e' || s[0] == 'E') then
      var ed := DigitRun(Unsigned(s[1..]));
      if ed == [] then 0
      else if s[1] == '-' then -(DigitsValue(ed) as int)
      else DigitsValue(ed)
    else 0
  }

  /** The digits after a leading `.` of `rest`; empty when `rest` does not start with `.`. */
  function FractionDigits(rest: string): (r: string)
    ensures AllDigits(r)
  {
    if |rest| > 0 && rest[0] == '.' then DigitRun(rest[1..]) else []
  }

  /** What follows the fraction part of `rest`. */
  function AfterFraction(rest: string): string {
    if |rest| > 0 && rest[0] == '.' then rest[1 + |DigitRun(rest[1..])|..] else rest
  }

  /** The exact value of `whole.frac` times `10^e`. */
  function DecimalValue(whole: string, frac: string, e: int): real
    requires AllDigits(whole) && AllDigits(frac)
  {
    ScaleBy10(DigitsValue(whole) as real + FractionValue(frac), e)
  }

  /**
   * `Number.parseFloat(s)`: leading white space, an optional sign, then the longest prefix of the
   * form digits[.digits][e[sign]digits] or .digits[e[sign]digits]; `None` stands for `NaN`.
   */
  function ParseFloat(s: string): (r: Option<real>)
    ensures var u := Unsigned(TrimStart(s));
      r.Some? <==> u != [] && (IsDigit(u[0]) || (u[0] == '.' && |u| > 1 && IsDigit(u[1])))
    ensures r.Some? && r.value < 0.0 ==> IsNegative(TrimStart(s))
  {
    var t := TrimStart(s);
    var u := Unsigned(t);
    var whole := DigitRun(u);
    var rest := u[|whole|..];
    var frac := FractionDigits(rest);
    if whole == [] && frac == [] then None
    else
      var magnitude := DecimalValue(whole, frac, ExponentOf(AfterFraction(rest)));
      Some(if IsNegative(t) then -magnitude else magnitude)
  }

  function DigitChar(d: nat): (c: char)
    requires d < 10
    ensures IsDigit(c) && DigitValue(c) == d
  {
    ('0' as int + d) as char
  }

  /** The decimal text of a natural number, as `String(n)` prints it. */
  function NatToString(n: nat): (r: string)
    ensures r != [] && AllDigits(r)
  {
    if n < 10 then [DigitChar(n)] else NatToString(n / 10) + [DigitChar(n % 10)]
  }

  /** The decimal text of an integer, as a template literal `${n}` prints it. */
  function IntToString(n: int): string {
    if n < 0 then "-" + NatToString(-n) else NatToString(n)
  }

  lemma {:induction false} NatToStringValue(n: nat)
    ensures DigitsValue(NatToString(n)) == n
  {
    if n >= 10 {
      NatToStringValue(n / 10);
      var s := NatToString(n);
      assert s[..|s| - 1] == NatToString(n / 10);
    }
  }

  /** A digit is never white space, so trimming leaves a digit string alone. */
  lemma TrimStartKeepsDigitLead(s: string)
    requires s != [] && (IsDigit(s[0]) || s[0] == '-' || s[0] == '.')
    ensures TrimStart(s) == s
  {
  }

  lemma {:induction false} DigitRunOf(a: string, rest: string)
    requires AllDigits(a)
    requires rest == [] || !IsDigit(rest[0])
    ensures DigitRun(a + rest) == a
    decreases |a|
  {
    if a != [] {
      DigitRunOf(a[1..], rest);
      assert (a + rest)[1..] == a[1..] + rest;
    }
  }

  /** `parseInt` reads a digit string up to the first non-digit. */
  lemma ParseIntDigits(a: string, rest: string)
    requires a != [] && AllDigits(a)
    requires rest == [] || !IsDigit(rest[0])
    ensures ParseInt(a + rest) == Some(DigitsValue(a) as int)
  {
    var s := a + rest;
    TrimStartKeepsDigitLead(s);
    assert s[0] == a[0];
    assert Unsigned(s) == s;
    DigitRunOf(a, rest);
    assert !IsNegative(s);
  }

  /** The decimal text of an integer has no white space at either end. */
  lemma TrimIntText(n: int)
    ensures Trim(IntToString(n)) == IntToString(n)
  {
    var x := IntToString(n);
    var m := if n < 0 then -n else n;
    var y := NatToString(m);
    assert x[|x| - 1] == y[|y| - 1];
    TrimStartKeepsDigitLead(x);
  }

  /** `parseInt` reads back the decimal text of every integer. */
  lemma ParseIntRoundTrip(n: int)
    ensures ParseInt(IntToString(n)) == Some(n)
  {
    var m := if n < 0 then -n else n;
    NatToStringValue(m);
    if n < 0 {
      TrimStartKeepsDigitLead(IntToString(n));
      assert Unsigned(IntToString(n)) == NatToString(m);
      DigitRunOf(NatToString(m), []);
      assert NatToString(m) + [] == NatToString(m);
    } else {
      ParseIntDigits(NatToString(m), []);
      assert NatToString(m) + [] == NatToString(m);
    }
  }

  lemma DecimalValueWhole(a: string)
    requires AllDigits(a)
    ensures DecimalValue(a, [], 0) == DigitsValue(a) as real
  {
  }

  /** `parseFloat` of a plain digit string is its integer value. */
  lemma ParseFloatDigits(a: string)
    requires a != [] && AllDigits(a)
    ensures ParseFloat(a) == Some(DigitsValue(a) as real)
  {
    ParseFloatDigitsAsDecimal(a);
    DecimalValueWhole(a);
  }

  lemma ParseFloatDigitsAsDecimal(a: string)
    requires a != [] && AllDigits(a)
    ensures ParseFloat(a) == Some(DecimalValue(a, [], 0))
  {
    TrimStartKeepsDigitLead(a);
    assert Unsigned(a) == a;
    DigitRunOf(a, []);
    assert a + [] == a;
    assert a[|a|..] == [];
    assert FractionDigits([]) == [] && AfterFraction([]) == [];
  }

  /** `parseFloat` of `whole.frac` is the exact decimal fraction. */
  lemma ParseFloatDecimal(whole: string, frac: string)
    requires whole != [] && AllDigits(whole) && AllDigits(frac)
    ensures ParseFloat(whole + "." + frac) == Some(DecimalValue(whole, frac, 0))
  {
    var s := whole + "." + frac;
    TrimStartKeepsDigitLead(s);
    assert Unsigned(s) == s;
    DigitRunOf(whole, "." + frac);
    assert s == whole + ("." + frac);
    var rest := s[|whole|..];
    assert rest == "." + frac;
    DigitRunOf(frac, []);
    assert rest[1..] == frac + [];
    assert FractionDigits(rest) == frac;
    assert AfterFraction(rest) == [];
  }
}
