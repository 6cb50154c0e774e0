/**
 * How the two `parseTimeString` classifiers read the clock tokens the feed carries:
 * `ss.ff` seconds and `m:ss.ff` minutes and seconds, and the `--:--.-` placeholder.
 */
module ClockReadings {
  import opened Wrappers
  import opened JsText
  import opened JsNumbers
  import opened TimeStrings

  /** Every character of a clock reading is a digit, a colon or a point. */
  predicate ClockChars(s: string) {
    forall i :: 0 <= i < |s| ==> IsDigit(s[i]) || s[i] == ':' || s[i] == '.'
  }

  lemma ClockCharsConcat(a: string, b: string)
    requires ClockChars(a) && ClockChars(b)
    ensures ClockChars(a + b)
  {
    forall i | 0 <= i < |a + b|
      ensures IsDigit((a + b)[i]) || (a + b)[i] == ':' || (a + b)[i] == '.'
    {
      if i < |a| { assert (a + b)[i] == a[i]; } else { assert (a + b)[i] == b[i - |a|]; }
    }
  }

  /** A clock reading that starts with a digit is neither a status, "on course", nor `--`. */
  lemma ClockIsPlainNumber(s: string)
    requires s != [] && IsDigit(s[0]) && ClockChars(s)
    ensures !StartsWith(s, "DNS") && !StartsWith(s, "DNF") && !StartsWith(s, "DSQ")
    ensures !MentionsOnCourse(s) && !Contains(s, "--")
  {
    var low := ToLower(s);
    assert forall i :: 0 <= i < |low| ==> low[i] == s[i];
    AbsentFirstChar(low, "on course");
    AbsentFirstChar(s, "--");
  }

  /** Digits, a point and digits: how the feed writes seconds. */
  lemma SecondsShape(sec: string, frac: string)
    requires sec != [] && AllDigits(sec) && AllDigits(frac)
    ensures ClockChars(sec + "." + frac) && !Contains(sec + "." + frac, ":")
  {
    ClockCharsConcat(sec, ".");
    ClockCharsConcat(sec + ".", frac);
    var s := sec + "." + frac;
    assert forall i :: 0 <= i < |s| ==> s[i] != ':' by {
      forall i | 0 <= i < |s| ensures s[i] != ':' {
        if i < |sec| { assert s[i] == sec[i]; }
        else if i > |sec| { assert s[i] == frac[i - |sec| - 1]; }
      }
    }
    AbsentFirstChar(s, ":");
  }

  /** A token that is none of the status forms is classified by its numeric reading alone. */
  lemma NumericToken(s: string)
    requires s != [] && IsDigit(s[0]) && ClockChars(s) && ClockValue(s).Finite?
    ensures ParseTimeDirect(s) == TimeResult(Num(ClockValue(s)), "")
    ensures ParseTimeFallback(s) == ParseTimeDirect(s)
  {
    ClockIsPlainNumber(s);
  }

  /** The same, for a reading already known. */
  lemma NumericTokenValue(s: string, v: Number)
    requires s != [] && IsDigit(s[0]) && ClockChars(s) && ClockValue(s) == v && v.Finite?
    ensures ParseTimeDirect(s) == TimeResult(Num(v), "")
    ensures ParseTimeFallback(s) == ParseTimeDirect(s)
  {
    NumericToken(s);
  }

  /** Without a colon, the reading is `parseFloat(token) * 1000`. */
  lemma SecondsValue(s: string, v: real)
    requires !Contains(s, ":") && ParseFloat(s) == Some(v)
    ensures ClockValue(s) == Finite(v * 1000.0)
  {
  }

  /** With a colon, the reading is `(parseInt(minutes) * 60 + parseFloat(seconds)) * 1000`. */
  lemma MinutesSecondsValue(s: string, mv: int, v: real)
    requires Contains(s, ":")
    requires ParseInt(Split(s, ":")[0]) == Some(mv) && ParseFloat(Split(s, ":")[1]) == Some(v)
    ensures ClockValue(s) == Finite((mv as real * 60.0 + v) * 1000.0)
  {
    ClockArithmetic(s, mv, v);
    assert Times(Plus(Times(OfIntParse(Some(mv)), 60.0), OfParse(Some(v))), 1000.0)
        == Finite((mv as real * 60.0 + v) * 1000.0);
  }

  /** An unfolding step: `ClockValue`'s colon branch with the two parses substituted. */
  lemma ClockArithmetic(s: string, mv: int, v: real)
    requires Contains(s, ":")
    requires ParseInt(Split(s, ":")[0]) == Some(mv) && ParseFloat(Split(s, ":")[1]) == Some(v)
    ensures ClockValue(s) == Times(Plus(Times(OfIntParse(Some(mv)), 60.0), OfParse(Some(v))), 1000.0)
  {
  }

  lemma SecondsClockValue(sec: string, frac: string)
    requires sec != [] && AllDigits(sec) && AllDigits(frac)
    ensures ClockValue(sec + "." + frac) == Finite(DecimalValue(sec, frac, 0) * 1000.0)
  {
    var s := sec + "." + frac;
    assert !Contains(s, ":") && ParseFloat(s) == Some(DecimalValue(sec, frac, 0)) by {
      SecondsShape(sec, frac);
      ParseFloatDecimal(sec, frac);
    }
    SecondsValue(s, DecimalValue(sec, frac, 0));
  }

  /** A seconds token `ss.ff` reads as that many seconds, in milliseconds, in both dialects. */
  lemma SecondsReading(sec: string, frac: string)
    requires sec != [] && AllDigits(sec) && AllDigits(frac)
    ensures ParseTimeDirect(sec + "." + frac)
         == TimeResult(Num(Finite(DecimalValue(sec, frac, 0) * 1000.0)), "")
    ensures ParseTimeFallback(sec + "." + frac) == ParseTimeDirect(sec + "." + frac)
  {
    var s := sec + "." + frac;
    SecondsShape(sec, frac);
    SecondsClockValue(sec, frac);
    assert s[0] == sec[0];
    NumericToken(s);
  }

  /** In `m:rest`, with digits for `m` and no colon in `rest`, the colon splits off the minutes. */
  lemma ClockSplit(m: string, rest: string)
    requires m != [] && AllDigits(m) && !Contains(rest, ":")
    ensures Contains(m + ":" + rest, ":")
    ensures Split(m + ":" + rest, ":")[0] == m && Split(m + ":" + rest, ":")[1] == rest
  {
    var s := m + ":" + rest;
    assert OccursAt(s, ":", |m|);
    var i := IndexOf(s, ":");
    assert forall j :: 0 <= j < |m| ==> !OccursAt(s, ":", j) by {
      forall j | 0 <= j < |m| ensures !OccursAt(s, ":", j) {
        assert s[j..j + 1][0] == s[j] == m[j];
      }
    }
    assert i == |m|;
    assert s[..i] == m && s[i + 1..] == rest;
  }

  /** The two halves of a clock token `m:ss.ff` parse as its minutes and its seconds. */
  lemma ClockParts(m: string, sec: string, frac: string)
    requires m != [] && AllDigits(m) && sec != [] && AllDigits(sec) && AllDigits(frac)
    ensures Contains(m + ":" + sec + "." + frac, ":")
    ensures ParseInt(Split(m + ":" + sec + "." + frac, ":")[0]) == Some(DigitsValue(m) as int)
    ensures ParseFloat(Split(m + ":" + sec + "." + frac, ":")[1]) == Some(DecimalValue(sec, frac, 0))
  {
    var rest := sec + "." + frac;
    assert m + ":" + sec + "." + frac == m + ":" + rest;
    SecondsShape(sec, frac);
    ClockSplit(m, rest);
    assert ParseInt(m) == Some(DigitsValue(m) as int) by {
      ParseIntDigits(m, []);
      assert m + [] == m;
    }
    ParseFloatDecimal(sec, frac);
  }

  /** A clock token `m:ss.ff` has the numeric reading `(m * 60 + ss.ff) * 1000`. */
  lemma ClockValueOf(m: string, sec: string, frac: string)
    requires m != [] && AllDigits(m) && sec != [] && AllDigits(sec) && AllDigits(frac)
    ensures ClockValue(m + ":" + sec + "." + frac)
         == Finite((DigitsValue(m) as real * 60.0 + DecimalValue(sec, frac, 0)) * 1000.0)
  {
    ClockParts(m, sec, frac);
    MinutesSecondsValue(m + ":" + sec + "." + frac, DigitsValue(m), DecimalValue(sec, frac, 0));
  }

  /** A clock token `m:ss.ff` reads as `(m * 60 + ss.ff) * 1000` milliseconds, in both dialects. */
  lemma ClockReading(m: string, sec: string, frac: string)
    requires m != [] && AllDigits(m) && sec != [] && AllDigits(sec) && AllDigits(frac)
    ensures ParseTimeDirect(m + ":" + sec + "." + frac)
         == TimeResult(Num(Finite((DigitsValue(m) as real * 60.0 + DecimalValue(sec, frac, 0)) * 1000.0)), "")
    ensures ParseTimeFallback(m + ":" + sec + "." + frac) == ParseTimeDirect(m + ":" + sec + "." + frac)
  {
    var s := m + ":" + sec + "." + frac;
    var v := Finite((DigitsValue(m) as real * 60.0 + DecimalValue(sec, frac, 0)) * 1000.0);
    ClockTokenChars(m, sec, frac);
    ClockValueOf(m, sec, frac);
    assert s != [] && IsDigit(s[0]);
    NumericTokenValue(s, v);
  }

  /** A clock token is made of clock characters and starts with its first minute digit. */
  lemma ClockTokenChars(m: string, sec: string, frac: string)
    requires m != [] && AllDigits(m) && sec != [] && AllDigits(sec) && AllDigits(frac)
    ensures ClockChars(m + ":" + sec + "." + frac) && (m + ":" + sec + "." + frac)[0] == m[0]
  {
    var rest := sec + "." + frac;
    assert m + ":" + sec + "." + frac == m + ":" + rest;
    SecondsShape(sec, frac);
    ClockCharsConcat(m, ":");
    ClockCharsConcat(m + ":", rest);
  }

  /** The placeholder "--:--.-" is DNS for the direct decoder but a `NaN` time for the fallback one. */
  lemma ExamplePlaceholder()
    ensures ParseTimeDirect("--:--.-") == TimeResult(Null, "DNS")
    ensures ParseTimeFallback("--:--.-") == TimeResult(Num(NaN), "")
  {
    var s := "--:--.-";
    var low := ToLower(s);
    assert forall i :: 0 <= i < |low| ==> low[i] == s[i];
    AbsentFirstChar(low, "on course");
    assert OccursAt(s, "--", 0);
    assert OccursAt(s, ":", 2);
    var i := IndexOf(s, ":");
    assert !OccursAt(s, ":", 0) && !OccursAt(s, ":", 1) by {
      assert s[0..1] == "-" && s[1..2] == "-";
    }
    assert i == 2;
    assert s[..2] == "--";
    assert ParseInt("--") == None by {
      assert TrimStart("--") == "--";
      assert Unsigned("--") == "-";
    }
  }
}
