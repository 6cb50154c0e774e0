/**
 * The two `parseTimeString` classifiers: how one run-result token becomes a run time
 * (null, "on course" or a number of milliseconds) together with a status text.
 * The direct decoder's classifier (utils/direct-parser.ts) adds a `--` rule and turns a
 * failed numeric parse into DNS; the fallback decoder's (utils/fallback-parser.ts) does neither.
 */
module TimeStrings {
  import opened Wrappers
  import opened JsText
  import opened JsNumbers

  /** A run slot's time: `null`, the string "on course", or a number (which may be `NaN`). */
  datatype RunTime = Null | OnCourse | Num(n: Number)

  /** What `parseTimeString` returns: `{ time, status }`. */
  datatype TimeResult = TimeResult(time: RunTime, status: string)

  /**
   * The numeric reading of a token, in milliseconds: with a colon,
   * `(parseInt(minutes) * 60 + parseFloat(seconds)) * 1000` over the first two colon-separated
   * pieces; otherwise `parseFloat(token) * 1000`.
   */
  function ClockValue(s: string): Number {
    if Contains(s, ":") then
      var parts := Split(s, ":");
      Times(Plus(Times(OfIntParse(ParseInt(parts[0])), 60.0), OfParse(ParseFloat(parts[1]))), 1000.0)
    else
      Times(OfParse(ParseFloat(s)), 1000.0)
  }

  /**
   * The reading is finite exactly when its parts parse: with a colon, the minutes with
   * `parseInt` and the seconds with `parseFloat`; without one, the whole token with `parseFloat`.
   */
  lemma ClockValueFinite(s: string)
    ensures Contains(s, ":") ==>
      (ClockValue(s).Finite? <==> ParseInt(Split(s, ":")[0]).Some? && ParseFloat(Split(s, ":")[1]).Some?)
    ensures !Contains(s, ":") ==> (ClockValue(s).Finite? <==> ParseFloat(s).Some?)
  {
  }

  /** `timeStr.toLowerCase().includes('on course')`. */
  predicate MentionsOnCourse(s: string) {
    Contains(ToLower(s), "on course")
  }

  /** The words "on course", each letter in either case, start at position `j` of `s`. */
  predicate OnCourseAt(s: string, j: int) {
    0 <= j && j + 9 <= |s| && forall k :: 0 <= k < 9 ==> SameIgnoringCase(s[j + k], "on course"[k])
  }

  lemma OnCourseAtLower(s: string, j: int)
    ensures OccursAt(ToLower(s), "on course", j) <==> OnCourseAt(s, j)
  {
    if 0 <= j && j + 9 <= |s| {
      var l := ToLower(s);
      var t := "on course";
      forall k | 0 <= k < 9 ensures l[j..j + 9][k] == t[k] <==> SameIgnoringCase(s[j + k], t[k]) {
        LowerCharMatches(s[j + k], t[k]);
      }
      if !OnCourseAt(s, j) {
        var k :| 0 <= k < 9 && !SameIgnoringCase(s[j + k], t[k]);
        assert l[j..j + 9][k] != t[k];
      }
    }
  }

  /** A token mentions "on course" exactly when it holds those words in any mix of letter case. */
  lemma OnCourseAnyCase(s: string)
    ensures MentionsOnCourse(s) <==> exists j :: OnCourseAt(s, j)
  {
    var i := IndexOf(ToLower(s), "on course");
    if i >= 0 {
      OnCourseAtLower(s, i);
    } else {
      forall j ensures !OnCourseAt(s, j) {
        OnCourseAtLower(s, j);
      }
    }
  }

  /** The token starts with one of the three status codes. */
  predicate StatusPrefixed(s: string) {
    StartsWith(s, "DNS") || StartsWith(s, "DNF") || StartsWith(s, "DSQ")
  }

  /** `parseTimeString` of the direct decoder. */
  function ParseTimeDirect(s: string): (r: TimeResult)
    ensures r.time.Num? ==> r.time.n.Finite? && r.status == ""
    ensures r.time.OnCourse? <==> r.status == "on course"
    ensures r.time.Null? ==> r.status in {"", "DNS", "DNF", "DSQ"}
    ensures r.time.Null? && r.status == "" <==> s == ""
  {
    if s == "" then TimeResult(Null, "")
    else if StartsWith(s, "DNS") then TimeResult(Null, "DNS")
    else if StartsWith(s, "DNF") then TimeResult(Null, "DNF")
    else if StartsWith(s, "DSQ") then TimeResult(Null, "DSQ")
    else if MentionsOnCourse(s) then TimeResult(OnCourse, "on course")
    else if Contains(s, "--") then TimeResult(Null, "DNS")
    else
      var parsed := ClockValue(s);
      if parsed.NaN? then TimeResult(Null, "DNS") else TimeResult(Num(parsed), "")
  }

  /** `parseTimeString` of the fallback decoder: no `--` rule and no `NaN` check. */
  function ParseTimeFallback(s: string): (r: TimeResult)
    ensures r.time.Num? ==> r.status == ""
    ensures r.time.OnCourse? <==> r.status == "on course"
    ensures r.time.Null? ==> r.status in {"", "DNS", "DNF", "DSQ"}
    ensures r.time.Null? && r.status == "" <==> s == ""
  {
    if s == "" then TimeResult(Null, "")
    else if StartsWith(s, "DNS") then TimeResult(Null, "DNS")
    else if StartsWith(s, "DNF") then TimeResult(Null, "DNF")
    else if StartsWith(s, "DSQ") then TimeResult(Null, "DSQ")
    else if MentionsOnCourse(s) then TimeResult(OnCourse, "on course")
    else TimeResult(Num(ClockValue(s)), "")
  }

  /**
   * The direct classifier's rules: a status prefix gives a null time with that status; "on
   * course" is recognised exactly when there is no prefix; DNS is the status exactly for a DNS
   * prefix, or for a non-empty token with no prefix and no "on course" that contains `--` or
   * reads as `NaN`; otherwise the time is the finite reading with an empty status.
   */
  lemma DirectRules(s: string)
    ensures var r := ParseTimeDirect(s);
      && (StartsWith(s, "DNS") ==> r == TimeResult(Null, "DNS"))
      && (StartsWith(s, "DNF") ==> r == TimeResult(Null, "DNF"))
      && (StartsWith(s, "DSQ") ==> r == TimeResult(Null, "DSQ"))
      && (r.time.OnCourse? <==> !StatusPrefixed(s) && MentionsOnCourse(s))
      && (r.status == "DNS" <==>
           StartsWith(s, "DNS") ||
           (s != "" && !StatusPrefixed(s) && !MentionsOnCourse(s) && (Contains(s, "--") || ClockValue(s).NaN?)))
      && (r.time.Num? <==>
           s != "" && !StatusPrefixed(s) && !MentionsOnCourse(s) && !Contains(s, "--") && ClockValue(s).Finite?)
      && (r.time.Num? ==> r == TimeResult(Num(ClockValue(s)), ""))
  {
  }

  /**
   * The fallback classifier's rules: the same prefix and "on course" rules; every other
   * non-empty token gives its reading as a number, `NaN` included, with an empty status.
   */
  lemma FallbackRules(s: string)
    ensures var r := ParseTimeFallback(s);
      && (StartsWith(s, "DNS") ==> r == TimeResult(Null, "DNS"))
      && (StartsWith(s, "DNF") ==> r == TimeResult(Null, "DNF"))
      && (StartsWith(s, "DSQ") ==> r == TimeResult(Null, "DSQ"))
      && (r.time.OnCourse? <==> !StatusPrefixed(s) && MentionsOnCourse(s))
      && (r.time.Num? <==> s != "" && !StatusPrefixed(s) && !MentionsOnCourse(s))
      && (r.time.Num? ==> r == TimeResult(Num(ClockValue(s)), ""))
  {
  }

  /**
   * The two classifiers agree except where the fallback one yields a number and either the token
   * contains `--` or the number is `NaN`: there the direct one yields null time and DNS.
   */
  lemma DirectHardensFallback(s: string)
    ensures ParseTimeDirect(s)
         == (var f := ParseTimeFallback(s);
             if f.time.Num? && (Contains(s, "--") || f.time.n.NaN?) then TimeResult(Null, "DNS") else f)
  {
  }
}
