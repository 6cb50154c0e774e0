/**
 * The JavaScript string operations the feed decoders rely on, stated over `seq<char>`:
 * `startsWith`, `indexOf`/`includes`, `split` and `join` with a string separator,
 * `substring(n)`, `replace` of the first occurrence, `trim` and `toLowerCase`.
 */
module JsText {

  /** The WhiteSpace and LineTerminator code points that `String.prototype.trim` removes. */
  predicate IsWhitespace(c: char) {
    if c < '\U{A0}' then
      c == ' ' || ('\t' <= c <= '\r')  // tab, line feed, vertical tab, form feed, carriage return
    else
      || c == '\U{A0}' || c == '\U{1680}' || ('\U{2000}' <= c <= '\U{200A}')
      || c == '\U{2028}' || c == '\U{2029}' || c == '\U{202F}' || c == '\U{205F}'
      || c == '\U{3000}' || c == '\U{FEFF}'
  }

  predicate StartsWith(s: string, prefix: string) {
    prefix <= s
  }

  /** `t` occurs in `s` at position `i`. */
  predicate OccursAt(s: string, t: string, i: int) {
    0 <= i && i + |t| <= |s| && s[i..i + |t|] == t
  }

  /** `s.indexOf(t, k)`: the first position at or after `k` where `t` occurs, or -1. */
  function IndexFrom(s: string, t: string, k: nat): (r: int)
    requires k <= |s|
    decreases |s| - k
    ensures r == -1 || (k <= r && OccursAt(s, t, r))
    ensures forall j :: k <= j && (r == -1 || j < r) ==> !OccursAt(s, t, j)
  {
    if k + |t| > |s| then -1
    else if s[k..k + |t|] == t then k
    else IndexFrom(s, t, k + 1)
  }

  /** `s.indexOf(t)`. */
  function IndexOf(s: string, t: string): (r: int)
    ensures r == -1 || OccursAt(s, t, r)
    ensures forall j :: 0 <= j && (r == -1 || j < r) ==> !OccursAt(s, t, j)
  {
    IndexFrom(s, t, 0)
  }

  /** `s.includes(t)`. */
  predicate Contains(s: string, t: string) {
    IndexOf(s, t) >= 0
  }

  /** `s.substring(n)` for a non-negative `n`: empty once `n` passes the end. */
  function Drop(s: string, n: nat): string {
    if n <= |s| then s[n..] else ""
  }

  /** `s.split(sep)` for a non-empty separator. */
  function Split(s: string, sep: string): (r: seq<string>)
    requires sep != []
    decreases |s|
    ensures |r| >= 1
    ensures IndexOf(s, sep) < 0 ==> r == [s]
    ensures IndexOf(s, sep) >= 0 ==> |r| >= 2 && r[0] == s[..IndexOf(s, sep)]
  {
    var i := IndexOf(s, sep);
    if i < 0 then [s] else [s[..i]] + Split(s[i + |sep|..], sep)
  }

  /** No piece of a split contains the separator. */
  lemma {:induction false} SplitPiecesFree(s: string, sep: string)
    requires sep != []
    ensures forall k :: 0 <= k < |Split(s, sep)| ==> !Contains(Split(s, sep)[k], sep)
    decreases |s|
  {
    var i := IndexOf(s, sep);
    if i >= 0 {
      NoOccurrenceBefore(s, sep, i);
      SplitPiecesFree(s[i + |sep|..], sep);
    }
  }

  /** Nothing found before the first occurrence also means nothing occurs inside the prefix. */
  lemma NoOccurrenceBefore(s: string, t: string, i: int)
    requires t != [] && 0 <= i <= |s|
    requires forall j :: 0 <= j < i ==> !OccursAt(s, t, j)
    ensures !Contains(s[..i], t)
  {
    var p := s[..i];
    forall j | 0 <= j && j + |t| <= |p| ensures !OccursAt(p, t, j) {
      assert !OccursAt(s, t, j);
      assert p[j..j + |t|] == s[j..j + |t|];
    }
  }

  /** `parts.join(sep)`. */
  function Join(parts: seq<string>, sep: string): string {
    if |parts| == 0 then ""
    else if |parts| == 1 then parts[0]
    else parts[0] + sep + Join(parts[1..], sep)
  }

  /** Splitting and joining again with the same separator gives back the text. */
  lemma {:induction false} JoinSplit(s: string, sep: string)
    requires sep != []
    ensures Join(Split(s, sep), sep) == s
    decreases |s|
  {
    var i := IndexOf(s, sep);
    if i >= 0 {
      var rest := s[i + |sep|..];
      var parts := Split(rest, sep);
      assert Split(s, sep) == [s[..i]] + parts;
      JoinCons(s[..i], parts, sep);
      JoinSplit(rest, sep);
      assert Join(Split(s, sep), sep) == s[..i] + sep + rest;
      RejoinAt(s, sep, i);
    } else {
      assert Split(s, sep) == [s];
    }
  }

  /** Cutting a text around an occurrence and gluing the pieces back gives the text. */
  lemma RejoinAt(s: string, t: string, i: int)
    requires OccursAt(s, t, i)
    ensures s[..i] + t + s[i + |t|..] == s
  {
    assert s == s[..i] + s[i..i + |t|] + s[i + |t|..];
  }

  lemma JoinCons(p: string, rest: seq<string>, sep: string)
    requires |rest| >= 1
    ensures Join([p] + rest, sep) == p + sep + Join(rest, sep)
  {
    assert ([p] + rest)[1..] == rest;
  }

  /** A text found inside `b` is also found inside any text that contains `b`. */
  lemma ContainsWithin(a: string, b: string, c: string, t: string)
    requires Contains(b, t)
    ensures Contains(a + b + c, t)
  {
    var j := IndexOf(b, t);
    var s := a + b + c;
    assert s[|a| + j..|a| + j + |t|] == b[j..j + |t|];
    assert OccursAt(s, t, |a| + j);
  }

  /** A text found in one piece is found in the joined text. */
  lemma {:induction false} ContainsInJoin(parts: seq<string>, sep: string, k: int, t: string)
    requires 0 <= k < |parts| && Contains(parts[k], t)
    ensures Contains(Join(parts, sep), t)
  {
    if |parts| == 1 {
    } else if k == 0 {
      ContainsWithin("", parts[0], sep + Join(parts[1..], sep), t);
      assert "" + parts[0] + (sep + Join(parts[1..], sep)) == Join(parts, sep);
    } else {
      ContainsInJoin(parts[1..], sep, k - 1, t);
      ContainsWithin(parts[0] + sep, Join(parts[1..], sep), "", t);
      assert parts[0] + sep + Join(parts[1..], sep) + "" == Join(parts, sep);
    }
  }

  /** `s.replace(pat, "")` with a string pattern: removes the first occurrence only. */
  function RemoveFirst(s: string, pat: string): (r: string)
    ensures IndexOf(s, pat) < 0 ==> r == s
    ensures IndexOf(s, pat) >= 0 ==>
      var i := IndexOf(s, pat); |r| == |s| - |pat| && r[..i] + pat + r[i..] == s
  {
    var i := IndexOf(s, pat);
    if i < 0 then s
    else
      var r := s[..i] + s[i + |pat|..];
      assert r[..i] == s[..i] && r[i..] == s[i + |pat|..];
      RejoinAt(s, pat, i);
      r
  }

  /** `s.trimStart()`. */
  function TrimStart(s: string): (r: string)
    ensures |r| <= |s|
    ensures forall i :: 0 <= i < |s| - |r| ==> IsWhitespace(s[i])
    ensures r == [] || !IsWhitespace(r[0])
  {
    if |s| > 0 && IsWhitespace(s[0]) then TrimStart(s[1..]) else s
  }

  /** What `trimStart` keeps is the suffix of the text after its leading white space. */
  lemma {:induction false} TrimStartSuffix(s: string)
    ensures TrimStart(s) == s[|s| - |TrimStart(s)|..]
  {
    if |s| > 0 && IsWhitespace(s[0]) {
      TrimStartSuffix(s[1..]);
    }
  }

  /** `s.trimEnd()`: the prefix of the text before its trailing white space. */
  function TrimEnd(s: string): (r: string)
    ensures |r| <= |s| && r == s[..|r|]
    ensures forall i :: |r| <= i < |s| ==> IsWhitespace(s[i])
    ensures r == [] || !IsWhitespace(r[|r| - 1])
  {
    if |s| > 0 && IsWhitespace(s[|s| - 1]) then TrimEnd(s[..|s| - 1]) else s
  }

  /** `s.trim()`: no white space is left at either end. */
  function Trim(s: string): (r: string)
    ensures |r| <= |s|
    ensures r == [] || (!IsWhitespace(r[0]) && !IsWhitespace(r[|r| - 1]))
  {
    TrimEnd(TrimStart(s))
  }

  /**
   * `trim` keeps exactly the text less its leading and trailing white space: one contiguous
   * stretch of the text, everything before and after it is white space, and the stretch
   * neither starts nor ends with white space.
   */
  lemma TrimKeeps(s: string)
    ensures var r := Trim(s);
      && Lead(s) + |r| <= |s| && (forall i :: 0 <= i < |r| ==> r[i] == s[Lead(s) + i])
      && (forall i :: 0 <= i < Lead(s) ==> IsWhitespace(s[i]))
      && (forall i :: Lead(s) + |r| <= i < |s| ==> IsWhitespace(s[i]))
  {
    TrimKept(s);
    TrimDropped(s);
  }

  /** The length of the leading white space. */
  function Lead(s: string): (k: nat)
    ensures k <= |s|
  {
    |s| - |TrimStart(s)|
  }

  /** What trimming both ends keeps is the stretch of the text that starts after the leading white space. */
  lemma TrimKept(s: string)
    ensures var r := TrimEnd(TrimStart(s));
      Lead(s) + |r| <= |s| && forall i :: 0 <= i < |r| ==> r[i] == s[Lead(s) + i]
  {
    var u := TrimStart(s);
    var r := TrimEnd(u);
    var k := |s| - |u|;
    TrimStartSuffix(s);
    assert Lead(s) == k;
    forall i | 0 <= i < |r| ensures r[i] == s[k + i] {
      assert r[i] == u[..|r|][i] == u[i];
      assert u[i] == s[k..][i];
    }
  }

  /**
   * Everything before and after that stretch is white space, and the stretch neither starts
   * nor ends with white space.
   */
  lemma TrimDropped(s: string)
    ensures var r := TrimEnd(TrimStart(s));
      && (forall i :: 0 <= i < Lead(s) ==> IsWhitespace(s[i]))
      && (forall i :: Lead(s) + |r| <= i < |s| ==> IsWhitespace(s[i]))
      && (r == [] || (!IsWhitespace(r[0]) && !IsWhitespace(r[|r| - 1])))
  {
    var u := TrimStart(s);
    var r := TrimEnd(u);
    TrimStartSuffix(s);
    forall i | Lead(s) + |r| <= i < |s| ensures IsWhitespace(s[i]) {
      assert s[i] == u[i - Lead(s)];
    }
  }

  /** Trimming only removes text, so it cannot create an occurrence. */
  lemma ContainsAfterTrim(s: string, t: string)
    requires Contains(Trim(s), t)
    ensures Contains(s, t)
  {
    var u := TrimStart(s);
    TrimStartSuffix(s);
    ContainsInPrefix(u, |TrimEnd(u)|, t);
    ContainsInSuffix(s, |s| - |u|, t);
  }

  lemma ContainsInPrefix(s: string, n: nat, t: string)
    requires n <= |s| && Contains(s[..n], t)
    ensures Contains(s, t)
  {
    ContainsWithin("", s[..n], s[n..], t);
    assert "" + s[..n] + s[n..] == s;
  }

  lemma ContainsInSuffix(s: string, n: nat, t: string)
    requires n <= |s| && Contains(s[n..], t)
    ensures Contains(s, t)
  {
    ContainsWithin(s[..n], s[n..], "", t);
    assert s[..n] + s[n..] + "" == s;
  }

  /** A text cannot occur where its first character never appears. */
  lemma AbsentFirstChar(s: string, t: string)
    requires t != [] && forall i :: 0 <= i < |s| ==> s[i] != t[0]
    ensures !Contains(s, t)
  {
    forall j | 0 <= j && j + |t| <= |s| ensures !OccursAt(s, t, j) {
      assert s[j..j + |t|][0] == s[j];
    }
  }

  /** ASCII case mapping of one character. */
  function LowerChar(c: char): char {
    if 'A' <= c <= 'Z' then (c as int + 32) as char else c
  }

  /** `c` is the letter `l` in either case, or `l` itself when `l` is not a letter. */
  predicate SameIgnoringCase(c: char, l: char) {
    c == l || ('a' <= l <= 'z' && c as int == l as int - 32)
  }

  /** Lower-casing `c` gives `l` exactly when `c` is `l` in either case (for `l` not upper case). */
  lemma LowerCharMatches(c: char, l: char)
    requires !('A' <= l <= 'Z')
    ensures LowerChar(c) == l <==> SameIgnoringCase(c, l)
  {
    if 'A' <= c <= 'Z' {
      assert LowerChar(c) as int == c as int + 32;
    }
  }

  /** `s.toLowerCase()` on the ASCII letters. */
  function ToLower(s: string): (r: string)
    ensures |r| == |s| && forall i :: 0 <= i < |s| ==> r[i] == LowerChar(s[i])
  {
    seq(|s|, i requires 0 <= i < |s| => LowerChar(s[i]))
  }
}
