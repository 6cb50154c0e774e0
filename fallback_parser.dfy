/**
 * The fallback decoder, `parseFallbackRaceData`: the feed is read line by line; a line whose
 * trimmed text contains `|b=` gives one raw record, everything from the first `|b=` on (less the
 * `|`). Records are read with the `g=` class key and the fallback `parseTimeString`.
 */
module FallbackParser {
  import opened Wrappers
  import opened JsText
  import opened Records
  import opened RacerTable
  import opened RaceHeader

  const RecordMark: string := "|b="

  /**
   * The raw record a line carries: there is one exactly when the trimmed line contains `|b=`,
   * and it is the trimmed line from its first `|b=` on, less the `|`, so it starts with `b=`.
   */
  function LineRecord(line: string): (r: Option<string>)
    ensures r.Some? <==> Contains(Trim(line), RecordMark)
    ensures r.Some? ==> r.value == Trim(line)[IndexOf(Trim(line), RecordMark) + 1..] && StartsWith(r.value, "b=")
  {
    var t := Trim(line);
    if t == "" then
      assert IndexOf(t, RecordMark) == -1;
      None
    else
      var k := IndexOf(t, RecordMark);
      if k == -1 then None
      else
        assert t[k..k + 3] == RecordMark;
        assert t[k + 1..][..2] == t[k..k + 3][1..];
        Some(t[k + 1..])
  }

  /** The raw records of the lines, in line order, at most one per line. */
  function LineRecords(lines: seq<string>): (rs: seq<string>)
    ensures |rs| <= |lines|
  {
    if |lines| == 0 then []
    else
      var last := LineRecord(lines[|lines| - 1]);
      LineRecords(lines[..|lines| - 1]) + (if last.Some? then [last.value] else [])
  }

  /** The raw records of the whole feed. */
  function FallbackRecords(data: string): seq<string> {
    LineRecords(Split(data, "\n"))
  }

  /** What `parseFallbackRaceData` returns. */
  function Decode(data: string): (r: Decoded)
    ensures r.raceName == RaceName(data)
    ensures |r.racers| <= |FallbackRecords(data)| <= |Split(data, "\n")|
    ensures WellFormed(Fallback, r.racers)
  {
    var t := Fold(Fallback, Empty(), FallbackRecords(data));
    DecodedRacers(Fallback, FallbackRecords(data));
    FoldCount(Fallback, FallbackRecords(data));
    Decoded(RaceName(data), Racers(t))
  }

  /** One more line adds that line's record, if any. */
  lemma LineRecordsPrefix(lines: seq<string>, i: nat)
    requires i < |lines|
    ensures LineRecord(lines[i]).None? ==> LineRecords(lines[..i + 1]) == LineRecords(lines[..i])
    ensures LineRecord(lines[i]).Some? ==>
      LineRecords(lines[..i + 1]) == LineRecords(lines[..i]) + [LineRecord(lines[i]).value]
  {
    assert lines[..i + 1][..i] == lines[..i];
  }

  /** Folding one more record after `sections` is one more step. */
  lemma FoldSnoc(d: Dialect, sections: seq<string>, section: string)
    ensures Fold(d, Empty(), sections + [section]) == Step(d, Fold(d, Empty(), sections), section)
  {
    assert (sections + [section])[..|sections|] == sections;
  }

  /** Some trimmed line contains `|b=`. */
  predicate SomeLineMarked(lines: seq<string>) {
    exists i :: 0 <= i < |lines| && Contains(Trim(lines[i]), RecordMark)
  }

  /** The lines give a record exactly when some trimmed line contains `|b=`. */
  lemma {:induction false} LineRecordsEmpty(lines: seq<string>)
    ensures LineRecords(lines) != [] <==> SomeLineMarked(lines)
  {
    if |lines| > 0 {
      var n := |lines| - 1;
      var pre := lines[..n];
      var last := LineRecord(lines[n]);
      LineRecordsEmpty(pre);
      LineRecordsPrefix(lines, n);
      assert lines[..n + 1] == lines;
      if last.Some? {
        assert Contains(Trim(lines[n]), RecordMark);
        assert SomeLineMarked(lines);
      } else {
        assert LineRecords(lines) == LineRecords(pre);
        if SomeLineMarked(pre) {
          var i :| 0 <= i < |pre| && Contains(Trim(pre[i]), RecordMark);
          assert lines[i] == pre[i];
        }
        if SomeLineMarked(lines) {
          var i :| 0 <= i < |lines| && Contains(Trim(lines[i]), RecordMark);
          assert i != n;
          assert lines[i] == pre[i];
        }
      }
    }
  }

  /**
   * `parseFallbackRaceData` as written: the header test, then the line loop over a map and a
   * counter.
   */
  method ParseFallbackRaceData(data: string) returns (result: Decoded)
    ensures result == Decode(data)
  {
    var raceName := DefaultName;
    var lines := Split(data, "\n");
    if |lines| > 0 {
      var headerParts := Split(lines[0], "|");
      if |headerParts| > 1 && Contains(headerParts[1], Marker) {
        raceName := Trim(RemoveFirst(headerParts[1], Marker));
      }
    }
    assert raceName == RaceName(data);
    var bibs, entries, racerId := ScanLines(lines);
    DecodedRacers(Fallback, FallbackRecords(data));
    FoldCount(Fallback, FallbackRecords(data));
    var racers := Values(Table(bibs, entries, racerId));
    result := Decoded(raceName, racers);
  }

  /** What one line does to the map and the counter. */
  function LineStep(t: Table, line: string): Table {
    match LineRecord(line)
    case None => t
    case Some(section) => Step(Fallback, t, section)
  }

  /** Folding the records of one more line is one more line step. */
  lemma FoldLines(lines: seq<string>, i: nat)
    requires i < |lines|
    ensures Fold(Fallback, Empty(), LineRecords(lines[..i + 1]))
         == LineStep(Fold(Fallback, Empty(), LineRecords(lines[..i])), lines[i])
  {
    LineRecordsPrefix(lines, i);
    if LineRecord(lines[i]).Some? {
      FoldSnoc(Fallback, LineRecords(lines[..i]), LineRecord(lines[i]).value);
    }
  }

  /**
   * The line loop of `parseFallbackRaceData`: blank lines and lines without `|b=` are skipped,
   * every other line's record is read and merged in or appended.
   */
  method ScanLines(lines: seq<string>) returns (bibs: seq<int>, entries: map<int, Racer>, racerId: int)
    ensures Table(bibs, entries, racerId) == Fold(Fallback, Empty(), LineRecords(lines))
  {
    bibs, entries, racerId := [], map[], 1;
    for i := 0 to |lines|
      invariant Table(bibs, entries, racerId) == Fold(Fallback, Empty(), LineRecords(lines[..i]))
    {
      FoldLines(lines, i);
      bibs, entries, racerId := ScanLine(bibs, entries, racerId, lines[i]);
    }
    assert lines[..|lines|] == lines;
  }

  /** One pass of the line loop; an early return is a `continue` of utils/fallback-parser.ts:19-29. */
  method ScanLine(bibs: seq<int>, entries: map<int, Racer>, racerId: int, rawLine: string)
    returns (bibs': seq<int>, entries': map<int, Racer>, racerId': int)
    ensures Table(bibs', entries', racerId') == LineStep(Table(bibs, entries, racerId), rawLine)
  {
    bibs', entries', racerId' := bibs, entries, racerId;
    var line := Trim(rawLine);
    if line == "" {
      assert LineRecord(rawLine).None?;
      return;
    }
    var bibIndex := IndexOf(line, RecordMark);
    if bibIndex == -1 {
      assert LineRecord(rawLine).None?;
      return;
    }
    var racerData := line[bibIndex + 1..];
    assert LineRecord(rawLine) == Some(racerData);
    bibs', entries', racerId' := Upsert(Fallback, bibs, entries, racerId, racerData);
  }

  /** The fallback decoder finds a racer exactly when some trimmed line contains `|b=`. */
  lemma DecodeCount(data: string)
    ensures |Decode(data).racers| > 0 <==> SomeLineMarked(Split(data, "\n"))
  {
    var lines := Split(data, "\n");
    var records := FallbackRecords(data);
    var t := Fold(Fallback, Empty(), records);
    FoldCount(Fallback, records);
    FoldValid(Fallback, records);
    LineRecordsEmpty(lines);
    assert |Decode(data).racers| == |t.bibs|;
    assert |Decode(data).racers| > 0 <==> records != [];
    assert records != [] <==> SomeLineMarked(lines);
  }
}
