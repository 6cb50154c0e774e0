/**
 * The direct (primary) decoder, `parseRaceData`: the lines are joined without separator, the
 * text is split on `|b=`, and every piece after the first, with `b=` put back, is one raw
 * record. Records are read with the `s=` class key and the direct `parseTimeString`.
 */
module DirectParser {
  import opened JsText
  import opened Records
  import opened RacerTable
  import opened RaceHeader

  const RecordMark: string := "|b="

  /** All lines joined together: the text with every newline removed. */
  function FullData(data: string): string {
    Join(Split(data, "\n"), "")
  }

  /** Every piece after the first, with `b=` put back in front. */
  function Tagged(pieces: seq<string>): (rs: seq<string>)
    requires |pieces| >= 1
    ensures |rs| == |pieces| - 1
    ensures forall i :: 0 <= i < |rs| ==> rs[i] == "b=" + pieces[i + 1]
  {
    seq(|pieces| - 1, i requires 0 <= i < |pieces| - 1 => "b=" + pieces[i + 1])
  }

  /** The raw records: one per piece of the newline-stripped text after the first `|b=`. */
  function DirectRecords(data: string): seq<string> {
    Tagged(Split(FullData(data), RecordMark))
  }

  /** What `parseRaceData` returns. */
  function Decode(data: string): (r: Decoded)
    ensures r.raceName == RaceName(data)
    ensures |r.racers| <= |DirectRecords(data)|
    ensures WellFormed(Direct, r.racers)
  {
    var t := Fold(Direct, Empty(), DirectRecords(data));
    DecodedRacers(Direct, DirectRecords(data));
    FoldCount(Direct, DirectRecords(data));
    Decoded(RaceName(data), Racers(t))
  }

  /** `parseRaceData` as written: the header test, then the section loop over a map and a counter. */
  method ParseRaceData(data: string) returns (result: Decoded)
    ensures result == Decode(data)
  {
    var raceName := DefaultName;
    var lines := Split(data, "\n");
    var headerParts := Split(lines[0], "|");
    if |headerParts| > 1 && Contains(headerParts[1], Marker) {
      raceName := Trim(RemoveFirst(headerParts[1], Marker));
    }
    assert raceName == RaceName(data);
    var fullData := Join(lines, "");
    var racerSections := Split(fullData, RecordMark);
    assert fullData == FullData(data);
    ghost var records := DirectRecords(data);
    assert records == Tagged(racerSections);
    var bibs, entries, racerId := ScanSections(racerSections);
    DecodedRacers(Direct, records);
    var racers := Values(Table(bibs, entries, racerId));
    result := Decoded(raceName, racers);
  }

  /**
   * The section loop of `parseRaceData`: every piece after the first, with `b=` put back, is
   * read and merged in or appended.
   */
  method ScanSections(racerSections: seq<string>) returns (bibs: seq<int>, entries: map<int, Racer>, racerId: int)
    requires |racerSections| >= 1
    ensures Table(bibs, entries, racerId) == Fold(Direct, Empty(), Tagged(racerSections))
  {
    ghost var records := Tagged(racerSections);
    bibs, entries, racerId := [], map[], 1;
    for i := 1 to |racerSections|
      invariant Table(bibs, entries, racerId) == Fold(Direct, Empty(), records[..i - 1])
    {
      var section := "b=" + racerSections[i];
      FoldPrefix(Direct, records, i);
      bibs, entries, racerId := Upsert(Direct, bibs, entries, racerId, section);
    }
    assert records[..|racerSections| - 1] == records;
  }

  /** The direct decoder finds a racer exactly when the newline-stripped text contains `|b=`. */
  lemma DecodeCount(data: string)
    ensures |Decode(data).racers| > 0 <==> Contains(FullData(data), RecordMark)
  {
    FoldCount(Direct, DirectRecords(data));
  }

  /**
   * One raw record per `|b=` of the newline-stripped text: the pieces, glued back with `|b=`,
   * give that text, no piece contains `|b=`, and every piece after the first is one record.
   */
  lemma RecordPerMark(data: string)
    ensures var pieces := Split(FullData(data), RecordMark);
      && Join(pieces, RecordMark) == FullData(data)
      && (forall k :: 0 <= k < |pieces| ==> !Contains(pieces[k], RecordMark))
      && |DirectRecords(data)| == |pieces| - 1
      && forall i :: 0 <= i < |DirectRecords(data)| ==> DirectRecords(data)[i] == "b=" + pieces[i + 1]
  {
    JoinSplit(FullData(data), RecordMark);
    SplitPiecesFree(FullData(data), RecordMark);
  }

  /**
   * Text before the first `|b=` never forms a racer: the records are the pieces of what follows
   * it.
   */
  lemma HeaderNeverARecord(pre: string, rest: string)
    requires !Contains(pre, RecordMark)
    ensures Split(pre + RecordMark + rest, RecordMark) == [pre] + Split(rest, RecordMark)
  {
    var s := pre + RecordMark + rest;
    assert OccursAt(s, RecordMark, |pre|);
    forall j | 0 <= j < |pre| ensures !OccursAt(s, RecordMark, j) {
      if j + 3 <= |pre| {
        assert s[j..j + 3] == pre[j..j + 3];
        assert !OccursAt(pre, RecordMark, j);
      } else {
        assert s[j..j + 3][|pre| - j] == s[|pre|] == '|';
      }
    }
    assert IndexOf(s, RecordMark) == |pre|;
    assert s[..|pre|] == pre && s[|pre| + 3..] == rest;
  }
}
