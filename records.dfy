/**
 * One racer record as both feed decoders build it: the bib rule, the defaults, the scan over
 * the record's `|`-separated keyed fields, and the total-time derivation. The two decoders
 * differ in three places, which `Dialect` names: the class key (`s=` or `g=`), which
 * `parseTimeString` classifies run tokens, and whether `NaN` run and total times are turned
 * into DNS.
 */
module Records {
  import opened Wrappers
  import opened JsText
  import opened JsNumbers
  import opened TimeStrings

  /** Which decoder: the direct one (utils/direct-parser.ts) or the fallback one (utils/fallback-parser.ts). */
  datatype Dialect = Direct | Fallback

  /** The field prefix that carries the racer's class. */
  function ClassKey(d: Dialect): (k: string)
    ensures |k| == 2 && k[1] == '='
  {
    if d.Direct? then "s=" else "g="
  }

  /** The dialect's `parseTimeString`. */
  function ParseTime(d: Dialect, s: string): TimeResult {
    if d.Direct? then ParseTimeDirect(s) else ParseTimeFallback(s)
  }

  /** A decoded racer, as the decoders put it in their map (`LiveTimingRacer` with every field present). */
  datatype Racer = Racer(
    id: int,
    name: string,
    bibNumber: int,
    club: string,
    raceClass: string,
    run1Time: RunTime,
    run2Time: RunTime,
    totalTime: Option<Number>,
    timestamp: Option<int>,
    run1Status: string,
    run2Status: string,
    rawR1: string,
    rawR2: string)

  /** One run's time, status and raw token, which are always read and overwritten together. */
  datatype Slot = Slot(time: RunTime, status: string, raw: string)

  function Run1(r: Racer): Slot { Slot(r.run1Time, r.run1Status, r.rawR1) }
  function Run2(r: Racer): Slot { Slot(r.run2Time, r.run2Status, r.rawR2) }

  function WithRun1(r: Racer, s: Slot): (q: Racer)
    ensures Run1(q) == s && Run2(q) == Run2(r)
  {
    r.(run1Time := s.time, run1Status := s.status, rawR1 := s.raw)
  }

  function WithRun2(r: Racer, s: Slot): (q: Racer)
    ensures Run2(q) == s && Run1(q) == Run1(r)
  {
    r.(run2Time := s.time, run2Status := s.status, rawR2 := s.raw)
  }

  predicate IsNaNTime(t: RunTime) {
    t.Num? && t.n.NaN?
  }

  /** The direct decoder's safety check: a `NaN` run time becomes null with status DNS. */
  function GuardNaN(d: Dialect, s: Slot): (g: Slot)
    ensures d.Direct? ==> !IsNaNTime(g.time)
    ensures g.raw == s.raw
    ensures !IsNaNTime(s.time) || d.Fallback? ==> g == s
  {
    if d.Direct? && IsNaNTime(s.time) then s.(time := Null, status := "DNS") else s
  }

  /** The slot an `r1=`/`r2=` token gives: its trimmed text, classified, then guarded. */
  function RunSlot(d: Dialect, raw: string): (s: Slot)
    ensures s.raw == raw
    ensures d.Direct? ==> !IsNaNTime(s.time)
    ensures s.time == ParseTime(d, raw).time && s.status == ParseTime(d, raw).status
  {
    var t := ParseTime(d, raw);
    GuardNaN(d, Slot(t.time, t.status, raw))
  }

  /** `Number.parseInt(text, 10) || racerId`: a failed parse or 0 falls back to the running id. */
  function BibOf(first: string, racerId: int): (bib: int)
    ensures var p := ParseInt(Trim(Drop(first, 2)));
      && (p.Some? && p.value != 0 ==> bib == p.value)
      && (p.None? || p.value == 0 ==> bib == racerId)
    ensures racerId != 0 ==> bib != 0
  {
    var p := ParseInt(Trim(Drop(first, 2)));
    if p.None? || p.value == 0 then racerId else p.value
  }

  /** The bib of a record whose first field is `b=` and a non-zero number's text is that number. */
  lemma BibRoundTrip(n: int, racerId: int)
    requires n != 0
    ensures BibOf("b=" + IntToString(n), racerId) == n
  {
    assert Drop("b=" + IntToString(n), 2) == IntToString(n);
    TrimIntText(n);
    ParseIntRoundTrip(n);
  }

  /** The values a record starts from before its fields are read. */
  function Defaults(racerId: int, bib: int): Racer {
    Racer(racerId, "Racer " + IntToString(bib), bib, "---", "Unknown", Null, Null, None, None, "", "", "", "")
  }

  /** The effect of one field; at most one of the keys matches, tested in the order of utils/direct-parser.ts:50-86. */
  function ApplyField(d: Dialect, r: Racer, field: string): (q: Racer)
    ensures q.id == r.id && q.bibNumber == r.bibNumber && q.totalTime == r.totalTime
    ensures d.Direct? && !IsNaNTime(r.run1Time) ==> !IsNaNTime(q.run1Time)
    ensures d.Direct? && !IsNaNTime(r.run2Time) ==> !IsNaNTime(q.run2Time)
    ensures q.name == if StartsWith(field, "m=") then Trim(Drop(field, 2)) else r.name
    ensures q.club == if StartsWith(field, "c=") then Trim(Drop(field, 2)) else r.club
    ensures q.raceClass == if StartsWith(field, ClassKey(d)) then Trim(Drop(field, 2)) else r.raceClass
    ensures q.timestamp == if StartsWith(field, "ms=") then ParseInt(Trim(Drop(field, 3))) else r.timestamp
    ensures Run1(q) == if StartsWith(field, "r1=") then RunSlot(d, Trim(Drop(field, 3))) else Run1(r)
    ensures Run2(q) == if StartsWith(field, "r2=") then RunSlot(d, Trim(Drop(field, 3))) else Run2(r)
  {
    FieldHead(field);
    if StartsWith(field, "m=") then r.(name := Trim(Drop(field, 2)))
    else if StartsWith(field, "ms=") then r.(timestamp := ParseInt(Trim(Drop(field, 3))))
    else if StartsWith(field, "c=") then r.(club := Trim(Drop(field, 2)))
    else if StartsWith(field, "r1=") then WithRun1(r, RunSlot(d, Trim(Drop(field, 3))))
    else if StartsWith(field, "r2=") then WithRun2(r, RunSlot(d, Trim(Drop(field, 3))))
    else if StartsWith(field, ClassKey(d)) then r.(raceClass := Trim(Drop(field, 2)))
    else r
  }

  /** The keys differ in their first two characters. */
  lemma FieldHead(field: string)
    ensures StartsWith(field, "m=") ==> field[0] == 'm' && field[1] == '='
    ensures StartsWith(field, "ms=") ==> field[0] == 'm' && field[1] == 's'
    ensures StartsWith(field, "r1=") ==> field[0] == 'r' && field[1] == '1'
    ensures StartsWith(field, "r2=") ==> field[0] == 'r' && field[1] == '2'
    ensures StartsWith(field, "c=") ==> field[0] == 'c'
    ensures StartsWith(field, "s=") ==> field[0] == 's'
    ensures StartsWith(field, "g=") ==> field[0] == 'g'
  {
  }

  /** The field loop: every field in order, each applied to what the earlier ones left. */
  function ScanFields(d: Dialect, fields: seq<string>, init: Racer): (r: Racer)
    ensures r.id == init.id && r.bibNumber == init.bibNumber && r.totalTime == init.totalTime
    ensures d.Direct? && !IsNaNTime(init.run1Time) ==> !IsNaNTime(r.run1Time)
    ensures d.Direct? && !IsNaNTime(init.run2Time) ==> !IsNaNTime(r.run2Time)
  {
    if |fields| == 0 then init
    else ApplyField(d, ScanFields(d, fields[..|fields| - 1], init), fields[|fields| - 1])
  }

  /** Scanning one more field is applying it to what the earlier fields left. */
  lemma ScanPrefix(d: Dialect, fields: seq<string>, i: nat, init: Racer)
    requires i < |fields|
    ensures ScanFields(d, fields[..i + 1], init) == ApplyField(d, ScanFields(d, fields[..i], init), fields[i])
  {
    assert fields[..i + 1][..i] == fields[..i];
  }

  /** Total time is set exactly when both runs are numbers, and is then their sum. */
  predicate TotalDerived(r: Racer) {
    && (r.totalTime.Some? <==> r.run1Time.Num? && r.run2Time.Num?)
    && (r.totalTime.Some? ==> r.totalTime.value == Plus(r.run1Time.n, r.run2Time.n))
  }

  /** No `NaN` anywhere among the record's times. */
  predicate NoNaN(r: Racer) {
    !IsNaNTime(r.run1Time) && !IsNaNTime(r.run2Time) && (r.totalTime.Some? ==> r.totalTime.value.Finite?)
  }

  /** What every stored record satisfies: a derived total, and for the direct decoder no `NaN`. */
  predicate Inv(d: Dialect, r: Racer) {
    TotalDerived(r) && (d.Direct? ==> NoNaN(r))
  }

  /**
   * The total-time step: when both runs are numbers the total becomes their sum, except that
   * the direct decoder turns a `NaN` sum into a null total and marks both runs DNS; otherwise
   * the record is left as it is.
   */
  function Recalc(d: Dialect, r: Racer): (q: Racer)
    ensures q.id == r.id && q.name == r.name && q.bibNumber == r.bibNumber
    ensures q.club == r.club && q.raceClass == r.raceClass && q.timestamp == r.timestamp
    ensures q.run1Time == r.run1Time && q.run2Time == r.run2Time
    ensures q.rawR1 == r.rawR1 && q.rawR2 == r.rawR2
    ensures !(r.run1Time.Num? && r.run2Time.Num?) ==> q == r
    ensures r.run1Time.Num? && r.run2Time.Num? ==>
      var t := Plus(r.run1Time.n, r.run2Time.n);
      if d.Direct? && t.NaN? then q.totalTime.None? && q.run1Status == "DNS" && q.run2Status == "DNS"
      else q.totalTime == Some(t) && q.run1Status == r.run1Status && q.run2Status == r.run2Status
  {
    if r.run1Time.Num? && r.run2Time.Num? then
      var total := Plus(r.run1Time.n, r.run2Time.n);
      if d.Direct? && total.NaN? then r.(totalTime := None, run1Status := "DNS", run2Status := "DNS")
      else r.(totalTime := Some(total))
    else r
  }

  /**
   * The record one raw section gives (it starts with `b=`): the bib from its first field, the
   * defaults, every field scanned, then the total. `racerId` is the id the record would take as
   * a new racer.
   */
  function RecordOf(d: Dialect, section: string, racerId: int): (r: Racer)
    ensures r.id == racerId
  {
    var fields := Split(section, "|");
    Recalc(d, ScanFields(d, fields, Defaults(racerId, BibOf(fields[0], racerId))))
  }

  /** A freshly read record satisfies the record invariant. */
  lemma RecordOfInv(d: Dialect, section: string, racerId: int)
    ensures Inv(d, RecordOf(d, section, racerId))
  {
    var fields := Split(section, "|");
    var s := ScanFields(d, fields, Defaults(racerId, BibOf(fields[0], racerId)));
    assert s.totalTime == None;
    if s.run1Time.Num? && s.run2Time.Num? && d.Direct? {
      assert s.run1Time.n.Finite? && s.run2Time.n.Finite?;
    }
  }

  /** A freshly read record carries the bib rule's bib, never 0 once ids start at 1. */
  lemma RecordOfBib(d: Dialect, section: string, racerId: int)
    ensures RecordOf(d, section, racerId).bibNumber == BibOf(Split(section, "|")[0], racerId)
    ensures racerId >= 1 ==> RecordOf(d, section, racerId).bibNumber != 0
  {
  }

  /** The index of the last field that starts with `key`, or -1. */
  function LastWith(fields: seq<string>, key: string): (i: int)
    ensures -1 <= i < |fields|
    ensures i >= 0 ==> StartsWith(fields[i], key)
    ensures forall j :: i < j < |fields| ==> !StartsWith(fields[j], key)
  {
    if |fields| == 0 then -1
    else if StartsWith(fields[|fields| - 1], key) then |fields| - 1
    else LastWith(fields[..|fields| - 1], key)
  }

  /** The name is the trimmed text of the last `m=` field, or the default. */
  lemma {:induction false} ScanName(d: Dialect, fields: seq<string>, init: Racer)
    ensures ScanFields(d, fields, init).name
         == (var i := LastWith(fields, "m="); if i < 0 then init.name else Trim(Drop(fields[i], 2)))
  {
    if |fields| > 0 {
      var pre := fields[..|fields| - 1];
      ScanName(d, pre, init);
      if !StartsWith(fields[|fields| - 1], "m=") {
        assert LastWith(fields, "m=") == LastWith(pre, "m=");
      }
    }
  }

  /** The club is the trimmed text of the last `c=` field, or the default. */
  lemma {:induction false} ScanClub(d: Dialect, fields: seq<string>, init: Racer)
    ensures ScanFields(d, fields, init).club
         == (var i := LastWith(fields, "c="); if i < 0 then init.club else Trim(Drop(fields[i], 2)))
  {
    if |fields| > 0 {
      var pre := fields[..|fields| - 1];
      var f := fields[|fields| - 1];
      ScanClub(d, pre, init);
      if !StartsWith(f, "c=") {
        assert LastWith(fields, "c=") == LastWith(pre, "c=");
      }
    }
  }

  /**
   * The class is the trimmed text of the last field with the dialect's class key (`s=` for the
   * direct decoder, `g=` for the fallback one), or the default; the other key is ignored.
   */
  lemma {:induction false} ScanClass(d: Dialect, fields: seq<string>, init: Racer)
    ensures ScanFields(d, fields, init).raceClass
         == (var i := LastWith(fields, ClassKey(d)); if i < 0 then init.raceClass else Trim(Drop(fields[i], 2)))
  {
    if |fields| > 0 {
      var pre := fields[..|fields| - 1];
      var f := fields[|fields| - 1];
      ScanClass(d, pre, init);
      if !StartsWith(f, ClassKey(d)) {
        assert LastWith(fields, ClassKey(d)) == LastWith(pre, ClassKey(d));
      }
    }
  }

  /** The first run is the slot the trimmed text of the last `r1=` field gives, or the default. */
  lemma {:induction false} ScanRun1(d: Dialect, fields: seq<string>, init: Racer)
    ensures Run1(ScanFields(d, fields, init))
         == (var i := LastWith(fields, "r1="); if i < 0 then Run1(init) else RunSlot(d, Trim(Drop(fields[i], 3))))
  {
    if |fields| > 0 {
      var pre := fields[..|fields| - 1];
      ScanRun1(d, pre, init);
      if !StartsWith(fields[|fields| - 1], "r1=") {
        assert LastWith(fields, "r1=") == LastWith(pre, "r1=");
      }
    }
  }

  /** The second run is the slot the trimmed text of the last `r2=` field gives, or the default. */
  lemma {:induction false} ScanRun2(d: Dialect, fields: seq<string>, init: Racer)
    ensures Run2(ScanFields(d, fields, init))
         == (var i := LastWith(fields, "r2="); if i < 0 then Run2(init) else RunSlot(d, Trim(Drop(fields[i], 3))))
  {
    if |fields| > 0 {
      var pre := fields[..|fields| - 1];
      ScanRun2(d, pre, init);
      if !StartsWith(fields[|fields| - 1], "r2=") {
        assert LastWith(fields, "r2=") == LastWith(pre, "r2=");
      }
    }
  }

  /** The timestamp is `parseInt` of the trimmed text of the last `ms=` field, or the default. */
  lemma {:induction false} ScanTimestamp(d: Dialect, fields: seq<string>, init: Racer)
    ensures ScanFields(d, fields, init).timestamp
         == (var i := LastWith(fields, "ms="); if i < 0 then init.timestamp else ParseInt(Trim(Drop(fields[i], 3))))
  {
    if |fields| > 0 {
      var pre := fields[..|fields| - 1];
      ScanTimestamp(d, pre, init);
      if !StartsWith(fields[|fields| - 1], "ms=") {
        assert LastWith(fields, "ms=") == LastWith(pre, "ms=");
      }
    }
  }

  /** The body of an `r1=`/`r2=` branch: classify the token, then the direct decoder's `NaN` check. */
  method ReadRun(d: Dialect, timeStr: string) returns (time: RunTime, status: string)
    ensures Slot(time, status, timeStr) == RunSlot(d, timeStr)
  {
    var result := ParseTime(d, timeStr);
    time, status := result.time, result.status;
    if d.Direct? && IsNaNTime(time) {
      time, status := Null, "DNS";
    }
  }

  /**
   * The record loop of `parseRaceData`/`parseFallbackRaceData`: the bib and the defaults, the
   * field loop, then the total.
   */
  method ReadRecord(d: Dialect, section: string, racerId: int) returns (r: Racer)
    ensures r == RecordOf(d, section, racerId)
  {
    var fields := Split(section, "|");
    var bib := BibOf(fields[0], racerId);
    var scanned := ReadFields(d, fields, Defaults(racerId, bib));
    var run1Status, run2Status := scanned.run1Status, scanned.run2Status;
    var totalTime: Option<Number> := None;
    if scanned.run1Time.Num? && scanned.run2Time.Num? {
      var total := Plus(scanned.run1Time.n, scanned.run2Time.n);
      totalTime := Some(total);
      if d.Direct? && total.NaN? {
        totalTime := None;
        run1Status, run2Status := "DNS", "DNS";
      }
    }
    r := scanned.(totalTime := totalTime, run1Status := run1Status, run2Status := run2Status);
  }

  /** The field loop: per-field locals, each reassigned by the field whose key it carries. */
  method ReadFields(d: Dialect, fields: seq<string>, init: Racer) returns (r: Racer)
    ensures r == ScanFields(d, fields, init)
  {
    var name, club, raceClass := init.name, init.club, init.raceClass;
    var run1Time, run2Time := init.run1Time, init.run2Time;
    var run1Status, run2Status, rawR1, rawR2 := init.run1Status, init.run2Status, init.rawR1, init.rawR2;
    var timestamp := init.timestamp;
    for i := 0 to |fields|
      invariant init.(name := name, club := club, raceClass := raceClass, run1Time := run1Time,
                      run2Time := run2Time, timestamp := timestamp, run1Status := run1Status,
                      run2Status := run2Status, rawR1 := rawR1, rawR2 := rawR2)
             == ScanFields(d, fields[..i], init)
    {
      var field := fields[i];
      ghost var before := init.(name := name, club := club, raceClass := raceClass, run1Time := run1Time,
                                run2Time := run2Time, timestamp := timestamp, run1Status := run1Status,
                                run2Status := run2Status, rawR1 := rawR1, rawR2 := rawR2);
      ScanPrefix(d, fields, i, init);
      if StartsWith(field, "m=") {
        name := Trim(Drop(field, 2));
      } else if StartsWith(field, "ms=") {
        timestamp := ParseInt(Trim(Drop(field, 3)));
      } else if StartsWith(field, "c=") {
        club := Trim(Drop(field, 2));
      } else if StartsWith(field, "r1=") {
        var timeStr := Trim(Drop(field, 3));
        rawR1 := timeStr;
        run1Time, run1Status := ReadRun(d, timeStr);
      } else if StartsWith(field, "r2=") {
        var timeStr := Trim(Drop(field, 3));
        rawR2 := timeStr;
        run2Time, run2Status := ReadRun(d, timeStr);
      } else if StartsWith(field, ClassKey(d)) {
        raceClass := Trim(Drop(field, 2));
      }
      assert init.(name := name, club := club, raceClass := raceClass, run1Time := run1Time,
                   run2Time := run2Time, timestamp := timestamp, run1Status := run1Status,
                   run2Status := run2Status, rawR1 := rawR1, rawR2 := rawR2)
          == ApplyField(d, before, field);
    }
    assert fields[..|fields|] == fields;
    r := init.(name := name, club := club, raceClass := raceClass, run1Time := run1Time,
               run2Time := run2Time, timestamp := timestamp, run1Status := run1Status,
               run2Status := run2Status, rawR1 := rawR1, rawR2 := rawR2);
  }
}
