/**
 * `fetchRaceData` once the request has settled, and `convertToAppRacer`. The request itself
 * (URL, headers, the ten-second abort timer) is outside the model: its outcome is a parameter.
 * An ok response is decoded by the direct decoder, and by the fallback decoder only when the
 * direct one finds no racer; a timeout and every other failure give a named empty result.
 */
module Api {
  import opened Wrappers
  import opened JsText
  import opened JsNumbers
  import opened TimeStrings
  import opened Records
  import opened RacerTable
  import opened RaceHeader
  import DirectParser
  import FallbackParser

  /**
   * How the request settled: a response (status code and body text), the abort timer firing
   * before the response arrived, or any other rejection of `fetch`.
   */
  datatype FetchOutcome = Response(status: int, text: string) | Timeout | Failure

  /** What `fetchRaceData` resolves to: `{ raceName, racers, rawData? }`. */
  datatype RaceData = RaceData(raceName: string, racers: seq<Racer>, rawData: Option<string>)

  const TimeoutName: string := "Fetch Timeout"
  const ErrorName: string := "Error Loading Race"
  const SampleLength: nat := 1000

  /** `response.ok`: a status in the range 200-299. */
  predicate Ok(status: int) {
    200 <= status <= 299
  }

  /** `data.substring(0, 1000)`: the first thousand characters, or all of a shorter text. */
  function Sample(text: string): (r: string)
    ensures r <= text
    ensures |r| == if |text| < SampleLength then |text| else SampleLength
  {
    if |text| <= SampleLength then text else text[..SampleLength]
  }

  /** The value `fetchRaceData` resolves to for a given outcome of the request. */
  function FetchResult(outcome: FetchOutcome): (r: RaceData)
    ensures outcome.Timeout? ==> r == RaceData(TimeoutName, [], None)
    ensures outcome.Failure? || (outcome.Response? && !Ok(outcome.status)) ==> r == RaceData(ErrorName, [], None)
    ensures r.rawData.Some? <==> outcome.Response? && Ok(outcome.status)
    ensures r.rawData.Some? ==> r.rawData.value == Sample(outcome.text)
  {
    match outcome
    case Timeout => RaceData(TimeoutName, [], None)
    case Failure => RaceData(ErrorName, [], None)
    case Response(status, text) =>
      if !Ok(status) then RaceData(ErrorName, [], None)
      else
        var direct := DirectParser.Decode(text);
        if |direct.racers| > 0 then RaceData(direct.raceName, direct.racers, Some(Sample(text)))
        else
          var fallback := FallbackParser.Decode(text);
          RaceData(fallback.raceName, fallback.racers, Some(Sample(text)))
  }

  /** `fetchRaceData` after the request: the status test, the direct decoder, then the fallback. */
  method FetchRaceData(outcome: FetchOutcome) returns (result: RaceData)
    ensures result == FetchResult(outcome)
  {
    if outcome.Timeout? {
      return RaceData(TimeoutName, [], None);
    }
    if outcome.Failure? || !Ok(outcome.status) {
      return RaceData(ErrorName, [], None);
    }
    var data := outcome.text;
    var directResult := DirectParser.ParseRaceData(data);
    if |directResult.racers| > 0 {
      return RaceData(directResult.raceName, directResult.racers, Some(Sample(data)));
    }
    var fallbackResult := FallbackParser.ParseFallbackRaceData(data);
    result := RaceData(fallbackResult.raceName, fallbackResult.racers, Some(Sample(data)));
  }

  /**
   * The fallback never finds a racer the direct decoder missed: a `|b=` inside some trimmed
   * line is also inside the text with its newlines removed.
   */
  lemma FallbackNeverRescues(data: string)
    requires |DirectParser.Decode(data).racers| == 0
    ensures FallbackParser.Decode(data).racers == []
  {
    DirectParser.DecodeCount(data);
    FallbackParser.DecodeCount(data);
    var lines := Split(data, "\n");
    forall i | 0 <= i < |lines| ensures !Contains(Trim(lines[i]), FallbackParser.RecordMark) {
      if Contains(Trim(lines[i]), FallbackParser.RecordMark) {
        ContainsAfterTrim(lines[i], FallbackParser.RecordMark);
        ContainsInJoin(lines, "", i, FallbackParser.RecordMark);
      }
    }
  }

  /**
   * So the fallback branch changes nothing: an ok response always resolves to the direct
   * decoder's race name and racers, with the raw sample, and finds racers exactly when the
   * text with its newlines removed contains `|b=`.
   */
  lemma FetchIsDirect(status: int, text: string)
    requires Ok(status)
    ensures FetchResult(Response(status, text))
         == RaceData(RaceName(text), DirectParser.Decode(text).racers, Some(Sample(text)))
    ensures |FetchResult(Response(status, text)).racers| > 0
        <==> Contains(DirectParser.FullData(text), DirectParser.RecordMark)
  {
    DirectParser.DecodeCount(text);
    if |DirectParser.Decode(text).racers| == 0 {
      FallbackNeverRescues(text);
    }
  }

  /** Whatever the outcome, the racers are well formed as the direct decoder guarantees. */
  lemma FetchWellFormed(outcome: FetchOutcome)
    ensures WellFormed(Direct, FetchResult(outcome).racers)
  {
    if outcome.Response? && Ok(outcome.status) {
      FetchIsDirect(outcome.status, outcome.text);
    }
  }

  /**
   * `LiveTimingRacer` as the interface declares it: `timestamp`, the statuses and the raw
   * tokens may be absent (`None`); a present timestamp may still be null.
   */
  datatype LiveTimingRacer = LiveTimingRacer(
    id: int,
    name: string,
    bibNumber: int,
    club: string,
    raceClass: string,
    run1Time: RunTime,
    run2Time: RunTime,
    totalTime: Option<Number>,
    timestamp: Option<Option<int>>,
    run1Status: Option<string>,
    run2Status: Option<string>,
    rawR1: Option<string>,
    rawR2: Option<string>)

  /** The application's racer record that `convertToAppRacer` builds. */
  datatype AppRacer = AppRacer(
    id: int,
    name: string,
    startNumber: int,
    bibNumber: int,
    club: string,
    raceClass: string,
    result1Time: RunTime,
    result2Time: RunTime,
    totalTime: Option<Number>,
    timestamp: Option<int>,
    run1Status: string,
    run2Status: string,
    rawR1: string,
    rawR2: string)

  /** A decoded racer seen through the interface: every optional field present. */
  function AsLive(r: Racer): LiveTimingRacer {
    LiveTimingRacer(r.id, r.name, r.bibNumber, r.club, r.raceClass, r.run1Time, r.run2Time,
                    r.totalTime, Some(r.timestamp), Some(r.run1Status), Some(r.run2Status),
                    Some(r.rawR1), Some(r.rawR2))
  }

  /** `x || ""` on an optional string: an absent or empty string gives "", anything else itself. */
  function OrEmpty(s: Option<string>): (r: string)
    ensures s.Some? ==> r == s.value
    ensures s.None? ==> r == ""
  {
    if s.Some? && s.value != "" then s.value else ""
  }

  /** `x ?? null` on the optional timestamp. */
  function OrNull(t: Option<Option<int>>): (r: Option<int>)
    ensures t.Some? ==> r == t.value
    ensures t.None? ==> r.None?
  {
    match t
    case Some(v) => v
    case None => None
  }

  /** `convertToAppRacer`: the live record's fields under the application's names, with the start number. */
  function ConvertToAppRacer(live: LiveTimingRacer, startNumber: int): (a: AppRacer)
    ensures a.startNumber == startNumber
    ensures a.id == live.id && a.name == live.name && a.bibNumber == live.bibNumber
    ensures a.club == live.club && a.raceClass == live.raceClass
    ensures a.result1Time == live.run1Time && a.result2Time == live.run2Time && a.totalTime == live.totalTime
    ensures live.timestamp.Some? ==> a.timestamp == live.timestamp.value
    ensures live.timestamp.None? ==> a.timestamp.None?
    ensures a.run1Status == (if live.run1Status.Some? then live.run1Status.value else "")
    ensures a.run2Status == (if live.run2Status.Some? then live.run2Status.value else "")
    ensures a.rawR1 == (if live.rawR1.Some? then live.rawR1.value else "")
    ensures a.rawR2 == (if live.rawR2.Some? then live.rawR2.value else "")
  {
    AppRacer(live.id, live.name, startNumber, live.bibNumber, live.club, live.raceClass,
             live.run1Time, live.run2Time, live.totalTime, OrNull(live.timestamp),
             OrEmpty(live.run1Status), OrEmpty(live.run2Status), OrEmpty(live.rawR1), OrEmpty(live.rawR2))
  }

  /**
   * Nothing a decoder produced is lost or altered by the conversion: every field of the
   * converted record equals the decoded one, and the start number is the one given.
   */
  lemma ConvertKeepsDecoded(r: Racer, startNumber: int)
    ensures var a := ConvertToAppRacer(AsLive(r), startNumber);
      && a.startNumber == startNumber
      && a.id == r.id && a.name == r.name && a.bibNumber == r.bibNumber && a.club == r.club
      && a.raceClass == r.raceClass && a.result1Time == r.run1Time && a.result2Time == r.run2Time
      && a.totalTime == r.totalTime && a.timestamp == r.timestamp
      && a.run1Status == r.run1Status && a.run2Status == r.run2Status
      && a.rawR1 == r.rawR1 && a.rawR2 == r.rawR2
  {
  }
}
