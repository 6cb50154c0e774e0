# Live-timing feed decoder

A ski-race leaderboard reads its racers from a live-timing feed. The feed is plain text. Its
first line is a header whose second `|`-separated field may carry the race name behind the
marker `hN=U=`. Every racer record starts with `b=<bib>` and carries keyed fields separated by
`|`:

- `m=` name
- `c=` club
- `s=` class (`g=` in the second dialect)
- `r1=` and `r2=` run results
- `ms=` an epoch-millisecond timestamp

Three parts of `utils/` decode this text:

- **The direct decoder, `parseRaceData`.** It removes every newline, splits the text on `|b=`,
  and reads each piece after the first as one record.
- **The fallback decoder, `parseFallbackRaceData`.** It reads the text line by line. A trimmed
  line that contains `|b=` gives one record, starting at its first `|b=`.
- **`fetchRaceData` and `convertToAppRacer`.** `fetchRaceData` maps the outcome of the request to
  a result: the direct decoding, or the fallback decoding when the direct one finds no racer, or
  a named error result. `convertToAppRacer` maps a decoded racer to the application's record.

Both decoders share the rest of the pipeline:

- Each run token is classified by the decoder's own `parseTimeString`. The result is a null
  time, "on course", or a number of milliseconds, together with a status (`DNS`, `DNF`, `DSQ`,
  "on course" or empty).
- The bib is `parseInt` of the text after `b=`. When that fails or gives 0, the bib is the next
  id to be handed out.
- Records that share a bib are merged into one entry of an insertion-ordered map. A run slot
  (time, status, raw token) is overwritten only by an incoming number, or by "on course" over a
  null time.
- The total time is the sum of the two runs when both are numbers.

The model is in Dafny, one module per concern:

- `JsText` and `JsNumbers`: the JavaScript string and number operations the code relies on,
  over `seq<char>`. `parseInt`/`parseFloat` give an `Option`, whose `None` is `NaN`. A number is
  `Finite(real) | NaN`, with exact arithmetic.
- `TimeStrings` and `ClockReadings`: the two `parseTimeString` classifiers, and how they read
  clock tokens.
- `Records`: one record.
  - `Dialect` (`Direct` or `Fallback`) selects the class key, the classifier, and whether the
    direct decoder's `NaN` guards apply.
- `Merging`: the merge of a record into a stored one.
- `RacerTable`: the map and its counter.
  - The map is a sequence of bibs in insertion order plus a map from bib to record.
  - Decoding is a left fold of one step per raw record.
- `RaceHeader`: the race name.
- `DirectParser` and `FallbackParser`: the two decoders.
- `Api`: the result of `fetchRaceData` for an abstract request outcome, and `convertToAppRacer`.

The loops of the source and its in-place merge are methods, each proved equal to the function
that specifies it:

- the section loop and the line loop;
- the field loop, with its per-field locals;
- the in-place merge;
- the copy out of the map.

The lemmas then state the properties of those functions.

**Where the code and its own comments differ, the model follows the code.**

- **The fallback branch of `fetchRaceData` never produces a racer.** The comment at
  utils/api.ts:72-75 says the fallback decoder is tried when no racer was found, as if it could
  read what the direct one cannot. But any `|b=` inside a trimmed line is also inside the text
  with its newlines removed. So whenever the direct decoder finds no racer, the fallback decoder
  finds none either (`Api.FallbackNeverRescues`), and an ok response always resolves to the
  direct decoding (`Api.FetchIsDirect`).
- **The direct decoder's per-run `NaN` checks never fire.** The direct `parseTimeString` never
  returns a `NaN` time: it turns a failed reading into DNS (utils/direct-parser.ts:210-221). So
  the per-run checks (67-70, 78-81, 110-113, 121-124) leave every slot unchanged
  (`Records.RunSlot`). They are kept as written, as guarded branches.
- **The `NaN` total checks can fire in JavaScript, but not in the model.** The comments at
  utils/direct-parser.ts:92 and 135 say a `NaN` total is set to null with both runs marked DNS
  (93-97, 136-140). In JavaScript this happens for `r1=Infinity` and `r2=-Infinity` (or
  `1e400` and `-1e400`): both parse to infinite numbers, which are not `NaN`, and their sum is
  `NaN`. The model reads with exact reals and has no infinities, so the sum of two numeric run
  times is always finite there, and the branch is modelled (`Records.Recalc`) but unreachable.
- **A line carries at most one fallback record.** The comment at utils/fallback-parser.ts:1 says
  a racer entry is made for each `|b=`. The code takes a single record per line, from the first
  `|b=` to the end of the line (`FallbackParser.LineRecord`).

## Model

| member | source | states |
|---|---|---|
| `JsText.IndexOf` | utils/fallback-parser.ts:24 | the result is -1 or a position where the pattern occurs, and the pattern occurs at no earlier position |
| `JsText.Split` | utils/direct-parser.ts:22 | there is at least one piece; with no occurrence the piece is the whole text, otherwise there are at least two pieces and the first is the text before the first occurrence |
| `JsText.JoinSplit` | utils/direct-parser.ts:18-22 | joining the pieces of a split with the same separator gives back the text |
| `JsText.SplitPiecesFree` | utils/direct-parser.ts:22 | no piece of a split contains the separator |
| `JsText.ContainsInJoin` | utils/direct-parser.ts:18 | a text found in one line is found in the lines joined together |
| `JsText.RemoveFirst` | utils/direct-parser.ts:13 | `replace` with a string pattern removes exactly the first occurrence: the text is the result with the pattern put back at that occurrence, and it is unchanged when there is none |
| `JsText.Trim` | utils/fallback-parser.ts:20 | the result is no longer than the text, and it has no white space at either end |
| `JsText.TrimKeeps` | utils/fallback-parser.ts:20 | trimming keeps one contiguous stretch of the text, starting after the leading white space; everything before and after it is white space |
| `JsText.TrimStart` | utils/direct-parser.ts:34-35 | only leading white space is removed, and the result does not start with white space |
| `JsText.TrimStartSuffix` | utils/direct-parser.ts:34 | what `trimStart` keeps is a suffix of the text |
| `JsText.TrimEnd` | utils/direct-parser.ts:34 | the result is a prefix of the text, only white space was removed, and it does not end with white space |
| `JsText.ContainsAfterTrim` | utils/fallback-parser.ts:20-25 | trimming cannot create an occurrence of a pattern |
| `JsNumbers.Plus` | utils/direct-parser.ts:91 | a sum is finite exactly when both operands are (`NaN` absorbs) |
| `JsNumbers.ParseInt` | utils/direct-parser.ts:35 | `parseInt` succeeds exactly when, after leading white space and an optional sign, the text starts with a digit; a negative result comes only from a `-` sign |
| `JsNumbers.ParseFloat` | utils/direct-parser.ts:209 | `parseFloat` succeeds exactly when, after leading white space and an optional sign, the text starts with a digit or with `.` and a digit; a negative result comes only from a `-` sign |
| `JsNumbers.ParseIntDigits` | utils/direct-parser.ts:35 | `parseInt` of a digit string followed by a non-digit is the value of the digits |
| `JsNumbers.ParseIntRoundTrip` | utils/direct-parser.ts:35-38 | `parseInt` reads back the decimal text of every integer |
| `JsNumbers.TrimIntText` | utils/direct-parser.ts:34 | the decimal text of an integer has no white space to trim |
| `JsNumbers.NatToStringValue` | utils/direct-parser.ts:38 | the decimal text of a natural number has that number as its value |
| `JsNumbers.ParseFloatDigits` | utils/direct-parser.ts:218 | `parseFloat` of a plain digit string is its integer value |
| `JsNumbers.ParseFloatDecimal` | utils/direct-parser.ts:209 | `parseFloat` of `whole.frac` is the exact decimal fraction |
| `TimeStrings.ParseTimeDirect` | utils/direct-parser.ts:193-230 | a number result is finite with an empty status; "on course" time exactly with "on course" status; a null time has status "", DNS, DNF or DSQ; null time with empty status exactly for the empty token |
| `TimeStrings.ParseTimeFallback` | utils/fallback-parser.ts:160-186 | as for the direct classifier, except that a number result may be `NaN` |
| `TimeStrings.DirectRules` | utils/direct-parser.ts:193-230 | a token starting with DNS, DNF or DSQ gives a null time with that status; the time is "on course" exactly when there is no such prefix and the lower-cased token contains "on course"; the status is DNS exactly for a DNS prefix, or for a non-empty token with no prefix, no "on course", and either `--` or a `NaN` reading; the time is a number exactly when none of these applies and the reading is finite, and it is then that reading with an empty status |
| `TimeStrings.FallbackRules` | utils/fallback-parser.ts:160-186 | the same prefix and "on course" rules as the direct classifier; every other non-empty token gives its reading as a number, `NaN` included, with an empty status |
| `TimeStrings.OnCourseAnyCase` | utils/direct-parser.ts:201 | a token passes the "on course" test exactly when it holds those words with each letter in either case |
| `TimeStrings.ClockValueFinite` | utils/direct-parser.ts:207-218 | with a colon the reading is finite exactly when the minutes parse with `parseInt` and the seconds with `parseFloat`; without one, exactly when the token parses with `parseFloat` |
| `TimeStrings.DirectHardensFallback` | utils/direct-parser.ts:193-230 | the two classifiers agree, except where the fallback yields a number and the token contains `--` or the number is `NaN`: there the direct classifier yields null time and DNS |
| `ClockReadings.ClockIsPlainNumber` | utils/direct-parser.ts:197-204 | a clock token starting with a digit matches none of the status, "on course" or `--` tests |
| `ClockReadings.NumericToken` | utils/direct-parser.ts:206-225 | such a token with a finite reading is classified as that reading with an empty status, identically by both classifiers |
| `ClockReadings.ClockSplit` | utils/direct-parser.ts:208 | in `m:rest` the colon splits off exactly the minutes and the rest |
| `ClockReadings.ClockValueOf` | utils/direct-parser.ts:207-209 | the reading of `m:ss.ff` is `(m * 60 + ss.ff) * 1000` |
| `ClockReadings.SecondsReading` | utils/direct-parser.ts:217-225 | a token `ss.ff` is classified as `ss.ff * 1000` milliseconds with an empty status, in both dialects |
| `ClockReadings.ClockReading` | utils/direct-parser.ts:207-216 | a token `m:ss.ff` is classified as `(m * 60 + ss.ff) * 1000` milliseconds with an empty status, in both dialects |
| `ClockReadings.ExamplePlaceholder` | utils/fallback-parser.ts:160-182 | the placeholder `--:--.-` is DNS for the direct decoder but a `NaN` time with an empty status for the fallback one |
| `Records.GuardNaN` | utils/direct-parser.ts:66-70 | the direct decoder never keeps a `NaN` run time; the raw token is kept; a non-`NaN` slot, or any slot of the fallback decoder, is unchanged |
| `Records.RunSlot` | utils/direct-parser.ts:60-81 | an `r1=`/`r2=` token gives a slot with the trimmed token as raw text and the classifier's time and status: the direct decoder's `NaN` check never changes it, and never leaves a `NaN` time |
| `Records.BibOf` | utils/direct-parser.ts:34-35 | the bib is the parsed integer after `b=` when that parses to a number other than 0, and the running id when it fails to parse or is 0; it is never 0 once ids are non-zero |
| `Records.BibRoundTrip` | utils/direct-parser.ts:34-35 | a record whose first field is `b=` and the text of a non-zero number gets that number as its bib |
| `Records.ApplyField` | utils/direct-parser.ts:50-86 | one field sets the name for `m=`, the club for `c=`, the class for the dialect's class key (trimmed text after the key), the timestamp for `ms=` (`parseInt` of the trimmed text), and the first or second run slot for `r1=`/`r2=` (the slot of the trimmed text); every other part is unchanged; it never changes id, bib or total, and never introduces a `NaN` run time in the direct decoder |
| `Records.ScanFields` | utils/direct-parser.ts:50-86 | the field loop keeps id, bib and total, and introduces no `NaN` run time in the direct decoder; what each key leaves is stated by `Records.ScanName` through `Records.ScanTimestamp` |
| `Records.ScanName` | utils/direct-parser.ts:51-52 | the name is the trimmed text of the last `m=` field, or the default |
| `Records.ScanClub` | utils/direct-parser.ts:58-59 | the club is the trimmed text of the last `c=` field, or the default |
| `Records.ScanClass` | utils/fallback-parser.ts:73-76 | the class is the trimmed text of the last field with the dialect's class key (`s=` direct, `g=` fallback), or the default; the other key is ignored |
| `Records.ScanRun1` | utils/direct-parser.ts:60-70 | the first run slot is the slot of the trimmed text of the last `r1=` field, or the default |
| `Records.ScanRun2` | utils/direct-parser.ts:71-81 | the second run slot is the slot of the trimmed text of the last `r2=` field, or the default |
| `Records.ScanTimestamp` | utils/direct-parser.ts:53-57 | the timestamp is `parseInt` of the trimmed text of the last `ms=` field (null when it fails), or the default |
| `Records.Recalc` | utils/direct-parser.ts:88-98 | with two numeric runs the total becomes their sum and the statuses are kept, except that a `NaN` sum in the direct decoder gives a null total with both runs DNS; without two numeric runs the record is unchanged; identity, run times, raw tokens and timestamp are never changed |
| `Records.RecordOfInv` | utils/direct-parser.ts:88-98 | a freshly read record has a total exactly when both runs are numbers, equal to their sum, and for the direct decoder no `NaN` anywhere |
| `Records.RecordOf` | utils/direct-parser.ts:28-98 | a record read with the running id takes that id |
| `Records.RecordOfBib` | utils/direct-parser.ts:34-35 | a freshly read record carries the bib rule's bib, never 0 once ids start at 1 |
| `Records.ReadRecord` | utils/direct-parser.ts:28-98 | the bib, the defaults, the field loop, then the total, yield exactly the specified record |
| `Records.ReadFields` | utils/direct-parser.ts:49-86 | the field loop with its per-field locals yields exactly the scan of the fields |
| `Records.ReadRun` | utils/direct-parser.ts:60-81 | an `r1=`/`r2=` branch, classification then `NaN` check, yields exactly the slot the token gives |
| `Merging.MergeSlot` | utils/direct-parser.ts:105-114 | without the precedence rule the stored slot is kept; with it, the incoming slot is taken whole, except that the direct decoder guards a `NaN` |
| `Merging.Merge` | utils/direct-parser.ts:101-141 | a merge never changes id, name, bib, club or class, and a present incoming timestamp replaces the stored one, which is otherwise kept |
| `Merging.MergeSlots` | utils/direct-parser.ts:105-125 | for well-formed records, each run's time, status and raw token are the incoming ones exactly when the incoming time is a number, or "on course" over a null time, and the stored ones otherwise |
| `Merging.MergeNeverDowngrades` | utils/direct-parser.ts:104-125 | a merge never moves a run down the order null < "on course" < number, and an incoming null-time status never replaces the stored slot |
| `Merging.MergeInv` | utils/direct-parser.ts:132-141 | a merge keeps the total derived from the runs, and for the direct decoder keeps every time free of `NaN` |
| `Merging.MergeRecord` | utils/direct-parser.ts:100-141 | the in-place field updates of the merge yield exactly the specified merge |
| `RacerTable.InsertValid` | utils/direct-parser.ts:100-159 | inserting a well-formed record carrying the next id keeps the map valid: distinct bibs equal to the keys, ids 1..n in insertion order, the counter one past the last id |
| `RacerTable.StepValid` | utils/direct-parser.ts:25-159 | reading and inserting one raw record keeps the map valid |
| `RacerTable.InsertExtends` | utils/direct-parser.ts:101-159 | an insertion only extends the bib order, by at most one bib, and every stored racer keeps its id, name, bib, club and class |
| `RacerTable.InsertStores` | utils/direct-parser.ts:100-159 | the record is stored under its bib: merged into the stored record when the bib is known, with order and counter unchanged; otherwise as is, with the bib appended and the counter advanced; every other bib keeps its record |
| `RacerTable.FoldValid` | utils/direct-parser.ts:25-163 | any sequence of raw records leaves the map valid |
| `RacerTable.FoldExtends` | utils/direct-parser.ts:25-163 | later records never undo earlier ones: the earlier bib order is a prefix of the later one, and earlier racers keep their identity |
| `RacerTable.FoldStores` | utils/direct-parser.ts:25-159 | every raw record's bib, read with the counter it met, is among the output bibs |
| `RacerTable.FoldCount` | utils/direct-parser.ts:142-159 | there are never more racers than records, and at least one record gives at least one racer |
| `RacerTable.DecodedRacers` | utils/direct-parser.ts:166-167 | the returned racers are well formed: ids 1..n in order, pairwise distinct bibs, totals derived from the runs |
| `RacerTable.Upsert` | utils/direct-parser.ts:28-159 | one pass of the section loop is one step: read the record, then merge it or append it and advance the counter |
| `RacerTable.Values` | utils/direct-parser.ts:167 | the copy loop yields the stored records in insertion order |
| `RaceHeader.RaceName` | utils/direct-parser.ts:8-15 | with the marker in the second header field, the name is that field without its first marker, trimmed, no longer than the field less the marker; otherwise "Ski Race" |
| `RaceHeader.RaceNameEmpty` | utils/direct-parser.ts:8-15 | an empty feed is named "Ski Race" |
| `RaceHeader.RaceNameFirstLine` | utils/fallback-parser.ts:8-15 | nothing after the first newline changes the race name |
| `DirectParser.Decode` | utils/direct-parser.ts:3-191 | the result carries the header's race name and no more racers than records, and its racers are well formed and free of `NaN`: ids 1..n in order, pairwise distinct bibs, totals derived from the runs |
| `DirectParser.RecordPerMark` | utils/direct-parser.ts:17-28 | one raw record per `|b=` of the newline-stripped text: the pieces rejoined with `|b=` give the text, no piece contains `|b=`, every piece after the first is one record |
| `DirectParser.HeaderNeverARecord` | utils/direct-parser.ts:20-25 | text before the first `|b=` is the first piece, which never forms a record |
| `DirectParser.ParseRaceData` | utils/direct-parser.ts:3-191 | the decoder's header test, section loop and copy yield exactly the race name and the racers of the specified fold |
| `DirectParser.ScanSections` | utils/direct-parser.ts:25-163 | the section loop leaves the map and counter of the fold over the records |
| `DirectParser.DecodeCount` | utils/direct-parser.ts:18-28 | racers are found exactly when the newline-stripped text contains `|b=` |
| `FallbackParser.LineRecord` | utils/fallback-parser.ts:20-29 | a line gives a record exactly when its trimmed text contains `|b=`; the record is the trimmed line from its first `|b=` on, less the `|`, and starts with `b=` |
| `FallbackParser.LineRecords` | utils/fallback-parser.ts:19-29 | at most one record per line |
| `FallbackParser.LineRecordsEmpty` | utils/fallback-parser.ts:19-25 | the lines give a record exactly when some trimmed line contains `|b=` |
| `FallbackParser.Decode` | utils/fallback-parser.ts:3-158 | the result carries the header's race name, racers ≤ records ≤ lines, and its racers are well formed: ids 1..n in order, pairwise distinct bibs, totals derived from the runs |
| `FallbackParser.ParseFallbackRaceData` | utils/fallback-parser.ts:3-158 | the decoder's header test, line loop and copy yield exactly the race name and the racers of the specified fold |
| `FallbackParser.ScanLines` | utils/fallback-parser.ts:19-130 | the line loop leaves the map and counter of the fold over the lines' records |
| `FallbackParser.ScanLine` | utils/fallback-parser.ts:20-126 | a blank line or one without `|b=` changes nothing; any other line is one step with its record |
| `FallbackParser.DecodeCount` | utils/fallback-parser.ts:19-134 | racers are found exactly when some trimmed line contains `|b=` |
| `Api.Sample` | utils/api.ts:68 | the raw sample is the prefix of the text of length min(length, 1000) |
| `Api.FetchResult` | utils/api.ts:46-88 | a timeout gives "Fetch Timeout" and a non-ok status or other failure gives "Error Loading Race", both with no racers and no sample; the sample is present exactly for an ok response, and is then the sample of the text |
| `Api.FetchRaceData` | utils/api.ts:44-88 | the status test, the direct decoder and the fallback yield exactly the specified result |
| `Api.FallbackNeverRescues` | utils/api.ts:72-81 | when the direct decoder finds no racer, the fallback finds none either |
| `Api.FetchIsDirect` | utils/api.ts:59-81 | an ok response resolves to the direct decoder's name and racers with the sample, and has racers exactly when the newline-stripped text contains `|b=` |
| `Api.FetchWellFormed` | utils/api.ts:59-88 | whatever the outcome, the racers are well formed and free of `NaN` |
| `Api.OrEmpty` | utils/api.ts:108-111 | an absent status or raw token becomes "", a present one is kept |
| `Api.ConvertToAppRacer` | utils/api.ts:95-111 | every field of the live record reaches the application record under its new name, the start number is the one given, a missing timestamp becomes null, and a missing status or raw token becomes "" |
| `Api.ConvertKeepsDecoded` | utils/api.ts:95-111 | every field of a decoded racer reaches the application record unchanged, under its new name, and the start number is the one given |

## Left out

- The request itself is not modelled: the URL, headers, `fetch`, the ten-second `AbortController` timer, `clearTimeout` and reading the body (utils/api.ts:28-56). The outcome is a parameter: a response (status and text), a timeout, or another failure.
- `console.log`/`console.error` and the per-section and per-line `try`/`catch` are left out. Nothing in the modelled code can throw, so the `catch` branches (including those of both `parseTimeString`) are unreachable.
- The commented-out sort blocks are dead code and are not modelled.
- `formatTime`, `formatCompletionTime` and `formatCompletionTimeWithDate` are not modelled. They are presentation, and rely on floating point, `Date` and a timezone shift.
- The UI components and pages are not part of this model.
- IEEE double arithmetic is not modelled: rounding, `-0`, and `Infinity` are left out. Durations are exact reals. As a consequence, no finite sum is `NaN`, and the direct decoder's `NaN` total branch cannot be taken in the model.
- `JsNumbers.ParseFloat` does not model the `Infinity` literal that JavaScript's `parseFloat` accepts; such a token reads as `NaN` in the model.
- `JsNumbers.ParseInt` does not model the loss of precision or the `Infinity` that very long digit strings give in JavaScript. So `Number.isFinite` on an `ms=` value always holds in the model, and the timestamp is present whenever the text parses.
- `JsText.ToLower` maps only the ASCII letters. Non-ASCII case mapping is not modelled, so `TimeStrings.OnCourseAnyCase` speaks of ASCII letter case only.
- The in-place update of the stored record object is modelled as replacing the map entry with the merged record. The decoders hold no other reference to it, so no aliasing is lost.
- `ClockReadings.ClockReading` and `ClockReadings.SecondsReading` state the readings of `m:ss.ff` and `ss.ff` tokens for all digit strings. The worked instances "1:02.30" → 62300 and "58.90" → 58900 are not stated as separate lemmas.
- `Api.Sample` counts characters where `substring` counts UTF-16 code units. Outside the Basic Multilingual Plane the sample differs, and JavaScript may cut a surrogate pair in half.
