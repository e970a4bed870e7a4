# Floodlight 30-day impression ingest, in Dafny

This project models the ingest step of the Floodlight comparator
(`compareIngestActivityReport` in `comparator.js`). A user pastes a
last-30-day DCM activity report (activity name, activity ID, date, impressions)
into the paste tab. The ingest then:

1. reads the low-impressions threshold from "Run Details" (C24). A blank cell is
   seeded with 20, and a value that is not a number also gives 20;
2. groups the report rows by trimmed activity ID into an insertion-ordered map. Each
   record holds the impression total, the set of distinct days, the earliest and latest
   day, and the first non-empty activity name. Rows whose ID trims to nothing are skipped;
3. writes each known activity's total into column L of "Get Floodlight Activities",
   or 0 when the report does not mention it;
4. builds the "Activity Health" rows. Each known activity gets a row, in sheet order,
   with status "No Activity" for a zero total, "Low impressions — check if still
   needed" for a non-zero total below the threshold, and "OK" otherwise. Then each
   reported ID the sheet does not list gets an "Unknown FL" row, in the order the
   report first mentions it.

Modules:

- `Wrappers` (wrappers.dfy) holds `Option` and `Result`.
- `Text` (text.dfy) holds ECMAScript `String.prototype.trim` over its full white-space
  set, and the decimal rendering of an integer inside a template literal.
- `Aggregation` (aggregation.dfy) holds the per-ID map and the loop that builds it.
- `Health` (health.dfy) holds the health rows.
- `Ingest` (ingest.dfy) holds the threshold, the column-L write-back and the whole
  ingest with its error cases.

Every loop is a `method` proved against a specification function. `Aggregate` is
proved against `AggOf` and `KeyOrder`, which apply the report rows first to last
by recursing on the last row.
`BuildHealthRows` is proved against `KnownRow`, `UnknownRow` and `UnknownIds`, and
`WriteBackColumn` fills a fresh array. The lemmas then tie those functions to
reference definitions that do not share their shape:

- `SumOf` recurses on the first row instead.
- `DaysOf` is a set comprehension.
- `IsFirstName` is an existential over row positions.
- `TotalFor` sums per-ID totals.

A report date is a day number: a row whose date cell is empty or does not parse has
`None`. An impressions cell is an integer, and an empty one counts as 0. Sheet cells
arrive already converted to strings, and sheet reads and writes are inputs and
outputs of the methods.

## Model

| member | source | states |
|---|---|---|
| Text.TrimShape | comparator.js:95 | the trimmed ID is a slice `s[i..j]` of the cell text whose prefix and suffix are all white space |
| Text.TrimEnds | comparator.js:95 | a non-empty trimmed ID neither starts nor ends with white space |
| Text.TrimStartShape | comparator.js:95 | stripping leading white space leaves a suffix of the cell that starts with a non-space, and all it drops is white space |
| Text.TrimEndShape | comparator.js:95 | stripping trailing white space leaves a prefix of the cell that ends with a non-space, and all it drops is white space |
| Text.TrimEmptyIff | comparator.js:95-98 | an ID cell trims to "" (and its row is skipped) exactly when it holds only white space |
| Text.TrimIdempotent | comparator.js:76 | trimming an already trimmed ID changes nothing |
| Text.IntText | comparator.js:212 | the threshold's text is never empty, starts with '-' exactly for a negative threshold, is digits everywhere else, and has no leading zero except the text "0" itself |
| Text.NatTextDigits | comparator.js:212 | the decimal text of a natural number is a non-empty run of digits that starts with '0' only for 0, written "0" |
| Text.NatTextRoundTrip | comparator.js:212 | reading back the digits of a natural number gives the number |
| Text.IntTextRoundTrip | comparator.js:212 | the threshold written into the note reads back as the threshold, including a negative one |
| Aggregation.Aggregate | comparator.js:92-119 | the loop leaves the keys in first-appearance order. A key is in the map exactly when it is non-empty and some row trims to it, and its record is the fold of exactly those rows |
| Aggregation.FoldRow | comparator.js:95-118 | one iteration: skip a blank ID, create the record on first sight with that row's name, add the impressions, add the day and widen first/last, fill an empty name |
| Aggregation.AggOfMeaning | comparator.js:92-119 | the map has the same keys as the order list, exactly the non-blank IDs the report uses, and each record is the fold of that ID's rows |
| Aggregation.AggOfSummarises | comparator.js:92-119 | after every prefix of the report, the map and the key order describe that prefix |
| Aggregation.RowsForMembers | comparator.js:95-98 | the rows grouped under an ID are exactly the report rows whose trimmed ID is that ID |
| Aggregation.KeyOrderFirstAppearance | comparator.js:109 | the map's keys are in first-appearance order: of two keys, some row with the earlier key comes before every row with the later key |
| Aggregation.KeyOrderMembers | comparator.js:109 | map keys are distinct, and an ID is a key exactly when it is non-empty and used by some row |
| Aggregation.BlankIdRowIgnored | comparator.js:98 | a row whose ID trims to nothing changes neither the keys, nor any ID's rows, nor the impressions counted |
| Aggregation.AddRow | comparator.js:110-118 | one row adds its impressions (0 when blank); an undated row leaves days and dates alone; a dated row adds its day, first becomes the earlier of the old first and the day, and last the later of the old last and the day; a non-empty name is never replaced, and an empty one takes the row's name |
| Aggregation.StatsSum | comparator.js:97-111 | a record's total is the sum of its rows' impressions, blank cells counting 0 |
| Aggregation.StatsDays | comparator.js:112-113 | `days` is exactly the set of dates of the dated rows, so "Days Seen" is at most the row count |
| Aggregation.StatsFirstLast | comparator.js:114-116 | first and last are set exactly when some row is dated, both are among the days, and every day lies between them |
| Aggregation.StatsName | comparator.js:109-118 | the kept name is empty only if every row's name is, and otherwise it is the first non-empty name in report order |
| Aggregation.NameIsKept | comparator.js:118 | once a record has a name, later rows never replace it |
| Aggregation.TotalForStep | comparator.js:111 | one more row raises the summed totals of distinct IDs by its impressions exactly when its ID is among them |
| Aggregation.ImpressionsConserved | comparator.js:92-119 | summed over all map keys, the totals equal the impressions of every row with a non-blank ID, so nothing is lost or counted twice |
| Health.BuildHealthRows | comparator.js:192-228 | one row per known ID in list order, then one "Unknown FL" row per map key not in the known list, in map order, and nothing else |
| Health.KnownHealthRows | comparator.js:195-215 | the known loop: row i carries known ID i and name i, that ID's record (or zeros when absent), and its status and note |
| Health.AppendUnknownRows | comparator.js:218-228 | the unknown pass keeps the rows before it and appends, per unknown key, the record's name, total, day count and dates, with status "Unknown FL" |
| Health.Classify | comparator.js:205-213 | "No Activity" exactly for a zero total, low exactly for a non-zero total under the threshold, "OK" exactly for a non-zero total at least the threshold, and never "Unknown FL" |
| Health.NoteText | comparator.js:206-212 | the note is empty exactly for "OK", and the low note has the form "Below threshold (…)" |
| Health.KnownRow | comparator.js:196-214 | a known row carries its ID and sheet name, the record's total, day count and dates when the map has the ID, and otherwise 0, no days, no dates and "No Activity"; its status is the classification of its total and its note matches the status |
| Health.UnknownRow | comparator.js:219-226 | an unknown row carries the ID, the record's kept name, total, day count and dates, status "Unknown FL" and the note "Not in Get Floodlight Activities" |
| Health.StatusTextDistinct | comparator.js:205-226 | the four Status column labels are distinct, so two rows show the same label exactly when they have the same status |
| Health.KnownRowStatus | comparator.js:205-213 | "No Activity" iff the total is 0, low iff a non-zero total is under the threshold, "OK" iff a non-zero total is at least the threshold; never "Unknown FL"; the Status column shows the matching label; the low note is "Below threshold (…)" and the threshold reads back from it |
| Health.UnknownIdsMembers | comparator.js:218-219 | the unknown IDs are exactly the map keys not in the known list, each once when the keys are distinct |
| Health.UnknownIdsKeepOrder | comparator.js:218 | unknown rows keep map insertion order: of two unknown IDs, the earlier one comes earlier in the key order |
| Ingest.SeedThreshold | comparator.js:152 | only a blank threshold cell is changed, and it becomes the number 20 |
| Ingest.Threshold | comparator.js:152-157 | the threshold is the cell's number, or 20 for a blank or non-numeric cell |
| Ingest.ThresholdFallback | comparator.js:152-157 | seeding twice is seeding once, and reading the seeded cell again gives the same threshold |
| Ingest.WriteBackColumn | comparator.js:123-127 | column L has one fresh cell per known ID, holding the map total for IDs in the map and 0 otherwise |
| Ingest.GfaIds | comparator.js:76 | the known IDs are the sheet's ID cells, trimmed, one per data row |
| Ingest.GfaNames | comparator.js:77 | the known names are the sheet's name cells, one per data row |
| Ingest.IngestActivityReport | comparator.js:61-138 | a missing activities sheet, a missing paste sheet, or an activities sheet without data rows each give their error, checked in that order; otherwise the result is `Ingested`: the threshold used, column L, and every field of every known and unknown health row in terms of the report (0 days and no dates for a blank or unreported known ID) |
| Ingest.BuildOutput | comparator.js:76-135 | column L holds each known ID's report total; known rows agree with column L, are classified by it with the matching note, and carry the report's day count (0 for a blank or unreported ID) and first and last dates; each unknown row is the row of its ID's report record, with its kept name |
| Ingest.KnownTotal | comparator.js:198-202 | reading a map built from the report gives an ID its report record (total, distinct days, dates), and the empty record when it is absent |
| Ingest.ColumnFromMap | comparator.js:123-127 | the write-back column holds, for each known ID, the impressions of that ID's report rows |
| Ingest.KnownRowsFromMap | comparator.js:195-215 | each known row's total equals its column-L cell, its status and note follow that total, and its day count and dates are the report's for the ID (0 days and no dates for a blank or unreported ID) |
| Ingest.UnknownRowsFromMap | comparator.js:218-228 | each unknown row is the row of its ID's report record: kept name, total, distinct-day count and dates |
| Ingest.UnknownReportIds | comparator.js:218-219 | the unknown rows name exactly the non-blank reported IDs missing from the known list, each once |
| Ingest.HealthCoversReport | comparator.js:195-228 | every reported non-blank ID appears as a known row or as an unknown row, never both and never neither |

## Left out

- Sheet access: finding or creating tabs, reading ranges, writing values, headers, frozen rows, bold text and backgrounds. Sheets are method inputs, the new column and rows are outputs, and a missing sheet is an `Option` input.
- Conditional formatting, `applyZeroRedFormatting_` and the status colour rules of the health tab: presentation only.
- The "Avg/Day (30d)" column: floating-point division and `Math.round` are not modelled.
- Date handling: `instanceof Date`, `new Date(...)` parsing, formatting in the script time zone, and the `T00:00:00` local-midnight round trip. A date is an already normalised day number, or None when the cell is empty or does not parse. First and last dates are kept as day numbers, not formatted text.
- Cell-to-value conversion: `String(x || '')`, `Number(x || 0)`, and JavaScript's NaN, floats and non-integer numbers. Impressions and the threshold are integers, so a 0 or `false` ID cell that JavaScript reads as blank must be given as blank text.
- Ingest.ThresholdFallback: `ThresholdCell` only distinguishes blank, integer and non-numeric cells, so a text cell that `Number` converts (e.g. " " to 0) must be given as its number.
- Writing "LOW_IMPS_THRESHOLD" into B24 and the seeding write into C24: a side effect on the sheet. Only its effect on the threshold read back is modelled (`SeedThreshold`).
- Health.NoteText: the number in the low note is written by `Text.IntText`, which covers integer thresholds only; exponent or fractional renderings of other numbers are out of scope.
- Ingest.WriteBackColumn: the per-row inner arrays `[0]` are modelled as the cells of one fresh `int` array; aliasing between rows, which the fresh arrays avoid, is not modelled.
- Aggregation.Aggregate: the loop body is the separate method `FoldRow`, so that each iteration is verified on its own.
- The toast messages, the paste-tab setup, ONOPEN.js and the other comparator flows (GTM and Floodlight audits) are not part of this model.
