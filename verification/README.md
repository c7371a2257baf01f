# Space-missions dashboard: the data engine

A model of the logic inside the space-missions dashboard component
(`src/App.js`). It has three parts.

- **The CSV reader `parseCSV`.** A character scan with an in-quotes flag
  splits each line into fields. The first line gives the column names. Every
  other non-blank line becomes a record mapping each column name to its cell.
- **The eight query functions.** These are `getMissionCountByCompany`,
  `getSuccessRate`, `getMissionsByDateRange`, `getTopCompaniesByMissionCount`,
  `getMissionStatusCount`, `getMissionsByYear`, `getMostUsedRocket` and
  `getAverageMissionsPerYear`. They count, filter and rank a sequence of
  records, and each has guard clauses that answer a neutral value.
- **The derived views.**
  - The filtered table, and the sorted table together with the ascending or
    descending toggle of `handleSort`.
  - The summary statistics.
  - The three chart series: missions per year, the top ten companies, and
    missions per status.

## Modules

- `Wrappers`: the `Option` type.
- `Strings`: JavaScript's `trim` and its whitespace set, and code-unit string
  order for `<` and `localeCompare`. It also has `split('\n')`/`join`,
  `startsWith`, `String(year)` for four-digit years and `parseInt`.
- `Seqs`: `filter`, `map`, a stable insertion sort (`Array.prototype.sort` is
  stable), distinctness and subsequences.
- `Dataset`: a record is `map<string, string>`. Reading a column the record
  lacks gives `undefined`, modelled as `None`. Used as an object key, that
  becomes the text `"undefined"`.
- `Csv`: `parseCSV`. It contains the scanner exactly as written, a
  scanner-free description of where a line splits, and the zipping of cells
  against column names. It also contains a writer for tables of plain cells,
  used to state the reader's round trip.
- `Grouping`: the `counts[key] = (counts[key] || 0) + 1` tally followed by
  `Object.entries`. It lists each key once, in first-occurrence order, with
  its count. It also has the ranking "count descending, then name ascending"
  used by the top-N and most-used-rocket queries.
- `Queries`: the eight query functions.
- `Views`: `filteredData`, `sortedData`, `handleSort`, `stats`,
  `missionsByYear`, `topCompanies` and `statusData`.

## Semantics and deviations

**No dataset.** "No dataset loaded" (`csvData` null) is modelled as the
empty sequence. Every query and view answers the same for both.

**Rates and averages.** These are exact `Ratio(num, den)` values: the
percentage `100 * successes / missions` and `missions / years`. Rounding is
left out; see "Left out".

**Missing Date.**
- A record without a `Date` makes `m.Date.startsWith` and `m.Date.substring`
  throw. The `catch` then answers 0 for the whole call, so `MissionsByYear`
  and `AverageMissionsPerYear` return 0 unless every record has a `Date`.
- In `filteredData`, `undefined < "…"` is false, so such a record passes the
  date filters.
- In `getMissionsByDateRange`, `undefined >= start` is false, so the record is
  not kept.

**Where the documented behaviour and the code differ, the model follows the code.**
- A company name made only of whitespace counts as blank (`trim()` is
  applied).
- The `topCompanies` chart sorts by count alone. Companies with equal counts
  keep their tally order (`Views.CompanyBarsStable`). The name tie-break
  applies only to the two ranking queries.
- `getMissionsByDateRange` checks only the shape `dddd-dd-dd` of its bounds,
  not whether the month or day is valid.
- Parsing a file with no data lines gives the empty sequence. The "no data"
  message belongs to the upload handler.

## Model

| member | source | states |
|---|---|---|
| Csv.TokenizeSplitsAtUnquotedCommas | src/App.js:38-48 | the fields of a line are the pieces between the commas that stand outside quotes (an odd number of `"` before a comma means it is inside), each with its quotes removed and trimmed |
| Csv.FieldCount | src/App.js:38-48 | a line has one field more than it has commas outside quotes |
| Csv.TokenizeFieldsClean | src/App.js:38-48 | no field contains a double quote, and none has whitespace at either end |
| Csv.QuotedCommaExample | src/App.js:38-48 | the quoted cell `"Alpha, Beta"` reads as the single field `Alpha, Beta` |
| Csv.CleanFieldOfPlain | src/App.js:42 | for text with no double quote, the quote-stripping `replace` changes nothing: cleaning is trimming |
| Csv.MakeRecord | src/App.js:49-52 | a record's keys are exactly the column names; duplicate names give one key |
| Csv.MakeRecordCell | src/App.js:49-52 | a column holds the cell at the position where its name last occurs (last duplicate wins), or `''` when the row is too short |
| Csv.ExtraCellsDropped | src/App.js:49-52 | cells past the last column do not affect the record |
| Csv.AsWrittenIsRecords | src/App.js:33-54 | turning every data line into its record, or null when the line is blank, and then dropping the nulls gives exactly the records of the non-blank lines, in order |
| Csv.ParseCsv | src/App.js:14-56 | there are no more records than data lines (lines after the first) |
| Csv.ParseCsvShape | src/App.js:14-56 | one record per non-blank data line, each with exactly the header's column names as keys |
| Csv.ParseSerialize | src/App.js:14-56 | reading a written table of plain cells (commas allowed) gives the header back, one record per row, and every row's cells under their column names |
| Grouping.GroupCounts | src/App.js:141-144 | the tally names each key once, gives each the number of times it occurs, and names exactly the keys that occur |
| Grouping.GroupTotal | src/App.js:141-144 | the tally's counts add up to the number of keys counted |
| Grouping.RankedSpec | src/App.js:146-149 | the ranking lists each distinct key once, with its count, strictly ordered by count descending and then name ascending |
| Queries.MissionCount | src/App.js:85-95 | the count never exceeds the number of records |
| Queries.MissionCountSpec | src/App.js:85-95 | a blank or whitespace-only name gives 0; otherwise the count is the number of records whose Company is exactly the name |
| Queries.SuccessRate | src/App.js:97-113 | the rate is 0 when the company has no missions; otherwise its denominator is the company's mission count and the rate lies in [0, 100] |
| Queries.SuccessRateSuccesses | src/App.js:103-107 | for a company with missions, the numerator is 100 times the number of records that belong to the company and have status Success |
| Queries.SuccessRateZero | src/App.js:103-107 | for a company with missions, the exact ratio is 0 exactly when none of its missions succeeded |
| Queries.SuccessRateFull | src/App.js:103-107 | for a company with missions, the exact ratio is 100 exactly when all of its missions succeeded |
| Queries.MissionsByDateRangeGuards | src/App.js:115-123 | no data, a bound not of the shape `dddd-dd-dd`, or a start after the end gives `[]` |
| Queries.MissionsByDateRangeSpec | src/App.js:125-133 | for valid bounds, the answer holds the Mission of each record dated between the bounds, as many times as such records carry it, and nothing else |
| Queries.DateShapeUsable | src/App.js:119-121 | a bound of the date shape always passes the blank check |
| Queries.DateBeforeStrictOrder | src/App.js:129 | the Date comparator is a strict order |
| Queries.DateRangeSpec | src/App.js:125-129 | for valid bounds, exactly the records with start ≤ Date ≤ end are kept, each as often as in the data, ordered by non-decreasing Date |
| Queries.DateRangeStable | src/App.js:129 | records with the same Date keep their file order |
| Queries.TopCompaniesSpec | src/App.js:136-156 | negative n gives `[]`; otherwise min(n, number of companies) entries, each with the company's record count, in strictly decreasing rank, and every company left out ranks below every one kept |
| Queries.TopCompaniesPrefix | src/App.js:146-153 | the top n is a prefix of the top m for n ≤ m |
| Queries.RocketKeysMembers | src/App.js:212-216 | a rocket is counted exactly when some record has it as a non-empty Rocket |
| Queries.RocketKeysCount | src/App.js:212-216 | a rocket's tally is the number of records flying it |
| Queries.RocketKeysEmpty | src/App.js:212-216 | nothing is counted exactly when no record has a non-empty Rocket |
| Queries.MostUsedRocketEmpty | src/App.js:207-230 | the answer is `''` exactly when no record has a non-empty Rocket |
| Queries.MostUsedRocketMax | src/App.js:207-230 | the answer is some record's rocket, and every other rocket flies fewer times, or as many times with a larger name |
| Queries.CountStatuses | src/App.js:176-180 | the tally keeps exactly the four status keys |
| Queries.StatusTally | src/App.js:158-192 | the result has exactly the four keys Success, Failure, Partial Failure and Prelaunch Failure, also for an empty dataset |
| Queries.StatusTallyCounts | src/App.js:169-181 | a status is a key exactly when it is one of the four, and its value is the number of records carrying it |
| Queries.StatusTallyTotal | src/App.js:176-181 | the values add up to the number of records whose status is one of the four; other statuses change nothing |
| Queries.MissionsByYear | src/App.js:194-205 | the count never exceeds the number of records |
| Queries.MissionsByYearSpec | src/App.js:194-205 | a year outside [1900, 2100], or a record without a Date, gives 0; otherwise it counts the records whose Date starts with the year's four digits |
| Queries.AverageMissionsPerYear | src/App.js:232-261 | a non-zero answer needs 1900 ≤ start ≤ end ≤ 2100 and has denominator end − start + 1; the numerator never exceeds the number of records |
| Queries.OneYearMatch | src/App.js:246-247 | for a year in [1900, 2100], a record counts for the single-year average exactly when `parseInt` of its year prefix is the year, which is exactly when `getMissionsByYear` counts it (its Date starts with the year's spelling) |
| Queries.AverageOfOneYear | src/App.js:232-261 | for every year y, the average over the single year y is `getMissionsByYear(y)` over 1 |
| Queries.AverageSplit | src/App.js:245-253 | splitting the year range splits the numerator into the two halves' numerators |
| Queries.AverageIsYearlySum | src/App.js:240-253 | the numerator is the sum of the per-year counts over the range |
| Strings.ParseYearPrefix | src/App.js:246 | for a four-digit year, `parseInt` of a date's first four characters gives that year exactly when the date starts with the year's decimal spelling |
| Strings.YearString | src/App.js:200 | `String(year)` of a four-digit year has four digits, no leading zero, and denotes the year |
| Strings.TrimBlank | src/App.js:34 | `trim()` gives the empty string exactly when the text is all whitespace |
| Views.FilteredView | src/App.js:276-285 | every record kept passes every non-empty filter, and no records are added |
| Views.FilteredViewSpec | src/App.js:276-285 | the view is a subsequence of the data holding every passing record as often as the data does, exactly the passing ones, and all of them when every filter is empty |
| Views.FilterNarrows | src/App.js:278-283 | stricter filters give a sub-multiset of the view |
| Views.ToggleSort | src/App.js:344-349 | the new sort key is the column clicked |
| Views.ToggleSortSpec | src/App.js:344-349 | the direction becomes descending exactly when the same column was ascending; clicking again flips it, and three clicks equal one |
| Views.BeforeStrictOrder | src/App.js:289-293 | the comparator is a strict order in either direction |
| Views.SortedViewSpec | src/App.js:287-295 | with no key, as in the initial state, the rows are unchanged; otherwise they are a permutation in non-decreasing (ascending) or non-increasing (descending) order of the column |
| Views.SortedViewStable | src/App.js:289-293 | rows with equal cells in the sort column keep their relative order |
| Views.StatsOf | src/App.js:297-304 | no statistics for no rows; otherwise the total is the number of rows and the success percentage is at most 100 |
| Views.StatsSuccessCount | src/App.js:299-303 | the success percentage's numerator is 100 times the number of rows whose status is Success |
| Views.YearSeriesSpec | src/App.js:307-317 | one point per distinct year prefix among dated rows, each with its row count, in strictly increasing year order |
| Views.YearKeysCount | src/App.js:310-315 | only rows with a Date are counted, each once |
| Views.CompanyBarsContents | src/App.js:320-330 | at most ten bars, one per company, each with the company's row count |
| Views.CompanyOrderRanks | src/App.js:326-327 | before the cut, counts never increase and every company has its bar |
| Views.CompanyBarsOrder | src/App.js:320-330 | the bars are in non-increasing count order, and a company left out has no more rows than any company shown |
| Views.CompanyBarsStable | src/App.js:326-327 | companies with equal counts stay in tally order |
| Views.StatusSlicesSpec | src/App.js:333-340 | one slice per distinct status, each sized by its row count, and the sizes add up to the number of rows |

## Left out

- React state, hooks, the `window.*` exposure and all rendering (charts,
  table, pagination): these are user interface, not logic. Each `useMemo`
  body is a pure function of its inputs.
- File upload, the extension check, `alert` and `console`: this is I/O. The
  model starts from the file's text.
- Queries.SuccessRate: `parseFloat(rate.toFixed(2))` rounding is not
  modelled, because the model keeps the exact numerator and denominator.
- Queries.AverageMissionsPerYear: the same `toFixed(2)` rounding is not
  modelled, for the same reason.
- Views.StatsOf: the `toFixed(2)` text of the success rate is not modelled,
  for the same reason.
- The `typeof` and `Number.isInteger` guards: arguments are typed (`string`,
  `int`), so those guards cannot fail. The range and sign guards are kept.
- `localeCompare` is modelled as plain code-unit order, the same as `<`.
  Locale collation is host-dependent.
- Strings are sequences of `char`. UTF-16 surrogate pairs are not modelled.
- `Object.entries` lists integer-like keys (such as year prefixes) first, in
  numeric order. The tally model lists keys in first-occurrence order.
  - For integer-like names this changes the order of `Grouping.Group`'s
    entries. That changes the order of `Views.StatusSlices`, and which of
    several companies tied at the cut survive in `Views.CompanyBars`
    (`Views.CompanyBarsStable` states the first-occurrence order). The
    contracts of `Grouping.GroupCounts` and `Views.StatusSlicesSpec` state no
    order, so they hold either way.
  - The year series is sorted afterwards, and the two ranking queries use a
    total order, so neither depends on it.
  - Keys that clash with `Object.prototype` (`hasOwnProperty` and the like)
    are not modelled either, in tallies or in records.
- Csv.MakeRecord: a column named `__proto__` does not become an own key of
  the JavaScript object (assigning to it sets the prototype), so for such a
  header the record's keys are not all the column names. The model treats
  every name as a plain key.
- Views.SortedViewSpec: a cell missing from some rows is read as `''`. In
  JavaScript, `undefined` compares false both ways, so mixing it in breaks
  the comparator's consistency. Records from `parseCSV` always have every
  column.
- `getAverageMissionsPerYear` pre-fills `yearCounts` for every year in the
  range. That object is not built: only the sum of its values is used, and
  the model states that sum directly (`Queries.AverageIsYearlySum`).
