# Shift roster model

A Dafny model of the roster logic of a workshop timesheet editor. A roster
holds one row per shift supervisor for a 28-day month. It covers:

- **schedule generation**: each row cycles the employee's shift pattern
  (`График1`…`График4`, `Офис`). A day listed in the employee's exceptions
  takes that value. Otherwise a day listed in the absences takes that value.
  Otherwise the day takes the next pattern entry. The pattern position moves
  only on days that take a pattern entry.
- **derived columns**: the monthly total of the numeric-looking cells, the
  variance against the 160-hour norm, and the status. The status is
  "активен", or the set of status codes (`отпуск`, `б/л`, `уч.отпуск`,
  `переработка`) found among the absences.
- **bulk absence templates**: a status code is written over a run of days in
  the selected rows. The run is cut at day 28.
- **search**: a case-insensitive substring filter over the name, group and
  status columns.
- **cell styling**: a cell holding a status code, or a number above 160, gets a colour; every other cell gets none.
- **upcoming-event alerts**.
- **the seed roster**.

The roster is an explicit value, passed in and returned. It is not hidden
session state. The current day is a parameter.

Files, one module each:

- `cells.dfy` (`Cells`): the day-cell datatype, the numeric test, decimal parsing and the total.
- `config.dfy` (`Config`): the constants, the status vocabulary, the shift patterns and the absence kinds.
- `status.dfy` (`Status`): the status of an absences map and its text label.
- `schedule.dfy` (`Schedule`): employees, rows, generation and the roster.
- `template.dfy` (`Template`): bulk absence templates.
- `search.dfy` (`Search`): the search filter.
- `styling.dfy` (`Styling`): cell colours.
- `alerts.dfy` (`Alerts`): upcoming-event alerts.
- `seed.dfy` (`Seed`): the seed employee list.

In these places the code does something a reader might not expect; the model follows the code:

- The template leaves the total, variance and status columns stale. It does
  not recompute them (`Template.TemplateLeavesTotalStale`).
- Override keys that name no day of the month are ignored. They are not
  rejected (`Schedule.OutOfRangeKeysIgnored`).
- Only a number above the norm gets the overtime colour. A numeric-looking
  text such as `"200"` does not (`Styling.TextStyledOnlyIfCode`).
- Nothing checks for duplicate names. The template lookup lands on the first
  row with the name (`Template.FirstIndex`).

## Model

| member | source | states |
|---|---|---|
| Config.TemplatesWellFormed | app.py:32-38 | every shift pattern has 5 to 10 entries, each 7.5, 8 or 11.5 hours or the empty marker |
| Config.PatternValuesParsable | app.py:63-67 | a pattern value adds its hours to the total and the empty marker adds nothing |
| Config.StatusCodeNotNumeric | app.py:24-29 | no status code passes the numeric test, so a status code cell adds 0 hours |
| Config.AbsenceKindsUseStatusCodes | app.py:111-115 | each of the three absence templates (14, 7 and 5 days) writes one of the status codes |
| Cells.NumericTextChars | app.py:64 | a text passes the "dots removed, all digits" test iff every character is a digit or a dot and at least one is a digit |
| Cells.NumericText | app.py:64 | the dots-removed, all-digits test on a text; `Cells.NumericTextChars` states it character by character |
| Cells.IsNumeric | app.py:64 | the numeric test on any cell: a number passes iff it is non-negative, a text iff `NumericText` holds |
| Cells.ParseDecimal | app.py:64 | a numeric-looking text with at most one dot reads as a non-negative number; `Cells.ParseDecimalWhole` gives its value for a text with no dot and `Cells.ParseDecimalSplit` for a text with one |
| Cells.ParseDecimalWhole | app.py:64 | a non-empty run of digits with no dot, leading zeros included (such as "04"), passes the test and reads as the number its digits spell |
| Cells.ParseDecimalSplit | app.py:64 | digits, a dot and digits pass the test, hold one dot, and read as the whole part plus the fraction digits divided by 10 to their count |
| Cells.DecimalTextContributes | app.py:64 | a decimal written as text with one digit after the dot (such as "11.5") adds exactly its value, w + t/10 |
| Cells.Contribution | app.py:63-67 | a cell adds a non-negative amount; a non-numeric cell adds 0 and a number adds its own value |
| Cells.WholeNumberTextContributes | app.py:64 | a whole number written as text (the override "4") is numeric and adds exactly that many hours |
| Cells.TotalHours | app.py:63-67 | the `sum` over the day cells: a non-negative total, split over concatenation by `Cells.TotalAppend` and shifted per cell by `Cells.TotalUpdate` |
| Cells.TotalAppend | app.py:63-67 | the total of two runs of cells is the sum of their totals |
| Cells.TotalUpdate | app.py:63-67 | replacing one cell changes the total by exactly the difference of the two cells' contributions |
| Cells.NatToString | app.py:54 | `str(n)` for a day number: a non-empty run of digits with no leading zero; `Cells.NatToStringRoundTrip` reads it back as n |
| Cells.DayKey | app.py:54 | the key `str(day)` under which the override maps are read; `Cells.DayKeyInjective` shows distinct days use distinct keys |
| Cells.NatToStringRoundTrip | app.py:54 | the day key str(day) reads back as the day |
| Cells.DayKeyInjective | app.py:53-58 | different days are looked up under different keys |
| Status.CodesFrom | app.py:79-83 | the scan of days day..28 collects exactly the status codes the absences hold on those days |
| Status.StatusOf | app.py:78-84 | the status is Active iff no absence on days 1..28 is a status code; otherwise it is exactly the non-empty set of such codes |
| Status.SplitJoin | app.py:84 | splitting a ", "-joined list of comma-free codes gives back the list |
| Status.SplitCons | app.py:84 | splitting a comma-free code followed by ", " peels off exactly that code |
| Status.Join | app.py:84 | the `', '.join`; `Status.SplitJoin` inverts it on comma-free parts |
| Status.Label | app.py:84 | the status column text: "активен" or the joined codes; `Status.LabelRoundTrip` decodes it back |
| Status.JoinAnyOrder | app.py:84 | a join of the status codes in any order, as a set may yield them, decodes to exactly that set of codes |
| Status.LabelRoundTrip | app.py:84 | the status text decodes back to the status it was rendered from, so no information depends on the join order |
| Schedule.ScheduleFrom | app.py:52-61 | the generator loop from any day on yields one cell per remaining day, each following the exception, absence, pattern precedence at the pattern position reached |
| Schedule.DayCells | app.py:48-61 | the row has exactly 28 day cells, and day d holds the exception, else the absence, else the pattern entry at the count of earlier non-overridden days |
| Schedule.ReadableIffParsable | app.py:53-67 | float() can read every numeric-looking cell of the row iff it can read every override that decides one of days 1..28, because the pattern values are always readable |
| Schedule.GenerateRow | app.py:48-76 | the generated row keeps name and group, has the precedence cells, a total equal to the sum of those cells, variance = total - 160, and a status text that decodes to the status of the absences |
| Schedule.BuildRoster | app.py:294 | the roster has one consistent row per employee, in input order, each with that employee's name, group, generated day cells and a status text decoding to the status of the employee's absences |
| Schedule.Pick | app.py:55-60 | the if/elif/else for one day: the exception under the day's key, else the absence, else the pattern entry at the position reached; `Schedule.ScheduleFrom` and `Schedule.DayCells` state which position each day reaches |
| Schedule.FreeDays | app.py:52-61 | `pattern_index` on reaching a day: the count of earlier days with no override; `Schedule.PatternPositionAdvance`, `Schedule.FreeDaysBound` and `Schedule.FreeDaysStrictlyIncrease` state how it moves |
| Schedule.PatternPositionAdvance | app.py:59-61 | the pattern position moves past a day by one exactly when that day is not overridden |
| Schedule.FreeDaysBound | app.py:52-61 | the pattern position never exceeds the number of earlier days, and equals it iff none of them is overridden |
| Schedule.FreeDaysStrictlyIncrease | app.py:59-61 | two non-overridden days never share a pattern slot: the later one sits at a strictly later position |
| Schedule.NoOverridesCycle | app.py:52-61 | with no overrides, day i + 1 gets pattern entry i mod the pattern length |
| Schedule.OutOfRangeKeysIgnored | app.py:53-58 | override keys that name no day 1..28 do not change the generated cells |
| Schedule.SameOverridesSameSchedule | app.py:53-61 | the cells depend only on the override values stored under the keys of days 1..28 |
| Schedule.ResolveSame | app.py:53-61 | a day resolves the same for two employees whose overrides agree on that day and all earlier days |
| Schedule.StatusIgnoresExceptions | app.py:78-84 | changing the exceptions never changes the status text |
| Template.FillRun | app.py:129-132 | the run write over one row's 28 cells; `Template.FillRunWrites` gives its effect day by day |
| Template.FillRunWrites | app.py:129-132 | the write loop sets day d to the code iff start <= d < start + days and leaves every other day alone |
| Template.WriteRun | app.py:129-132 | the inner loop over `range(days)` computes exactly the run write `FillRun` |
| Template.FirstIndex | app.py:127-128 | the name lookup lands on the first row with that name |
| Template.ApplyTemplate | app.py:126-132 | the rows of the selected names get the code on the run's days up to 28; every other cell, every other row, and the name, group, total, variance and status columns are unchanged |
| Template.FillRunIdempotent | app.py:129-132 | writing the same run twice equals writing it once, so selecting a name twice changes nothing more |
| Template.WriteDayTotal | app.py:129-132 | writing a non-numeric code on an existing day removes that day's hours from the cells' sum and from the run |
| Template.TotalAfterFill | app.py:129-132 | after the write, the cells add up to the old sum minus the hours the overwritten days held |
| Template.TemplateLeavesTotalStale | app.py:126-132 | a consistent row whose run covered some hours keeps its old total and is no longer consistent |
| Template.RunTruncatedAtMonthEnd | app.py:129-131 | a 5-day run from day 26 writes days 26, 27 and 28 only, and removes exactly their hours |
| Search.Lower | app.py:141 | `.lower()`: same length, each character lower-cased by `LowerChar` |
| Search.Contains | app.py:141 | Python's `in` on strings; `Search.ContainsOccurs` equates it with an occurrence at some position |
| Search.Matches | app.py:140-143 | the row test over name, group and status; `Search.MatchesOccurs` states it as an occurrence of the lower-cased term |
| Search.ContainsOccurs | app.py:141 | the substring test holds iff the term occurs at some position of the text |
| Search.MatchesOccurs | app.py:140-143 | a row matches iff the lower-cased term occurs in the lower-cased name, group or status |
| Search.Filter | app.py:140-143 | the filter result is an ordered subsequence of the rows holding each matching row as often as it occurs and no other row |
| Search.SearchRows | app.py:137-144 | an empty term returns the table unchanged; otherwise the result is the order-preserving subsequence of exactly the matching rows |
| Search.LowerIdempotent | app.py:141 | lower-casing twice is lower-casing once |
| Search.SearchIgnoresTermCase | app.py:141 | searching for the lower-cased term gives the same rows as searching for the term |
| Search.SearchIdempotent | app.py:137-144 | searching a search result again with the same term changes nothing |
| Styling.Css | app.py:94 | the style string built from a colour, never empty, so a hit is always told apart from "no style" (`Styling.CssNotEmpty`); `Styling.CellStyle` returns it for the entry hit |
| Styling.Hit | app.py:93 | the per-entry test: the cell equals the code, or it is a number above 160 and the code is the overtime one; `Styling.CellStyle` and `Styling.TextStyledOnlyIfCode` state its effect |
| Styling.StyleFrom | app.py:92-95 | the scan from any vocabulary entry on returns the colour of any entry the cell hits, and no style when it hits none |
| Styling.CellStyle | app.py:89-96 | a cell's style is the colour of the vocabulary entry it hits; it is empty iff the cell hits no entry |
| Styling.StyleCells | app.py:87-97 | a row gets exactly 28 styles, day 1 first, one per day cell |
| Styling.StatusCodeColour | app.py:93 | a cell holding a status code gets that code's colour |
| Styling.OvertimeColour | app.py:93 | a number above 160 gets the overtime colour |
| Styling.TextStyledOnlyIfCode | app.py:93 | a text cell is styled iff it is a status code; numeric-looking text is never painted as overtime |
| Styling.HoursWithinNormUnstyled | app.py:93 | a number at or below the norm gets no style |
| Alerts.AlertFor | app.py:152-153 | a row holds a status code `val in STATUS_COLORS` on a day of the month; `Alerts.RowAlerts`, `Alerts.AlertsBetween` and `Alerts.UpcomingAsWritten` report exactly the alerts it accepts |
| Alerts.RowAlerts | app.py:151-158 | the alerts of a row are exactly the status codes it holds on the scanned days |
| Alerts.RowAlertsAscending | app.py:151-158 | the alerts of one row come in strictly ascending day order, none before the first scanned day |
| Alerts.AlertsBetween | app.py:150-158 | the alerts of a table are exactly the status codes some row holds on the scanned days |
| Alerts.UpcomingAsWritten | app.py:150-158 | the scan as written reports exactly the status codes some row holds on days today .. min(today + 3, 28) - 1, so never day 28 |
| Alerts.AsWrittenMissesDay28 | app.py:151 | on day 28, a row holding "отпуск" that day yields no alert as written, and the corrected scan reports it |
| Alerts.UpcomingEvents | app.py:147-158 | the corrected scan reports a status code held on today, today + 1 or today + 2 (up to day 28) by some row, and nothing else |
| Alerts.AsWrittenAgreesBeforeMonthEnd | app.py:151 | up to day 25 the code and the corrected scan give the same alerts |
| Seed.SeedWellFormed | app.py:268-293 | every seeded employee names an existing pattern and has readable overrides |
| Seed.SeedHasNoAbsences | app.py:269-292 | every seed override lands in the exceptions, because the override maps are passed positionally |
| Seed.NoAbsencesActive | app.py:78-84 | an employee without absences gets the status "активен" |
| Seed.RosterAllActive | app.py:78-84 | a roster built from employees without absences shows "активен" on every row |
| Seed.SeedRoster | app.py:267-294 | the initial roster has 24 consistent rows in seed order, all with status "активен" |

## Left out

- Streamlit UI (sidebar widgets, table editor, messages) and the session state: the roster is an explicit value instead.
- Direct cell edits and added or removed rows in the table editor: these are UI actions, not core logic.
- Logging to `app.log`: I/O.
- Charts and the heatmap: presentation over a plotting library.
- Excel and CSV export: serialisation by external libraries.
- Sorting with `sort_values`: pandas does not promise a stable sort here, and a column may hold mixed types.
- The clock: `UpcomingEvents` and `UpcomingAsWritten` take `today` as a parameter.
- Cells.Contribution: numbers are exact reals. Python's floating-point sum is not modelled.
- Schedule.GenerateRow: the total and variance are not rounded with `round(…, 1)`. For sums of pattern values, whole-number texts and one-decimal texts, rounding to one decimal changes nothing.
- Cells.IsNumeric: any non-negative number counts as numeric. The source tests `str(h)`, which also fails for a float printed with an exponent (such as `1e+20`).
- Cells.NumericText: only the ASCII digits 0-9 are digits. Python's `isdigit` also accepts other Unicode digits.
- Schedule.GenerateRow: requires every override that decides a day to be readable (`ReadableOverrides`, which `Schedule.ReadableIffParsable` shows is the same as every day cell being readable). A numeric-looking text with two or more dots (such as `"1.2.3"`) makes Python's `float()` raise, and that exception path is not modelled.
- Schedule.GenerateRow: requires the pattern name to exist. The source raises `KeyError` otherwise.
- Status.Label: joins the codes in vocabulary order. Python's set order is unspecified, so the source may show any order. `Status.JoinAnyOrder` shows that every order decodes to the same set of codes.
- Search.Matches: the status text it searches is the vocabulary-order label, so a term that spans two joined codes (such as "отпуск, б/л") can match in the model and not in the source, or the reverse.
- Search.LowerChar: lower-cases only Latin A-Z and the Cyrillic letters U+0400-U+042F. Python's `str.lower` covers all of Unicode.
- Template.ApplyTemplate: requires every selected name to be in the table. In the source, the lookup of an unknown name raises after the earlier names have been written. The selection widget only offers existing names.
- Template.ApplyTemplate: requires the start day to be at least 1. The source's input widget enforces 1 to 28.

## Findings

| source | as written | input that shows it | evidently intended | confidence | as-written member | corrected member |
|---|---|---|---|---|---|---|
| app.py:151 | `range(today, min(today+3, DAYS_IN_MONTH))` excludes its upper bound, so day 28 is never scanned | today = 28, and a row holds "отпуск" on day 28: no alert | scan today, today + 1 and today + 2, up to and including day 28 (`min(today+3, DAYS_IN_MONTH+1)`) | medium, not executed | Alerts.UpcomingAsWritten, Alerts.AsWrittenMissesDay28 | Alerts.UpcomingEvents |
