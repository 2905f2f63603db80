# Time tracker engine in Dafny

This project models the tracking engine inside the `TimeTracker` React component
(`src/TimeTracker.js`). The user keeps a list of tasks. At most one tracking
session runs at a time. Stopping a session commits a record of the whole seconds
elapsed, dated by the UTC calendar day on which it started. The component then
shows per-task totals filtered by view (today, the last week, the last month), a
grand total, and a running time for the active task, all formatted as `HH:MM:SS`.

Modules, one per file:

- `Tracker` (`Tracker.dfy`): the class `TimeTracker` with the component's state
  (`tasks`, `activeTask`, `isTracking`, `startTime`). Its methods are the handlers
  `handleAddTask`, `startTracking`, `stopTracking` and `deleteTask`. The functions
  beside it are the `map`, `filter` and `find` those handlers apply to the list.
- `Entities` (`Entities.dfy`): tasks, records, the palette, elapsed seconds, and the
  task invariant (`totalTime` is the sum of the record durations).
- `Aggregation` (`Aggregation.dfy`): `getFilteredRecords`, `getFilteredTotalTime`
  and the grand total of the summary panel.
- `Display` (`Display.dfy`): `formatTime`.
- `UtcDates` (`UtcDates.dfy`): `toISOString().split('T')[0]` on a time value.
- `JsText` (`JsText.dfy`): the JavaScript string primitives the component relies on.
  These are `Number#toString` on integers, `padStart`, `trim` and `>=` on strings.
- `Seqs` and `Optional`: order-preserving subsequences, and an option type.

Modelling choices:

- Time values are integer milliseconds.
- The clock reading, the cutoff dates of the views, record and task ids, and the
  palette index are parameters. The source takes them from `new Date()`,
  `Date.now()` and `Math.random()`.
- Handler state updates are applied one after another.
- `deleteTask` on the active task stops the session and then filters the list.
  The lemma `RemoveAfterCommit` shows that this yields the same list as the
  component's own update, which filters the list it captured before the stop.

Where one might expect otherwise (a start that reports refusal, local-time dates,
a monotonic clock, unique ids), the model follows the code:

- `startTracking` returns nothing. A second start while tracking is ignored silently.
- A record's date is the UTC date of its start, since that is what `toISOString`
  writes. The local date is not used.
- Durations are not assumed non-negative. If the clock goes back, a duration is a
  negative floor, and `formatTime` shows it with minus signs (`FormatTimeNegative`).
- The live time is not assumed non-negative either. It is read at the last
  one-second tick, which can come before the click that started the session, so
  until the next tick a task with no records shows `-1:-1:-1`
  (`LiveTimeBeforeFirstTick`).
- Ids are not assumed unique. A stop commits to every task with the active id, and a
  delete removes every such task.
- A task name is only required not to trim to nothing.

## Model

| member | source | states |
|---|---|---|
| Tracker.TimeTracker.constructor | src/TimeTracker.js:5-12 | a tracker starts idle: no tasks, no active task, no start time, not tracking |
| Tracker.TimeTracker.AddTask | src/TimeTracker.js:31-45 | a name that trims to nothing changes nothing; otherwise exactly one new task (given id, name, category, palette colour, no records, total 0) is appended after the existing tasks; the session is untouched and the invariant kept |
| Tracker.TimeTracker.StartTracking | src/TimeTracker.js:48-54 | while tracking, nothing changes (at most one session); from idle, the session tracks `taskId` from `now` and the tasks are untouched |
| Tracker.TimeTracker.StopTracking | src/TimeTracker.js:57-86 | when idle or with no active task, nothing changes; otherwise the session ends idle and the new list is the old one with one record of the session committed to each task with the active id (to none if there is none); every task stays consistent |
| Tracker.TimeTracker.DeleteTask | src/TimeTracker.js:89-94 | the new list is the old list without the tasks that have the id, in order; deleting the active task leaves the session idle, deleting another leaves the session as it was |
| Tracker.TimeTracker.CurrentTaskTime | src/TimeTracker.js:111-117 | 0 when idle or when no task has the active id; otherwise the found task's `totalTime` plus the floored whole seconds since the start, at least that total once `now` has reached the start |
| Tracker.LiveTimeIsWhatStopCommits | src/TimeTracker.js:111-117 | the live time at `now` equals the `totalTime` the active task would have after a stop at `now` |
| Tracker.LiveTimeBeforeFirstTick | src/TimeTracker.js:111-117 | the live time reads `currentTime`, which only the one-second tick of lines 23-28 updates; when that tick came less than a second before `startTime`, the live time is the committed total minus one, so -1 for a task with no records, which `FormatTimeMinusOne` shows is displayed as `-1:-1:-1` |
| Tracker.FindTask | src/TimeTracker.js:115 | `find`: none exactly when no task has the id; otherwise a task with the id from the list, namely the first one |
| Tracker.CommitSession | src/TimeTracker.js:63-80 | the `map` of the stop: same length and order, each task with the id gets the record appended and its duration added, every other task is unchanged |
| Tracker.CommitPreservesConsistency | src/TimeTracker.js:73-76 | committing a well-formed record keeps `totalTime` equal to the sum of durations in every task |
| Tracker.CommitAddsOneRecordPerMatch | src/TimeTracker.js:63-80 | a commit adds exactly as many records as there are tasks with the id |
| Tracker.FindAfterCommit | src/TimeTracker.js:63-80 | after a commit, the task found by id is the one found before, with the record added |
| Tracker.RemoveTask | src/TimeTracker.js:93 | the `filter` of the delete: an order-preserving subsequence with no task of that id, as long as the list minus the tasks with that id; so every copy of every other task is kept, in order |
| Tracker.RemovePreservesConsistency | src/TimeTracker.js:93 | removing tasks keeps every remaining task consistent |
| Tracker.RemoveAbsent | src/TimeTracker.js:93 | deleting an id no task has leaves the list unchanged |
| Tracker.RemoveAfterCommit | src/TimeTracker.js:89-94 | committing a record to the tasks with an id and then removing them gives the same list as removing them alone |
| Entities.ElapsedSeconds | src/TimeTracker.js:61 | `Math.floor((end - start) / 1000)`: the largest whole number of seconds not exceeding the elapsed milliseconds, non-negative when `end` is not before `start` |
| Entities.MakeRecord | src/TimeTracker.js:65-71 | the record carries the given id, start and end, and is well formed: its duration is the floored elapsed seconds and its date is the ISO date of its start |
| Entities.NewTask | src/TimeTracker.js:34-41 | a new task has the given id, name and category, a palette colour, no records and total 0, and is consistent |
| Entities.AddRecord | src/TimeTracker.js:73-77 | the record is appended at the end and its duration added to `totalTime`; id, name, category and colour are kept |
| Entities.AddRecordConsistent | src/TimeTracker.js:73-76 | adding a well-formed record keeps `totalTime` equal to the sum of the durations |
| Entities.FoldDurations | src/TimeTracker.js:144 | definition of `records.reduce((total, record) => total + record.duration, acc)` as a left fold; what it computes is stated by `FoldDurationsIsSum` |
| Entities.FoldDurationsIsSum | src/TimeTracker.js:144 | the `reduce` over durations from an accumulator is the accumulator plus the sum of the durations |
| Entities.SumDurationsAppend | src/TimeTracker.js:75-76 | the sum of durations splits over concatenation |
| Aggregation.InView | src/TimeTracker.js:129-138 | definition of the `switch`: `today` is date equality, `week` and `month` are string `>=` against their cutoff, any other view admits every record; `WeekViewIsCalendarOrder` and `MonthViewIsCalendarOrder` state what the comparisons mean |
| Aggregation.FilterRecords | src/TimeTracker.js:120-139 | an order-preserving subsequence of the records, all in view, as long as the number of records in view; so every copy of every record in view is kept, and nothing else |
| Aggregation.FilterUnknownView | src/TimeTracker.js:136-137 | a view other than today, week and month returns the records unchanged |
| Aggregation.FilterIdempotent | src/TimeTracker.js:129-138 | filtering twice gives the same result as filtering once |
| Aggregation.FilterAppend | src/TimeTracker.js:131-135 | the filter splits over concatenation of record lists |
| Aggregation.FilterExample | src/TimeTracker.js:129-135 | records of 2024-06-01, 2024-06-05 and 2024-06-10 seen on 2024-06-10: the week view keeps the last two and the today view the last one |
| Aggregation.ExampleDateOrder | src/TimeTracker.js:133 | string comparison places 2024-06-01 before the cutoff 2024-06-03, and 2024-06-05 and 2024-06-10 after it |
| Aggregation.WeekViewIsCalendarOrder | src/TimeTracker.js:132-133 | for dates of years 0..9999, a well-formed record passes the week view exactly when its UTC start date is on or after the cutoff day |
| Aggregation.MonthViewIsCalendarOrder | src/TimeTracker.js:134-135 | the same for the month view and its cutoff |
| Aggregation.FilteredTotalTime | src/TimeTracker.js:142-145 | definition of `getFilteredTotalTime` as the `reduce` from 0 over the filtered records; what it computes is stated by `FilteredTotalIsSum` and the lemmas after it |
| Aggregation.FilteredTotalIsSum | src/TimeTracker.js:142-145 | `getFilteredTotalTime` is the sum of the durations of the filtered records, and 0 for a task without records |
| Aggregation.FilteredSumBounds | src/TimeTracker.js:142-145 | with non-negative durations, the filtered sum lies between 0 and the unfiltered sum |
| Aggregation.FilteredTotalAtMostTotal | src/TimeTracker.js:142-145 | for a consistent task with non-negative durations, the filtered total lies between 0 and `totalTime` |
| Aggregation.FilteredTotalUnknownView | src/TimeTracker.js:136-145 | outside the three views, a consistent task's filtered total is its `totalTime` |
| Aggregation.FilteredTotalAfterAddRecord | src/TimeTracker.js:73-76 | committing a record raises the filtered total by its duration exactly when the record is in view, and leaves it unchanged otherwise |
| Aggregation.GrandTotalFrom | src/TimeTracker.js:299 | definition of `tasks.reduce((total, task) => total + getFilteredTotalTime(task), acc)` as a left fold; what it computes is stated by `GrandTotalFromIsSum` |
| Aggregation.GrandTotal | src/TimeTracker.js:299 | definition of the summary's grand total, the fold from 0; what it computes is stated by `GrandTotalIsSumOfTaskTotals` and `GrandTotalFiltersAllRecords` |
| Aggregation.GrandTotalFromIsSum | src/TimeTracker.js:299 | the `reduce` over tasks from an accumulator is the accumulator plus the sum of the per-task filtered totals |
| Aggregation.GrandTotalIsSumOfTaskTotals | src/TimeTracker.js:299 | the grand total is the sum of the per-task filtered totals |
| Aggregation.SumOfTaskTotalsFilters | src/TimeTracker.js:299 | the sum of per-task filtered totals is the total of the filter applied to all records of all tasks at once |
| Aggregation.GrandTotalFiltersAllRecords | src/TimeTracker.js:299 | the grand total is the total of the view's filter applied to all records at once |
| Aggregation.UnknownViewTaskTotals | src/TimeTracker.js:299 | outside the three views, the per-task filtered totals of consistent tasks add up to the sum of their `totalTime` fields |
| Aggregation.GrandTotalUnknownView | src/TimeTracker.js:299 | outside the three views, the grand total of consistent tasks is the sum of their `totalTime` fields |
| Display.JsRemainder | src/TimeTracker.js:99-100 | JavaScript `%` by a positive divisor: the remainder has the sign of the dividend and is smaller than the divisor in magnitude; for a non-negative dividend it is the mathematical remainder |
| Display.JsRemainderDivides | src/TimeTracker.js:99-100 | with the quotient truncated toward zero, quotient times divisor plus the remainder gives back the dividend; with the sign and bound above this fixes the remainder for negative dividends too |
| Display.Hours | src/TimeTracker.js:98 | definition of `Math.floor(seconds / 3600)`, Dafny's floor division by a positive divisor; `FieldsDecompose` states what the three fields mean |
| Display.Minutes | src/TimeTracker.js:99 | definition of `Math.floor((seconds % 3600) / 60)` with JavaScript's signed `%`; see `FieldsDecompose` |
| Display.Seconds | src/TimeTracker.js:100 | definition of `seconds % 60` with JavaScript's signed `%`; see `FieldsDecompose` |
| Display.Field | src/TimeTracker.js:101 | definition of `n.toString().padStart(2, '0')`; `FieldDigits`, `TwoDigitField` and `NegativeDigitField` state what it yields |
| Display.FormatTime | src/TimeTracker.js:97-102 | definition of `formatTime`: the three fields joined by colons; `FormatTimeReadsBack`, `FormatTimeWidth` and `FormatTimeDigits` state what the display means |
| Display.FieldsDecompose | src/TimeTracker.js:98-100 | for a non-negative count, hours are non-negative, minutes and seconds are below 60, and `hours*3600 + minutes*60 + seconds` is the count |
| Display.FieldDigits | src/TimeTracker.js:101 | a non-negative field is at least two digits that read back as its value, exactly two when it is below 100 |
| Display.TwoDigitField | src/TimeTracker.js:101 | a field below 100 is its tens digit followed by its units digit |
| Display.NegativeDigitField | src/TimeTracker.js:101 | a field from -1 to -9 is a minus sign and the digit, with no padding |
| Display.FormatTimeReadsBack | src/TimeTracker.js:97-102 | for a non-negative count, the display splits at its two colons into an hours part and two-digit minutes and seconds below 60, which give back the count |
| Display.FormatTimeWidth | src/TimeTracker.js:97-102 | for a non-negative count, the display is exactly eight characters if and only if the count is below 360000 (100 hours) |
| Display.FormatTimeDigits | src/TimeTracker.js:97-102 | below 100 hours the display is `HH:MM:SS`, digit by digit, of hours, minutes and seconds |
| Display.JoinPairs | src/TimeTracker.js:101 | three two-character fields joined by colons, character by character |
| Display.FormatTimeExample3665 | src/TimeTracker.js:97-102 | 3665 seconds display as `01:01:05` |
| Display.FormatTimeExampleZero | src/TimeTracker.js:97-102 | 0 seconds display as `00:00:00` |
| Display.FormatTimeExample59 | src/TimeTracker.js:97-102 | 59 seconds display as `00:00:59` |
| Display.FormatTimeNegative | src/TimeTracker.js:97-102 | -5 seconds display as `-1:-1:-5`, because the floor of the hours and JavaScript's signed remainder both keep the sign |
| Display.FormatTimeMinusOne | src/TimeTracker.js:97-102 | -1 second displays as `-1:-1:-1` |
| UtcDates.CivilFromDays | src/TimeTracker.js:70 | the proleptic Gregorian date of a day number has a month in 1..12 and a day in 1..31; `CivilFromDaysRoundTrip` and `CivilFromDaysInMonth` state that it is that date |
| UtcDates.CivilFromDaysRoundTrip | src/TimeTracker.js:70 | counting the days back from the date of any day number, by the independent reference `DaysFromCivil`, gives that day number again |
| UtcDates.CivilFromDaysInMonth | src/TimeTracker.js:70 | the day of every date yielded is within its month's length in the Gregorian calendar (29 February only in leap years) |
| UtcDates.DayParts | src/TimeTracker.js:70 | a day number splits into a 400-year era, a century, a four-year cycle, a year and a day of the year counted from 1 March, each in its range, with day 365 only the leap day that closes a cycle, and together they count exactly that day number |
| UtcDates.CivilFromParts | src/TimeTracker.js:70 | the date named by valid parts has a month in 1..12 and a day in 1..31 |
| UtcDates.PartsRoundTrip | src/TimeTracker.js:70 | the date assembled from valid parts counts back, by `DaysFromCivil`, to the day number the parts count |
| UtcDates.PartsInMonth | src/TimeTracker.js:70 | the date assembled from valid parts has a day within its month; a leap day falls only in a leap year |
| UtcDates.LeapDayYear | src/TimeTracker.js:70 | the year that closes a four-year cycle is a Gregorian leap year when the cycle does not close one of the first three centuries of an era; the one that closes the era is divisible by 400 |
| UtcDates.YearDays | src/TimeTracker.js:70 | the days before a year of an era, 365 per year plus the leap days, equal the days of its whole centuries, cycles and years |
| UtcDates.UtcDateExample | src/TimeTracker.js:70 | time value 1718000000000 (2024-06-10T06:13:20Z) falls on 10 June 2024 |
| UtcDates.UtcDate | src/TimeTracker.js:70 | definition of the UTC calendar date of a time value: the civil date of its floored day number |
| UtcDates.YearString | src/TimeTracker.js:70 | definition of the year field `toISOString` writes: four digits, or a sign and six digits outside 0..9999; `YearStringDigits` states what it yields |
| UtcDates.YearStringDigits | src/TimeTracker.js:70 | years 0..9999 are four digits reading back as the year; other years up to six digits are a sign and six digits reading back as the magnitude |
| UtcDates.PaddedDigits | src/TimeTracker.js:70 | a number below `10^w` padded with zeros to `w` is exactly `w` digits that read back as the number |
| UtcDates.TwoDigits | src/TimeTracker.js:70 | definition of a month or day field as `toISOString` writes it, always two digits; `TwoDigitsPadded` and `TwoDigitsOrder` state what it yields |
| UtcDates.TwoDigitsPadded | src/TimeTracker.js:70 | the two-digit field of a number below 100 is that number's text zero-padded to two |
| UtcDates.DateString | src/TimeTracker.js:70 | definition of `YYYY-MM-DD` from a civil date; `DateStringShape` and `DateStringOrder` state what it yields |
| UtcDates.IsoDate | src/TimeTracker.js:70 | definition of `startTime.toISOString().split('T')[0]` as the date string of the UTC date |
| UtcDates.YearOrder | src/TimeTracker.js:133-135 | four-digit years are of equal length and compare, and are equal, as strings exactly when they do as numbers |
| UtcDates.DateStringShape | src/TimeTracker.js:70 | a date of years 0..9999 is ten characters `YYYY-MM-DD`, with fields that read back as year, month and day |
| UtcDates.DateStringOrder | src/TimeTracker.js:133-135 | for years 0..9999, comparing two date strings agrees with calendar order, in both directions |
| UtcDates.TwoDigitsOrder | src/TimeTracker.js:70 | two-digit month or day fields compare as strings the way their numbers compare |
| JsText.NatToString | src/TimeTracker.js:101 | `toString` of a non-negative integer is a non-empty string of digits |
| JsText.NatToStringValue | src/TimeTracker.js:101 | those digits read back as the number |
| JsText.NatToStringCanonical | src/TimeTracker.js:101 | the text has no leading zero unless the number is 0 |
| JsText.NatToStringLength | src/TimeTracker.js:101 | the text fits in `w` characters exactly when the number is below `10^w` |
| JsText.IntToString | src/TimeTracker.js:101 | definition of `toString` on an integer: a minus sign before the magnitude's digits; `IntToStringValue` states what it yields |
| JsText.IntToStringValue | src/TimeTracker.js:101 | `toString` of an integer is its digits, preceded by a minus sign when negative, reading back as its magnitude |
| JsText.PadStart | src/TimeTracker.js:101 | `padStart(w, c)` is at least `w` long, ends with the original text, and is `c` before it |
| JsText.ZeroPaddedValue | src/TimeTracker.js:101 | zero-padding does not change the number a digit string denotes |
| JsText.FixedWidthOrder | src/TimeTracker.js:133-135 | zero-padded numbers of one width compare as strings the way they compare as numbers |
| JsText.StrLeDigits | src/TimeTracker.js:133-135 | on digit strings of one length, string order is numeric order |
| JsText.StrLeConcat | src/TimeTracker.js:133-135 | for equal-length first parts, comparing concatenations is decided by the first parts unless they are equal, and then by the rest |
| JsText.StrLe | src/TimeTracker.js:133-135 | definition of `a <= b` on strings (so `a >= b` is `StrLe(b, a)`): the first differing character decides and a prefix comes first; the next rows state that it is a total order and that same-width digit strings compare as numbers |
| JsText.StrLeReflexive | src/TimeTracker.js:133-135 | string `<=` is reflexive |
| JsText.StrLeAntisymmetric | src/TimeTracker.js:133-135 | string `<=` is antisymmetric |
| JsText.StrLeTransitive | src/TimeTracker.js:133-135 | string `<=` is transitive |
| JsText.StrLeTotal | src/TimeTracker.js:133-135 | any two strings are comparable |
| JsText.TrimStart | src/TimeTracker.js:32 | drops exactly the leading white space: a suffix that is empty or starts with other text, after white space only |
| JsText.TrimEnd | src/TimeTracker.js:32 | drops exactly the trailing white space: a prefix that is empty or ends with other text, before white space only |
| JsText.IsWhiteSpace | src/TimeTracker.js:32 | definition of the code points `trim()` strips: ECMAScript WhiteSpace (tab, vertical tab, form feed, space, no-break space, byte order mark and the Unicode space separators) and LineTerminator (line feed, carriage return, U+2028, U+2029) |
| JsText.Trim | src/TimeTracker.js:32 | definition of `trim()` as `TrimStart` then `TrimEnd`; `TrimEmptyIffBlank` states the test line 32 makes |
| JsText.TrimEmptyIffBlank | src/TimeTracker.js:32 | `name.trim() === ''` exactly when the name consists of white space only |
| Seqs.SubsequenceLength | src/TimeTracker.js:93 | a filtered list is no longer than the list |
| Seqs.SubsequenceMembers | src/TimeTracker.js:93 | every element of a filtered list is an element of the list |

## Left out

- Persistence: loading the task list from `localStorage` and saving it on every change (lines 5-8 and 18-20). The constructor starts from an empty list, as the component does when nothing is saved.
- The one-second `setInterval` tick that refreshes `currentTime` (lines 23-28). The current time is the `now` parameter of `CurrentTaskTime`.
- Rendering, the `newTask` input state (including clearing it after an add), the `view` selector and `handleCategoryChange` (lines 9, 14-15, 151-306). These are presentation only. The selected category is a parameter of `AddTask`.
- The categories are modelled as the enumeration `Category`. The source stores them as the Chinese label strings of line 148.
- `getRandomColor` (lines 105-108): `Math.random` is replaced by a palette index parameter.
- Ids from `Date.now()` (lines 35 and 66) are parameters of `AddTask`, `StopTracking` and `DeleteTask`.
- Tracker.TimeTracker.StopTracking: all records that one stop commits share the one `recordId`. The source calls `Date.now()` once per matching task inside the `map`, so when several tasks share the active id their records can get different ids (usually the same millisecond).
- Number representation: JavaScript numbers are IEEE-754 doubles, exact for integers only up to 2^53, while the model uses unbounded integers. The two agree for every time value (at most 8.64e15, below 2^53) and for every duration and total of realistic size. Sums beyond 2^53 seconds, which would lose precision in the source, are not modelled.
- The cutoff dates computed with `setDate` and `setMonth` in local time (lines 121-127) are the `Cutoffs` parameter. The model does not compute them.
- React's batched and asynchronous state updates, and its stale closures: updates are applied in order (see `RemoveAfterCommit` for why `deleteTask` ends the same).
- Tracker.TimeTracker.StartTracking: requires a valid ECMAScript time value (magnitude at most 8.64e15 ms). `toISOString` would throw on a later stop for any other value, and `new Date()` never yields one.
- Tracker.TimeTracker.AddTask: requires the palette index to be within the seven colours, which is all `getRandomColor` can pick.
- JsText.NatToString: models plain decimal notation only. `Number#toString` switches to exponent notation from 1e21, which no count of seconds here reaches.
- JsText.StrLe: compares Unicode code points, while JavaScript compares UTF-16 code units. The two orders differ only between characters outside the Basic Multilingual Plane and those from U+E000 up, and date strings hold only digits, `-` and `+`.
- UtcDates.DateStringOrder: proved for years 0..9999. Extended years (with a sign) do not compare in calendar order as strings, and the component never produces them in practice.
- Aggregation.FilteredTotalAtMostTotal: needs non-negative durations. A clock that goes back produces a negative duration, and then the bound need not hold.
