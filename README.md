# Gantt editor core, modelled in Dafny

This project models the logic under the DOM code of `main.js`, a browser Gantt
chart editor. It covers the parts that can be stated without a browser:

- **Calendar dates** (`dates.dfy`, module `Dates`): local `YYYY-MM-DD` parsing
  (`parseYMD`), formatting (`dateToISO`), `addDays`, `daysBetween`,
  `clampDate` and the days-in-month helper. A date is a proleptic Gregorian
  (year, month, day) triple. A day number is a bijection between valid
  triples and the integers, and it plays the role of the time value that
  JavaScript compares.
- **The month grid** (`month_grid.dfy`, module `MonthGrid`): `getMonthRange`
  is a loop that lists the months from one date's month to another's.
  `groupMonthsByQuarters` fills buckets of a fiscal year that starts in
  April, then sorts them.
- **Timeline projection** (`projection.dfy`, `bars.dfy`): `posFromDate` and
  `dateFromPos` convert between a date and a fractional month position.
  `computeLeftWidthPct`, `createTaskRow`, `createGroupBar` and the milestone
  and today markers turn positions into left/width percentages. Positions
  are exact rationals (`real`).
- **The drag/resize gesture** (`gesture.dfy`): the class
  `Gesture.DragSession` holds `taskDragState`. `Start` is the `mousedown`
  handler, `Update` is `performUpdate`, and `End` is `onMouseUp`.
- **Task and group bookkeeping** (`records.dfy`, `board.dfy`): the class
  `Board.Board` holds the globals `tasks`, `groups`, `groupStates` and
  `groupOrder`. Its methods add, delete, edit, rename, reorder and toggle.
  A group's status is derived from its tasks' statuses.
- **The project list** (`projects.dfy`): the class `Projects.Workspace`
  holds `projects`, `activeProjectIndex` and the active project's globals.
  Its methods add, switch, delete, duplicate and load projects.
- **CSV** (`csv.dfy`, `import_rows.dfy`): export quoting (`esc`),
  `splitCSVLine`, `parseCSV`, `usDateToISO` and `processImportedRows`.
  Quoting follows section 2 of RFC 4180, rules 5 to 7.
- **Colours and labels** (`colors.dfy`): `escapeHtml`, `normalizeHex`,
  `adjustBrightness`, and the recent-colours list of `addToRecentColors`.

Pure JavaScript functions are Dafny functions with lemmas about them. Loops
(`getMonthRange`, `groupMonthsByQuarters`, `splitCSVLine`, `parseCSV`,
`processImportedRows`, the unique-name loop of `duplicateProject`) are
methods with loop invariants, proved against a specification function.
Code that mutates globals is a class whose methods state the whole new
state and keep a consistency invariant:

- `Board.Board.Consistent`: every task's group has a record, every group
  has an expanded/collapsed state, and `groupOrder` lists each group exactly
  once.
- `Projects.Workspace.Valid`: the active index points at a project (or is 0
  or -1), and every project has a name. `Workspace.stray` holds the
  array's `"-1"` property, which `intoActive` writes and
  `syncGlobalsFromActive` reads when the active index is -1.

`Date.now()`, `confirm()`, the track width, mouse positions and the local
timezone offset are parameters.

## Model

| member | source | states |
|---|---|---|
| Text.NatToString | main.js:2547-2548 | `String(n)` of a natural number is a non-empty run of decimal digits without a leading zero |
| Text.NatToStringRoundTrip | main.js:2456 | reading the digits of `String(n)` back as a number (`Number`) gives `n` |
| Text.NatToStringInjective | main.js:2547-2548 | different numbers print differently |
| Text.NatToStringFour | main.js:2546 | a four-digit year prints as its four digits, most significant first |
| Text.IntToString | main.js:2545-2550 | `String(i)`: digits only for `i >= 0`, a leading minus otherwise |
| Text.IntToStringInjective | main.js:2545-2550 | different integers print differently, so `dateToISO` keeps years apart |
| Text.PadStart | main.js:2547-2548 | `padStart(n, c)` returns `s` itself when it has at least `n` characters, otherwise `n - len` copies of `c` followed by `s`; either way the length is `max(len, n)` |
| Text.Pad2Digits | main.js:2547-2548 | `String(n).padStart(2, '0')` for 0..99 is exactly the tens digit then the units digit |
| Text.Trim | main.js:1485 | `trim()` leaves no whitespace at either end |
| Text.TrimOfTrimmed | main.js:1485 | trimming a string with no whitespace at either end changes nothing |
| Text.TrimBounds | main.js:1485 | `trim()` removes exactly the leading and trailing whitespace: the result is a slice of the input, all that is cut off is whitespace, and the slice starts and ends with a non-whitespace character when not empty |
| Text.TrimNonEmpty | main.js:1205 | a line starting with a non-blank character survives `l.trim().length > 0` |
| Text.ReplaceAll | main.js:334-338 | `replace(/x/g, r)` leaves no `x` when `r` holds none |
| Text.ReplaceAllAppend | main.js:333-338 | a global one-character replace works piece by piece over a concatenation |
| Text.ReplaceAllHas | main.js:1103 | any other character is in the result exactly when it was in the input or is brought in by the replacement |
| Text.UpperAscii | main.js:1489-1493 | `toUpperCase()` maps each character on its own and keeps the length |
| Text.LowerAscii | main.js:1255 | `toLowerCase()` maps each character on its own and keeps the length |
| Dates.DaysInMonth | main.js:2719 | `new Date(y, m, 0).getDate()` lies in 28..31 |
| Dates.DaysInMonthCases | main.js:2719 | 31 days exactly for months 1, 3, 5, 7, 8, 10 and 12; 29 exactly for a leap February; 28 exactly for a common February |
| Dates.DayNumber | main.js:2698-2703 | defines a date's time value in whole days, counted from 0001-01-01 in the proleptic Gregorian calendar; `DayNumberOrder` and `DayNumberInjective` show it orders and tells apart dates as `<`, `>` and `-` on `Date` objects do |
| Dates.DayNumberOrder | main.js:2693-2697 | comparing dates (`d < minD`) agrees with comparing day numbers, both ways; equal day numbers are equal dates |
| Dates.DayNumberInjective | main.js:2698-2703 | two valid dates with the same day number are the same date |
| Dates.NextDay | main.js:2551-2555 | `setDate(getDate() + 1)` gives the valid date one day number later, across month and year ends |
| Dates.PrevDay | main.js:2551-2555 | `setDate(getDate() - 1)` gives the valid date one day number earlier |
| Dates.AddDays | main.js:2551-2555 | `addDays(d, n)` is the valid date exactly `n` day numbers from `d`, for any sign of `n` |
| Dates.DaysBetween | main.js:2698-2703 | defines `daysBetween` as the difference of the two day numbers, without the `new Date(y, m, d)` copies (see Left out); `AddDaysBetween`, `DaysBetweenAddDays` and `DaysBetweenSign` state what it means |
| Dates.Rebuilt | main.js:2694-2695 | the copy `new Date(x.getFullYear(), x.getMonth(), x.getDate())` is always a valid date, and a valid date outside years 0..99 is copied unchanged |
| Dates.RebuiltMovesWindow | main.js:2700-2701 | a date in years 0..99 is copied 1900 years later: 0050-06-01 becomes 1950-06-01, 0099-12-01 becomes 1999-12-01 |
| Dates.DaysBetweenRebuilt | main.js:2698-2703 | for two dates outside years 0..99, the difference of the rebuilt copies is `DaysBetween` |
| Dates.DaysBetweenWindowGap | main.js:2698-2703 | from 0099-12-01 to 0100-01-01 the rebuilt copies are a negative number of days apart, while `DaysBetween` gives 31 |
| Dates.AddDaysBetween | main.js:2698-2703 | stepping `DaysBetween(a, b)` days from `a` reaches `b` |
| Dates.DaysBetweenAddDays | main.js:2698-2703 | `DaysBetween(a, addDays(a, n)) == n`: the two are inverse |
| Dates.DaysBetweenSign | main.js:2698-2703 | `DaysBetween(a, b)` is non-negative exactly when `a` is not after `b`, and zero exactly when they are equal |
| Dates.ClampDate | main.js:2693-2697 | an earlier date gives the `new Date(y, m, d)` copy of `minD`, a later one the copy of `maxD`, and a date in range is returned itself |
| Dates.ClampDateInRange | main.js:2693-2697 | with both bounds outside years 0..99 and `minD <= maxD`, the copies are the bounds themselves and the result always lies between them |
| Dates.ClampDateWindowEscapes | main.js:2693-2697 | with `minD` in year 50 the copy is in 1950, so clamping 0040-01-01 into 0050-06-01..0060-01-01 gives 1950-06-01, past `maxD` |
| Dates.LocalYear | main.js:2457 | the year `new Date(y, ...)` uses is never in 0..99, and is `y` itself outside that window |
| Dates.MakeLocalDate | main.js:2457 | `new Date(y, m0, d)` always yields a valid date, whatever month index and day overflow |
| Dates.MakeLocalDateExact | main.js:2457 | a valid triple outside years 0..99 is built exactly |
| Dates.ParseYMD | main.js:2453-2459 | `parseYMD` returns a date exactly when the string has the `dddd-dd-dd` shape, and that date is valid |
| Dates.DateOfFields | main.js:2456-2457 | `new Date(y, (m \|\| 1) - 1, d \|\| 1)` is always a valid date |
| Dates.TwoDigitsValue | main.js:2547-2548 | the two padded digits read back as the number |
| Dates.DateToISO | main.js:2545-2550 | defines `dateToISO`: the unpadded year, then `-MM-DD` with a two-digit month and day; `DateToISOFields`, `DateToISOInjective` and `ParseDateToISO` state what the text means |
| Dates.DateToISOInjective | main.js:2545-2550 | two dates have the same ISO text exactly when they are the same date |
| Dates.ParseYMDExact | main.js:2455-2458 | a `YYYY-MM-DD` string whose numbers form a valid date (year >= 100) reads as exactly that date |
| Dates.DateToISOFields | main.js:2545-2550 | for years 1000..9999 `dateToISO` writes the `YYYY-MM-DD` shape holding the date's own year, month and day |
| Dates.ParseDateToISO | main.js:2453-2459 | `parseYMD(dateToISO(d)) == d` for years 1000..9999 |
| Dates.ParseYMDFields | main.js:2455-2458 | what `parseYMD` computes from the three digit groups of an ISO-shaped string |
| Dates.FebruaryOverflowRollsOver | main.js:2457 | `YYYY-02-DD` with 29 <= DD <= 59 in a common year reads as March DD - 28 rather than failing |
| Dates.ParseYMDRollsOver | main.js:2457 | "2025-02-30" reads as 2 March 2025 |
| MonthGrid.NextMonth | main.js:3132 | `setMonth(getMonth() + 1)` on the first of a month gives the next month, one ordinal later |
| MonthGrid.MonthOf | main.js:3124-3125 | the first of a date's month is a valid month with the date's month number |
| MonthGrid.MonthSpan | main.js:3122-3136 | defines the months from `a` to `b`, none when `b` is earlier; `MonthSpanShape` and `MonthSpanSingle` state it |
| MonthGrid.MonthSpanShape | main.js:3122-3136 | the month range has `(by*12+bm)-(ay*12+am)+1` entries, starts at `a`, ends at `b`, and steps one month at a time |
| MonthGrid.MonthSpanSingle | main.js:3122-3136 | a range within one month has exactly that month |
| MonthGrid.GetMonthRange | main.js:3122-3136 | the `while` loop returns exactly the month span from the start date's month to the end date's month |
| MonthGrid.QuarterOf | main.js:3146-3159 | April to December lie in the fiscal year starting that year, in quarter `(month - 1) div 3`; January to March are quarter 4 of the fiscal year that began the year before |
| MonthGrid.QuarterOfFiscalOrdinal | main.js:3146-3159 | a month's bucket key agrees with an independent definition: months counted from April of year 0, the fiscal year is that count div 12 and the quarter is (count mod 12) div 3 + 1 |
| MonthGrid.QuarterOfMonotone | main.js:3146-3159 | a later month never falls in an earlier quarter |
| MonthGrid.FyTwoDigitsOfYear | main.js:3143 | `String(y).slice(-2).padStart(2, '0')` of a non-negative year is the year mod 100 as two digits |
| MonthGrid.April2025Quarter | main.js:3148-3159 | April 2025 is fiscal 2025 quarter 1, labelled "FY 25/26" |
| MonthGrid.March2025Quarter | main.js:3148-3159 | March 2025 is fiscal 2024 quarter 4, labelled "FY 24/25" |
| MonthGrid.BucketFor | main.js:3161-3167 | the bucket created for a key carries that key, ends its fiscal year one year after it starts, and holds the given months |
| MonthGrid.BucketLabel | main.js:3151 | a bucket's label is the label of its fiscal start year |
| MonthGrid.FindBucket | main.js:3160 | `buckets.has(key)`: the index of the bucket with the key, or -1 exactly when no bucket has it |
| MonthGrid.AfterStepKeys | main.js:3160-3169 | one `forEach` step adds the month's key at the end when it is new and leaves the keys alone otherwise |
| MonthGrid.GroupStepBucket | main.js:3160-3169 | after a step every bucket holds exactly the months seen so far that fall in its quarter, in input order, and none is empty |
| MonthGrid.GroupStep | main.js:3145-3170 | one step keeps the bucket invariant for one more month |
| MonthGrid.GroupStepKeys | main.js:3145-3170 | after a step the keys stay distinct and every month seen so far has its bucket |
| MonthGrid.GroupStepChronological | main.js:3145-3170 | on chronological input the buckets stay sorted and their months concatenate to the input seen so far |
| MonthGrid.StepKeyPlacement | main.js:3160 | on chronological input the next month either joins the last bucket or opens a later one |
| MonthGrid.KeyPlacementInSorted | main.js:3160 | in sorted buckets a key not below the last is either the last key or absent |
| MonthGrid.SortedAfterStep | main.js:3160-3168 | appending a bucket after the last key keeps the keys strictly sorted |
| MonthGrid.GroupStepFlatten | main.js:3169 | pushing the month onto the last (or a new) bucket extends the concatenation of the buckets by that month |
| MonthGrid.GroupMonthsByQuarters | main.js:3138-3178 | the buckets come out strictly sorted by (fiscal start year, quarter); each holds exactly the months of its quarter, in input order; every month has a bucket; on a chronological grid the buckets concatenate back to the input |
| MonthGrid.FillStep | main.js:3145-3170 | one `forEach` step keeps the loop invariant of `FillBuckets` |
| MonthGrid.AfterStepShape | main.js:3161-3169 | a step keeps every bucket's fiscal end year one after its start |
| MonthGrid.FillBuckets | main.js:3141-3170 | the `forEach` leaves one bucket per quarter met, in order of first appearance, each with exactly its quarter's months |
| MonthGrid.AddToBucket | main.js:3159-3169 | create the month's bucket if missing, then push the month onto it |
| MonthGrid.SortBuckets | main.js:3173-3176 | the sort returns the same buckets, strictly sorted by (fiscal start year, quarter); sorted input comes back unchanged |
| MonthGrid.InsertKeepsSorted | main.js:3173-3176 | inserting the next bucket where the insertion stops keeps the list strictly sorted |
| Projection.Round | main.js:2740 | `Math.round(x)` is an integer within one half of `x`, with halves rounded up |
| Projection.ClampReal | main.js:2784-2785 | `Math.max(lo, Math.min(hi, x))` lies in `[lo, hi]` and is `x` when `x` is already there |
| Projection.MonthLength | main.js:2719 | `daysInMonth(y, m)` lies in 28..31 |
| Projection.IndexOf | main.js:2725 | `months.findIndex` gives the index of the month, or -1 exactly when it is not on the grid |
| Projection.IndexOfFirst | main.js:2725 | no earlier grid entry is the month looked up |
| Projection.GridIndex | main.js:2733-2735 | the floor of a position, clamped, is a valid grid index |
| Projection.DayFromFraction | main.js:2738-2745 | the day picked from a month fraction lies in 1..days-in-month for both anchors |
| Projection.DateFromPos | main.js:2732-2747 | `dateFromPos` always returns a valid date |
| Projection.DateFromPosIsLocalDate | main.js:2732-2747 | `dateFromPos` is `new Date(y, m - 1, day)` for the clamped grid month and the rounded, clamped day |
| Projection.LocalDateInMonth | main.js:2746 | a day inside a grid month builds exactly that day |
| Projection.DateFromPosInGrid | main.js:2732-2747 | every position maps to a day of the clamped grid month, within that month's length |
| Projection.Fraction | main.js:2729 | `k / n` for `0 <= k <= n` lies in `[0, 1]`, below 1 when `k < n`, and scales back to `k` |
| Projection.DateFromPosAt | main.js:2732-2747 | the position `i + k/dim` reads back as day `k + 1` (start anchor) or day `k`, at least 1 (inclusive end), of grid month `i` |
| Projection.PositionInMonth | main.js:2733-2734 | a position `i + f` with `0 <= f < 1` reads grid month `i` and fraction `f` |
| Projection.DayAtFraction | main.js:2738-2745 | the fraction `k/dim` rounds back to day `k` (end anchor, at least 1) or `k + 1` (start anchor) |
| Projection.DayFraction | main.js:2729 | defines the elapsed fraction of the month: `(day - 1)/dim` for a start, `day/dim` for an inclusive end; `Fraction` and `DayFractionMonotone` state its range and order |
| Projection.PosFromDate | main.js:2722-2730 | defines `posFromDate` as the `findIndex` of the date's month plus its `DayFraction`; `StartPositionRange` and `EndPositionRange` show a grid date lands in its month's cell, and `PosFromDateMonotone` that later dates land further right |
| Projection.PosFromDateAt | main.js:2722-2730 | `posFromDate` of a grid date is its grid index plus `(day - 1)/dim` (start) or `day/dim` (inclusive end) |
| Projection.StartRoundTrip | main.js:2722-2747 | `dateFromPos(posFromDate(d, false), false) == d` for every date whose month is on the grid |
| Projection.EndPositionRange | main.js:2722-2730 | an inclusive-end position lies in `(i, i + 1]` for the date's grid index `i` |
| Projection.StartPositionRange | main.js:2722-2730 | a start-anchored position lies in `[i, i + 1)` |
| Projection.EndRoundTripBeforeMonthEnd | main.js:2722-2747 | an inclusive end before the last day of its month reads back as itself |
| Projection.EndOnMonthEndMovesToNextMonth | main.js:2722-2747 | an inclusive end on the last day of a month reads back as the first day of the next grid month, or of the last grid month when there is no next one |
| Projection.IndexOfOrdered | main.js:2725 | on a chronological grid a later month has a later index |
| Projection.DayFractionMonotone | main.js:2729 | within one month a later day has a larger fraction for both anchors, and an end fraction exceeds the start fraction of any day not after it |
| Projection.PosFromDateMonotone | main.js:2722-2730 | on a chronological grid `posFromDate` never decreases as the date advances, and an inclusive end lies strictly after the start anchor of any earlier or equal date |
| Bars.MonthWidthPct | main.js:2713-2714 | `100 / Math.max(1, months.length)` is positive |
| Bars.BarSpan | main.js:3037-3062 | a task or group bar is absent exactly when either end's month is off the grid, and otherwise is the `computeLeftWidthPct` result |
| Bars.MarkerLeft | main.js:184-195 | a milestone marker is absent exactly when its month is off the grid, and otherwise lies in `[0, 100]` |
| Bars.TodayMarkerLeft | main.js:209-229 | the today marker is shown only when today is within the chart bounds, and then is the marker of today's date |
| BarFacts.StartPctOfPosition | main.js:2759-2761 | a bar's left edge is its start position times the month width |
| BarFacts.WidthOfPositions | main.js:2759-2762 | a bar's width is the distance between its two positions times the month width |
| Bars.LeftWidthPct | main.js:2749-2764 | defines `computeLeftWidthPct`: `left` is the start index times the month width plus the start offset, `width` the index difference times the month width plus the end offset minus the start offset; `LeftWidthFromPositions` and `LeftWidthBounds` state what it means |
| BarFacts.LeftWidthFromPositions | main.js:2749-2764 | `computeLeftWidthPct` is `posFromDate` scaled to percent: left from the start anchor, width up to the inclusive-end anchor |
| BarFacts.ScaleToPercent | main.js:2713-2714 | positions `0 <= ps < pe <= n` on an `n`-month grid scale to a bar inside `[0, 100]` with positive width |
| BarFacts.MonthWidthTimesCount | main.js:2713-2714 | the month widths of a non-empty grid add up to 100 |
| BarFacts.PositionsInGrid | main.js:2722-2730 | a bar's start and end positions lie in order inside `[0, totalMonths]` |
| BarFacts.LeftWidthBounds | main.js:2749-2764 | on a chronological grid a bar from `s` to a later-or-equal `e` starts inside the chart, has positive width and ends no further right than 100% |
| BarFacts.BarSpanIsLeftWidth | main.js:3037-3062 | the `createTaskRow` bar equals the `computeLeftWidthPct` one whenever both months are on the grid |
| BarFacts.MarkerAtBarStart | main.js:189-195 | a marker sits exactly where a bar starting that day would start; the clamp to `[0, 100]` never bites |
| BarFacts.ScenarioJanuaryToFebruary | main.js:2749-2764 | on a January to March 2025 grid, a bar from 15 January to 10 February starts 14/31 into the first month and ends 10/28 into the second |
| Gesture.ClampedPositions | main.js:2775-2785 | after the shift both positions lie in `[0, totalMonths - 1 + 0.9999]` |
| Gesture.Preview | main.js:2766-2799 | the preview dates of an update are valid dates |
| Gesture.DragSession.constructor | main.js:2711-2714 | a session over a non-empty grid starts with no drag |
| Gesture.DragSession.Start | main.js:2848-2884 | a zero task id changes nothing; otherwise a new drag state replaces any earlier one, holding the kind, the id, the pointer, pixels per month, the original dates, their start-anchored and inclusive-end positions, and no preview |
| Gesture.DragSession.Update | main.js:2766-2814 | without a drag nothing changes; otherwise only the preview changes, to the `Preview` of the pixel delta over pixels per month |
| Gesture.ShiftAndClamp | main.js:2773-2787 | the new positions are the `ClampedPositions` of the delta: shifted by the drag kind, then each held inside the grid |
| Gesture.RepairInversion | main.js:2793-2801 | dates in order are kept; a resize always leaves them in order, a left one by pulling the start onto the end and a right one the end onto the start; an inverted move keeps the new start and puts the end the original duration after it; the start is always one of the two new dates |
| Gesture.EnsureOrder | main.js:2793-2801 | the repaired dates are `RepairInversion` of the converted ones, and stay valid dates |
| Gesture.DragSession.End | main.js:2827-2843 | the drag ends; the commit is `updateTaskDates` with the preview (or the original where none) exactly when its ISO text differs from the original; without a drag nothing happens |
| GestureFacts.PreviewOrdered | main.js:2787-2799 | the preview never ends before it starts, given a move starts from well-ordered dates |
| GestureFacts.MoveRepairKeepsDuration | main.js:2794-2797 | when a move has to repair an inversion, the preview keeps the original duration in days |
| GestureFacts.ResizeKeepsOtherEdge | main.js:2777-2793 | a left resize keeps the end where the unshifted clamped position reads, a right resize keeps the start |
| GestureFacts.PreviewInGrid | main.js:2787-2799 | the preview start is always in a grid month, and so is the end for a resize |
| GestureFacts.CommitIffChanged | main.js:2836-2840 | a commit happens exactly when a preview date differs from the original, and it carries the preview's ISO text |
| GestureFacts.StartPosInsideClamp | main.js:2784 | a start-anchored position of a grid date is never clamped |
| GestureFacts.EndPosClamped | main.js:2785 | an inclusive-end position is clamped only on the last day of the last grid month |
| GestureFacts.ClampEdgeIsLastDay | main.js:2785-2789 | the clamp edge `totalMonths - 1 + 0.9999` reads back as the last day of the last grid month |
| GestureFacts.LaterMonthIsLater | main.js:2792 | every date of a later grid month is after `s` |
| GestureFacts.EndAtZeroShift | main.js:2785-2789 | where the inclusive end of a grid date reads back at zero shift, clamp included |
| GestureFacts.ZeroShiftPreview | main.js:2766-2799 | moving or resizing by zero pixels previews the task's own start and the read-back of its end |
| GestureFacts.ZeroShiftCommits | main.js:2827-2843 | a drag that ends where it started still commits, exactly when the task ends on the last day of a month that is not the last grid month |
| GestureFacts.MoveCanChangeDuration | main.js:2777-2799 | a move does not keep the duration across months of different lengths: moving 1-31 January 2025 by one month gives 1 February to 1 March, 28 days instead of 30 |
| Records.StatusColor | main.js:67-74 | `STATUS_COLORS[status] \|\| '#808080'` is a `#` colour of seven characters, grey for an unknown status |
| Records.EffectiveStatus | main.js:82 | `t.status \|\| 'Not Started'` is never empty and keeps a non-empty status |
| Records.GroupNameOf | main.js:1659 | `(input \|\| '').trim() \|\| 'Ungrouped'` is never empty and is the trimmed input when that is not blank |
| Records.Filter | main.js:79 | `filter` keeps exactly the elements that pass, never more than there were |
| Records.FilterCounts | main.js:1985 | `filter` keeps each passing element as often as it occurs and drops every other one |
| Records.FilterAppend | main.js:79 | filtering a concatenation filters each part |
| Records.FirstIndex | main.js:2421 | `findIndex` gives the first element that passes, or -1 exactly when none does |
| Records.RemoveAt | main.js:2426 | `splice(i, 1)` removes exactly the `i`-th element and keeps the others in order |
| Records.InsertAt | main.js:2430 | `splice(i, 0, x)` puts `x` at `i` and shifts the rest up by one |
| Records.SpliceStart | main.js:2430 | a negative `splice` start counts from the end (stopping at 0) and a start past the end is the end |
| Records.DeriveGroupStatus | main.js:78-90 | the derived status, when there is one, is one of the six known statuses |
| Records.DeriveIgnoresOtherGroups | main.js:79 | a task of another group does not change a group's derived status |
| Records.StatusesOfGroup | main.js:82 | a status is in the group's status set exactly when one of the group's tasks has it, counting a missing status as Not Started |
| Records.GroupTasksPresent | main.js:79-89 | the group's filtered list is empty exactly when it has no task, and all of it is Completed exactly when every task of the group is |
| Records.DeriveGroupStatusPriority | main.js:78-90 | no status exactly for a group without tasks; else Blocked, Action Needed, Delayed, In Progress exactly when that is the highest present; Completed exactly when all tasks are; Not Started exactly otherwise (both directions each) |
| Records.AutoStatus | main.js:92-101 | `applyAutoGroupStatus` touches only an existing group with tasks: its status becomes the derived one and, when it changed, its colour becomes that status's colour; every other group and the key set stay |
| Records.AutoStatusIdempotent | main.js:92-101 | re-deriving right after deriving changes nothing |
| Records.WithGroup | main.js:1698-1699 | creating a missing group adds it with the name and colour and no status, and keeps every existing group |
| Records.RenameGroupOfTasks | main.js:2083-2087 | the rename moves exactly the tasks of the old group (and keeps those already named) to the new name; ids and statuses stay |
| Records.RenameKeepsStatus | main.js:2083-2087 | renaming to a name no task uses keeps the group's derived status |
| Records.RenameKeepsMembers | main.js:2083-2087 | the renamed group has tasks, and all of them Completed, exactly when the old one did |
| Records.RenameKeepsStatuses | main.js:2083-2087 | every status is present in the renamed group exactly when it was in the old one |
| Records.MoveName | main.js:2443-2445 | moving a group name keeps the length of the order |
| Records.MoveNamePlacement | main.js:2439-2450 | `reorderGroups` is a permutation that lands the dragged name at the target's old index and leaves the others in order: after the target when moving down, before it when moving up, unchanged on itself |
| Records.MoveTask | main.js:2424-2430 | the same-group reorder is a permutation of the tasks |
| Records.MoveTaskBeforeTarget | main.js:2424-2430 | a task dropped on another task ends right in front of it |
| Records.MoveTaskOntoItself | main.js:2424-2430 | a task dropped on itself (ids unique) moves to the second-last place: the lookup after the cut fails and `splice(-1, 0, ...)` counts from the end |
| Records.ToggleAll | main.js:2117-2128 | `toggleAllGroups` keeps the same group names |
| Records.ToggleAllUniform | main.js:2117-2128 | afterwards all groups share one state: collapsed when all were expanded, expanded otherwise; toggling twice from a mixed state collapses all |
| Board.SetField | main.js:2041 | `task[field] = value` never changes the task's id |
| Board.TimeOf | main.js:2031-2038 | defines the value a `parseYMD` result compares by: minutes from 1970-01-01 UTC to its local midnight, and 0 for `null`; `ParsedAfterOrder` states the order this gives |
| Board.ParsedAfter | main.js:2031-2038 | defines `parseYMD(a) > parseYMD(b)` as a comparison of those values; `ParsedAfterOrder` states when it holds |
| Board.ParsedAfterOrder | main.js:2031-2038 | within a day's offset of UTC, two `parseYMD` dates compare in calendar order; a date against `null` compares as against 1970-01-01, and 1970-01-01 itself is after `null` exactly west of UTC and before it exactly east of UTC |
| Board.StartAfterEnd | main.js:1675-1676 | defines the start/end check of the task dialog: `IsoAfter` on two ISO dates, and false when either is not one; `StartAfterEndChronological` shows it is chronological order |
| Board.StartAfterEndChronological | main.js:1675 | `new Date(start) > new Date(end)` on two calendar dates of any year, 0..99 included, is chronological order |
| Board.NewTask | main.js:1682-1690 | a new task has a non-empty group and the colour of its status |
| Board.GroupStates | main.js:1700 | a new group starts expanded; no other state changes |
| Board.GroupOrder | main.js:1701 | a new group is appended to the order |
| Board.SameKeysKeep | main.js:96-99 | changing group records without changing the group names keeps the board consistent |
| Board.AddTaskKeeps | main.js:1692-1702 | pushing a task and creating its group if missing keeps the board consistent |
| Board.AddGroupKeeps | main.js:1698-1702 | creating a missing group keeps the board consistent, also with a task of that group pushed |
| Board.DropGroupKeeps | main.js:1988-1991 | dropping a group no task uses, with its state and its place in the order, keeps the board consistent |
| Board.FilterKeepsGrouped | main.js:1985 | removing tasks keeps every remaining task's group present |
| Board.PermutationKeepsGrouped | main.js:2426-2430 | reordering the tasks keeps every task's group present |
| Board.RegroupKeeps | main.js:2043-2053 | moving a task to an existing or new group keeps the board consistent |
| Board.PermutationKeepsConsistent | main.js:2426-2430 | any rearrangement of the task list (same multiset) keeps the board consistent |
| Board.RenameKeeps | main.js:2079-2096 | renaming a group to a free name keeps the board consistent |
| Board.RenameOrderKeeps | main.js:2090-2094 | writing the new name over the old in the order keeps it listing every group once |
| Board.PermutationKeepsOrder | main.js:2443-2445 | reordering the group order keeps the board consistent |
| Board.RederiveBothFacts | main.js:2062-2063 | after re-deriving old then new group, the new group has its derived status, so does the old one when it still has tasks, and no other group changes |
| Board.Regrouped | main.js:2043-2063 | defines the groups after a group change: the kept groups with the old and then the new group's status re-derived; `RegroupedStatuses` states the result |
| Board.RegroupedStatuses | main.js:2043-2063 | a group change leaves the new group with its derived status, the old one too when it still has tasks, and every other group as it was |
| Board.Board.constructor | main.js:362-371 | an empty board: no tasks, groups, states or order; consistent |
| Board.Board.ApplyAutoGroupStatus | main.js:92-101 | `groups` becomes `AutoStatus` of the old groups; nothing else changes; consistency is kept |
| Board.Board.AddGroupIfMissing | main.js:1698-1702 | creates the group, its expanded state and its last place in the order only when missing |
| Board.Board.DropGroup | main.js:1989-1991 | removes the group's record, state and place in the order, nothing else |
| Board.Board.ConfirmAddTask | main.js:1649-1712 | a blank name, a missing date or a start after the end (`new Date(iso)` order, `StartAfterEnd`) changes nothing; otherwise the task is appended, its group created if missing, and the group carries the status derived from its tasks; consistency is kept |
| Board.Board.AddTask | main.js:1911-1975 | as `ConfirmAddTask` (the same `StartAfterEnd` check) but the group's status is not re-derived |
| Board.Board.DeleteTask | main.js:1977-2002 | unconfirmed or unknown id: nothing changes; otherwise exactly the tasks with the id go, the group is dropped when empty and re-derived otherwise, and no other group changes |
| Board.Board.DeleteGroup | main.js:2004-2025 | on confirmation the group, its state, its place in the order and exactly its tasks go; otherwise nothing changes |
| Board.Board.UpdateTaskDates | main.js:1431-1441 | the first task with the id gets the two dates; nothing else changes |
| Board.Board.UpdateTaskField | main.js:2027-2071 | an unknown id, or a start after the end or an end before the start as `parseYMD` values compare in the given timezone, changes nothing; a group change goes through `MoveToGroup`; any other field is written on the first task with the id |
| Board.Board.MoveToGroup | main.js:2040-2064 | the task moves to the trimmed group name (or Ungrouped), the group is created if missing, the old one dropped when empty, and both re-derived; consistency is kept |
| Board.Board.PlaceInGroup | main.js:2043-2059 | the bookkeeping half of a group change: the new group exists and holds the task, the old one is dropped exactly when empty |
| Board.Board.RederiveBoth | main.js:2062-2063 | re-derives the old group (when named), then the new one; nothing else changes |
| Board.Board.UpdateGroupField | main.js:2073-2108 | an unknown group changes nothing; a colour is stored; a blank, unchanged or taken new name changes nothing; any other name renames |
| Board.Board.RenameGroup | main.js:2079-2096 | the record (renamed), the state, the place in the order and all tasks move to the new name; a group with no stored state hands on `undefined`, kept as collapsed under the new name; consistency is kept |
| Board.RenamedUnstatedToggleAll | main.js:2081-2123 | after renaming a group with no stored state, the new name holds a collapsed state, so `toggleAllGroups` expands every group |
| Board.Board.ToggleGroup | main.js:2110-2115 | the group's state flips, and a group without a state becomes expanded |
| Board.Board.ToggleAllGroups | main.js:2117-2128 | the states become `ToggleAll` of the old ones; nothing else changes |
| Board.Board.ReorderTasks | main.js:2408-2437 | unknown ids change nothing; within one group the task list is the `MoveTask` permutation and the group maps stay; across groups the dragged task changes group as `updateTaskField` does, with the groups, states and order `MoveToGroup` gives |
| Board.Board.MoveWithinGroup | main.js:2419-2430 | the same-group splice: the task list becomes the `MoveTask` permutation of itself, the group maps and order stay, and consistency is kept |
| Board.Board.ReorderGroups | main.js:2439-2450 | with both names present the order is the `MoveName` permutation, else unchanged; the order keeps the same names either way |
| Projects.NameOrUntitled | main.js:3370 | `name \|\| 'Untitled'` is never empty and keeps a non-empty name |
| Projects.NormalizeProject | main.js:938-945 | the project gets a name (Untitled when missing), empty tasks and groups where missing, and a missing order becomes the group keys, which list every group once |
| Projects.NormalizeNormal | main.js:938-945 | normalising an already normal project changes nothing |
| Projects.NormalizeAll | main.js:953 | `projects.map(normalizeProject)` normalises each project in place |
| Projects.ClampIndex | main.js:955 | `Math.min(Math.max(0, i), len - 1)` is a valid index of a non-empty list, keeps a valid index, and is -1 for an empty list |
| Projects.ActiveAfterDelete | main.js:747-754 | a non-negative index stays non-negative and never grows; an index other than the deleted one stays the same exactly when it lies before the deleted one |
| Projects.ActiveAfterDeleteKeepsProject | main.js:747-754 | after deleting another project the same project stays active; deleting the active one activates the one before it, or the new first one |
| Projects.Candidate | main.js:3370-3374 | every candidate name starts with the base |
| Projects.CandidateInjective | main.js:3374 | different candidate numbers give different names |
| Projects.CandidatesUpTo | main.js:3374 | the first `n` candidates, as a set |
| Projects.CandidatesUpToCount | main.js:3374 | the first `n` candidates are `n` distinct names, so the loop must stop |
| Projects.UniqueName | main.js:3370-3374 | the loop returns the first candidate not in the name set, all earlier candidates being taken |
| Projects.NamesOf | main.js:3373 | every project's name (or Untitled) is in the name set |
| Projects.Synced | main.js:373-380 | saving the globals replaces only the active project's content |
| Projects.Workspace.constructor | main.js:362-371 | an empty project list with empty globals and no `"-1"` property |
| Projects.Workspace.SyncActiveFromGlobals | main.js:373-380 | the active project, or the `"-1"` property when the index is -1 and it exists, takes a copy of the globals; nothing else changes |
| Projects.Workspace.SyncGlobalsFromActive | main.js:382-390 | the globals take the active slot's content (the `"-1"` property at index -1), and stay when the slot is empty |
| Projects.Workspace.AddProject | main.js:709-721 | an empty project named "Project N+1" is appended and activated, with empty globals; the `"-1"` property stays |
| Projects.Workspace.SwitchProject | main.js:723-734 | switching to the active index changes nothing; otherwise the globals are saved into the old slot and the new slot is loaded |
| Projects.Workspace.DeleteProject | main.js:736-763 | unconfirmed or unknown index: nothing changes; deleting the only project leaves a new array holding an empty "Project 1"; otherwise the project is removed, the `"-1"` property stays, the active index still points at the same project when another one was deleted, and the globals follow the active slot |
| Projects.Workspace.DuplicateProject | main.js:3363-3386 | the globals are saved (into the `"-1"` property at index -1), then a copy of the saved project is inserted right after it and activated, under the first free name among "NAME (copy)", "NAME (copy) 2", ... |
| Projects.Workspace.LoadDataFromObject | main.js:936-1011 | replaceAll takes a version-3 file (active index clamped), a single project or a projects array as a new array, or keeps the list; append adds the normalised projects and keeps the active index; intoActive gives every case of `LoadIntoActive`, from an empty list too; the globals follow the active slot |
| Projects.IntoActiveProject | main.js:982-989 | defines the project `intoActive` writes for a version-2 file: the file's name or the active one's, its tasks, groups, states and order (the group keys when it has none), normalised; `LoadIntoActive` states where it goes |
| Projects.Workspace.LoadIntoActive | main.js:976-1001 | an empty list first becomes a new array holding "Project 1"; a version-2 project (named after the file or the active slot) or a one-project version-3 file is written into the active slot, the `"-1"` property at index -1; any other file's projects are appended |
| Projects.Workspace.StartList | main.js:977-980 | an empty list becomes a new array holding "Project 1", active, with no `"-1"` property; a non-empty list stays |
| Projects.Workspace.WriteActive | main.js:983-992 | `projects[activeProjectIndex] = q` writes the element at an index and the `"-1"` property at -1, and keeps every project named |
| Projects.Written | main.js:983-992 | after the write the active slot holds the project, every other element stays, and the `"-1"` property changes only at index -1 |
| Csv.Esc | main.js:1103 | a quoted field starts and ends with a double quote |
| Csv.EscAll | main.js:1104 | each field is quoted on its own, in order |
| Csv.Scan | main.js:1228-1244 | defines the character loop of `splitCSVLine` over (fields done, current field, in quotes): `""` inside quotes is one quote, other quotes toggle, an unquoted comma ends the field |
| Csv.SplitLine | main.js:1224-1246 | defines `splitCSVLine` as the `Scan` of the line with the last field pushed; `SplitJoinEsc` and `SplitLineCount` state what it reads |
| Csv.SplitCSVLine | main.js:1224-1246 | the character loop computes the `SplitLine` scan of the line |
| Csv.QuotedBody | main.js:1229-1236 | inside quotes each doubled quote reads as one quote and commas are data |
| Csv.EscField | main.js:1103 | a quoted field followed by a comma or the end of the line reads back as the field |
| Csv.JoinEsc | main.js:1103-1104 | defines one exported line: the escaped fields joined by commas; `SplitJoinEsc` reads it back |
| Csv.ScanJoinEsc | main.js:1224-1246 | scanning a line of quoted fields leaves all fields but the last done and the last in progress |
| Csv.SplitJoinEsc | main.js:1224-1246 | `splitCSVLine(fields.map(esc).join(','))` gives back `fields` for any non-empty list of fields |
| Csv.SplitJoinEscEmpty | main.js:1224-1246 | the empty list of fields does not round-trip: it reads as one empty field |
| Csv.ScanCount | main.js:1237-1244 | the scan finishes one field per unquoted comma |
| Csv.SplitLineCount | main.js:1224-1246 | the number of fields is the number of unquoted commas plus one |
| Csv.ScanPlain | main.js:1240-1241 | text without quotes or commas is taken as field text |
| Csv.SplitJoinPlain | main.js:1104 | fields without quotes or commas also round-trip unquoted, as the header line is written |
| Csv.Lines | main.js:1205 | `split(/\r?\n/)` gives at least one line and no line holds a line feed |
| Csv.NonBlank | main.js:1205 | the kept lines are lines of the input that are not blank |
| Csv.MakeRow | main.js:1215-1218 | defines one record: each header mapped to its column, a missing column to the empty string; `MakeRowShape` and `MakeRowLastWins` state it |
| Csv.MakeRowShape | main.js:1215-1218 | a record has a value for each header and lists each key once |
| Csv.MakeRowLastWins | main.js:1215-1218 | with a repeated header the cell under its last occurrence wins |
| Csv.Headers | main.js:1207 | each header is the trimmed field of the first line |
| Csv.HeadersHaveNoMark | main.js:1207-1211 | the byte-order-mark removal is dead code: `trim` already removed the mark |
| Csv.RowsOf | main.js:1213-1220 | one record per body line, keyed by the headers |
| Csv.CsvRows | main.js:1203-1222 | `parseCSV` gives no records without a non-blank line, and otherwise one per further non-blank line |
| Csv.RowsOfSnoc | main.js:1213-1220 | one more line adds its record at the end |
| Csv.ParseCSV | main.js:1203-1222 | the method returns exactly `CsvRows(text)` |
| Csv.ReadRows | main.js:1213-1220 | the loop returns exactly one record per body line, in order |
| Csv.ExportFields | main.js:1094-1100 | every task exports one field per header |
| Csv.ExportBody | main.js:1104 | each task's line is its quoted fields joined by commas |
| Csv.JoinEscNewline | main.js:1103-1104 | a quoted line holds a line feed exactly when one of its fields does |
| Csv.NewlineSplitsLine | main.js:1205 | a field holding a line feed splits its exported line in two on import, because `esc` does not protect line breaks |
| Csv.LinesOfJoin | main.js:1105 | lines without line feeds joined by `\n` split back into themselves |
| Csv.NonBlankKeepsAll | main.js:1205 | the blank-line filter keeps a list of non-blank lines whole |
| Csv.ExportHeadersPlain | main.js:1102 | the export headers hold no quote, comma, line feed or blank |
| Csv.HeaderLineReadsBack | main.js:1207 | a plain header line reads back as its headers |
| Csv.HeaderLineFacts | main.js:1104 | the header line is one non-blank line |
| Csv.MakeRowDistinct | main.js:1215-1218 | under distinct headers a record's keys are the headers in order |
| Csv.LineReadsBack | main.js:1213-1218 | a quoted line under plain headers reads back as the record holding each field under its header |
| Csv.TaskLineFacts | main.js:1104 | the line of a task without line breaks is one non-blank line |
| Csv.ExportCsvLines | main.js:1104-1105 | the exported text splits into the header line and one line per task |
| Csv.ExportCsv | main.js:1092-1114 | defines `exportCSV`'s text: the header line, then one line per task; `ExportThenParse` reads it back |
| Csv.ExportThenParse | main.js:1092-1114 | `parseCSV(exportCSV())` gives one record per task holding the task's exported fields under the headers, for tasks without line breaks |
| Csv.JoinEscEnds | main.js:1104 | a quoted line starts and ends with a quote |
| CsvImport.Norm | main.js:1255 | `norm` leaves no whitespace, underscore or upper-case letter, and never lengthens |
| CsvImport.NormAppend | main.js:1255 | `norm` works piece by piece over a concatenation |
| CsvImport.NormIdempotent | main.js:1255 | normalising twice is normalising once |
| CsvImport.NormIgnoresCase | main.js:1255 | header matching ignores ASCII letter case |
| CsvImport.NormIgnoresSeparators | main.js:1255 | header matching ignores whitespace and underscores anywhere in a header |
| CsvImport.UnderscoreAliasesUnreachable | main.js:1271-1274 | the aliases `task_name`, `group_name`, `start_date` and `end_date` can never match, since `norm` removes underscores |
| CsvImport.KeyFor | main.js:1260-1275 | defines a role's column as the first key that answers to it; `KeyForFirst` states this |
| CsvImport.KeyForFirst | main.js:1260-1275 | a role's column is the first key that answers to it, and there is none exactly when no key answers |
| CsvImport.KeyForStep | main.js:1260-1275 | one more key is taken exactly when nothing before it answered and it does |
| CsvImport.HeaderMapFor | main.js:1258-1277 | defines the header map as `KeyFor` of each role; `FindHeaders` builds it |
| CsvImport.FindHeaders | main.js:1258-1277 | the `for` loop over the keys builds exactly `HeaderMapFor(keys)` |
| CsvImport.MatchUs | main.js:1348 | a match splits the string into a one- or two-digit month, a one- or two-digit day and a four-digit year around two slashes |
| CsvImport.MatchUsFinds | main.js:1348 | every string of that shape matches, with its own parts |
| CsvImport.PadTwo | main.js:1350-1351 | padding a one- or two-digit part gives two digits of the same value |
| CsvImport.FromUs | main.js:1349-1357 | the US branch yields, when it succeeds, `YYYY-MM-DD` with month 1..12 and day 1..31 |
| CsvImport.FromUsKeepsFields | main.js:1349-1357 | the US branch fails exactly when the month or the day is out of range, and otherwise keeps the year, month and day |
| CsvImport.UsDateToISO | main.js:1333-1359 | a result is always `YYYY-MM-DD` with month 1..12 and day 1..31 |
| CsvImport.UsDateToISOIdempotent | main.js:1333-1359 | converting a converted date gives it back |
| CsvImport.UsDateConverts | main.js:1333-1359 | an `m/d/yyyy` date goes through the US branch |
| CsvImport.UsShapeMatched | main.js:1335-1348 | a string of the US shape is trimmed, is not ISO-shaped and matches the US pattern with its own parts |
| Dates.IsoDay | main.js:1293 | defines `new Date("YYYY-MM-DD")` as the number of its UTC day, where a day past the end of the month runs into the next month; `IsoAfterIsLater` relates it to calendar order |
| Dates.IsoAfter | main.js:1293 | defines `new Date(startISO) > new Date(endISO)` as a comparison of the two `IsoDay` values; `IsoAfterIsLater` shows it is chronological order |
| Dates.IsoAfterIsLater | main.js:1293 | for real calendar dates, of any year, `new Date(a) > new Date(b)` on ISO dates is chronological order |
| CsvImport.KnownStatus | main.js:1297-1298 | an imported status is always one of the six known statuses |
| CsvImport.StatusKeysDistinctIgnoringCase | main.js:1297-1298 | the known statuses differ even ignoring case, so the `find` has at most one answer |
| CsvImport.KnownStatusMatches | main.js:1297-1298 | a raw status equal to a known one ignoring case becomes that one, and any other becomes Not Started |
| CsvImport.RowTask | main.js:1283-1308 | an accepted row's task has the given id and is well formed |
| CsvImport.EmptyIsNoDate | main.js:1333-1359 | the empty string converts to no date |
| CsvImport.ConvertTrimmed | main.js:1335 | conversion trims first, and blank text converts to nothing |
| CsvImport.RowTaskAccepts | main.js:1283-1308 | a row is imported exactly when it has a name and both dates convert with the start not after the end; the task keeps the trimmed name, the group (or Ungrouped), the converted dates and the known status |
| CsvImport.Collect | main.js:1282-1320 | the loop pushes at most one task per row |
| CsvImport.CollectFromRows | main.js:1282-1320 | every pushed task is what one row becomes with that task's id |
| CsvImport.CollectKeeps | main.js:1282-1320 | a property of every converted task holds of every pushed task |
| CsvImport.ImportedTasksWellFormed | main.js:1300-1308 | imported tasks get ids `idBase`, `idBase + 1`, ... and are all well formed |
| CsvImport.ReplayKeeps | main.js:1282-1320 | a property each allowed step keeps holds after all steps |
| CsvImport.ReplayReaches | main.js:1282-1320 | a property some step establishes and every later step keeps holds at the end |
| CsvImport.ReplayTasks | main.js:1309 | when each step appends its task, the steps append all tasks |
| CsvImport.AddImported | main.js:1309-1318 | defines one imported task added to the board: pushed, its group's status re-derived, then the group created if missing; `AddImportedKeeps` shows the board stays consistent |
| CsvImport.AddImportedKeeps | main.js:1309-1318 | one imported task keeps the board consistent |
| CsvImport.AddAllImportedKeeps | main.js:1282-1320 | an import keeps the board consistent |
| CsvImport.AddAllImportedTasks | main.js:1309 | the imported tasks are appended after the existing ones, in order |
| CsvImport.AddAllImportedKeepsOrder | main.js:1317 | the old order stays in front; new groups come after it |
| CsvImport.AddAllImportedKeepsStates | main.js:1314-1318 | an import removes no group state and changes none |
| CsvImport.AddAllImportedLeavesGroup | main.js:1312 | a group with no imported task keeps its record |
| CsvImport.NewGroupGetsNoStatus | main.js:1312-1318 | a group an imported row creates ends with no status although its tasks have one |
| CsvImport.ExistingGroupStatusDerived | main.js:1312 | a group that existed before and received an imported task ends with its derived status |
| CsvImport.CollectStep | main.js:1282-1320 | one more row adds its task, if it converts, after the others |
| CsvImport.AddAllImportedStep | main.js:1282-1320 | one more imported task is one more step |
| CsvImport.AddRows | main.js:1282-1320 | the loop imports exactly the converted rows and leaves the board as the step-by-step import of them |
| CsvImport.ProcessImportedRows | main.js:1248-1331 | with no rows or a required column missing nothing changes; otherwise every converting row is added with the next id, and consistency is kept |
| Colors.EscapeHtml | main.js:332-339 | defines `escapeHtml` as the five sequential `replace` calls; `EscapeHtmlEach` shows this escapes each character on its own |
| Colors.EscapeHtmlAppend | main.js:332-339 | `escapeHtml` works piece by piece over a concatenation |
| Colors.EscapeHtmlPlain | main.js:332-339 | a character none of the five replaces looks for is kept |
| Colors.EscapeHtmlAmp | main.js:334 | `&` becomes `&amp;` and later replaces do not touch it |
| Colors.EscapeHtmlLt | main.js:335 | `<` becomes `&lt;` |
| Colors.EscapeHtmlGt | main.js:336 | `>` becomes `&gt;` |
| Colors.EscapeHtmlQuot | main.js:337 | `"` becomes `&quot;` |
| Colors.EscapeHtmlApos | main.js:338 | `'` becomes `&#039;` |
| Colors.EscapeHtmlChar | main.js:332-339 | each character becomes its own entity, since no entity holds a character a later replace looks for |
| Colors.EscapeHtmlEach | main.js:332-339 | the five sequential replaces equal escaping each character on its own |
| Colors.UnescapeChar | main.js:332-339 | each entity reads back as its character |
| Colors.UnescapeEscapeHtml | main.js:332-339 | escaping loses nothing: reading the entities back gives the original text |
| Colors.UnescapeEach | main.js:332-339 | reading back the per-character escape gives the original text |
| Colors.EscapeHtmlSafe | main.js:332-339 | the escaped text holds no `<`, `>`, `"` or `'` |
| Colors.EscapeEachSafe | main.js:332-339 | the per-character escape holds no `<`, `>`, `"` or `'` |
| Colors.RemoveFirst | main.js:1488 | `replace('#', '')` removes only a first `#`, and nothing when there is none |
| Colors.Doubled | main.js:1489 | each character is written twice, in order |
| Colors.NormalizeHex | main.js:1483-1494 | the result is empty exactly for empty input, and otherwise starts with `#` and holds no lower-case letter |
| Colors.UpperKeepsClass | main.js:1493 | upper-casing keeps whitespace, hex digits and `#` what they are |
| Colors.NormalizeHexExpands | main.js:1486-1490 | a short form `#abc` or `abc` becomes `#` and each digit doubled and upper-cased |
| Colors.NormalizeHexLong | main.js:1492-1493 | a full `#rrggbb` colour is only upper-cased |
| Colors.LongBranchShape | main.js:1492-1493 | the long branch gives text with no blank ends that is not a short form |
| Colors.ShortDigits | main.js:1488 | removing the `#` of a short form leaves its three hex digits |
| Colors.ShortBranchShape | main.js:1489 | the short branch gives seven characters with no blank ends, not a short form |
| Colors.NormalizedShape | main.js:1483-1494 | a normalized colour has no blank ends and is not a short form |
| Colors.NormalizeHexIdempotent | main.js:1483-1494 | normalizing twice is normalizing once |
| Colors.HexRun | main.js:3189 | the hex-digit run `parseInt(col, 16)` reads ends at the first non-digit |
| Colors.ToInt32 | main.js:3190-3192 | the shifts first wrap the number to a signed 32-bit integer, NaN to 0 |
| Colors.RgbOf | main.js:3190-3192 | green and blue are the low bytes, each in 0..255 |
| Colors.Clamp | main.js:3193-3195 | a channel is clamped into 0..255 and kept when already there |
| Colors.NatToHex | main.js:3196 | `toString(16)` writes lower-case hex digits |
| Colors.Adjusted | main.js:3187-3195 | every adjusted channel lies in 0..255 |
| Colors.NatToHexValue | main.js:3196 | the hex digits read back as the number |
| Colors.NatToHexLength | main.js:3196 | a number below 16^k needs at most `k` hex digits |
| Colors.HexValuePadStart | main.js:3196 | padding with leading zeros keeps the value |
| Colors.UnpackPack | main.js:3190-3196 | `r << 16 \| g << 8 \| b` of channels in range unpacks back to them |
| Colors.Render | main.js:3196 | defines the hex text of three channels, padded to six digits after an optional `#`; `RenderReadsBack` states what it reads back as |
| Colors.RenderReadsBack | main.js:3196 | channels in range are written as six lower-case hex digits (after `#` when asked) that read back as them |
| Colors.AdjustBrightness | main.js:3186-3197 | defines `adjustBrightness` as `Render` of the channels moved by `amount` and clamped, with the `#` kept; `AdjustBrightnessReadsBack` states the result |
| Colors.AdjustBrightnessReadsBack | main.js:3186-3197 | the result keeps the input's `#`, has six lower-case hex digits, and those digits read back as the input's channels each moved by `amount` and clamped |
| Colors.AdjustedMonotone | main.js:3190-3195 | a larger amount never gives a darker channel |
| Colors.ParseIntHex | main.js:3189 | defines `parseInt(s, 16)`: white space, a sign and `0x` are skipped, the run of hex digits is read, and no digit gives NaN (`None`); `ParseIntHexDigits` states it for a string of hex digits |
| Colors.ParseIntHexDigits | main.js:3189 | a string of hex digits is read whole by `parseInt(col, 16)` |
| Colors.PackUnpack | main.js:3190-3196 | below 2^24 the channels pack back to the number |
| Colors.AdjustedByZero | main.js:3186-3195 | adding zero changes no channel of a `#rrggbb` colour |
| Colors.AdjustByZero | main.js:3186-3197 | adjusting `#rrggbb` by zero gives the same colour value |
| Colors.AddRecent | main.js:1514-1521 | defines `addToRecentColors` on the list as a value; `AddRecentFront`, `AddRecentDistinct` and `AddRecentTwice` state the result |
| Colors.AddRecentFront | main.js:1514-1521 | after adding a non-empty colour it comes first, there are 1 to 10 entries, and the rest are the older entries of other colours in their old order, cut at ten |
| Colors.FilterDistinct | main.js:1517 | filtering keeps a list of distinct colours distinct |
| Colors.AddRecentDistinct | main.js:1514-1521 | adding a colour keeps the entries distinct after normalizing |
| Colors.FilterAllKept | main.js:1517 | a filter every entry passes changes nothing |
| Colors.AddRecentTwice | main.js:1514-1521 | adding the same colour twice is adding it once |
| Colors.RecentColors.constructor | main.js:1451 | the list starts empty |
| Colors.RecentColors.Add | main.js:1514-1521 | the list becomes `AddRecent` of the old one: a non-empty colour first, at most ten entries, distinct entries stay distinct |

## Left out

- DOM reading and writing, HTML templating, notifications, modals, menus,
  autocomplete, `markAsChanged`/`markAsSaved` and the re-render calls are
  not modelled. Only the values they compute from the state are kept.
- `previousGroupInputs.add(groupName)` in `addTask` and
  `confirmAddTaskModal` is left out. It only feeds the group-name
  suggestions of the UI.
- `localStorage` autosave and restore, `loadRecentColors` and
  `saveRecentColors`, file reading, Blob downloads, XLSX parsing and the
  PNG export are I/O and are not modelled. `RecentColors` starts empty.
- `Date.now()` ids, `confirm()` answers, the track width, the pointer's x
  position and "today" are parameters.
- Milestones are carried through the project list, but adding, editing and
  deleting them is not modelled. That is modal code around a list push,
  update and filter.
- The JSON deep copies between the project list and the globals are plain
  value copies. Aliasing through shared objects therefore cannot arise.
- `Board.Board.RenameGroup` (and `Board.Board.UpdateGroupField`) store
  `false` where main.js:2081 stores `undefined` for a group with no state.
  Every reader of the state (main.js:2111, 2118, 2899) treats the two
  alike. The difference shows only in the JSON copy into the project list
  (main.js:378), which drops an `undefined` entry and keeps `false`.
- `toLowerCase` and `toUpperCase` are modelled for ASCII letters only.
- Strings are sequences of Unicode scalar values (Dafny `char`), with no
  normalisation. JavaScript counts UTF-16 code units, so a character
  outside the Basic Multilingual Plane is one element here but two for
  `.length`, `split('')` and `line[i]`. The model does not capture that
  difference.
- `parseYMD`'s fallback `new Date(string)` for strings that are not of the
  `YYYY-MM-DD` shape is not modelled. Such strings give no date.
- `new Date(t.startDate)` on `mousedown` parses as UTC midnight. The model
  reads it as the local date, as `parseYMD` does.
- `Dates.IsoDay`: `new Date("YYYY-MM-DD")` (adding a task, importing a
  row) is read as a UTC day, with no two-digit-year window. An ISO date
  whose day lies past the end of its month (up to 31) is read as V8 reads
  it, as a day of the next month; other engines may give an invalid date.
  The rollover in `Dates.ParseYMD` is that of `new Date(y, m, d)` and holds
  in every engine.
- `Board.TimeOf` gives every date the same timezone offset, so daylight
  saving between two dates is not modelled. Real offsets stay within a
  day, so they cannot reorder two different days. Only a comparison of
  1970-01-01 with an empty or unreadable date sees the offset
  (`Board.ParsedAfterOrder`).
- Dates are proleptic Gregorian with unbounded years. JavaScript's range of
  ±8.64e15 ms is not modelled.
- `Projection` grids hold months outside years 0..99 (`GridOk`), where
  `new Date(y, m - 1, d)` is exact. Charts of the first century are left out.
- `Dates.DaysBetween`: `daysBetween` first copies both dates through
  `new Date(y, m, d)`, which moves a year in 0..99 to 1900..1999
  (`Dates.Rebuilt`). The model takes the plain difference of the day
  numbers. The two agree when neither date lies in years 0..99
  (`Dates.DaysBetweenRebuilt`) and differ otherwise
  (`Dates.DaysBetweenWindowGap`). The drag code passes grid dates, which
  lie outside 0..99, and a task's original dates. The browser reads those
  with `new Date(isoString)`, which has no window, so a move that repairs
  an inversion of a task dated in years 0..99 can get another duration
  there. The model does not capture that case.
- `Dates.AddDaysBetween`: states the inverse for `Dates.DaysBetween` as
  modelled; for the code's rebuilt copies it holds only outside years 0..99.
- `Dates.DaysBetweenAddDays`: states the inverse for `Dates.DaysBetween` as
  modelled; for the code's rebuilt copies it holds only outside years 0..99.
- `Dates.DaysBetweenSign`: states the sign for `Dates.DaysBetween` as
  modelled; for the code's rebuilt copies it holds only outside years 0..99.
- `Gesture.RepairInversion`: a resize that repairs an inversion copies the
  other edge through `new Date(y, m, d)`; the model takes the edge itself.
  That edge is a grid date outside years 0..99, which the copy leaves
  unchanged (`Dates.Rebuilt`).
- `Gesture.DragSession.Update` stands for each `performUpdate` call that
  runs. `onMouseMove` records the latest pointer position and runs
  `performUpdate` in at most one `requestAnimationFrame` callback per frame
  (main.js:2816-2824). Moves within one frame are therefore not separate
  updates, and a move just before `mouseup` whose frame has not yet run
  never reaches the preview.
- Positions and percentages are exact rationals, not IEEE doubles. Rounding
  in the last bit of `left`/`width` is not modelled.
- `Colors.ParseIntHex` and `Colors.AdjustBrightness`: `parseInt(col, 16)`
  is exact up to any size, so precision loss of doubles beyond 2^53 is not
  modelled. `amount` is an integer, as the callers pass -20.
- `Csv.ParseCSV`: a line break inside a quoted field is split into two
  lines, as the code does. `Csv.NewlineSplitsLine` states this, and
  `Csv.ExportThenParse` assumes fields without line breaks.
- The row keys of `processImportedRows` keep the header order of the file.
  JavaScript lists integer-like keys first in `Object.keys`, which can
  change which of two aliased columns is taken; that reordering is not
  modelled.
- `Projects.Workspace`: the array's `"-1"` property is the only property
  outside the list that is modelled (`stray`). Under `Valid` the active
  index is never another out-of-range value, so no other one is written.
- `Gesture.DragSession.Start`: the lookup of the task (`tasks.find`) and the
  track element are outside the session. The method receives the task's
  dates and the track width, which must be positive.
- Three behaviours of the code that may look unintended are kept as
  written:
  - A move gesture keeps its duration only when it repairs an inversion
    (`GestureFacts.MoveCanChangeDuration`).
  - A second `mousedown` replaces the running drag
    (`Gesture.DragSession.Start`).
  - An import derives a group's status before creating the group, so a new
    group gets none (`CsvImport.NewGroupGetsNoStatus`).
- `Colors.NormalizeHex`: a non-empty blank string becomes `#`, as the code
  does; only the empty string is falsy.
- Group and header names are `map` keys. In JavaScript `groups`,
  `groupStates` and a CSV record are plain objects. A name that is an
  `Object.prototype` property (`constructor`, `toString`, ...) already
  reads as present in `!groups[name]` (main.js:93, 1314, 1698, 1960, 2047,
  2074), so such a group is never created and its tasks have no group
  record. A `__proto__` header (main.js:1217) sets the record's prototype
  instead of storing a cell. The model treats every name as an ordinary
  key.
