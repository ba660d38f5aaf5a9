# Date picker and date input: a Dafny model

This project models the logic core of a Vue date-picker / date-input widget pair built on dayjs:

- the month grid the picker shows (`useCalendarDates`): 42 consecutive days in 6 weeks of 7, starting on the Sunday on or before the first of the displayed month, each cell carrying its `hidden`, `disabled`, `selected`, `isToday`, `isStart`, `isEnd` and `inRange` flags;
- the two range checks the input uses, `isValidDate` and `isInValidRange`;
- the pipeline the input runs on blur (`validateAndEmitDate`): parse the text with the configured format, keep it only if it is valid and inside the bounds truncated to their start of day, and emit it as canonical `YYYY-MM-DD` text.

All four source files are pure, so the model is functions and lemmas only.

## Modules

- `Calendar` (calendar.dfy): proleptic Gregorian dates `Date(year, month, day)`, where the month is 0-based as dayjs's `month()`. The subset type `CalendarDate` holds only existing dates. Also here: leap years, month lengths, day numbers counted from 1970-01-01, weekdays (0 = Sunday), and `Next`, `Prev` and `AddDays`, which are dayjs's `add`/`subtract` in days.
- `DayjsValue` (dayjs.dfy): a dayjs object is `Moment(Instant(date, ms))` or `InvalidDate`. `ms` is the time of day in local milliseconds. Comparisons go through the local time value. Any comparison involving an invalid date is false, as it is for dayjs, whose value is then NaN. `StartOfDay` is `startOf('day')`.
- `DateFormat` (date_format.dfy): `Format` is `format('YYYY-MM-DD')`, with dayjs's zero padding (`padStart`). `ParseCanonical` is an independent reader for that text, used to state the round trip.
- `ValidDate` (valid_date.dfy), `ValidRange` (valid_range.dfy) and `EmitDate` (emit_date.dfy): the three functions of the date input.
- `Chunking` (chunk.dfy): lodash's `_chunk`.
- `CalendarDates` (calendar_dates.dfy): the grid.
- `Optional` (optional.dfy): the option type used for `undefined`.

Three facts about the code that the model makes explicit:

- `validateAndEmitDate` does not call `isValidDate`: it checks `isValid()` and then calls `isInValidRange`. `EmitDate.EmitsExactlyWhenValidDate` proves that the two come to the same thing.
- Both range helpers are inclusive, because both compare strictly. They differ only on an invalid target: `isInValidRange` lets it pass and `isValidDate` rejects it. Invalid bounds are ignored by both, explicitly in `isValidDate` and through NaN comparisons in `isInValidRange`.
- The week always starts on Sunday (`day()`).

## Model

| member | source | states |
|---|---|---|
| `CalendarDates.UseCalendarDates` | src/DatePicker/useCalendarDates.ts:35-75 | The grid has exactly 6 rows of exactly 7 cells, and cell (r, c) is flat cell 7r + c: row-major order. |
| `CalendarDates.LeftPaddedDatesSize` | src/DatePicker/useCalendarDates.ts:40 | The left padding is always between 0 and 6. |
| `CalendarDates.MonthFirstDate` | src/DatePicker/useCalendarDates.ts:36-39 | The first of the displayed month, `Date(year, monthIndex, 1)`. Its meaning in the grid is given by `GridStartsOnSunday`, `MonthDayAt` and `InMonthExactly`. |
| `CalendarDates.CalendarFirstDate` | src/DatePicker/useCalendarDates.ts:41 | The first of the month moved back by the padding. `CalendarFirstSunday` gives its meaning. |
| `CalendarDates.CalendarFirstSunday` | src/DatePicker/useCalendarDates.ts:40-41 | The grid's first date is a Sunday, and it is the last Sunday on or before the first of the month: at most six days earlier. |
| `CalendarDates.CalendarDatesOf` | src/DatePicker/useCalendarDates.ts:43 | Exactly CALENDAR_DATES_SIZE (42) dates are generated. |
| `CalendarDates.ConvertedDates` | src/DatePicker/useCalendarDates.ts:45-72 | One cell per generated date, 42 in all. |
| `CalendarDates.ToDateDetail` | src/DatePicker/useCalendarDates.ts:46-71 | The object literal built for one grid date. Its fields are characterised by `CellAt` (day, month, date, string, hidden), `DisabledExactly` (disabled), `MarkFlags` (isStart, isEnd, isToday), `SelectedFlag` (selected), and `InRangeNeedsOrderedEnds` and `InRangeOnDays` (inRange). |
| `CalendarDates.GridDateAt` | src/DatePicker/useCalendarDates.ts:36-43 | Grid date i is the first of the month moved by i minus the padding. Its day number is the first's minus the padding plus i, so the 42 dates are consecutive days. |
| `CalendarDates.GridWeekdayAt` | src/DatePicker/useCalendarDates.ts:40-51 | Grid date i has weekday i mod 7. |
| `CalendarDates.GridStartsOnSunday` | src/DatePicker/useCalendarDates.ts:36-43 | The first grid date is a Sunday. The first of the month sits at the index equal to the padding. |
| `CalendarDates.MonthDayAt` | src/DatePicker/useCalendarDates.ts:36-50 | For 1 <= k <= days in month, index pad + k - 1 is in the grid and holds day k of the displayed month. |
| `CalendarDates.InMonthExactly` | src/DatePicker/useCalendarDates.ts:52-53 | A grid date has the displayed year and month exactly when its index is in [pad, pad + days in month). |
| `CalendarDates.CellAt` | src/DatePicker/useCalendarDates.ts:47-53 | Cell i has `day == i % 7`, 1-based `month`, its date's year, day and string. `hidden` holds iff year differs or `month != monthIndex + 1`, iff i is outside [pad, pad + days in month). A shown cell's `date` is i - pad + 1. |
| `CalendarDates.ShownCells` | src/DatePicker/useCalendarDates.ts:52-53 | For every cell: hidden exactly outside [pad, pad + days in month), and a shown cell carries day i - pad + 1. |
| `CalendarDates.CountShownInterval` | src/DatePicker/useCalendarDates.ts:52-53 | If exactly the cells of [a, b) are shown, then b - a cells are shown. |
| `CalendarDates.EachMonthDayShownOnce` | src/DatePicker/useCalendarDates.ts:43-53 | Exactly days-in-month cells are shown. They show days 1, 2, ... in order, and no two shown cells show the same day. |
| `CalendarDates.DisabledExactly` | src/DatePicker/useCalendarDates.ts:54-58 | `disabled` iff a valid upper bound's day is before the cell's day, or a valid lower bound is after the cell's midnight. That second case includes the bound's own day when the bound is later than midnight. Absent and invalid bounds disable nothing. |
| `CalendarDates.BoundDayNotDisabled` | src/DatePicker/useCalendarDates.ts:54-58 | A cell is not disabled when each bound is absent or at that cell's own midnight. |
| `CalendarDates.FindSameDay` | src/DatePicker/useCalendarDates.ts:62 | Found iff some element of the list is valid and `isSame(date, 'day')`. |
| `CalendarDates.MarkFlags` | src/DatePicker/useCalendarDates.ts:60-65 | `isStart`, `isEnd` and `isToday` each hold iff that input is present and is the cell's own midnight. |
| `CalendarDates.SelectedFlag` | src/DatePicker/useCalendarDates.ts:59-65 | `isStart` and `isEnd` imply `selected`. `selected` iff start, end, or some valid selected date falls on the cell's date. |
| `CalendarDates.InRangeNeedsOrderedEnds` | src/DatePicker/useCalendarDates.ts:66-70 | `inRange` is false when the start or the end is absent. It is false for every cell when start > end, and whenever either end is invalid. |
| `CalendarDates.InRangeOnDays` | src/DatePicker/useCalendarDates.ts:66-70 | With both ends at midnight, `inRange` iff start day <= cell day <= end day, both ends included. |
| `CalendarDates.June2022` | src/DatePicker/useCalendarDates.ts:36-53 | For June 2022: padding 3, first cell Sunday 2022-05-29, 30 shown cells. |
| `Chunking.Chunk` | src/DatePicker/useCalendarDates.ts:74 | `_chunk` keeps every element in order (the rows flatten back to the input). No row is empty or longer than the size, and all rows but the last are full. |
| `Chunking.ChunkWeeks` | src/DatePicker/useCalendarDates.ts:74 | 7k elements give k rows of 7, and row r column c is element 7r + c. |
| `Calendar.DaysInMonth` | src/DatePicker/useCalendarDates.ts:36-43 | Months have 28 to 31 days. February has 29 exactly in leap years. |
| `Calendar.DaysBeforeMonth` | src/DatePicker/useCalendarDates.ts:36-43 | Nothing precedes January. The whole table sums to the year length. |
| `Calendar.DaysBeforeYearStep` | src/DatePicker/useCalendarDates.ts:41-43 | Consecutive New Year's days are a year length apart (365 or 366 by the Gregorian rule). |
| `Calendar.DayNumberOrder` | src/DatePicker/useCalendarDates.ts:54-70 | Day numbers order dates exactly as calendar order (year, then month, then day), and are equal only for equal dates. |
| `Calendar.NextDayNumber` | src/DatePicker/useCalendarDates.ts:41-43 | The following day, across month and year ends, is one day number later. |
| `Calendar.PrevDayNumber` | src/DatePicker/useCalendarDates.ts:41-43 | The preceding day, across month and year starts, is one day number earlier. |
| `Calendar.NextPrev` | src/DatePicker/useCalendarDates.ts:41-43 | `Next` and `Prev` undo each other. |
| `Calendar.AddDaysDayNumber` | src/DatePicker/useCalendarDates.ts:41-43 | Adding n days moves the day number by exactly n. |
| `Calendar.AddDays` | src/DatePicker/useCalendarDates.ts:41-43 | `subtract(n, 'd')` and `add(n, 'd')`, one day at a time. `AddDaysDayNumber` shows it moves the day number by exactly n; `AddDaysAdd` shows that shifts compose. |
| `Calendar.AddDaysAdd` | src/DatePicker/useCalendarDates.ts:41-43 | Subtracting the padding and then adding the offset is adding (offset - padding). |
| `Calendar.AddDaysWithinMonth` | src/DatePicker/useCalendarDates.ts:43-50 | Inside a month, adding k days only advances the day of the month by k. |
| `Calendar.MonthSpan` | src/DatePicker/useCalendarDates.ts:52-53 | A date is in month m of year y iff its day number lies in [first of month, first of month + month length). |
| `Calendar.Weekday` | src/DatePicker/useCalendarDates.ts:51 | Weekdays are in 0..6. |
| `Calendar.WeekdayAnchors` | src/DatePicker/useCalendarDates.ts:40 | 1970-01-01 is day 0 and a Thursday. 2000-02-29 is a Tuesday, 2022-06-01 a Wednesday and 2022-12-01 a Thursday. |
| `DayjsValue.TimeOrder` | src/DateInput/isValidDate.ts:12-26 | Time values order instants by day and then time of day, and are equal only for equal instants. |
| `DayjsValue.IsSameDayIsSameDate` | src/DatePicker/useCalendarDates.ts:62 | `isSame(x, 'day')` between valid values holds iff they carry the same date. |
| `DayjsValue.MidnightOrder` | src/DatePicker/useCalendarDates.ts:54-70 | Between midnights, `isBefore`, `isAfter` and `isSame` are day-number comparisons. |
| `DayjsValue.StartOfDay` | src/utils/convertDate.ts:3-5 | Start of day is the last midnight not after the value, at most one day earlier. Validity is kept. |
| `ValidDate.IsValidDate` | src/DateInput/isValidDate.ts:3-29 | An invalid target fails. A passing target is same-or-after every valid lower bound and same-or-before every valid upper bound. A valid target meeting both (inclusive) passes. |
| `ValidDate.InvalidBoundsIgnored` | src/DateInput/isValidDate.ts:12-26 | An invalid bound gives the same result as an absent one, on either side. |
| `ValidDate.IsValidDateOnDays` | src/DateInput/isValidDate.ts:12-28 | For midnight values: passes iff lo <= target <= hi on day numbers, each side only when present. No bounds: passes. |
| `ValidDate.UnitTestRows` | src/DateInput/isValidDate.spec.ts:9-22 | The seven table rows (today, yesterday, tomorrow at the same time of day; an invalid date) give the expected results. |
| `ValidRange.IsInValidRange` | src/DateInput/isValidRange.ts:3-17 | No bounds: passes. A target before a present lower bound or after a present upper bound fails. A passing valid target is inclusively within each valid bound. |
| `ValidRange.BoundsInclusive` | src/DateInput/isValidRange.ts:8-14 | A bound equal to the target acts as no bound at all. |
| `ValidRange.InvalidTargetPasses` | src/DateInput/isValidRange.ts:3-17 | An invalid target passes `isInValidRange` whatever the bounds, while `isValidDate` rejects it. |
| `ValidRange.AgreesWithIsValidDate` | src/DateInput/isValidRange.ts:3-17 | `isValidDate` is `isValid() && isInValidRange`. The two agree iff the target is valid, whatever the bounds. |
| `EmitDate.ConvertBound` | src/DateInput/validateAndEmitDate.ts:17-18 | Absent bounds stay absent. Present ones keep their validity and date and move to midnight. |
| `EmitDate.ConvertDate` | src/utils/convertDate.ts:3-5 | `convertDate` is `startOf('day')`, as used on the bounds at src/DateInput/validateAndEmitDate.ts:17-18. Its contract is that of `DayjsValue.StartOfDay`: the last midnight not after the value, validity kept. |
| `EmitDate.ValidateAndEmitDate` | src/DateInput/validateAndEmitDate.ts:6-24 | An invalid parse gives `undefined`. Any emitted string is the canonical format of the parsed date. |
| `EmitDate.EmitsExactlyWhenValidDate` | src/DateInput/validateAndEmitDate.ts:13-19 | A string is emitted iff `isValidDate` accepts the parse against the day-truncated bounds. |
| `EmitDate.EmittedExactly` | src/DateInput/validateAndEmitDate.ts:12-23 | Emitted iff the parse is valid, its day is not before a valid lower bound's day, and it is not after the midnight that starts a valid upper bound's day. A bound's time of day never matters. |
| `EmitDate.SameDayAsBoundPasses` | src/DateInput/validateAndEmitDate.ts:15-18 | A midnight parse on the same day as a bound passes it, whatever the bound's time. |
| `EmitDate.EmittedIsCanonical` | src/DateInput/validateAndEmitDate.ts:21 | For years 0..9999, the emitted text is 4 digits, '-', 2 digits, '-', 2 digits, and reads back as the parsed date. |
| `EmitDate.ComponentExamples` | src/DateInput/DateInput.spec.ts:85-167 | '2022.234' gives nothing and '2022.12.1' gives "2022-12-01". With bounds 2022-06-03 and 2022-06-12, 2022-06-01 and 2022-07-01 give nothing and 2022-06-06 gives "2022-06-06". |
| `DateFormat.FormatRoundTrip` | src/DateInput/validateAndEmitDate.ts:21 | For years 0..9999, `YYYY-MM-DD` output is canonical and `ParseCanonical` returns the same date. |
| `DateFormat.Format` | src/DateInput/validateAndEmitDate.ts:21 | `format('YYYY-MM-DD')`, also used for `dateString` at src/DatePicker/useCalendarDates.ts:47. `FormatRoundTrip` and `FormatInjective` give its meaning: for years 0..9999 the text reads back as the date, and distinct dates give distinct text. |
| `DateFormat.FormatInjective` | src/DateInput/validateAndEmitDate.ts:21 | For those years, distinct dates never share a string. |
| `DateFormat.PaddedNumber` | src/DateInput/validateAndEmitDate.ts:21 | A number below 10^w padded to w places is exactly w digits that read back as the number. |
| `DateFormat.FormatFirstOfDecember2022` | src/DateInput/DateInput.spec.ts:109-112 | 2022-12-01 formats as "2022-12-01". |
| `DateFormat.FormatSixthOfJune2022` | src/DateInput/DateInput.spec.ts:128-131 | 2022-06-06 formats as "2022-06-06". |

## Left out

- Vue reactivity (`computed`, `Ref`): the grid is a function of the current input values. Identical inputs therefore give identical grids by construction.
- The `dayjs()` clock read that starts the grid computation: it is overwritten by the year and month and truncated to the start of the month, so the model builds the first of the month from `(year, monthIndex)` directly.
- `monthIndex` outside 0..11: dayjs would roll into a neighbouring year. The model requires 0..11.
- `CalendarDates.MarkFlags`: `date.isSame(undefined)` compares with the current instant in dayjs. The model treats an absent start, end or current date as matching no cell. A grid cell is at midnight, so it matches "now" only at the exact millisecond of midnight.
- Falsy-but-not-false flags: `disabled` and `inRange` can be `undefined` at run time. They are modelled as `false`.
- Time zones and daylight-saving transitions: instants are local wall-clock time (a day and a millisecond of that day). Comparisons use local time, not UTC, so an instant that a DST transition repeats or skips is not modelled.
- The JavaScript Date range (about ±275760 years): years are unbounded integers.
- Years 0 to 99: dayjs's `startOf('M')` goes through `new Date(y, m, d)`, which reads those years as 1900 to 1999. The model builds the month of the year given, so for those years its grid is not what the program shows.
- Custom-format parsing `dayjs(text, format)`: it is a parameter of type `Parser`, left uninterpreted, and its format tokens are not modelled. The examples state the parser results they rely on as preconditions.
- `DateFormat.FormatRoundTrip`: the round trip is stated only for years 0 to 9999. Other years are still formatted as `padStart` does (more than four characters, or a minus sign inside the padding), but are not canonical.
- `src/constants.ts` is not part of this model. `DATE_FORMAT` is taken to be `YYYY-MM-DD`, the pattern the component's expected outputs show.
- `convertDate` called without an argument (the current day) is not modelled. Only its use on a bound is.
- The `DateInput.vue` and picker components (focus and blur state, emitted events, Enter, the clear button), the mapping of `undefined` to the empty string they emit, snapshot tests, and the build and registration files: these are UI wiring with no date logic.
