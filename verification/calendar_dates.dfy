/** `useCalendarDates`: the 6 x 7 grid of day cells the date picker shows for
    one month, with the flags that drive their rendering. The reactive
    `computed` wrapper is left aside: the grid is a function of the current
    values of the inputs. */
module CalendarDates {
  import opened Optional
  import opened Calendar
  import opened DayjsValue
  import opened DateFormat
  import opened Chunking

  const CALENDAR_DATES_SIZE: int := 7 * 6

  /** One cell. `month` is 1-based, `date` is the day of the month and `day`
      the weekday (0 = Sunday). */
  datatype DateDetail = DateDetail(
    dateString: string,
    year: int,
    month: int,
    date: int,
    day: int,
    hidden: bool,
    disabled: bool,
    selected: bool,
    isToday: bool,
    isStart: bool,
    isEnd: bool,
    inRange: bool)

  /** Current values of the inputs other than the displayed year and month. */
  datatype Marks = Marks(
    currentDate: Option<Dayjs>,
    startDate: Option<Dayjs>,
    endDate: Option<Dayjs>,
    selectedDates: seq<Dayjs>,
    disableDatesBefore: Option<Dayjs>,
    disableDatesAfter: Option<Dayjs>)

  /** The first of the displayed month. */
  function MonthFirstDate(year: int, monthIndex: int): CalendarDate
    requires 0 <= monthIndex <= 11
  {
    Date(year, monthIndex, 1)
  }

  /** Cells before the first of the month: its weekday. */
  function LeftPaddedDatesSize(year: int, monthIndex: int): (pad: int)
    requires 0 <= monthIndex <= 11
    ensures 0 <= pad <= 6
  {
    Weekday(MonthFirstDate(year, monthIndex))
  }

  /** The grid's first date: the first of the month moved back by its weekday. */
  function CalendarFirstDate(year: int, monthIndex: int): CalendarDate
    requires 0 <= monthIndex <= 11
  {
    AddDays(MonthFirstDate(year, monthIndex), -LeftPaddedDatesSize(year, monthIndex))
  }

  /** The grid's first date is the last Sunday on or before the first of the month. */
  lemma CalendarFirstSunday(year: int, monthIndex: int)
    requires 0 <= monthIndex <= 11
    ensures Weekday(CalendarFirstDate(year, monthIndex)) == 0
    ensures DayNumber(MonthFirstDate(year, monthIndex)) - 6 <= DayNumber(CalendarFirstDate(year, monthIndex))
    ensures DayNumber(CalendarFirstDate(year, monthIndex)) <= DayNumber(MonthFirstDate(year, monthIndex))
  {
    var first := MonthFirstDate(year, monthIndex);
    AddDaysDayNumber(first, -LeftPaddedDatesSize(year, monthIndex));
    ShiftByWeeks((DayNumber(first) + 4) / 7, 0);
  }

  /** The 42 dates of the grid, from the grid's first date on. */
  function CalendarDatesOf(year: int, monthIndex: int): (dates: seq<CalendarDate>)
    requires 0 <= monthIndex <= 11
    ensures |dates| == CALENDAR_DATES_SIZE
  {
    var calendarFirstDate := CalendarFirstDate(year, monthIndex);
    seq(CALENDAR_DATES_SIZE, offset => AddDays(calendarFirstDate, offset))
  }

  /** `date.isSame(other)` for an optional `other`; an absent one matches nothing. */
  predicate SameAs(date: Dayjs, other: Option<Dayjs>) {
    other.Some? && IsSame(date, other.value)
  }

  /** `!!selectedDates.find((day) => day.isSame(date, 'day'))`. */
  function FindSameDay(days: seq<Dayjs>, date: Dayjs): (found: bool)
    ensures found <==> exists j :: 0 <= j < |days| && IsSameDay(days[j], date)
  {
    if days == [] then false
    else if IsSameDay(days[0], date) then true
    else
      assert forall j :: 1 <= j < |days| ==> days[j] == days[1..][j - 1];
      FindSameDay(days[1..], date)
  }

  /** The cell of one grid date. Grid dates are at midnight. */
  function ToDateDetail(date: CalendarDate, year: int, monthIndex: int, marks: Marks): DateDetail {
    var cell := Moment(Instant(date, 0));
    DateDetail(
      Format(date),
      date.year,
      date.month + 1,
      date.day,
      Weekday(date),
      date.year != year || date.month != monthIndex,
      (marks.disableDatesAfter.Some? && IsAfter(cell, marks.disableDatesAfter.value))
        || (marks.disableDatesBefore.Some? && IsBefore(cell, marks.disableDatesBefore.value)),
      SameAs(cell, marks.startDate) || SameAs(cell, marks.endDate) || FindSameDay(marks.selectedDates, cell),
      SameAs(cell, marks.currentDate),
      SameAs(cell, marks.startDate),
      SameAs(cell, marks.endDate),
      marks.startDate.Some? && marks.endDate.Some?
        && IsSameOrAfter(cell, marks.startDate.value) && IsSameOrBefore(cell, marks.endDate.value))
  }

  /** The 42 cells in display order, before they are cut into weeks. */
  function ConvertedDates(year: int, monthIndex: int, marks: Marks): (cells: seq<DateDetail>)
    requires 0 <= monthIndex <= 11
    ensures |cells| == CALENDAR_DATES_SIZE
  {
    var dates := CalendarDatesOf(year, monthIndex);
    seq(CALENDAR_DATES_SIZE, i requires 0 <= i < CALENDAR_DATES_SIZE => ToDateDetail(dates[i], year, monthIndex, marks))
  }

  /** The grid: six weeks of seven cells. */
  function UseCalendarDates(year: int, monthIndex: int, marks: Marks): (grid: seq<seq<DateDetail>>)
    requires 0 <= monthIndex <= 11
    ensures |grid| == 6
    ensures forall r :: 0 <= r < 6 ==> |grid[r]| == 7
    ensures forall r, c :: 0 <= r < 6 && 0 <= c < 7 ==> grid[r][c] == ConvertedDates(year, monthIndex, marks)[7 * r + c]
  {
    var cells := ConvertedDates(year, monthIndex, marks);
    ChunkWeeks(cells, 6);
    Chunk(cells, 7)
  }

  /** Grid date `i` lies `i` days after the grid's first date, which is the
      first of the month moved back by its weekday. */
  lemma GridDateAt(year: int, monthIndex: int, i: int)
    requires 0 <= monthIndex <= 11 && 0 <= i < CALENDAR_DATES_SIZE
    ensures CalendarDatesOf(year, monthIndex)[i]
      == AddDays(MonthFirstDate(year, monthIndex), i - LeftPaddedDatesSize(year, monthIndex))
    ensures DayNumber(CalendarDatesOf(year, monthIndex)[i])
      == DayNumber(MonthFirstDate(year, monthIndex)) - LeftPaddedDatesSize(year, monthIndex) + i
  {
    var first := MonthFirstDate(year, monthIndex);
    var pad := LeftPaddedDatesSize(year, monthIndex);
    assert CalendarDatesOf(year, monthIndex)[i] == AddDays(AddDays(first, -pad), i);
    AddDaysAdd(first, -pad, i);
    AddDaysDayNumber(first, i - pad);
  }

  /** The weekdays of the grid run Sunday to Saturday in every row. */
  lemma GridWeekdayAt(year: int, monthIndex: int, i: int)
    requires 0 <= monthIndex <= 11 && 0 <= i < CALENDAR_DATES_SIZE
    ensures Weekday(CalendarDatesOf(year, monthIndex)[i]) == i % 7
  {
    var n := DayNumber(MonthFirstDate(year, monthIndex)) + 4;
    GridDateAt(year, monthIndex, i);
    assert DayNumber(CalendarDatesOf(year, monthIndex)[i]) + 4 == 7 * (n / 7) + i;
    ShiftByWeeks(n / 7, i);
  }

  lemma ShiftByWeeks(q: int, i: int)
    ensures (7 * q + i) % 7 == i % 7
  {
  }

  /** The grid starts on a Sunday, and the first of the month sits at the
      index given by its weekday. */
  lemma GridStartsOnSunday(year: int, monthIndex: int)
    requires 0 <= monthIndex <= 11
    ensures Weekday(CalendarDatesOf(year, monthIndex)[0]) == 0
    ensures CalendarDatesOf(year, monthIndex)[LeftPaddedDatesSize(year, monthIndex)] == MonthFirstDate(year, monthIndex)
  {
    GridWeekdayAt(year, monthIndex, 0);
    GridDateAt(year, monthIndex, LeftPaddedDatesSize(year, monthIndex));
  }

  /** Day `k` of the displayed month is at index `pad + k - 1`. */
  lemma MonthDayAt(year: int, monthIndex: int, k: int)
    requires 0 <= monthIndex <= 11 && 1 <= k <= DaysInMonth(year, monthIndex)
    ensures LeftPaddedDatesSize(year, monthIndex) + k - 1 < CALENDAR_DATES_SIZE
    ensures CalendarDatesOf(year, monthIndex)[LeftPaddedDatesSize(year, monthIndex) + k - 1]
      == Date(year, monthIndex, k)
  {
    var pad := LeftPaddedDatesSize(year, monthIndex);
    GridDateAt(year, monthIndex, pad + k - 1);
    AddDaysWithinMonth(MonthFirstDate(year, monthIndex), k - 1);
  }

  /** A grid date belongs to the displayed month exactly on the indices from
      the padding on, for as many days as the month has. */
  lemma InMonthExactly(year: int, monthIndex: int, i: int)
    requires 0 <= monthIndex <= 11 && 0 <= i < CALENDAR_DATES_SIZE
    ensures var d := CalendarDatesOf(year, monthIndex)[i];
      var pad := LeftPaddedDatesSize(year, monthIndex);
      (d.year == year && d.month == monthIndex) <==> pad <= i < pad + DaysInMonth(year, monthIndex)
  {
    GridDateAt(year, monthIndex, i);
    MonthSpan(CalendarDatesOf(year, monthIndex)[i], year, monthIndex);
  }

  /** Cell `i` has weekday `i % 7`, is dated with its date's fields (month
      1-based), and is hidden exactly outside the displayed month, which the
      0-based month index decides. */
  lemma CellAt(year: int, monthIndex: int, marks: Marks, i: int)
    requires 0 <= monthIndex <= 11 && 0 <= i < CALENDAR_DATES_SIZE
    ensures var cell := ConvertedDates(year, monthIndex, marks)[i];
      var d := CalendarDatesOf(year, monthIndex)[i];
      var pad := LeftPaddedDatesSize(year, monthIndex);
      && cell.day == i % 7
      && cell.year == d.year && cell.month == d.month + 1 && cell.date == d.day
      && cell.dateString == Format(d)
      && (cell.hidden <==> cell.year != year || cell.month != monthIndex + 1)
      && (cell.hidden <==> !(pad <= i < pad + DaysInMonth(year, monthIndex)))
      && (!cell.hidden ==> cell.date == i - pad + 1)
  {
    var pad := LeftPaddedDatesSize(year, monthIndex);
    GridWeekdayAt(year, monthIndex, i);
    InMonthExactly(year, monthIndex, i);
    if pad <= i < pad + DaysInMonth(year, monthIndex) {
      MonthDayAt(year, monthIndex, i - pad + 1);
    }
  }

  /** Cells not hidden. */
  function CountShown(cells: seq<DateDetail>): (n: nat)
    ensures n <= |cells|
  {
    if cells == [] then 0
    else CountShown(cells[..|cells| - 1]) + (if cells[|cells| - 1].hidden then 0 else 1)
  }

  lemma {:induction false} CountShownInterval(cells: seq<DateDetail>, a: int, b: int)
    requires 0 <= a <= b <= |cells|
    requires forall i :: 0 <= i < |cells| ==> (cells[i].hidden <==> !(a <= i < b))
    ensures CountShown(cells) == b - a
    decreases |cells|
  {
    if cells != [] {
      var last := |cells| - 1;
      var prefix := cells[..last];
      var a', b' := if a < last then a else last, if b < last then b else last;
      assert forall i :: 0 <= i < |prefix| ==> prefix[i] == cells[i];
      CountShownInterval(prefix, a', b');
    }
  }

  /** A cell is shown exactly from the padding on, for as many cells as the
      month has days, and a shown cell carries its offset from the padding
      plus one as its day of the month. */
  lemma ShownCells(year: int, monthIndex: int, marks: Marks)
    requires 0 <= monthIndex <= 11
    ensures var cells := ConvertedDates(year, monthIndex, marks);
      var pad := LeftPaddedDatesSize(year, monthIndex);
      forall i :: 0 <= i < |cells| ==>
        (cells[i].hidden <==> !(pad <= i < pad + DaysInMonth(year, monthIndex)))
        && (!cells[i].hidden ==> cells[i].date == i - pad + 1)
  {
    var cells := ConvertedDates(year, monthIndex, marks);
    forall i | 0 <= i < |cells|
      ensures var pad := LeftPaddedDatesSize(year, monthIndex);
        (cells[i].hidden <==> !(pad <= i < pad + DaysInMonth(year, monthIndex)))
        && (!cells[i].hidden ==> cells[i].date == i - pad + 1)
    {
      CellAt(year, monthIndex, marks, i);
    }
  }

  /** Exactly as many cells are shown as the month has days: the cells from
      the padding on show days 1, 2, ... of the month in order, and no two
      shown cells show the same day. */
  lemma EachMonthDayShownOnce(year: int, monthIndex: int, marks: Marks)
    requires 0 <= monthIndex <= 11
    ensures var cells := ConvertedDates(year, monthIndex, marks);
      var pad := LeftPaddedDatesSize(year, monthIndex);
      && CountShown(cells) == DaysInMonth(year, monthIndex)
      && (forall i :: pad <= i < pad + DaysInMonth(year, monthIndex) ==> !cells[i].hidden && cells[i].date == i - pad + 1)
      && (forall i, j :: (0 <= i < |cells| && 0 <= j < |cells| && !cells[i].hidden && !cells[j].hidden
                         && cells[i].date == cells[j].date) ==> i == j)
  {
    var cells := ConvertedDates(year, monthIndex, marks);
    var pad := LeftPaddedDatesSize(year, monthIndex);
    ShownCells(year, monthIndex, marks);
    CountShownInterval(cells, pad, pad + DaysInMonth(year, monthIndex));
  }

  /** A cell is disabled when its day is after a valid upper bound's day, or
      before a valid lower bound's instant: a lower bound later than midnight
      also disables its own day. */
  lemma DisabledExactly(date: CalendarDate, year: int, monthIndex: int, marks: Marks)
    ensures var hi, lo := marks.disableDatesAfter, marks.disableDatesBefore;
      ToDateDetail(date, year, monthIndex, marks).disabled <==>
        (hi.Some? && hi.value.Moment? && DayNumber(date) > DayNumber(hi.value.at.date))
        || (lo.Some? && lo.value.Moment?
            && (DayNumber(date) < DayNumber(lo.value.at.date) || (date == lo.value.at.date && lo.value.at.ms > 0)))
  {
    var cell := Instant(date, 0);
    if marks.disableDatesAfter.Some? && marks.disableDatesAfter.value.Moment? {
      TimeOrder(marks.disableDatesAfter.value.at, cell);
    }
    if marks.disableDatesBefore.Some? && marks.disableDatesBefore.value.Moment? {
      TimeOrder(cell, marks.disableDatesBefore.value.at);
    }
  }

  /** A cell on the day of a bound given at midnight is not disabled by it; either bound may be absent. */
  lemma BoundDayNotDisabled(date: CalendarDate, year: int, monthIndex: int, marks: Marks)
    requires marks.disableDatesAfter.None? || marks.disableDatesAfter == Some(Moment(Instant(date, 0)))
    requires marks.disableDatesBefore.None? || marks.disableDatesBefore == Some(Moment(Instant(date, 0)))
    ensures !ToDateDetail(date, year, monthIndex, marks).disabled
  {
    DisabledExactly(date, year, monthIndex, marks);
  }

  /** Start, end and today match only the cell's own midnight. */
  lemma MarkFlags(date: CalendarDate, year: int, monthIndex: int, marks: Marks)
    ensures var cell := ToDateDetail(date, year, monthIndex, marks);
      var midnight := Moment(Instant(date, 0));
      && (cell.isStart <==> marks.startDate == Some(midnight))
      && (cell.isEnd <==> marks.endDate == Some(midnight))
      && (cell.isToday <==> marks.currentDate == Some(midnight))
  {
    var midnight := Instant(date, 0);
    if marks.startDate.Some? && marks.startDate.value.Moment? {
      TimeOrder(marks.startDate.value.at, midnight);
    }
    if marks.endDate.Some? && marks.endDate.value.Moment? {
      TimeOrder(marks.endDate.value.at, midnight);
    }
    if marks.currentDate.Some? && marks.currentDate.value.Moment? {
      TimeOrder(marks.currentDate.value.at, midnight);
    }
  }

  /** A cell is selected exactly when it is the start, the end, or on the day
      of a valid selected date; start and end cells are always selected. */
  lemma SelectedFlag(date: CalendarDate, year: int, monthIndex: int, marks: Marks)
    ensures var cell := ToDateDetail(date, year, monthIndex, marks);
      && (cell.isStart ==> cell.selected)
      && (cell.isEnd ==> cell.selected)
      && (cell.selected <==> (cell.isStart || cell.isEnd
           || exists j :: 0 <= j < |marks.selectedDates|
                && marks.selectedDates[j].Moment? && marks.selectedDates[j].at.date == date))
  {
    var midnight := Moment(Instant(date, 0));
    forall j | 0 <= j < |marks.selectedDates|
      ensures IsSameDay(marks.selectedDates[j], midnight)
        <==> marks.selectedDates[j].Moment? && marks.selectedDates[j].at.date == date
    {
      IsSameDayIsSameDate(marks.selectedDates[j], midnight);
    }
  }

  /** No cell is in range unless both ends are present, nor when the start
      comes after the end. */
  lemma InRangeNeedsOrderedEnds(date: CalendarDate, year: int, monthIndex: int, marks: Marks)
    ensures marks.startDate.None? || marks.endDate.None? ==> !ToDateDetail(date, year, monthIndex, marks).inRange
    ensures ToDateDetail(date, year, monthIndex, marks).inRange ==>
      marks.startDate.value.Moment? && marks.endDate.value.Moment?
      && Time(marks.startDate.value.at) <= Time(marks.endDate.value.at)
  {
  }

  /** With both ends at midnight, a cell is in range exactly when its day lies
      between them, both included. */
  lemma InRangeOnDays(date: CalendarDate, year: int, monthIndex: int, marks: Marks)
    requires marks.startDate.Some? && marks.endDate.Some?
    requires AtMidnight(marks.startDate.value) && AtMidnight(marks.endDate.value)
    ensures ToDateDetail(date, year, monthIndex, marks).inRange <==>
      DayNumber(marks.startDate.value.at.date) <= DayNumber(date) <= DayNumber(marks.endDate.value.at.date)
  {
    var cell := Moment(Instant(date, 0));
    MidnightOrder(cell, marks.startDate.value);
    MidnightOrder(cell, marks.endDate.value);
    DayNumberOrder(date, marks.startDate.value.at.date);
    DayNumberOrder(date, marks.endDate.value.at.date);
  }

  /** The picker's month of June 2022 starts on Sunday the 29th of May and
      shows June in cells 3 to 32. */
  lemma June2022(marks: Marks)
    ensures LeftPaddedDatesSize(2022, 5) == 3
    ensures CalendarDatesOf(2022, 5)[0] == Date(2022, 4, 29)
    ensures CountShown(ConvertedDates(2022, 5, marks)) == 30
  {
    JuneFirstCell();
    EachMonthDayShownOnce(2022, 5, marks);
  }

  lemma JuneFirstCell()
    ensures LeftPaddedDatesSize(2022, 5) == 3
    ensures CalendarDatesOf(2022, 5)[0] == Date(2022, 4, 29)
  {
    WeekdayAnchors();
    var first: CalendarDate := Date(2022, 5, 1);
    GridDateAt(2022, 5, 0);
    AddDaysAdd(first, -1, -2);
    AddDaysAdd(first, 0, -1);
    AddDaysAdd(Prev(first), -1, -1);
  }
}
