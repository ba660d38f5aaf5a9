/** The part of dayjs the date picker relies on: a value that is either a valid
    local instant or an "Invalid Date", and comparisons made through its
    millisecond time value. */
module DayjsValue {
  import opened Calendar

  const MS_PER_DAY: int := 86_400_000

  /** Milliseconds elapsed since local midnight. */
  type MsOfDay = n: int | 0 <= n < 86_400_000

  /** A point in local time: a calendar day and the time of day on it. */
  datatype Instant = Instant(date: CalendarDate, ms: MsOfDay)

  /** A dayjs object. `InvalidDate` is what dayjs yields for input it cannot read. */
  datatype Dayjs = Moment(at: Instant) | InvalidDate {
    /** dayjs's `isValid()`. */
    predicate IsValid() {
      Moment?
    }
  }

  /** Local milliseconds since 1970-01-01 00:00: it orders instants as `valueOf()` does at a fixed UTC offset. */
  function Time(i: Instant): int {
    DayNumber(i.date) * MS_PER_DAY + i.ms
  }

  /** Instants compare as their days do, and by time of day within one day. */
  lemma TimeOrder(a: Instant, b: Instant)
    ensures Time(a) < Time(b) <==>
      DayNumber(a.date) < DayNumber(b.date) || (a.date == b.date && a.ms < b.ms)
    ensures Time(a) == Time(b) <==> a == b
  {
    DayNumberOrder(a.date, b.date);
  }

  /* Comparisons without a unit. The time value of an invalid date is NaN, so
     every comparison that involves one is false. */

  predicate IsBefore(a: Dayjs, b: Dayjs) {
    a.Moment? && b.Moment? && Time(a.at) < Time(b.at)
  }

  predicate IsAfter(a: Dayjs, b: Dayjs) {
    a.Moment? && b.Moment? && Time(a.at) > Time(b.at)
  }

  predicate IsSame(a: Dayjs, b: Dayjs) {
    a.Moment? && b.Moment? && Time(a.at) == Time(b.at)
  }

  predicate IsSameOrAfter(a: Dayjs, b: Dayjs) {
    IsSame(a, b) || IsAfter(a, b)
  }

  predicate IsSameOrBefore(a: Dayjs, b: Dayjs) {
    IsSame(a, b) || IsBefore(a, b)
  }

  /** `a.isSame(b, 'day')`: `b` lies between the start and the end of `a`'s day. */
  predicate IsSameDay(a: Dayjs, b: Dayjs) {
    a.Moment? && b.Moment?
    && DayNumber(a.at.date) * MS_PER_DAY <= Time(b.at) < DayNumber(a.at.date) * MS_PER_DAY + MS_PER_DAY
  }

  /** Two valid values are the same day exactly when they carry the same date. */
  lemma IsSameDayIsSameDate(a: Dayjs, b: Dayjs)
    ensures IsSameDay(a, b) <==> a.Moment? && b.Moment? && a.at.date == b.at.date
  {
    if a.Moment? && b.Moment? {
      DayNumberOrder(a.at.date, b.at.date);
    }
  }

  /** `startOf('day')`: the last midnight not after the value; an invalid date
      stays invalid. */
  function StartOfDay(d: Dayjs): (r: Dayjs)
    ensures r.IsValid() == d.IsValid()
    ensures r.Moment? ==> AtMidnight(r) && Time(r.at) <= Time(d.at) < Time(r.at) + MS_PER_DAY
  {
    match d
    case Moment(i) => Moment(Instant(i.date, 0))
    case InvalidDate => InvalidDate
  }

  /** A value at midnight, as the picker's grid cells and day-truncated bounds are. */
  predicate AtMidnight(d: Dayjs) {
    d.Moment? && d.at.ms == 0
  }

  /** Between midnights, the time comparisons are the day-number comparisons. */
  lemma MidnightOrder(a: Dayjs, b: Dayjs)
    requires AtMidnight(a) && AtMidnight(b)
    ensures IsBefore(a, b) <==> DayNumber(a.at.date) < DayNumber(b.at.date)
    ensures IsAfter(a, b) <==> DayNumber(a.at.date) > DayNumber(b.at.date)
    ensures IsSame(a, b) <==> a.at.date == b.at.date
  {
    TimeOrder(a.at, b.at);
    TimeOrder(b.at, a.at);
  }
}
