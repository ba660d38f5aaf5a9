/** `isValidDate`: the target must be a valid date, and valid bounds are
    inclusive limits; an invalid bound is ignored as if it were absent. */
module ValidDate {
  import opened Optional
  import opened Calendar
  import opened DayjsValue

  /** A bound that takes part in the check: present and itself a valid date. */
  predicate Applies(bound: Option<Dayjs>) {
    bound.Some? && bound.value.IsValid()
  }

  function IsValidDate(targetDate: Dayjs, disableDatesBefore: Option<Dayjs>, disableDatesAfter: Option<Dayjs>): (ok: bool)
    ensures !targetDate.IsValid() ==> !ok
    ensures ok && Applies(disableDatesBefore) ==> IsSameOrAfter(targetDate, disableDatesBefore.value)
    ensures ok && Applies(disableDatesAfter) ==> IsSameOrBefore(targetDate, disableDatesAfter.value)
    ensures targetDate.IsValid()
      && (Applies(disableDatesBefore) ==> IsSameOrAfter(targetDate, disableDatesBefore.value))
      && (Applies(disableDatesAfter) ==> IsSameOrBefore(targetDate, disableDatesAfter.value))
      ==> ok
  {
    if !targetDate.IsValid() then false
    else if disableDatesBefore.Some? && disableDatesBefore.value.IsValid()
      && IsBefore(targetDate, disableDatesBefore.value) then false
    else if disableDatesAfter.Some? && disableDatesAfter.value.IsValid()
      && IsAfter(targetDate, disableDatesAfter.value) then false
    else true
  }

  /** An invalid bound behaves exactly as an absent one. */
  lemma InvalidBoundsIgnored(targetDate: Dayjs, before: Option<Dayjs>, after: Option<Dayjs>)
    ensures IsValidDate(targetDate, Some(InvalidDate), after) == IsValidDate(targetDate, None, after)
    ensures IsValidDate(targetDate, before, Some(InvalidDate)) == IsValidDate(targetDate, before, None)
  {
  }

  /** For dates given at midnight the check is `lo <= target <= hi` on day numbers,
      each side only when its bound is present. */
  lemma IsValidDateOnDays(t: Instant, before: Option<Instant>, after: Option<Instant>)
    requires t.ms == 0
    requires before.Some? ==> before.value.ms == 0
    requires after.Some? ==> after.value.ms == 0
    ensures IsValidDate(Moment(t), if before.Some? then Some(Moment(before.value)) else None,
                                   if after.Some? then Some(Moment(after.value)) else None)
      <==> ((before.Some? ==> DayNumber(before.value.date) <= DayNumber(t.date))
           && (after.Some? ==> DayNumber(t.date) <= DayNumber(after.value.date)))
  {
    if before.Some? {
      MidnightOrder(Moment(t), Moment(before.value));
    }
    if after.Some? {
      MidnightOrder(Moment(t), Moment(after.value));
    }
  }

  /** The rows of the unit test table, for any "today" and the same time of day
      on the day before and the day after. */
  lemma UnitTestRows(today: Instant)
    ensures var now := Moment(today);
      var yesterday := Moment(Instant(Prev(today.date), today.ms));
      var tomorrow := Moment(Instant(Next(today.date), today.ms));
      && IsValidDate(now, Some(yesterday), Some(tomorrow))
      && !IsValidDate(yesterday, Some(now), Some(tomorrow))
      && !IsValidDate(tomorrow, Some(yesterday), Some(now))
      && IsValidDate(now, None, None)
      && !IsValidDate(InvalidDate, None, None)
      && IsValidDate(now, Some(now), Some(tomorrow))
      && IsValidDate(now, Some(yesterday), Some(now))
  {
    NextDayNumber(today.date);
    PrevDayNumber(today.date);
  }
}
