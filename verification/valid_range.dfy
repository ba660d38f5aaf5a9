/** `isInValidRange`: the same inclusive bounds as `isValidDate`, with no
    validity handling at all. */
module ValidRange {
  import opened Optional
  import opened Calendar
  import opened DayjsValue
  import ValidDate

  function IsInValidRange(targetDate: Dayjs, disableDatesBefore: Option<Dayjs>, disableDatesAfter: Option<Dayjs>): (ok: bool)
    ensures ok && disableDatesBefore.Some? ==> !IsBefore(targetDate, disableDatesBefore.value)
    ensures ok && disableDatesAfter.Some? ==> !IsAfter(targetDate, disableDatesAfter.value)
    ensures disableDatesBefore.None? && disableDatesAfter.None? ==> ok
    ensures targetDate.IsValid() && ok && disableDatesBefore.Some? && disableDatesBefore.value.IsValid()
      ==> IsSameOrAfter(targetDate, disableDatesBefore.value)
    ensures targetDate.IsValid() && ok && disableDatesAfter.Some? && disableDatesAfter.value.IsValid()
      ==> IsSameOrBefore(targetDate, disableDatesAfter.value)
  {
    if disableDatesBefore.Some? && IsBefore(targetDate, disableDatesBefore.value) then false
    else if disableDatesAfter.Some? && IsAfter(targetDate, disableDatesAfter.value) then false
    else true
  }

  /** A target equal to a bound passes: the comparisons are strict. */
  lemma BoundsInclusive(targetDate: Dayjs, other: Option<Dayjs>)
    ensures IsInValidRange(targetDate, Some(targetDate), other) == IsInValidRange(targetDate, None, other)
    ensures IsInValidRange(targetDate, other, Some(targetDate)) == IsInValidRange(targetDate, other, None)
  {
  }

  /** An invalid target is in range whatever the bounds: every comparison with
      it is false. `isValidDate` rejects it. */
  lemma InvalidTargetPasses(before: Option<Dayjs>, after: Option<Dayjs>)
    ensures IsInValidRange(InvalidDate, before, after)
    ensures !ValidDate.IsValidDate(InvalidDate, before, after)
  {
  }

  /** The two checks differ only in the validity of the target: `isValidDate`
      is `isInValidRange` plus the validity check, invalid bounds included. */
  lemma AgreesWithIsValidDate(targetDate: Dayjs, before: Option<Dayjs>, after: Option<Dayjs>)
    ensures ValidDate.IsValidDate(targetDate, before, after)
      == (targetDate.IsValid() && IsInValidRange(targetDate, before, after))
    ensures ValidDate.IsValidDate(targetDate, before, after) == IsInValidRange(targetDate, before, after)
      <==> targetDate.IsValid()
  {
  }
}
