/** `validateAndEmitDate`: parse the typed text with the configured format,
    then keep it only if it is a valid date inside the bounds truncated to
    their start of day, and emit it in the canonical `YYYY-MM-DD` form. */
module EmitDate {
  import opened Optional
  import opened Calendar
  import opened DayjsValue
  import opened DateFormat
  import ValidRange
  import ValidDate

  /** `dayjs(text, format)`: custom-format parsing, which this model leaves
      uninterpreted; any parser may be supplied. */
  type Parser = (string, string) -> Dayjs

  /** `convertDate(bound)`: the bound at the start of its day. */
  function ConvertDate(date: Dayjs): Dayjs {
    StartOfDay(date)
  }

  /** `bound ? convertDate(bound) : undefined`. */
  function ConvertBound(bound: Option<Dayjs>): (r: Option<Dayjs>)
    ensures r.Some? <==> bound.Some?
    ensures r.Some? ==> r.value.IsValid() == bound.value.IsValid()
    ensures r.Some? && r.value.Moment? ==> r.value.at.date == bound.value.at.date && r.value.at.ms == 0
  {
    if bound.Some? then Some(ConvertDate(bound.value)) else None
  }

  /** `None` stands for the `undefined` the source returns. */
  function ValidateAndEmitDate(parse: Parser, value: string, format: string,
                               disableDatesBefore: Option<Dayjs>, disableDatesAfter: Option<Dayjs>): (r: Option<string>)
    ensures !parse(value, format).IsValid() ==> r.None?
    ensures r.Some? ==> parse(value, format).IsValid() && r.value == Format(parse(value, format).at.date)
  {
    var newDateValue := parse(value, format);
    if newDateValue.IsValid()
      && ValidRange.IsInValidRange(newDateValue, ConvertBound(disableDatesBefore), ConvertBound(disableDatesAfter))
    then Some(Format(newDateValue.at.date))
    else None
  }

  /** Checking validity first and then `isInValidRange` is the same as
      `isValidDate` on the truncated bounds. */
  lemma EmitsExactlyWhenValidDate(parse: Parser, value: string, format: string,
                                  before: Option<Dayjs>, after: Option<Dayjs>)
    ensures ValidateAndEmitDate(parse, value, format, before, after).Some?
      == ValidDate.IsValidDate(parse(value, format), ConvertBound(before), ConvertBound(after))
  {
    ValidRange.AgreesWithIsValidDate(parse(value, format), ConvertBound(before), ConvertBound(after));
  }

  /** Whether a parsed instant passes the day-truncated bounds: not on a day
      before a valid lower bound's day, and not after the midnight that starts
      a valid upper bound's day. */
  predicate WithinTruncatedBounds(t: Instant, before: Option<Dayjs>, after: Option<Dayjs>) {
    && (before.Some? && before.value.Moment? ==> DayNumber(before.value.at.date) <= DayNumber(t.date))
    && (after.Some? && after.value.Moment? ==>
          DayNumber(t.date) < DayNumber(after.value.at.date)
          || (t.date == after.value.at.date && t.ms == 0))
  }

  /** The result is emitted exactly for a valid parse inside the truncated
      bounds; the time of day of a bound never matters. */
  lemma EmittedExactly(parse: Parser, value: string, format: string, before: Option<Dayjs>, after: Option<Dayjs>)
    ensures ValidateAndEmitDate(parse, value, format, before, after).Some?
      <==> parse(value, format).Moment? && WithinTruncatedBounds(parse(value, format).at, before, after)
  {
    var d := parse(value, format);
    if d.Moment? {
      var lo := ConvertBound(before);
      var hi := ConvertBound(after);
      if lo.Some? && lo.value.Moment? {
        TimeOrder(d.at, lo.value.at);
      }
      if hi.Some? && hi.value.Moment? {
        TimeOrder(hi.value.at, d.at);
      }
    }
  }

  /** A parse at midnight on the same day as a bound passes that bound,
      whatever the bound's time of day. */
  lemma SameDayAsBoundPasses(parse: Parser, value: string, format: string, bound: Dayjs)
    requires parse(value, format).Moment? && parse(value, format).at.ms == 0
    requires bound.Moment? && bound.at.date == parse(value, format).at.date
    ensures ValidateAndEmitDate(parse, value, format, Some(bound), None).Some?
    ensures ValidateAndEmitDate(parse, value, format, None, Some(bound)).Some?
    ensures ValidateAndEmitDate(parse, value, format, Some(bound), Some(bound)).Some?
  {
    EmittedExactly(parse, value, format, Some(bound), None);
    EmittedExactly(parse, value, format, None, Some(bound));
    EmittedExactly(parse, value, format, Some(bound), Some(bound));
  }

  /** Whatever is emitted for the years 0 to 9999 is canonical `YYYY-MM-DD`
      text that reads back as the parsed date. */
  lemma EmittedIsCanonical(parse: Parser, value: string, format: string, before: Option<Dayjs>, after: Option<Dayjs>)
    requires ValidateAndEmitDate(parse, value, format, before, after).Some?
    requires 0 <= parse(value, format).at.date.year <= 9999
    ensures IsCanonical(ValidateAndEmitDate(parse, value, format, before, after).value)
    ensures ParseCanonical(ValidateAndEmitDate(parse, value, format, before, after).value)
      == Some(parse(value, format).at.date)
  {
    FormatRoundTrip(parse(value, format).at.date);
  }

  /** The component's examples: bounds at midnight of 2022-06-03 and 2022-06-12
      reject 2022-06-01 and 2022-07-01 and accept 2022-06-06; without bounds
      2022-12-01 is emitted as "2022-12-01"; an unreadable text gives nothing. */
  lemma ComponentExamples(parse: Parser, format: string)
    requires parse("2022.234", format) == InvalidDate
    requires parse("2022.12.1", format) == Moment(Instant(Date(2022, 11, 1), 0))
    requires parse("2022.6.1", format) == Moment(Instant(Date(2022, 5, 1), 0))
    requires parse("2022.7.1", format) == Moment(Instant(Date(2022, 6, 1), 0))
    requires parse("2022.6.6", format) == Moment(Instant(Date(2022, 5, 6), 0))
    ensures var lo, hi := Some(Moment(Instant(Date(2022, 5, 3), 0))), Some(Moment(Instant(Date(2022, 5, 12), 0)));
      && ValidateAndEmitDate(parse, "2022.234", format, None, None) == None
      && ValidateAndEmitDate(parse, "2022.12.1", format, None, None) == Some("2022-12-01")
      && ValidateAndEmitDate(parse, "2022.6.1", format, lo, hi) == None
      && ValidateAndEmitDate(parse, "2022.7.1", format, lo, hi) == None
      && ValidateAndEmitDate(parse, "2022.6.6", format, lo, hi) == Some("2022-06-06")
  {
    var lo, hi := Some(Moment(Instant(Date(2022, 5, 3), 0))), Some(Moment(Instant(Date(2022, 5, 12), 0)));
    FormatFirstOfDecember2022();
    FormatSixthOfJune2022();
    EmittedExactly(parse, "2022.6.1", format, lo, hi);
    EmittedExactly(parse, "2022.7.1", format, lo, hi);
    EmittedExactly(parse, "2022.6.6", format, lo, hi);
  }
}
