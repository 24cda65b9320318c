/** The checks `download` makes before doing any work: the month, then the
    year, then the optional day; the first failure decides the rejection. */
module Validator {
  import opened Wrappers
  import opened JsText
  import opened Codes

  /** The year as the caller gave it: the text `+` writes for it, and what `parseInt` reads
      from it. A number 2017 and a string "2017" both have the text "2017"; a string
      "2017abc" is read as 2017 and written as "2017abc". */
  datatype YearArg = YearArg(text: string, parsed: Parsed)

  /** The request object. `None` stands for a field that is `undefined` or `null`, and for
      the day also for `""`, which the code treats alike; a month or year given as `""` is a
      present value (the year then reads as NaN). The day is held as `parseInt` reads it. */
  datatype Request = Request(month: Option<string>, year: Option<YearArg>, day: Option<Parsed>)

  /** A request that passed validation: the month name, the year as given, and the padded
      day code, or the empty string for the whole month. */
  datatype Criteria = Criteria(month: string, year: string, day: JsValue)

  const InvalidMonth := "Invalid month name"
  const InvalidYear := "Invalid year name"
  const InvalidDay := "Invalid day specified"

  /** A year is accepted when it is present, not the empty string, and reads as one of the
      listed years. */
  predicate YearAccepted(year: Option<YearArg>)
  {
    year.Some? && year.value.text != "" && year.value.parsed.Int? && year.value.parsed.value in YearsCode()
  }

  /** The day check. A supplied day is parsed, zero-padded and looked up among the day codes.
      NaN passes the `typeof day !== "number"` test, since NaN is a number, and pads to NaN,
      which the lookup never finds. */
  function CheckDay(day: Option<Parsed>): (r: Result<JsValue, string>)
    ensures day.None? ==> r == Success(Str(""))
    ensures day.Some? ==> (r.Success? <==> day.value.Int? && 1 <= day.value.value <= 31)
    ensures day.Some? && r.Success? ==> r.value == DayCode(day.value.value)
    ensures r.Failure? ==> r.error == InvalidDay
  {
    match day
    case None => Success(Str(""))
    case Some(d) =>
      AppendZeroToDayAccepted(d);
      var padded := AppendZeroToDay(d);
      if padded in AllDayCodes() then Success(padded) else Failure(InvalidDay)
  }

  /** The validation part of `download`: rejects with the message for the first field that fails. */
  function Validate(req: Request): (r: Result<Criteria, string>)
    ensures r == Failure(InvalidMonth) <==> !(req.month.Some? && req.month.value in MonthsCode())
    ensures r == Failure(InvalidYear) <==>
              req.month.Some? && req.month.value in MonthsCode() &&
              !(req.year.Some? && req.year.value.text != "" &&
                req.year.value.parsed.Int? && 2016 <= req.year.value.parsed.value <= 2018)
    ensures r == Failure(InvalidDay) <==>
              req.month.Some? && req.month.value in MonthsCode() &&
              req.year.Some? && req.year.value.text != "" &&
              req.year.value.parsed.Int? && 2016 <= req.year.value.parsed.value <= 2018 &&
              req.day.Some? && !(req.day.value.Int? && 1 <= req.day.value.value <= 31)
    ensures r.Failure? ==> r.error in {InvalidMonth, InvalidYear, InvalidDay}
    ensures r.Success? ==>
              && req.month == Some(r.value.month)
              && req.year.Some? && req.year.value.text == r.value.year && r.value.year != ""
              && (req.day.None? ==> r.value.day == Str(""))
              && (req.day.Some? ==> req.day.value.Int? && r.value.day == DayCode(req.day.value.value))
  {
    if !(req.month.Some? && req.month.value in MonthsCode()) then
      Failure(InvalidMonth)
    else if !YearAccepted(req.year) then
      Failure(InvalidYear)
    else
      match CheckDay(req.day)
      case Failure(e) => Failure(e)
      case Success(code) => Success(Criteria(req.month.value, req.year.value.text, code))
  }

  /** Month names are compared exactly: a lower-case name is rejected before the year or
      the day is looked at. */
  lemma LowerCaseMonthRejected(req: Request)
    requires req.month.Some? && |req.month.value| >= 1 && 'a' <= req.month.value[0] <= 'z'
    ensures Validate(req) == Failure(InvalidMonth)
  {
  }
}
