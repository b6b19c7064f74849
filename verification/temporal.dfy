/** The `_valid` and `_convert` of the date and time types (lib/schema/timestamp.js,
    datetime.js, kdate.js, month.js, minute.js, second.js, time.js, timespan.js).
    Each formatter is stated by what the engine's literal reader recovers from it. */
module Temporal {
  import opened Results
  import opened Text
  import opened Js
  import opened Utils
  import opened Literals

  /** `val instanceof Date`: the `_valid` of every date and time type. */
  function DateValid(v: JsValue): (r: Outcome<JsError>)
    ensures r.Pass? <==> v.JDate?
    ensures r.Fail? ==> r.error == NotDate
  {
    if !v.JDate? then Fail(NotDate) else Pass
  }

  /** `utils.extendDigits(n, digits)` on an integral number, which never throws:
      two- and three-digit zero padding for the in-range fields. */
  function Padded(n: int, digits: int): (r: string)
    ensures 0 <= n < 100 && digits == 2 ==> r == Two(n)
    ensures 0 <= n < 1000 && digits == 3 ==> r == Three(n)
  {
    if 0 <= n < 100 && digits == 2 then ExtendTwo(n); ExtendDigits(JNum(n), digits).value
    else if 0 <= n < 1000 && digits == 3 then ExtendThree(n); ExtendDigits(JNum(n), digits).value
    else ExtendDigits(JNum(n), digits).value
  }

  /** The calendar part every date formatter writes: the year unpadded, the
      1-based month, and `getDay() + 1` (the weekday, 1 to 7) as the day. */
  function CalendarText(d: DateFields): string {
    IntText(d.fullYear) + "." + Padded(d.month0 + 1, 2) + "." + Padded(d.weekday + 1, 2)
  }

  lemma CalendarReads(d: DateFields)
    requires InRange(d)
    ensures ReadDay(CalendarText(d)) == Some(Day(d.fullYear, d.month0 + 1, d.weekday + 1))
    ensures |CalendarText(d)| == |IntText(d.fullYear)| + 6
  {
    assert Padded(d.month0 + 1, 2) == Two(d.month0 + 1);
    assert Padded(d.weekday + 1, 2) == Two(d.weekday + 1);
    ReadDayText(d.fullYear, d.month0 + 1, d.weekday + 1);
  }

  /** The `HH:MM:SS` clock the formatters write, whose minute field repeats `getHours()`. */
  function ClockText(d: DateFields): string {
    Padded(d.hours, 2) + ":" + Padded(d.hours, 2) + ":" + Padded(d.seconds, 2)
  }

  lemma ClockReads(d: DateFields)
    requires InRange(d)
    ensures ClockText(d) == Two(d.hours) + ":" + Two(d.hours) + ":" + Two(d.seconds)
    ensures ReadClock(ClockText(d)) == Some(Clock(d.hours, d.hours, d.seconds, 0))
  {
    assert Padded(d.hours, 2) == Two(d.hours);
    assert Padded(d.seconds, 2) == Two(d.seconds);
    ReadSecondText(d.hours, d.hours, d.seconds);
  }

  // ----- Timestamp ---------------------------------------------------------------

  /** The clock with the three millisecond digits and six zeros of nanoseconds. */
  function FineClockText(d: DateFields): string {
    ClockText(d) + "." + Padded(d.utcMillis, 3) + "000000"
  }

  lemma FineClockReads(d: DateFields)
    requires InRange(d)
    ensures ReadClock(FineClockText(d)) == Some(Clock(d.hours, d.hours, d.seconds, d.utcMillis * 1000000))
    ensures |FineClockText(d)| == 18
  {
    var frac := Three(d.utcMillis) + "000000";
    ClockReads(d);
    assert Padded(d.utcMillis, 3) == Three(d.utcMillis);
    assert FineClockText(d) == Two(d.hours) + ":" + Two(d.hours) + ":" + Two(d.seconds) + "." + frac;
    MillisNanos(d.utcMillis);
    ReadFractionText(d.hours, d.hours, d.seconds, frac);
  }

  /** `year.MM.DDTHH:MM:SS.mmm000000`. */
  function TimestampLiteral(d: DateFields): string {
    CalendarText(d) + "T" + FineClockText(d)
  }

  /** The engine reads a timestamp whose day is the weekday and whose minute is the
      hour; the milliseconds come back as nanoseconds. The text is 25 characters
      longer than the year. */
  lemma TimestampReads(d: DateFields)
    requires InRange(d)
    ensures ReadStamp(TimestampLiteral(d), 18)
         == Some((Day(d.fullYear, d.month0 + 1, d.weekday + 1),
                  Clock(d.hours, d.hours, d.seconds, d.utcMillis * 1000000)))
    ensures |TimestampLiteral(d)| == |IntText(d.fullYear)| + 25
  {
    CalendarReads(d);
    FineClockReads(d);
    ReadStampText(CalendarText(d), FineClockText(d), Day(d.fullYear, d.month0 + 1, d.weekday + 1),
                  Clock(d.hours, d.hours, d.seconds, d.utcMillis * 1000000));
  }

  // ----- DateTime ----------------------------------------------------------------

  /** `year.MM.DDTHH:MM:SS`. */
  function DateTimeLiteral(d: DateFields): string {
    CalendarText(d) + "T" + ClockText(d)
  }

  /** The engine reads a datetime whose day is the weekday and whose minute is the
      hour. The text is 15 characters longer than the year. */
  lemma DateTimeReads(d: DateFields)
    requires InRange(d)
    ensures ReadStamp(DateTimeLiteral(d), 8)
         == Some((Day(d.fullYear, d.month0 + 1, d.weekday + 1), Clock(d.hours, d.hours, d.seconds, 0)))
    ensures |DateTimeLiteral(d)| == |IntText(d.fullYear)| + 15
  {
    CalendarReads(d);
    ClockReads(d);
    ReadStampText(CalendarText(d), ClockText(d), Day(d.fullYear, d.month0 + 1, d.weekday + 1),
                  Clock(d.hours, d.hours, d.seconds, 0));
  }

  // ----- Minute and Second -------------------------------------------------------

  /** `HH:MM`, both fields from `getHours()`. */
  function MinuteLiteral(d: DateFields): string {
    Padded(d.hours, 2) + ":" + Padded(d.hours, 2)
  }

  /** The engine reads a minute equal to the hour; the two fields of the text are
      always the same. */
  lemma MinuteReads(d: DateFields)
    requires InRange(d)
    ensures ReadClock(MinuteLiteral(d)) == Some(Clock(d.hours, d.hours, 0, 0))
    ensures |MinuteLiteral(d)| == 5 && MinuteLiteral(d)[..2] == MinuteLiteral(d)[3..]
  {
    assert Padded(d.hours, 2) == Two(d.hours);
    ReadHourMinuteText(d.hours, d.hours);
  }

  /** `HH:MM:SS`, the minute field from `getHours()`. */
  function SecondLiteral(d: DateFields): string {
    ClockText(d)
  }

  lemma SecondReads(d: DateFields)
    requires InRange(d)
    ensures ReadClock(SecondLiteral(d)) == Some(Clock(d.hours, d.hours, d.seconds, 0))
    ensures |SecondLiteral(d)| == 8
  {
    ClockReads(d);
  }

  // ----- KDate, Month, Time, Timespan --------------------------------------------

  /** kdate.js, month.js, time.js and timespan.js call `utils.extendDigits` without
      ever requiring `utils`, so their `_convert` throws this ReferenceError on every
      Date before producing any text. */
  const UnboundUtils: JsError := Unbound("utils")

  // ----- what the fields lose ----------------------------------------------------

  /** 1 August and 8 August 2017, both Tuesdays at 01:30:05.250, give the same
      timestamp and datetime: the day of the month is never read. */
  lemma DayOfMonthLost()
    ensures var d1 := DateFields(2017, 7, 1, 2, 1, 30, 5, 250);
            var d2 := DateFields(2017, 7, 8, 2, 1, 30, 5, 250);
            && InRange(d1) && InRange(d2) && d1 != d2
            && TimestampLiteral(d1) == TimestampLiteral(d2)
            && DateTimeLiteral(d1) == DateTimeLiteral(d2)
  {
  }

  /** 01:00 and 01:59 on the same day give the same literal for every clock
      formatter: the minutes are never read. */
  lemma MinutesLost()
    ensures var d1 := DateFields(2017, 7, 1, 2, 1, 0, 5, 250);
            var d2 := DateFields(2017, 7, 1, 2, 1, 59, 5, 250);
            && InRange(d1) && InRange(d2) && d1 != d2
            && TimestampLiteral(d1) == TimestampLiteral(d2)
            && DateTimeLiteral(d1) == DateTimeLiteral(d2)
            && MinuteLiteral(d1) == MinuteLiteral(d2)
            && SecondLiteral(d1) == SecondLiteral(d2)
  {
  }

  /** 1 August 2017, a Tuesday, gets the calendar `2017.08.03`: the day the create
      test of test/model/model.test.js expects is the weekday plus one. */
  lemma CreateTestCalendar()
    ensures CalendarText(DateFields(2017, 7, 1, 2, 0, 0, 0, 0)) + "d" == "2017.08.03d"
  {
    assert IntText(2017) == "2017";
    assert Two(8) == "08" && Two(3) == "03";
  }
}
