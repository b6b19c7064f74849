/** Corrected definitions for the discrepancies the model exhibits, each with the
    property its original evidently meant to have. */
module Intended {
  import opened Results
  import opened Text
  import opened Js
  import opened Utils
  import opened Literals
  import opened Registry
  import opened Scalars
  import Models

  // ----- type codes ----------------------------------------------------------------

  /** The engine's codes, with Float on 9 and Month on 13, the two codes the
      dictionary gives them. */
  function CorrectedNumType(t: ColumnType): int {
    if t == Float then 9 else if t == Month then 13 else NumType(t)
  }

  /** Every type's corrected code looks up to the type itself. */
  lemma CorrectedNumTypeRoundTrip(t: ColumnType)
    ensures ConvertFromNumType(JNum(CorrectedNumType(t))) == Success(t)
  {
  }

  /** No two types share a corrected code. */
  lemma CorrectedNumTypeInjective(t1: ColumnType, t2: ColumnType)
    ensures CorrectedNumType(t1) == CorrectedNumType(t2) ==> t1 == t2
  {
    CorrectedNumTypeRoundTrip(t1);
    CorrectedNumTypeRoundTrip(t2);
  }

  // ----- date and time literals ----------------------------------------------------

  /** `year.MM.DD` from the year, the 1-based month and the day of the month. */
  function DayText(d: DateFields): string
    requires InRange(d)
  {
    IntText(d.fullYear) + "." + Two(d.month0 + 1) + "." + Two(d.date)
  }

  lemma DayTextReads(d: DateFields)
    requires InRange(d)
    ensures ReadDay(DayText(d)) == Some(Day(d.fullYear, d.month0 + 1, d.date))
  {
    ReadDayText(d.fullYear, d.month0 + 1, d.date);
  }

  /** `HH:MM:SS` from the hours, the minutes and the seconds. */
  function ClockText(d: DateFields): string
    requires InRange(d)
  {
    Two(d.hours) + ":" + Two(d.minutes) + ":" + Two(d.seconds)
  }

  /** The KDate literal, `year.MM.DDd`. */
  function KDateText(d: DateFields): string
    requires InRange(d)
  {
    DayText(d) + "d"
  }

  /** The engine reads the date's own year, month and day back. */
  lemma KDateTextReads(d: DateFields)
    requires InRange(d)
    ensures ReadDate(KDateText(d)) == Some(Day(d.fullYear, d.month0 + 1, d.date))
  {
    var s := KDateText(d);
    assert s[..|s| - 1] == DayText(d);
    DayTextReads(d);
  }

  /** The KDate examples of test/schema-types/schema-types.kdate.test.js: 1 January 2011 (a Saturday),
      31 December 2010 (a Friday) and 15 March 2021 (a Monday). */
  lemma KDateTestDates()
    ensures ReadDate(KDateText(DateFields(2011, 0, 1, 6, 0, 0, 0, 0))) == Some(Day(2011, 1, 1))
    ensures ReadDate(KDateText(DateFields(2010, 11, 31, 5, 0, 0, 0, 0))) == Some(Day(2010, 12, 31))
    ensures ReadDate(KDateText(DateFields(2021, 2, 15, 1, 0, 0, 0, 0))) == Some(Day(2021, 3, 15))
  {
    KDateTextReads(DateFields(2011, 0, 1, 6, 0, 0, 0, 0));
    KDateTextReads(DateFields(2010, 11, 31, 5, 0, 0, 0, 0));
    KDateTextReads(DateFields(2021, 2, 15, 1, 0, 0, 0, 0));
  }

  /** The Month literal, `year.MMm`. */
  function MonthText(d: DateFields): string
    requires InRange(d)
  {
    IntText(d.fullYear) + "." + Two(d.month0 + 1) + "m"
  }

  lemma MonthTextReads(d: DateFields)
    requires InRange(d)
    ensures ReadMonth(MonthText(d)) == Some((d.fullYear, d.month0 + 1))
  {
    var s := MonthText(d);
    assert s[..|s| - 1] == IntText(d.fullYear) + "." + Two(d.month0 + 1);
    ReadYearMonthText(d.fullYear, d.month0 + 1);
  }

  /** The Time literal, `HH:MM:SS.mmm`. */
  function TimeText(d: DateFields): string
    requires InRange(d)
  {
    ClockText(d) + "." + Three(d.utcMillis)
  }

  /** The engine reads the date's own clock back, milliseconds as nanoseconds. */
  lemma TimeTextReads(d: DateFields)
    requires InRange(d)
    ensures ReadClock(TimeText(d)) == Some(Clock(d.hours, d.minutes, d.seconds, d.utcMillis * 1000000))
  {
    MillisFraction(d.utcMillis);
    ReadFractionText(d.hours, d.minutes, d.seconds, Three(d.utcMillis));
  }

  /** The Timestamp literal, `year.MM.DDTHH:MM:SS.mmm000000`. */
  function TimestampText(d: DateFields): string
    requires InRange(d)
  {
    DayText(d) + "T" + ClockText(d) + "." + Three(d.utcMillis) + "000000"
  }

  lemma TimestampTextReads(d: DateFields)
    requires InRange(d)
    ensures ReadStamp(TimestampText(d), 18)
         == Some((Day(d.fullYear, d.month0 + 1, d.date),
                  Clock(d.hours, d.minutes, d.seconds, d.utcMillis * 1000000)))
  {
    var frac := Three(d.utcMillis) + "000000";
    var clock := ClockText(d) + "." + frac;
    assert TimestampText(d) == DayText(d) + "T" + clock;
    assert clock == Two(d.hours) + ":" + Two(d.minutes) + ":" + Two(d.seconds) + "." + frac;
    MillisNanos(d.utcMillis);
    assert |frac| == 9 && Pow10(0) == 1;
    ReadFractionText(d.hours, d.minutes, d.seconds, frac);
    DayTextReads(d);
    ReadStampText(DayText(d), clock, Day(d.fullYear, d.month0 + 1, d.date),
                  Clock(d.hours, d.minutes, d.seconds, d.utcMillis * 1000000));
  }

  /** The DateTime literal, `year.MM.DDTHH:MM:SS`. */
  function DateTimeText(d: DateFields): string
    requires InRange(d)
  {
    DayText(d) + "T" + ClockText(d)
  }

  lemma DateTimeTextReads(d: DateFields)
    requires InRange(d)
    ensures ReadStamp(DateTimeText(d), 8)
         == Some((Day(d.fullYear, d.month0 + 1, d.date), Clock(d.hours, d.minutes, d.seconds, 0)))
  {
    DayTextReads(d);
    ReadSecondText(d.hours, d.minutes, d.seconds);
    ReadStampText(DayText(d), ClockText(d), Day(d.fullYear, d.month0 + 1, d.date),
                  Clock(d.hours, d.minutes, d.seconds, 0));
  }

  /** The Minute literal, `HH:MM`. */
  function MinuteText(d: DateFields): string
    requires InRange(d)
  {
    Two(d.hours) + ":" + Two(d.minutes)
  }

  lemma MinuteTextReads(d: DateFields)
    requires InRange(d)
    ensures ReadClock(MinuteText(d)) == Some(Clock(d.hours, d.minutes, 0, 0))
  {
    ReadHourMinuteText(d.hours, d.minutes);
  }

  /** The Second literal is the clock, and reads back as it. */
  lemma SecondTextReads(d: DateFields)
    requires InRange(d)
    ensures ReadClock(ClockText(d)) == Some(Clock(d.hours, d.minutes, d.seconds, 0))
  {
    ReadSecondText(d.hours, d.minutes, d.seconds);
  }

  /** What a timestamp is meant to record of a date. */
  function Instant(d: DateFields): (int, int, int, int, int, int, int) {
    (d.fullYear, d.month0, d.date, d.hours, d.minutes, d.seconds, d.utcMillis)
  }

  /** Dates that differ in any recorded field get different timestamps. */
  lemma TimestampTextInjective(d1: DateFields, d2: DateFields)
    requires InRange(d1) && InRange(d2)
    ensures TimestampText(d1) == TimestampText(d2) <==> Instant(d1) == Instant(d2)
  {
    if Instant(d1) == Instant(d2) {
      TimestampTextOfInstant(d1, d2);
    } else if TimestampText(d1) == TimestampText(d2) {
      TimestampTextSeparates(d1, d2);
    }
  }

  lemma TimestampTextOfInstant(d1: DateFields, d2: DateFields)
    requires InRange(d1) && InRange(d2) && Instant(d1) == Instant(d2)
    ensures TimestampText(d1) == TimestampText(d2)
  {
    assert DayText(d1) == DayText(d2);
    assert ClockText(d1) == ClockText(d2);
  }

  lemma TimestampTextSeparates(d1: DateFields, d2: DateFields)
    requires InRange(d1) && InRange(d2) && TimestampText(d1) == TimestampText(d2)
    ensures Instant(d1) == Instant(d2)
  {
    TimestampTextReads(d1);
    TimestampTextReads(d2);
    assert d1.utcMillis * 1000000 == d2.utcMillis * 1000000;
  }

  /** The create example of test/model/model.test.js: 1 August 2017 is written
      `2017.08.01d` and reads back as itself; 01:01:01.001 is written as the test
      expects. */
  lemma CreateTestLiterals()
    ensures KDateText(DateFields(2017, 7, 1, 2, 0, 0, 0, 0)) == "2017.08.01d"
    ensures ReadDate(KDateText(DateFields(2017, 7, 1, 2, 0, 0, 0, 0))) == Some(Day(2017, 8, 1))
    ensures TimeText(DateFields(2017, 7, 1, 2, 1, 1, 1, 1)) == "01:01:01.001"
  {
    KDateTextReads(DateFields(2017, 7, 1, 2, 0, 0, 0, 0));
    assert IntText(2017) == "2017";
    assert Two(8) == "08" && Two(1) == "01" && Three(1) == "001";
  }

  // ----- Byte ----------------------------------------------------------------------

  /** The Byte literal of the integer a value denotes, whether it came as a number
      or as a decimal string. */
  function ByteText(v: JsValue): (r: string)
    requires ByteValid(v).Pass?
    ensures ReadByte(r) == IntegerValue(v)
    ensures v.JNum? ==> r == ByteLiteral(v)
  {
    var n := IntegerValue(v).value;
    ByteLiteral(JNum(n))
  }

  /** The decimal string "15" is the byte fifteen. */
  lemma ByteTextDecimalString()
    ensures ByteValid(JStr("15")).Pass? && ByteText(JStr("15")) == "0x0f"
  {
    ReadTwo(15);
    assert Two(15) == "15";
    ByteHexLayout(15);
  }

  // ----- create --------------------------------------------------------------------

  /** `_create`'s normalisation with an array taken as the list of rows it
      documents, and any other object as one row. */
  function NormaliseRows(rows: JsValue): Result<seq<JsValue>, Models.CreateError> {
    if rows.JArray? then Success(rows.elems) else Models.Normalise(rows)
  }

  /** The correction changes exactly the arrays: on them it gives back the elements
      as the rows, where `_create` makes the whole array a single row; on every other
      value the two agree, errors included. */
  lemma NormaliseRowsDiffersOnArrays(rows: JsValue)
    ensures NormaliseRows(rows) == Models.Normalise(rows) <==> !rows.JArray?
    ensures rows.JArray? ==> NormaliseRows(rows).Success? && NormaliseRows(rows).value == rows.elems
  {
    if rows.JArray? {
      Models.ArrayIsOneRow(rows.elems);
    }
  }
}
