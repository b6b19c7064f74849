/** How the q engine reads back the literal texts the encoders write: a reference
    reader for each literal shape, independent of the encoders, so that every
    encoder can be stated as a round trip through it. */
module Literals {
  import opened Results
  import opened Text

  function Pow10(k: nat): (p: nat)
    ensures p >= 1
  {
    if k == 0 then 1 else 10 * Pow10(k - 1)
  }

  /** An unsigned run of at least one decimal digit. */
  function ReadNat(s: string): Option<nat> {
    if |s| > 0 && AllDigits(s) then Some(DigitsValue(s)) else None
  }

  /** Appending digits shifts the value left by their count. */
  lemma {:induction false} DigitsAppend(a: string, b: string)
    requires AllDigits(a) && AllDigits(b)
    ensures AllDigits(a + b)
    ensures DigitsValue(a + b) == DigitsValue(a) * Pow10(|b|) + DigitsValue(b)
    decreases |b|
  {
    var ab := a + b;
    AllDigitsAppend(a, b);
    if |b| == 0 {
      assert ab == a;
    } else {
      var b', c := b[..|b| - 1], b[|b| - 1];
      assert ab[..|ab| - 1] == a + b';
      assert ab[|ab| - 1] == c;
      AllDigitsAppend(a, b');
      DigitsAppend(a, b');
      var x, p, y, d := DigitsValue(a), Pow10(|b'|), DigitsValue(b'), DigitValue(c);
      assert DigitsValue(ab) == DigitsValue(a + b') * 10 + d;
      assert DigitsValue(b) == y * 10 + d;
      assert Pow10(|b|) == p * 10;
      Regroup(x, p, y, d);
    }
  }

  lemma Regroup(x: int, p: int, y: int, d: int)
    ensures (x * p + y) * 10 + d == x * (p * 10) + (y * 10 + d)
  {
  }

  lemma AllDigitsAppend(a: string, b: string)
    requires AllDigits(a) && AllDigits(b)
    ensures AllDigits(a + b)
  {
    var ab := a + b;
    forall i | 0 <= i < |ab|
      ensures IsDigit(ab[i])
    {
      if i < |a| { assert ab[i] == a[i]; } else { assert ab[i] == b[i - |a|]; }
    }
  }

  lemma ReadTwo(n: int)
    requires 0 <= n < 100
    ensures AllDigits(Two(n)) && ReadNat(Two(n)) == Some(n)
  {
    var s := Two(n);
    assert s[..1] == [DigitChar(n / 10)];
    assert s[..1][..0] == [];
    assert DigitsValue(s[..1]) == n / 10;
    assert DigitsValue(s) == (n / 10) * 10 + n % 10;
  }

  lemma ReadThree(n: int)
    requires 0 <= n < 1000
    ensures AllDigits(Three(n)) && ReadNat(Three(n)) == Some(n)
  {
    var s := Three(n);
    assert s[..2] == [DigitChar(n / 100), DigitChar(n / 10 % 10)];
    assert s[..2][..1] == [DigitChar(n / 100)];
    assert s[..2][..1][..0] == [];
    assert DigitsValue(s[..2][..1]) == n / 100;
    assert DigitsValue(s[..2]) == (n / 100) * 10 + n / 10 % 10 == n / 10;
    assert DigitsValue(s) == (n / 10) * 10 + n % 10;
  }

  // ----- scalar literals -------------------------------------------------------

  /** `1b` and `0b`. */
  function ReadBool(s: string): Option<bool> {
    if s == "1b" then Some(true) else if s == "0b" then Some(false) else None
  }

  /** A byte literal: `0x` followed by exactly two hexadecimal digits. */
  function ReadByte(s: string): Option<nat> {
    if |s| == 4 && s[..2] == "0x" && IsHexDigit(s[2]) && IsHexDigit(s[3]) then
      Some(HexValue(s[2]) * 16 + HexValue(s[3]))
    else None
  }

  /** An integer literal with its one-letter type suffix (`h`, `i`, `j`). */
  function ReadInteger(s: string, suffix: char): Option<int> {
    if |s| > 0 && s[|s| - 1] == suffix then ParseInt(s[..|s| - 1]) else None
  }

  /** A character literal: one character between double quotes. */
  function ReadChar(s: string): Option<char> {
    if |s| == 3 && s[0] == '"' && s[2] == '"' then Some(s[1]) else None
  }

  /** A symbol literal: a backtick followed by the symbol's name. */
  function ReadSymbol(s: string): Option<string> {
    if |s| > 0 && s[0] == '`' then Some(s[1..]) else None
  }

  // ----- temporal literals -----------------------------------------------------

  /** The calendar part of a temporal literal. */
  datatype Day = Day(year: int, month: nat, day: nat)

  /** The clock part of a temporal literal, its fraction scaled to nanoseconds. */
  datatype Clock = Clock(hour: nat, minute: nat, second: nat, nanos: nat)

  /** `year.MM`: a signed year of any length, a dot and a two-digit month. */
  function ReadYearMonth(s: string): Option<(int, nat)> {
    if |s| >= 4 && s[|s| - 3] == '.' then
      match (ParseInt(s[..|s| - 3]), ReadNat(s[|s| - 2..]))
      case (Some(y), Some(m)) => Some((y, m))
      case _ => None
    else None
  }

  /** `year.MM.DD`. */
  function ReadDay(s: string): Option<Day> {
    if |s| >= 7 && s[|s| - 3] == '.' then
      match (ReadYearMonth(s[..|s| - 3]), ReadNat(s[|s| - 2..]))
      case (Some((y, m)), Some(d)) => Some(Day(y, m, d))
      case _ => None
    else None
  }

  /** `HH:MM`, `HH:MM:SS`, or `HH:MM:SS.` followed by one to nine fraction digits. */
  function ReadClock(s: string): Option<Clock> {
    if |s| < 5 || s[2] != ':' || ReadNat(s[..2]).None? || ReadNat(s[3..5]).None? then None
    else
      var h, m := ReadNat(s[..2]).value, ReadNat(s[3..5]).value;
      if |s| == 5 then Some(Clock(h, m, 0, 0))
      else if |s| < 8 || s[5] != ':' || ReadNat(s[6..8]).None? then None
      else
        var sec := ReadNat(s[6..8]).value;
        if |s| == 8 then Some(Clock(h, m, sec, 0))
        else if 10 <= |s| <= 18 && s[8] == '.' && ReadNat(s[9..]).Some? then
          Some(Clock(h, m, sec, ReadNat(s[9..]).value * Pow10(18 - |s|)))
        else None
  }

  /** A date followed by `T` and a clock whose text is `clockLength` long. */
  function ReadStamp(s: string, clockLength: nat): Option<(Day, Clock)> {
    if |s| > clockLength && s[|s| - clockLength - 1] == 'T' then
      match (ReadDay(s[..|s| - clockLength - 1]), ReadClock(s[|s| - clockLength..]))
      case (Some(d), Some(c)) => Some((d, c))
      case _ => None
    else None
  }

  /** A date literal: `year.MM.DD` and the suffix `d`. */
  function ReadDate(s: string): Option<Day> {
    if |s| > 0 && s[|s| - 1] == 'd' then ReadDay(s[..|s| - 1]) else None
  }

  /** A month literal: `year.MM` and the suffix `m`. */
  function ReadMonth(s: string): Option<(int, nat)> {
    if |s| > 0 && s[|s| - 1] == 'm' then ReadYearMonth(s[..|s| - 1]) else None
  }

  // ----- the reader accepts the layouts the encoders write -----------------------

  lemma ReadYearMonthText(y: int, m: int)
    requires 0 <= m < 100
    ensures ReadYearMonth(IntText(y) + "." + Two(m)) == Some((y, m))
  {
    var s := IntText(y) + "." + Two(m);
    assert s[..|s| - 3] == IntText(y);
    assert s[|s| - 2..] == Two(m);
    ParseIntText(y);
    ReadTwo(m);
  }

  lemma ReadDayText(y: int, m: int, d: int)
    requires 0 <= m < 100 && 0 <= d < 100
    ensures ReadDay(IntText(y) + "." + Two(m) + "." + Two(d)) == Some(Day(y, m, d))
  {
    var s := IntText(y) + "." + Two(m) + "." + Two(d);
    assert s[..|s| - 3] == IntText(y) + "." + Two(m);
    assert s[|s| - 2..] == Two(d);
    ReadYearMonthText(y, m);
    ReadTwo(d);
  }

  lemma ReadHourMinuteText(h: int, m: int)
    requires 0 <= h < 100 && 0 <= m < 100
    ensures ReadClock(Two(h) + ":" + Two(m)) == Some(Clock(h, m, 0, 0))
  {
    var s := Two(h) + ":" + Two(m);
    assert s[..2] == Two(h) && s[3..5] == Two(m);
    ReadTwo(h);
    ReadTwo(m);
  }

  lemma ReadSecondText(h: int, m: int, sec: int)
    requires 0 <= h < 100 && 0 <= m < 100 && 0 <= sec < 100
    ensures ReadClock(Two(h) + ":" + Two(m) + ":" + Two(sec)) == Some(Clock(h, m, sec, 0))
  {
    var s := Two(h) + ":" + Two(m) + ":" + Two(sec);
    assert s[..2] == Two(h) && s[3..5] == Two(m) && s[6..8] == Two(sec);
    ReadTwo(h);
    ReadTwo(m);
    ReadTwo(sec);
  }

  /** A clock with a fraction of one to nine digits reads the fraction scaled to
      nanoseconds. */
  lemma {:induction false} ReadFractionText(h: int, m: int, sec: int, frac: string)
    requires 0 <= h < 100 && 0 <= m < 100 && 0 <= sec < 100
    requires 1 <= |frac| <= 9 && AllDigits(frac)
    ensures ReadClock(Two(h) + ":" + Two(m) + ":" + Two(sec) + "." + frac)
         == Some(Clock(h, m, sec, DigitsValue(frac) * Pow10(9 - |frac|)))
  {
    var s := Two(h) + ":" + Two(m) + ":" + Two(sec) + "." + frac;
    assert |s| == 9 + |frac|;
    assert s[2] == ':' && s[5] == ':' && s[8] == '.';
    assert s[..2] == Two(h) && s[3..5] == Two(m) && s[6..8] == Two(sec) && s[9..] == frac;
    ReadTwo(h);
    ReadTwo(m);
    ReadTwo(sec);
    assert ReadNat(s[..2]) == Some(h) && ReadNat(s[3..5]) == Some(m) && ReadNat(s[6..8]) == Some(sec);
    assert ReadNat(s[9..]) == Some(DigitsValue(frac));
  }

  /** A run of zeros is worth nothing. */
  lemma {:induction false} ZeroDigits(z: string)
    requires forall i :: 0 <= i < |z| ==> z[i] == '0'
    ensures AllDigits(z) && DigitsValue(z) == 0
    decreases |z|
  {
    if |z| > 0 {
      ZeroDigits(z[..|z| - 1]);
    }
  }

  /** Milliseconds written as three digits and six zeros read as nanoseconds. */
  lemma MillisNanos(ms: int)
    requires 0 <= ms < 1000
    ensures AllDigits(Three(ms) + "000000")
    ensures DigitsValue(Three(ms) + "000000") == ms * 1000000
  {
    ReadThree(ms);
    var z := "000000";
    ZeroDigits(z);
    DigitsAppend(Three(ms), z);
    assert Pow10(6) == 1000000;
  }

  lemma MillisFraction(ms: int)
    requires 0 <= ms < 1000
    ensures AllDigits(Three(ms)) && DigitsValue(Three(ms)) * Pow10(6) == ms * 1000000
  {
    ReadThree(ms);
    assert Pow10(6) == 1000000;
  }

  /** Splitting a stamp at its `T`. */
  lemma ReadStampText(date: string, clock: string, d: Day, c: Clock)
    requires ReadDay(date) == Some(d) && ReadClock(clock) == Some(c)
    ensures ReadStamp(date + "T" + clock, |clock|) == Some((d, c))
  {
    var s := date + "T" + clock;
    assert s[..|s| - |clock| - 1] == date;
    assert s[|s| - |clock|..] == clock;
  }
}
