/** Decimal and hexadecimal text of integers, as JavaScript's `Number#toString`
    writes it for integral values, and the `[-]digits` decimal grammar read back. */
module Text {
  import opened Results

  predicate IsDigit(c: char) {
    '0' <= c <= '9'
  }

  predicate AllDigits(s: string) {
    forall i :: 0 <= i < |s| ==> IsDigit(s[i])
  }

  function DigitChar(d: int): (c: char)
    requires 0 <= d < 10
    ensures IsDigit(c) && DigitValue(c) == d
  {
    ('0' as int + d) as char
  }

  function DigitValue(c: char): int {
    c as int - '0' as int
  }

  /** Decimal text of a natural number, most significant digit first, no leading zeros. */
  function NatText(n: nat): (s: string)
    ensures 1 <= |s| && AllDigits(s)
    ensures n < 10 <==> |s| == 1
    decreases n
  {
    if n < 10 then [DigitChar(n)] else NatText(n / 10) + [DigitChar(n % 10)]
  }

  /** The value of a digit string, most significant digit first; the empty
      string reads as 0. */
  function DigitsValue(s: string): (v: int)
    ensures AllDigits(s) ==> v >= 0
    decreases |s|
  {
    if |s| == 0 then 0 else DigitsValue(s[..|s| - 1]) * 10 + DigitValue(s[|s| - 1])
  }

  /** The decimal text of an integer: `String(i)` for an integral JavaScript number
      whose magnitude is at most 2^53, where every integer is an exact double. */
  function IntText(i: int): string {
    if i < 0 then "-" + NatText(-i) else NatText(i)
  }

  /** Reads `[-]digits` (at least one digit) exactly; anything else is rejected. */
  function ParseInt(s: string): Option<int> {
    if |s| > 0 && s[0] == '-' then
      if |s| > 1 && AllDigits(s[1..]) then Some(0 - DigitsValue(s[1..])) else None
    else if |s| > 0 && AllDigits(s) then Some(DigitsValue(s))
    else None
  }

  lemma {:induction false} NatTextValue(n: nat)
    ensures DigitsValue(NatText(n)) == n
    decreases n
  {
    if n >= 10 {
      NatTextValue(n / 10);
      var s := NatText(n);
      assert s[..|s| - 1] == NatText(n / 10);
    }
  }

  /** Reading back the decimal text of any integer gives the integer. */
  lemma {:induction false} ParseIntText(i: int)
    ensures ParseInt(IntText(i)) == Some(i)
  {
    if i < 0 {
      ParseNegativeText(i);
    } else {
      var t := NatText(i);
      NatTextValue(i);
      assert IntText(i) == t && t[0] != '-' && |t| > 0 && AllDigits(t);
    }
  }

  lemma {:induction false} ParseNegativeText(i: int)
    requires i < 0
    ensures ParseInt(IntText(i)) == Some(i)
  {
    var t := NatText(-i);
    NatTextValue(-i);
    var s := IntText(i);
    assert s == "-" + t;
    assert s[0] == '-' && s[1..] == t && |s| > 1;
  }

  /** A one- or two-digit natural number, zero-padded to two characters. */
  function Two(n: int): string
    requires 0 <= n < 100
  {
    [DigitChar(n / 10), DigitChar(n % 10)]
  }

  /** A natural number below 1000, zero-padded to three characters. */
  function Three(n: int): string
    requires 0 <= n < 1000
  {
    [DigitChar(n / 100), DigitChar(n / 10 % 10), DigitChar(n % 10)]
  }

  function HexDigit(d: int): (c: char)
    requires 0 <= d < 16
    ensures IsHexDigit(c) && HexValue(c) == d
  {
    if d < 10 then DigitChar(d) else ('a' as int + (d - 10)) as char
  }

  /** A lowercase hexadecimal digit, as `Number#toString(16)` writes it. */
  predicate IsHexDigit(c: char) {
    IsDigit(c) || 'a' <= c <= 'f'
  }

  function HexValue(c: char): int
    requires IsHexDigit(c)
  {
    if IsDigit(c) then DigitValue(c) else c as int - 'a' as int + 10
  }

  /** `n.toString(16)` for an integral, non-negative JavaScript number. */
  function HexText(n: nat): (s: string)
    ensures 1 <= |s|
    ensures forall i :: 0 <= i < |s| ==> IsHexDigit(s[i])
    decreases n
  {
    if n < 16 then [HexDigit(n)] else HexText(n / 16) + [HexDigit(n % 16)]
  }

  /** Below 256 the hexadecimal text has one digit below 16 and two digits otherwise. */
  lemma HexTextByte(n: nat)
    requires n < 256
    ensures n < 16 ==> HexText(n) == [HexDigit(n)]
    ensures 16 <= n ==> HexText(n) == [HexDigit(n / 16), HexDigit(n % 16)]
  {
  }
}
