/** The decimal strings Long's validation compares against (lib/schema/long.js). */
module LongBound {
  import opened Results
  import opened Text

  /** Long's bounds, given to the validator as decimal strings. */
  const LongMinText: string := "-9223372036854775806"
  const LongMaxText: string := "9223372036854775806"

  /** The digits of the upper bound, read one prefix at a time. */
  lemma LongMaxDigits()
    ensures AllDigits(LongMaxText) && DigitsValue(LongMaxText) == 9223372036854775806
    ensures DigitsValue(LongMaxText[..18]) == 922337203685477580
  {
    var t := "9223372036854775806";
    assert t[..1][..0] == t[..0];
    assert DigitsValue(t[..1]) == 9;
    assert t[..2][..1] == t[..1];
    assert DigitsValue(t[..2]) == 92;
    assert t[..3][..2] == t[..2];
    assert DigitsValue(t[..3]) == 922;
    assert t[..4][..3] == t[..3];
    assert DigitsValue(t[..4]) == 9223;
    assert t[..5][..4] == t[..4];
    assert DigitsValue(t[..5]) == 92233;
    assert t[..6][..5] == t[..5];
    assert DigitsValue(t[..6]) == 922337;
    assert t[..7][..6] == t[..6];
    assert DigitsValue(t[..7]) == 9223372;
    assert t[..8][..7] == t[..7];
    assert DigitsValue(t[..8]) == 92233720;
    assert t[..9][..8] == t[..8];
    assert DigitsValue(t[..9]) == 922337203;
    assert t[..10][..9] == t[..9];
    assert DigitsValue(t[..10]) == 9223372036;
    assert t[..11][..10] == t[..10];
    assert DigitsValue(t[..11]) == 92233720368;
    assert t[..12][..11] == t[..11];
    assert DigitsValue(t[..12]) == 922337203685;
    assert t[..13][..12] == t[..12];
    assert DigitsValue(t[..13]) == 9223372036854;
    assert t[..14][..13] == t[..13];
    assert DigitsValue(t[..14]) == 92233720368547;
    assert t[..15][..14] == t[..14];
    assert DigitsValue(t[..15]) == 922337203685477;
    assert t[..16][..15] == t[..15];
    assert DigitsValue(t[..16]) == 9223372036854775;
    assert t[..17][..16] == t[..16];
    assert DigitsValue(t[..17]) == 92233720368547758;
    assert t[..18][..17] == t[..17];
    assert DigitsValue(t[..18]) == 922337203685477580;
    assert t[..19][..18] == t[..18];
    assert DigitsValue(t[..19]) == 9223372036854775806;
    assert t[..19] == t;
    assert AllDigits(t);
  }

  /** The strings one past either bound denote ±(2^63 - 1). */
  lemma PastLongMax()
    ensures ParseInt("9223372036854775807") == Some(9223372036854775807)
    ensures ParseInt("-9223372036854775807") == Some(-9223372036854775807)
  {
    var s := "9223372036854775807";
    LongMaxDigits();
    assert s[..18] == LongMaxText[..18];
    assert s[..|s| - 1] == s[..18];
    assert AllDigits(s);
    assert DigitsValue(s) == 922337203685477580 * 10 + 7;
    var m := "-9223372036854775807";
    assert m[1..] == s;
  }
}

/** The `_valid` and `_convert` of the non-temporal scalar types: Bool, Byte, Short,
    Int, Long, Char and Symbol (lib/schema/bool.js … symbol.js). Each `_convert`
    is stated as a round trip through the engine's literal reader. */
module Scalars {
  import opened Results
  import opened Text
  import opened Js
  import opened Utils
  import opened Literals
  import opened LongBound

  // ----- Bool ------------------------------------------------------------------

  /** Only a boolean passes. */
  function BoolValid(v: JsValue): (r: Outcome<JsError>)
    ensures r.Pass? <==> v.JBool?
    ensures r.Fail? ==> r.error == NotBoolean
  {
    if Typeof(v) != "boolean" then Fail(NotBoolean) else Pass
  }

  /** The value's truthiness as a boolean literal. */
  function BoolLiteral(v: JsValue): (r: string)
    ensures ReadBool(r) == Some(Truthy(v))
  {
    (if Truthy(v) then "1" else "0") + "b"
  }

  // ----- Byte ------------------------------------------------------------------

  /** An integer in [0, 255], as a number or a decimal string. */
  function ByteValid(v: JsValue): (r: Outcome<JsError>)
    ensures r.Pass? <==> IntegerValue(v).Some? && 0 <= IntegerValue(v).value <= 255
  {
    ValidateInteger(v, JNum(0), JNum(255), "Byte")
  }

  /** `val.toString(16)`: hexadecimal text for a number, while a string's own
      `toString` ignores the radix and returns the string. */
  function RadixText(v: JsValue): (r: string)
    requires v.JStr? || (v.JNum? && v.n >= 0)
  {
    if v.JNum? then HexText(v.n) else v.s
  }

  /** `0x` and the radix text padded to two digits. A number in range reads back
      as itself; a decimal string keeps its decimal digits. */
  function ByteLiteral(v: JsValue): (r: string)
    requires ByteValid(v).Pass?
    ensures v.JNum? ==> |r| == 4 && ReadByte(r) == Some(v.n)
    ensures v.JStr? ==> |r| == 2 + Max(|v.s|, 2) && r[..2] == "0x" && r[|r| - |v.s|..] == v.s
  {
    var hex := RadixText(v);
    if v.JNum? then HexPadded(v.n); "0x" + ExtendDigits(JStr(hex), 2).value
    else "0x" + ExtendDigits(JStr(hex), 2).value
  }

  /** Two-digit hexadecimal padding of a byte reads back as the byte. */
  lemma HexPadded(n: nat)
    requires n < 256
    ensures |PadLeft(HexText(n), 2)| == 2
    ensures ReadByte("0x" + PadLeft(HexText(n), 2)) == Some(n)
  {
    HexTextByte(n);
    var p := PadLeft(HexText(n), 2);
    if n < 16 {
      assert p == ['0', HexDigit(n)];
      assert HexValue('0') == 0;
    } else {
      assert p == [HexDigit(n / 16), HexDigit(n % 16)];
    }
    var s := "0x" + p;
    assert s[..2] == "0x" && s[2] == p[0] && s[3] == p[1];
  }

  /** A byte is written as `0x` and its two lowercase hexadecimal digits, the
      high one first. */
  lemma ByteHexLayout(n: int)
    requires 0 <= n <= 255
    ensures ByteValid(JNum(n)).Pass?
    ensures ByteLiteral(JNum(n)) == ['0', 'x', HexDigit(n / 16), HexDigit(n % 16)]
  {
    HexTextByte(n);
    var h := HexText(n);
    if n < 16 {
      assert PadLeft(h, 2) == Zeros(1) + h;
    } else {
      assert PadLeft(h, 2) == h;
    }
    assert PadLeft(h, 2) == [HexDigit(n / 16), HexDigit(n % 16)];
  }

  // ----- Short, Int, Long ------------------------------------------------------

  /** `${val}` for a value that passed integer validation: a number's decimal
      text, a string verbatim. */
  function Interpolate(v: JsValue): string
    requires v.JNum? || v.JStr?
  {
    if v.JNum? then IntText(v.n) else v.s
  }

  /** The interpolated value and a one-letter type suffix; it reads back as the
      integer the value denotes. */
  function SuffixedLiteral(v: JsValue, suffix: char): (r: string)
    requires IntegerValue(v).Some?
    ensures ReadInteger(r, suffix) == IntegerValue(v)
  {
    var r := Interpolate(v) + [suffix];
    assert r[..|r| - 1] == Interpolate(v);
    if v.JNum? then ParseIntText(v.n); r else r
  }

  function ShortValid(v: JsValue): (r: Outcome<JsError>)
    ensures r.Pass? <==> IntegerValue(v).Some? && -32767 <= IntegerValue(v).value <= 32767
  {
    ValidateInteger(v, JNum(-32767), JNum(32767), "Short")
  }

  function ShortLiteral(v: JsValue): (r: string)
    requires ShortValid(v).Pass?
    ensures ReadInteger(r, 'h').Some? && -32767 <= ReadInteger(r, 'h').value <= 32767
    ensures ReadInteger(r, 'h') == IntegerValue(v)
  {
    SuffixedLiteral(v, 'h')
  }

  function IntValid(v: JsValue): (r: Outcome<JsError>)
    ensures r.Pass? <==> IntegerValue(v).Some? && -2147483646 <= IntegerValue(v).value <= 2147483646
  {
    ValidateInteger(v, JNum(-2147483646), JNum(2147483646), "Int")
  }

  function IntLiteral(v: JsValue): (r: string)
    requires IntValid(v).Pass?
    ensures ReadInteger(r, 'i').Some? && -2147483646 <= ReadInteger(r, 'i').value <= 2147483646
    ensures ReadInteger(r, 'i') == IntegerValue(v)
  {
    SuffixedLiteral(v, 'i')
  }

  /** The bound strings denote ±(2^63 - 2). */
  lemma LongBounds()
    ensures ParseInt(LongMinText) == Some(-9223372036854775806)
    ensures ParseInt(LongMaxText) == Some(9223372036854775806)
  {
    LongMaxDigits();
    assert LongMinText[1..] == LongMaxText;
  }

  function LongValid(v: JsValue): (r: Outcome<JsError>)
    ensures r.Pass? <==>
              IntegerValue(v).Some? && -9223372036854775806 <= IntegerValue(v).value <= 9223372036854775806
  {
    LongBounds();
    ValidateInteger(v, JStr(LongMinText), JStr(LongMaxText), "Long")
  }

  function LongLiteral(v: JsValue): (r: string)
    requires LongValid(v).Pass?
    ensures ReadInteger(r, 'j') == IntegerValue(v)
    ensures v.JStr? ==> r[..|r| - 1] == v.s
  {
    SuffixedLiteral(v, 'j')
  }

  // ----- Char ------------------------------------------------------------------

  /** A string whose `length` is 1: one character, and one below U+10000, since a
      character above it takes two UTF-16 code units. */
  function CharValid(v: JsValue): (r: Outcome<JsError>)
    ensures r.Pass? <==> v.JStr? && |v.s| == 1 && v.s[0] as int < 0x1_0000
    ensures r == Fail(NotString) <==> !v.JStr?
    ensures v.JStr? && !r.Pass? ==> r == Fail(NotOneCharacter)
  {
    if Typeof(v) != "string" then Fail(NotString)
    else if Utf16Length(v.s) != 1 then Fail(NotOneCharacter)
    else Pass
  }

  /** The character between double quotes, with no escaping. */
  function CharLiteral(v: JsValue): (r: string)
    requires CharValid(v).Pass?
    ensures ReadChar(r) == Some(v.s[0])
  {
    "\"" + v.s + "\""
  }

  // ----- Symbol ----------------------------------------------------------------

  /** Any string, the empty one included. */
  function SymbolValid(v: JsValue): (r: Outcome<JsError>)
    ensures r.Pass? <==> v.JStr?
    ensures r.Fail? ==> r.error == NotString
  {
    if Typeof(v) != "string" then Fail(NotString) else Pass
  }

  /** A backtick and the string. */
  function SymbolLiteral(v: JsValue): (r: string)
    requires SymbolValid(v).Pass?
    ensures ReadSymbol(r) == Some(v.s)
  {
    "`" + v.s
  }
}
