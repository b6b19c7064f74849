/** What the class template and the column types promise together: the shared
    null rule of lib/schema/kdb-type.js and, for each column type, the encoding as
    the engine reads it back, with the values the type tests check. */
module TypeProperties {
  import opened Results
  import opened Text
  import opened Js
  import opened Utils
  import opened Literals
  import opened Registry
  import opened Scalars
  import opened Temporal
  import opened LongBound
  import opened KdbType

  /** A Date whose fields are all in range; the tests' `new Date()`. */
  const SomeDate: JsValue := JDate(DateFields(2017, 7, 1, 2, 1, 1, 1, 1))

  // ----- the template ------------------------------------------------------------

  /** `null` is the only absent value: every class converts it to its null literal
      without validation, and accepts it. */
  lemma NullIsAbsent(k: EncodableClass)
    ensures Convert(k, JNull) == Success(NullOf(k))
    ensures IsValid(k, JNull)
    ensures k.Of? ==> Convert(k, JNull) == Success(JStr(NullValue(k.t)))
  {
  }

  /** `undefined` is validated like any other value: every column type rejects it,
      while the base class passes it through. */
  lemma UndefinedIsValidated(k: EncodableClass)
    ensures k.Of? ==> !IsValid(k, JUndefined) && Convert(k, JUndefined).Failure?
    ensures k == Base ==> Convert(k, JUndefined) == Success(JUndefined)
  {
    if k.Of? && k.t in {Byte, Short, Int, Long} {
      assert IntegerValue(JUndefined).None?;
    }
  }

  /** The base class accepts everything and hands every value back. */
  lemma BaseIsIdentity(v: JsValue)
    ensures IsValid(Base, v)
    ensures Convert(Base, v) == Success(if v == JNull then JNull else v)
  {
  }

  /** `convert` throws exactly when `isValid` is false, except on the four types
      whose encoder throws on every valid non-null value. */
  lemma ConvertSucceedsIffValid(k: EncodableClass, v: JsValue)
    ensures !UtilsUnbound(k) ==> (Convert(k, v).Success? <==> IsValid(k, v))
    ensures UtilsUnbound(k) ==> (Convert(k, v).Success? <==> v == JNull)
    ensures !IsValid(k, v) ==> Convert(k, v) == Failure(Valid(k, v).value)
  {
  }

  /** A non-null value converts to a literal: a string for every column type. */
  lemma ConvertGivesText(k: EncodableClass, v: JsValue)
    requires k.Of? && Convert(k, v).Success?
    ensures Convert(k, v).value.JStr?
  {
  }

  /** The constructor and the instance `convert`: only Byte encodes what it is
      given; every other class stores its argument (Base, Char) or `undefined`. */
  lemma ConstructStores(k: Class, arg: JsValue)
    ensures k == Of(Byte) ==> Construct(k, arg) == Convert(Of(Byte), arg)
    ensures k == Of(Char) ==> Construct(k, arg) == Success(arg)
    ensures k.Of? && k.t != Byte && k.t != Char ==> Construct(k, arg) == Success(JUndefined)
  {
  }

  // ----- Bool --------------------------------------------------------------------

  /** Exactly booleans and `null` encode; the literal reads back as `v === true`. */
  lemma BoolEncoding(v: JsValue)
    ensures Convert(Of(Bool), v).Success? <==> v.JBool? || v == JNull
    ensures Convert(Of(Bool), v).Success? ==>
              Convert(Of(Bool), v).value.JStr? && ReadBool(Convert(Of(Bool), v).value.s) == Some(v == JBool(true))
  {
    if v.JBool? {
      assert Convert(Of(Bool), v) == Success(JStr(BoolLiteral(v)));
    }
  }

  /** The values lib/schema bool tests check, and `null` encoding as `false`. */
  lemma BoolTestValues()
    ensures Convert(Of(Bool), JBool(true)) == Success(JStr("1b"))
    ensures Convert(Of(Bool), JBool(false)) == Success(JStr("0b"))
    ensures Convert(Of(Bool), JNull) == Convert(Of(Bool), JBool(false))
    ensures !IsValid(Of(Bool), JStr("true")) && !IsValid(Of(Bool), JStr("false"))
    ensures !IsValid(Of(Bool), JNum(1)) && !IsValid(Of(Bool), JNum(0))
    ensures !IsValid(Of(Bool), JFraction(3.141526))
    ensures !IsValid(Of(Bool), JObject([])) && !IsValid(Of(Bool), JArray([]))
  {
  }

  // ----- Byte --------------------------------------------------------------------

  /** A number encodes exactly when it is in [0, 255], as four characters that
      read back as the number. */
  lemma ByteEncoding(n: int)
    ensures Convert(Of(Byte), JNum(n)).Success? <==> 0 <= n <= 255
    ensures 0 <= n <= 255 ==>
              && Convert(Of(Byte), JNum(n)).value.JStr?
              && |Convert(Of(Byte), JNum(n)).value.s| == 4
              && ReadByte(Convert(Of(Byte), JNum(n)).value.s) == Some(n)
  {
    if 0 <= n <= 255 {
      assert Convert(Of(Byte), JNum(n)) == Success(JStr(ByteLiteral(JNum(n))));
    }
  }

  /** Distinct bytes encode differently. */
  lemma ByteInjective(i: int, j: int)
    requires 0 <= i <= 255 && 0 <= j <= 255 && i != j
    ensures Convert(Of(Byte), JNum(i)) != Convert(Of(Byte), JNum(j))
  {
    ByteEncoding(i);
    ByteEncoding(j);
  }

  /** A byte in range is written as `0x` and its two lowercase hexadecimal digits,
      the high one first. */
  lemma ByteHexDigits(n: int)
    requires 0 <= n <= 255
    ensures Convert(Of(Byte), JNum(n)) == Success(JStr(['0', 'x', HexDigit(n / 16), HexDigit(n % 16)]))
  {
    ByteHexLayout(n);
    ByteConvertIsLiteral(n);
  }

  lemma ByteConvertIsLiteral(n: int)
    requires 0 <= n <= 255 && ByteValid(JNum(n)).Pass?
    ensures Convert(Of(Byte), JNum(n)) == Success(JStr(ByteLiteral(JNum(n))))
  {
  }

  /** `null` encodes as the byte 0, and 255 as `0xff`. */
  lemma ByteNullIsZero()
    ensures Convert(Of(Byte), JNull) == Convert(Of(Byte), JNum(0)) == Success(JStr("0x00"))
    ensures Convert(Of(Byte), JNum(255)) == Success(JStr("0xff"))
  {
    ByteHexDigits(0);
    assert HexDigit(0) == '0';
    ByteHexDigits(255);
    assert HexDigit(15) == 'f';
  }

  /** The numbers the Byte tests reject: one and ten thousand past either end. */
  lemma ByteRejectsOutOfRange()
    ensures !IsValid(Of(Byte), JNum(256)) && !IsValid(Of(Byte), JNum(10000))
    ensures !IsValid(Of(Byte), JNum(-1)) && !IsValid(Of(Byte), JNum(-10000))
  {
  }

  /** The values the Byte tests reject for not being integers. */
  lemma ByteRejectsNonIntegers()
    ensures !IsValid(Of(Byte), JFraction(3.141526))
    ensures !IsValid(Of(Byte), JObject([])) && !IsValid(Of(Byte), JArray([]))
    ensures !IsValid(Of(Byte), JBool(true)) && !IsValid(Of(Byte), SomeDate)
  {
  }

  /** A decimal string passes Byte's validation, but its `toString(16)` is the
      string itself: `'15'` encodes as `0x15`, which the engine reads as 21,
      while the number 15 encodes as `0x0f`. */
  lemma ByteDecimalString()
    ensures Convert(Of(Byte), JStr("15")) == Success(JStr("0x15"))
    ensures Convert(Of(Byte), JNum(15)) == Success(JStr("0x0f"))
    ensures ReadByte("0x15") == Some(21)
  {
    ReadTwo(15);
    assert Two(15) == "15";
    assert ParseInt("15") == Some(15);
    var r := ByteLiteral(JStr("15"));
    assert r == r[..2] + r[2..] == "0x15";
    assert Convert(Of(Byte), JStr("15")) == Success(JStr(r));
    ByteHexDigits(15);
    assert HexDigit(0) == '0' && HexDigit(15) == 'f';
  }

  /** `new Byte()` converts `undefined`, which Byte rejects. */
  lemma ByteConstructUndefined()
    ensures Construct(Of(Byte), JUndefined).Failure?
  {
    assert IntegerValue(JUndefined).None?;
  }

  // ----- Short, Int, Long --------------------------------------------------------

  /** Short: exactly `null` and the integers in [-32767, 32767] encode, and the
      literal reads back as the integer with suffix `h`. */
  lemma ShortEncoding(v: JsValue)
    ensures Convert(Of(Short), v).Success? <==>
              v == JNull || (IntegerValue(v).Some? && -32767 <= IntegerValue(v).value <= 32767)
    ensures v != JNull && Convert(Of(Short), v).Success? ==>
              && Convert(Of(Short), v).value.JStr?
              && ReadInteger(Convert(Of(Short), v).value.s, 'h') == IntegerValue(v)
  {
    if v != JNull && ShortValid(v).Pass? {
      assert Convert(Of(Short), v) == Success(JStr(ShortLiteral(v)));
    }
  }

  /** Int: exactly `null` and the integers in [-2147483646, 2147483646] encode,
      and the literal reads back as the integer with suffix `i`. */
  lemma IntEncoding(v: JsValue)
    ensures Convert(Of(Int), v).Success? <==>
              v == JNull || (IntegerValue(v).Some? && -2147483646 <= IntegerValue(v).value <= 2147483646)
    ensures v != JNull && Convert(Of(Int), v).Success? ==>
              && Convert(Of(Int), v).value.JStr?
              && ReadInteger(Convert(Of(Int), v).value.s, 'i') == IntegerValue(v)
  {
    if v != JNull && IntValid(v).Pass? {
      assert Convert(Of(Int), v) == Success(JStr(IntLiteral(v)));
    }
  }

  /** Long: exactly `null` and the integers in ±9223372036854775806 encode; the
      literal reads back as the integer with suffix `j`, and a string is kept
      verbatim in front of the suffix. */
  lemma LongEncoding(v: JsValue)
    ensures Convert(Of(Long), v).Success? <==>
              v == JNull || (IntegerValue(v).Some? && -9223372036854775806 <= IntegerValue(v).value <= 9223372036854775806)
    ensures v != JNull && Convert(Of(Long), v).Success? ==>
              && Convert(Of(Long), v).value.JStr?
              && ReadInteger(Convert(Of(Long), v).value.s, 'j') == IntegerValue(v)
    ensures v.JStr? && Convert(Of(Long), v).Success? ==>
              Convert(Of(Long), v).value == JStr(v.s + "j")
  {
    if v != JNull && LongValid(v).Pass? {
      var r := LongLiteral(v);
      assert Convert(Of(Long), v) == Success(JStr(r));
      if v.JStr? {
        assert r == r[..|r| - 1] + [r[|r| - 1]];
      }
    }
  }

  /** The test factory's integer rule: a number in range is written as its
      decimal text followed by the type's letter, and `null` as the null literal. */
  lemma IntegerLiterals(t: ColumnType, n: int)
    requires t in {Short, Int, Long}
    requires IsValid(Of(t), JNum(n))
    ensures Convert(Of(t), JNum(n)) == Success(JStr(IntText(n) + [CharType(t)]))
    ensures Convert(Of(t), JNull) == Success(JStr("0N" + [CharType(t)]))
  {
    var v := JNum(n);
    ScalarConvert(t, v);
    SuffixedScalar(t, v);
    assert NullValue(t) == "0N" + [CharType(t)];
  }

  /** A valid scalar value converts to the text `_convert` writes. */
  lemma ScalarConvert(t: ColumnType, v: JsValue)
    requires t in {Bool, Byte, Short, Int, Long, Char, Symbol}
    requires v != JNull && ValidOf(Of(t), v).Pass?
    ensures Convert(Of(t), v) == Success(JStr(ScalarLiteral(t, v)))
  {
  }

  /** The integer types write a valid number as its decimal text and their letter. */
  lemma SuffixedScalar(t: ColumnType, v: JsValue)
    requires t in {Short, Int, Long} && v.JNum? && ValidOf(Of(t), v).Pass?
    ensures ScalarLiteral(t, v) == IntText(v.n) + [CharType(t)]
  {
    assert ScalarLiteral(t, v) == SuffixedLiteral(v, CharType(t));
  }

  /** The bounds the Short and Int tests check: both ends accepted, one past
      either end rejected. */
  lemma ShortIntBounds()
    ensures IsValid(Of(Short), JNum(-32767)) && IsValid(Of(Short), JNum(32767))
    ensures !IsValid(Of(Short), JNum(-32768)) && !IsValid(Of(Short), JNum(32768))
    ensures IsValid(Of(Int), JNum(-2147483646)) && IsValid(Of(Int), JNum(2147483646))
    ensures !IsValid(Of(Int), JNum(-2147483647)) && !IsValid(Of(Int), JNum(2147483647))
  {
  }

  /** The bound strings Long's tests check are accepted. */
  lemma LongBoundStrings()
    ensures IsValid(Of(Long), JStr("9223372036854775806"))
    ensures IsValid(Of(Long), JStr("-9223372036854775806"))
  {
    LongBounds();
  }

  /** One past either bound, as a string, is rejected: the comparison is exact. */
  lemma LongBeyondBounds()
    ensures !IsValid(Of(Long), JStr("9223372036854775807"))
    ensures !IsValid(Of(Long), JStr("-9223372036854775807"))
  {
    PastLongMax();
  }

  // ----- Char and Symbol ---------------------------------------------------------

  /** Char: exactly `null` and one-character strings encode; the literal is
      three characters and reads back as the character, even a double quote. */
  lemma CharEncoding(v: JsValue)
    ensures Convert(Of(Char), v).Success? <==> v == JNull || (v.JStr? && Utf16Length(v.s) == 1)
    ensures v.JStr? && Utf16Length(v.s) == 1 ==>
              && Convert(Of(Char), v).value.JStr?
              && |Convert(Of(Char), v).value.s| == 3
              && ReadChar(Convert(Of(Char), v).value.s) == Some(v.s[0])
  {
    if v.JStr? && Utf16Length(v.s) == 1 {
      assert Convert(Of(Char), v) == Success(JStr(CharLiteral(v)));
    }
  }

  /** A character above U+FFFF is two UTF-16 code units long, so it is not a Char,
      while the last character below that limit is. */
  lemma CharCountsCodeUnits()
    ensures Utf16Length("\U{1F600}") == 2
    ensures Convert(Of(Char), JStr("\U{1F600}")) == Failure(NotOneCharacter)
    ensures Convert(Of(Char), JStr("\U{FFFD}")) == Success(JStr("\"\U{FFFD}\""))
  {
    assert Utf16Length("\U{FFFD}") == 1;
    assert CharLiteral(JStr("\U{FFFD}")) == "\"" + "\U{FFFD}" + "\"" == "\"\U{FFFD}\"";
    assert Convert(Of(Char), JStr("\U{FFFD}")) == Success(JStr(CharLiteral(JStr("\U{FFFD}"))));
  }

  /** `null` encodes as a space, and an embedded double quote is not escaped. */
  lemma CharTestValues()
    ensures Convert(Of(Char), JNull) == Convert(Of(Char), JStr(" ")) == Success(JStr("\" \""))
    ensures Convert(Of(Char), JStr("\"")) == Success(JStr("\"\"\""))
    ensures !IsValid(Of(Char), JStr("")) && !IsValid(Of(Char), JStr("ab"))
  {
    assert CharLiteral(JStr(" ")) == "\"" + " " + "\"" == "\" \"";
    assert Convert(Of(Char), JStr(" ")) == Success(JStr(CharLiteral(JStr(" "))));
    assert CharLiteral(JStr("\"")) == "\"" + "\"" + "\"" == "\"\"\"";
    assert Convert(Of(Char), JStr("\"")) == Success(JStr(CharLiteral(JStr("\""))));
  }

  /** Symbol: exactly `null` and strings, the empty one included, encode; dropping
      the backtick gives the string back. */
  lemma SymbolEncoding(v: JsValue)
    ensures Convert(Of(Symbol), v).Success? <==> v == JNull || v.JStr?
    ensures v.JStr? ==>
              && Convert(Of(Symbol), v).value.JStr?
              && ReadSymbol(Convert(Of(Symbol), v).value.s) == Some(v.s)
  {
    if v.JStr? {
      assert Convert(Of(Symbol), v) == Success(JStr(SymbolLiteral(v)));
    }
  }

  /** `null` encodes as the empty symbol. */
  lemma SymbolNullIsEmpty()
    ensures Convert(Of(Symbol), JNull) == Convert(Of(Symbol), JStr("")) == Success(JStr("`"))
  {
    assert SymbolLiteral(JStr("")) == "`" + "" == "`";
    assert Convert(Of(Symbol), JStr("")) == Success(JStr(SymbolLiteral(JStr(""))));
  }

  // ----- the date and time types -------------------------------------------------

  /** Every date and time type accepts exactly `null` and Dates. */
  lemma DateTypesAcceptDates(k: EncodableClass, v: JsValue)
    requires DateType(k)
    ensures IsValid(k, v) <==> v == JNull || v.JDate?
    ensures v != JNull && !v.JDate? ==> Convert(k, v) == Failure(NotDate)
  {
  }

  /** KDate, Month, Time and Timespan: `null` gives the null literal, a Date makes
      the encoder throw its ReferenceError, and anything else fails validation. */
  lemma UnboundTypesConvert(k: EncodableClass, v: JsValue)
    requires UtilsUnbound(k)
    ensures v == JNull ==> Convert(k, v) == Success(JStr(NullValue(k.t)))
    ensures v.JDate? ==> Convert(k, v) == Failure(UnboundUtils)
    ensures v != JNull && !v.JDate? ==> Convert(k, v) == Failure(NotDate)
  {
  }

  /** `new KDate(2011, 0, 1)` stores `undefined`: the constructor passes nothing
      to `super`, whatever it was given. */
  lemma KDateConstructorIgnoresArguments(v: JsValue)
    ensures Construct(Of(KDate), v) == Success(JUndefined)
  {
  }
}
