/** The JavaScript values the library receives, and the errors it throws on them. */
module Js {

  /** A JavaScript number with a non-zero fractional part. */
  type Fraction = x: real | x != x.Floor as real witness 0.5

  /** What the encoders can read from a JavaScript `Date`, one field per getter:
      `getFullYear`, `getMonth` (0-based), `getDate`, `getDay` (0 = Sunday),
      `getHours`, `getMinutes`, `getSeconds` and `getUTCMilliseconds`. */
  datatype DateFields = DateFields(
    fullYear: int,
    month0: int,
    date: int,
    weekday: int,
    hours: int,
    minutes: int,
    seconds: int,
    utcMillis: int)

  /** The ranges a real `Date`'s getters return. */
  predicate InRange(d: DateFields) {
    && 0 <= d.month0 < 12
    && 1 <= d.date <= 31
    && 0 <= d.weekday < 7
    && 0 <= d.hours < 24
    && 0 <= d.minutes < 60
    && 0 <= d.seconds < 60
    && 0 <= d.utcMillis < 1000
  }

  datatype JsValue =
    | JUndefined
    | JNull
    | JBool(b: bool)
    | JNum(n: int)            // an integral number, held exactly
    | JFraction(x: Fraction)  // a number that is not an integer
    | JStr(s: string)
    | JDate(d: DateFields)
    | JArray(elems: seq<JsValue>)
    | JObject(props: seq<(string, JsValue)>)

  /** The `typeof` operator. */
  function Typeof(v: JsValue): string {
    match v
    case JUndefined => "undefined"
    case JBool(_) => "boolean"
    case JNum(_) => "number"
    case JFraction(_) => "number"
    case JStr(_) => "string"
    case _ => "object"
  }

  /** How many UTF-16 code units a character takes: two above U+FFFF, one otherwise. */
  function CodeUnits(c: char): nat {
    if c as int >= 0x1_0000 then 2 else 1
  }

  /** `s.length`: JavaScript counts UTF-16 code units, not characters. The string
      has one unit exactly when it is one character of the Basic Multilingual Plane. */
  function Utf16Length(s: string): (n: nat)
    ensures n >= |s|
    ensures n == 1 <==> |s| == 1 && s[0] as int < 0x1_0000
  {
    if |s| == 0 then 0 else CodeUnits(s[0]) + Utf16Length(s[1..])
  }

  /** JavaScript truthiness: `undefined`, `null`, `false`, `0` and `''` are falsy. */
  predicate Truthy(v: JsValue) {
    match v
    case JUndefined => false
    case JNull => false
    case JBool(b) => b
    case JNum(n) => n != 0
    case JStr(s) => s != ""
    case _ => true
  }

  /** The errors the value-encoding layer throws. */
  datatype JsError =
    | NotBoolean                                          // lib/schema/bool.js:18
    | NotIntegerValue(className: string)                  // lib/utils.js:37-41 and 45-49
    | OutOfRange(className: string, min: real, max: real) // lib/utils.js:53-62
    | InvalidDecimal                                      // decimal.js rejects its argument
    | NotString                                           // lib/schema/char.js:17, symbol.js:18
    | NotOneCharacter                                     // lib/schema/char.js:21
    | NotDate                                             // the date/time types' _valid
    | NotStringOrNumber                                   // lib/utils.js:26
    | Unbound(identifier: string)                         // a ReferenceError
}
