/** The class template of lib/schema/kdb-type.js: the static `valid`, `convert` and
    `isValid` every column type inherits, dispatching to the class's own `_valid`
    and `_convert`, and the instance side (constructor and instance `convert`). */
module KdbType {
  import opened Results
  import opened Js
  import opened Registry
  import opened Scalars
  import opened Temporal

  /** A class of the hierarchy: the base `KdbType` itself or one of the column types. */
  datatype Class = Base | Of(t: ColumnType)

  /** Real and Float validate through `validateFloat`, which is not part of this model. */
  predicate Encodable(k: Class) {
    k != Of(Real) && k != Of(Float)
  }

  type EncodableClass = k: Class | Encodable(k) witness Base

  /** The eight date and time types, all validated by `instanceof Date`. */
  predicate DateType(k: Class) {
    k.Of? && k.t in {Timestamp, DateTime, KDate, Month, Minute, Second, Time, Timespan}
  }

  /** The date and time types whose file never requires `utils`. */
  predicate UtilsUnbound(k: Class) {
    k.Of? && (k.t == KDate || k.t == Month || k.t == Time || k.t == Timespan)
  }

  /** The static `nullValue`: `null` on the base class, a literal on every column type. */
  function NullOf(k: Class): (r: JsValue)
    ensures k.Of? ==> r == JStr(NullValue(k.t))
    ensures k == Base ==> r == JNull
  {
    match k
    case Base => JNull
    case Of(t) => JStr(NullValue(t))
  }

  /** The static `_valid`: `Pass` where the JavaScript returns, `Fail` with what it throws. */
  function ValidOf(k: EncodableClass, v: JsValue): (r: Outcome<JsError>)
    ensures k == Base ==> r.Pass?
    ensures DateType(k) ==> (r.Pass? <==> v.JDate?)
  {
    match k
    case Base => Pass
    case Of(t) =>
      match t
      case Bool => BoolValid(v)
      case Byte => ByteValid(v)
      case Short => ShortValid(v)
      case Int => IntValid(v)
      case Long => LongValid(v)
      case Char => CharValid(v)
      case Symbol => SymbolValid(v)
      case Timestamp => DateValid(v)
      case DateTime => DateValid(v)
      case KDate => DateValid(v)
      case Month => DateValid(v)
      case Minute => DateValid(v)
      case Second => DateValid(v)
      case Time => DateValid(v)
      case Timespan => DateValid(v)
  }

  /** The static `_convert`, reached only with a value `_valid` accepted: the identity
      on the base class, the type's literal text otherwise, and a ReferenceError for
      the four types that never require `utils`. */
  function ConvertOf(k: EncodableClass, v: JsValue): (r: Result<JsValue, JsError>)
    requires ValidOf(k, v).Pass?
    ensures r.Failure? <==> UtilsUnbound(k)
    ensures r.Failure? ==> r.error == UnboundUtils
    ensures k.Of? && r.Success? ==> r.value.JStr?
  {
    match k
    case Base => Success(v)
    case Of(t) =>
      if UtilsUnbound(k) then Failure(UnboundUtils)
      else if DateType(k) then Success(JStr(DateLiteral(t, v.d)))
      else Success(JStr(ScalarLiteral(t, v)))
  }

  /** `_convert` of the seven scalar types. */
  function ScalarLiteral(t: ColumnType, v: JsValue): string
    requires t in {Bool, Byte, Short, Int, Long, Char, Symbol}
    requires ValidOf(Of(t), v).Pass?
  {
    match t
    case Bool => BoolLiteral(v)
    case Byte => ByteLiteral(v)
    case Short => ShortLiteral(v)
    case Int => IntLiteral(v)
    case Long => LongLiteral(v)
    case Char => CharLiteral(v)
    case Symbol => SymbolLiteral(v)
    case _ => assert false; ""
  }

  /** `_convert` of the four date and time types whose file requires `utils`. */
  function DateLiteral(t: ColumnType, d: DateFields): string
    requires t in {Timestamp, DateTime, Minute, Second}
  {
    match t
    case Timestamp => TimestampLiteral(d)
    case DateTime => DateTimeLiteral(d)
    case Minute => MinuteLiteral(d)
    case Second => SecondLiteral(d)
    case _ => assert false; ""
  }

  /** The static `valid`: `null` is never validated; otherwise the error `_valid`
      throws is returned instead of thrown. */
  function Valid(k: EncodableClass, v: JsValue): (r: Option<JsError>)
    ensures v == JNull ==> r == None
    ensures v != JNull ==> (r == None <==> ValidOf(k, v).Pass?)
  {
    if v != JNull then
      match ValidOf(k, v)
      case Pass => None
      case Fail(e) => Some(e)
    else None
  }

  /** The static `convert`: throws what `valid` returned, gives `nullValue` for
      `null`, and `_convert` for anything else. */
  function Convert(k: EncodableClass, v: JsValue): (r: Result<JsValue, JsError>)
    ensures Valid(k, v).Some? ==> r == Failure(Valid(k, v).value)
    ensures v == JNull ==> r == Success(NullOf(k))
    ensures r.Success? <==> v == JNull || (ValidOf(k, v).Pass? && !UtilsUnbound(k))
  {
    var err := Valid(k, v);
    if err.Some? then Failure(err.value)
    else if v != JNull then ConvertOf(k, v)
    else Success(NullOf(k))
  }

  /** The static `isValid`: `_valid` run under a catch-all, `null` always accepted. */
  function IsValid(k: EncodableClass, v: JsValue): (r: bool)
    ensures r <==> Valid(k, v) == None
  {
    if v != JNull then ValidOf(k, v).Pass? else true
  }

  /** The instance `convert` a constructor calls: Byte overrides it with its own
      static `convert`; every other class inherits the one that calls the base
      class's static `convert`, whatever the subclass. */
  function InstanceConvert(k: Class, v: JsValue): (r: Result<JsValue, JsError>)
    ensures k != Of(Byte) ==> r == Success(v)
  {
    if k == Of(Byte) then Convert(Of(Byte), v) else Convert(Base, v)
  }

  /** `new C(arg)`: the value the constructor stores in `this.value`, or what it throws.
      Base, Byte and Char hand their argument to `super`; the other column types call
      `super()` and so convert `undefined`. */
  function Construct(k: Class, arg: JsValue): (r: Result<JsValue, JsError>)
    ensures k == Base || k == Of(Char) ==> r == Success(arg)
    ensures k == Of(Byte) ==> r == Convert(Of(Byte), arg)
    ensures k != Base && k != Of(Byte) && k != Of(Char) ==> r == Success(JUndefined)
  {
    var passed := if k == Base || k == Of(Byte) || k == Of(Char) then arg else JUndefined;
    InstanceConvert(k, passed)
  }
}
