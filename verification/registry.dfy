/** The seventeen column types: each class's static metadata (the files under lib/schema)
    and the lookup from the engine's numeric type codes (lib/schema-types.js). */
module Registry {
  import opened Results
  import opened Js

  datatype ColumnType =
    | Bool | Byte | Short | Int | Long | Real | Float | Char | Symbol
    | Timestamp | Month | KDate | DateTime | Timespan | Minute | Second | Time

  /** The static `size`: a byte count, or `'*'` for a variable-length type. */
  datatype Size = Bytes(n: nat) | Variable

  /** The class name, as `this.name` reports it in error messages. */
  function Name(t: ColumnType): string {
    match t
    case Bool => "Bool"
    case Byte => "Byte"
    case Short => "Short"
    case Int => "Int"
    case Long => "Long"
    case Real => "Real"
    case Float => "Float"
    case Char => "Char"
    case Symbol => "Symbol"
    case Timestamp => "Timestamp"
    case Month => "Month"
    case KDate => "KDate"
    case DateTime => "DateTime"
    case Timespan => "Timespan"
    case Minute => "Minute"
    case Second => "Second"
    case Time => "Time"
  }

  function SizeOf(t: ColumnType): Size {
    match t
    case Bool => Bytes(1)
    case Byte => Bytes(1)
    case Short => Bytes(2)
    case Int => Bytes(4)
    case Long => Bytes(8)
    case Real => Bytes(4)
    case Float => Bytes(4)
    case Char => Bytes(1)
    case Symbol => Variable
    case Timestamp => Bytes(8)
    case Month => Bytes(8)
    case KDate => Bytes(4)
    case DateTime => Bytes(8)
    case Timespan => Bytes(8)
    case Minute => Bytes(4)
    case Second => Bytes(4)
    case Time => Bytes(4)
  }

  /** The static `charType`: the engine's one-letter type tag. */
  function CharType(t: ColumnType): char {
    match t
    case Bool => 'b'
    case Byte => 'x'
    case Short => 'h'
    case Int => 'i'
    case Long => 'j'
    case Real => 'e'
    case Float => 'f'
    case Char => 'c'
    case Symbol => 's'
    case Timestamp => 'p'
    case Month => 'z'
    case KDate => 'd'
    case DateTime => 'z'
    case Timespan => 'n'
    case Minute => 'u'
    case Second => 'v'
    case Time => 't'
  }

  /** The static `numType` each class declares. */
  function NumType(t: ColumnType): int {
    match t
    case Bool => 1
    case Byte => 4
    case Short => 5
    case Int => 6
    case Long => 7
    case Real => 8
    case Float => 8
    case Char => 10
    case Symbol => 11
    case Timestamp => 12
    case Month => 15
    case KDate => 14
    case DateTime => 15
    case Timespan => 16
    case Minute => 17
    case Second => 18
    case Time => 19
  }

  /** The static `nullValue`: the literal `convert(null)` returns. */
  function NullValue(t: ColumnType): string {
    match t
    case Bool => "0b"
    case Byte => "0x00"
    case Short => "0Nh"
    case Int => "0Ni"
    case Long => "0Nj"
    case Real => "0Ne"
    case Float => "0Ne"
    case Char => "\" \""
    case Symbol => "`"
    case Timestamp => "0Np"
    case Month => "0Nz"
    case KDate => "0Nd"
    case DateTime => "0Nz"
    case Timespan => "0Nn"
    case Minute => "0Nu"
    case Second => "0Nv"
    case Time => "0Nt"
  }

  /** The `dictionary` object from numeric code to class. */
  const Dictionary: map<int, ColumnType> := map[
    1 := Bool, 4 := Byte, 5 := Short, 6 := Int, 7 := Long, 8 := Real, 9 := Float,
    10 := Char, 11 := Symbol, 12 := Timestamp, 13 := Month, 14 := KDate,
    15 := DateTime, 16 := Timespan, 17 := Minute, 18 := Second, 19 := Time]

  /** The dictionary's keys in the order `Object.values` visits integer keys: ascending. */
  const Codes: seq<int> := [1, 4, 5, 6, 7, 8, 9, 10, 11, 12, 13, 14, 15, 16, 17, 18, 19]

  /** `typeList = Object.values(dictionary)`. */
  const TypeList: seq<ColumnType> := [
    Bool, Byte, Short, Int, Long, Real, Float, Char, Symbol,
    Timestamp, Month, KDate, DateTime, Timespan, Minute, Second, Time]

  datatype LookupError =
    | NotAnInteger(typeName: string)  // lib/schema-types.js:63-65
    | UnknownCode(code: int)          // lib/schema-types.js:69

  /** `convertFromNumType(numType)`. */
  function ConvertFromNumType(numType: JsValue): (r: Result<ColumnType, LookupError>)
    ensures r.Success? <==> numType.JNum? && (numType.n == 1 || 4 <= numType.n <= 19)
    ensures !numType.JNum? ==> r == Failure(NotAnInteger(Typeof(numType)))
    ensures numType.JNum? && numType.n == 9 ==> r == Success(Float)
    ensures numType.JNum? && numType.n == 13 ==> r == Success(Month)
    ensures r.Success? && numType.n !in {9, 13} ==> NumType(r.value) == numType.n && r.value !in {Float, Month}
  {
    if !numType.JNum? then Failure(NotAnInteger(Typeof(numType)))
    else if numType.n !in Dictionary then Failure(UnknownCode(numType.n))
    else Success(Dictionary[numType.n])
  }

  /** Distinct codes map to distinct types. */
  lemma DictionaryInjective(c1: int, c2: int)
    requires c1 in Dictionary && c2 in Dictionary && c1 != c2
    ensures Dictionary[c1] != Dictionary[c2]
  {
  }

  /** The position of each type in `typeList`. */
  function Position(t: ColumnType): (k: nat)
    ensures k < |TypeList| && TypeList[k] == t
  {
    match t
    case Bool => 0
    case Byte => 1
    case Short => 2
    case Int => 3
    case Long => 4
    case Real => 5
    case Float => 6
    case Char => 7
    case Symbol => 8
    case Timestamp => 9
    case Month => 10
    case KDate => 11
    case DateTime => 12
    case Timespan => 13
    case Minute => 14
    case Second => 15
    case Time => 16
  }

  /** `typeList` holds every type. */
  lemma TypeListComplete(t: ColumnType)
    ensures t in TypeList
  {
    assert TypeList[Position(t)] == t;
  }

  /** `typeList` holds each type once, in ascending code order. */
  lemma TypeListOrdered()
    ensures |TypeList| == 17 == |Codes|
    ensures forall i, j :: 0 <= i < j < |TypeList| ==> TypeList[i] != TypeList[j]
    ensures forall i, j :: 0 <= i < j < |Codes| ==> Codes[i] < Codes[j]
  {
  }

  /** `typeList` is the dictionary's values, read in key order. */
  lemma TypeListIsDictionary()
    ensures forall i :: 0 <= i < |Codes| ==> Codes[i] in Dictionary && Dictionary[Codes[i]] == TypeList[i]
  {
  }

  /** The dictionary has no key outside `Codes`. */
  lemma DictionaryKeys()
    ensures forall c :: c in Dictionary ==> c in Codes
  {
    forall c | c in Dictionary
      ensures c in Codes
    {
      assert c == 1 || Codes[c - 3] == c;
    }
  }

  /** Looking a type up by the code it declares gives it back, except for Float
      (its code 8 belongs to Real) and Month (its code 15 belongs to DateTime). */
  lemma NumTypeRoundTrip(t: ColumnType)
    ensures ConvertFromNumType(JNum(NumType(t))) == Success(t) <==> t != Float && t != Month
    ensures t == Float ==> ConvertFromNumType(JNum(NumType(t))) == Success(Real)
    ensures t == Month ==> ConvertFromNumType(JNum(NumType(t))) == Success(DateTime)
  {
  }

  /** Month carries DateTime's code, type tag and null literal, so neither a
      remote code nor a null literal tells the two apart. */
  lemma MonthShadowsDateTime()
    ensures NumType(Month) == NumType(DateTime)
    ensures CharType(Month) == CharType(DateTime)
    ensures NullValue(Month) == NullValue(DateTime)
  {
  }
}
