# cheetah: column types and schema merge, in Dafny

cheetah is a small object-document mapper for the kdb+ database, written in
JavaScript. This project models three parts of it and proves properties of the model:

- **The value-encoding layer.** `KdbType` (lib/schema/kdb-type.js) is the class
  template every column type inherits. The fifteen non-floating column types each
  define `_valid`, which throws on a bad value, and `_convert`, which writes the q
  literal text: Bool, Byte, Short, Int, Long, Char, Symbol, Timestamp, DateTime,
  KDate, Month, Minute, Second, Time and Timespan. The model also covers the
  helpers in lib/utils.js these rely on: `extendDigits`, `validateInteger`,
  `replaceAll`, `difference` and `union`.
- **The type registry.** lib/schema-types.js holds the dictionary from the
  engine's numeric type codes to classes, `typeList`, and `convertFromNumType`.
- **The three-way schema merge.** lib/schema.js holds `Schema._mergeSchemaObj`
  and `mergeTypeSchema`. The glue in lib/model.js is also modelled: the table
  name rule, `Model.compile` and `Model.create`/`_create`.

The model follows the code as written. Where the code and its design notes
disagree, the code wins:

- A new column on a non-empty table needs a truthy `default`. `required` is never
  read, so a non-required column without a default is rejected too. A default
  of `0`, `''` or `false` counts as missing.
- A merged schema lists its columns in the order of the union: remote columns
  first, then declared-only columns. It is not in declaration order.
- Only `null` is an absent value. `undefined` is validated like any other value
  and is rejected by every column type.
- `new Schema(obj)` stores `obj` without validating it.

Modules, one concept each:

| file | module | contents |
|---|---|---|
| results.dfy | Results | `Option`, `Result` (a thrown error as a value), `Outcome` |
| text.dfy | Text | decimal and hexadecimal digit text, `ParseInt` |
| js.dfy | Js | JavaScript values, `typeof`, truthiness, the errors thrown |
| utils.dfy | Utils | lib/utils.js |
| literals.dfy | Literals | a reference reader for q literal text, independent of the encoders |
| scalars.dfy | LongBound, Scalars | `_valid`/`_convert` of Bool, Byte, Short, Int, Long, Char, Symbol |
| temporal.dfy | Temporal | `_valid`/`_convert` of the eight date and time types |
| registry.dfy | Registry | class metadata and lib/schema-types.js |
| kdb_type.dfy | KdbType | the `valid`/`convert`/`isValid` template and the constructors |
| type_properties.dfy | TypeProperties | properties of the layer, including the repository's test values |
| schema.dfy | Schemas | `_mergeSchemaObj`, `mergeTypeSchema` and their properties |
| model.dfy | Models | table name, `compile`, `create` |
| intended.dfy | Intended | corrected definitions for the findings below |

JavaScript values are the datatype `Js.JsValue`:

- An integral number is `JNum`, an exact integer of any size: double rounding above 2^53 is not modelled. A number with a fractional part is `JFraction`.
- A `Date` is the values its getters return (`Js.DateFields`).
- An object's keys are a sequence in insertion order.

A thrown error is a `Failure`. The connection to the database is not modelled:
the remote table's type schema and row count are parameters (`Models.Snapshot`).
`compile` fetches its snapshot through a function argument that takes the
table name.

## Model

| member | source | states |
|---|---|---|
| Utils.PadLeft | lib/utils.js:18-24 | the result is max(length, digits) long, ends with the text, and every character before the text is '0' |
| Utils.PadLeftLong | lib/utils.js:22-24 | text that is already `digits` long or longer comes back unchanged |
| Utils.ExtendDigits | lib/utils.js:13-28 | succeeds exactly on numbers and strings; a number is padded through its decimal text, a string directly; anything else throws "must be a string or number" |
| Utils.ExtendTwo | lib/utils.js:13-24 | a number below 100 padded to two places is its two decimal digits |
| Utils.ExtendThree | lib/utils.js:13-24 | a number below 1000 padded to three places is its three decimal digits |
| Utils.ValidateInteger | lib/utils.js:30-68 | passes exactly when both bounds are decimals and the value is an integer number or decimal integer string within them inclusive, compared exactly; a value that is neither number nor string always fails |
| Utils.IntegerValueDecimal | lib/utils.js:44-54 | a number or string denotes an integer exactly when its decimal is integral, and then has that integer's value |
| Utils.ValidateIntegerNumber | lib/utils.js:56-67 | an integral number n passes integer bounds lo and hi exactly when lo <= n <= hi |
| Utils.Split | lib/utils.js:4 | a non-empty separator gives at least one piece; the empty separator gives as many pieces as the text has characters |
| Utils.JoinSplit | lib/utils.js:3-5 | joining the split pieces with the separator they were split at restores the text |
| Utils.SplitAbsent | lib/utils.js:4 | splitting at a separator that never occurs gives the whole text as one piece |
| Utils.ReplaceAllAbsent | lib/utils.js:3-5 | `replaceAll` with a search text that does not occur changes nothing |
| Utils.ReplaceAllSelf | lib/utils.js:3-5 | replacing any text with itself changes nothing |
| Utils.DedupMember | lib/utils.js:124 | a Set built from a sequence holds exactly the sequence's elements |
| Utils.DedupIsDistinct | lib/utils.js:124 | a Set holds each element once |
| Utils.DedupDistinct | lib/utils.js:124 | a sequence without repeats is its own Set, in the same order |
| Utils.WithoutMember | lib/utils.js:125-127 | after deleting B's elements, x remains exactly when x is in A and not in B |
| Utils.WithoutDistinct | lib/utils.js:125-127 | deleting elements keeps a sequence free of repeats |
| Utils.WithoutAll | lib/utils.js:125-127 | deleting a superset leaves nothing |
| Utils.WithoutPrefix | lib/utils.js:125-127 | deleting a prefix of a repeat-free sequence leaves the rest, in order |
| Utils.Difference | lib/utils.js:123-129 | the loop computes A's first occurrences minus B's elements: x is in the result exactly when it is in A and not in B, and nothing repeats |
| Utils.Union | lib/utils.js:131-137 | the loop computes the Set of A followed by B: x is in the result exactly when it is in A or B, and nothing repeats |
| Utils.UnionOfDistinct | lib/utils.js:131-137 | the union of two repeat-free sequences is A followed by B's elements not in A |
| Registry.ConvertFromNumType | lib/schema-types.js:61-73 | a non-number argument throws with its `typeof`; exactly the codes 1 and 4 to 19 give a class; code 9 gives Float and code 13 gives Month, whose own `numType` is 8 and 15; every other code gives a class other than those two that declares the code looked up |
| Registry.DictionaryInjective | lib/schema-types.js:39-57 | distinct codes name distinct classes |
| Registry.TypeListComplete | lib/schema-types.js:59 | every column type is in `typeList` |
| Registry.TypeListOrdered | lib/schema-types.js:39-59 | `typeList` holds 17 classes, none twice; the codes it is read in are strictly ascending |
| Registry.TypeListIsDictionary | lib/schema-types.js:39-59 | the i-th entry of `typeList` is the class the dictionary holds under the i-th smallest code |
| Registry.DictionaryKeys | lib/schema-types.js:39-57 | the dictionary has no code outside the seventeen listed |
| Registry.NumTypeRoundTrip | lib/schema/float.js:7 | looking a class up by the code it declares gives it back exactly when it is neither Float nor Month; Float gets Real and Month gets DateTime |
| Registry.MonthShadowsDateTime | lib/schema/month.js:4-7 | Month has DateTime's code, type letter and null literal |
| Scalars.BoolValid | lib/schema/bool.js:16-20 | exactly booleans pass; anything else throws NotBoolean |
| Scalars.BoolLiteral | lib/schema/bool.js:13-15 | the literal reads back as the value's truthiness |
| Scalars.ByteValid | lib/schema/byte.js:21-23 | passes exactly the integers in [0, 255], as numbers or decimal strings |
| Scalars.ByteLiteral | lib/schema/byte.js:17-20 | a number is written as 4 characters that read back as the number; a string keeps its own digits after `0x` |
| Scalars.ByteHexLayout | lib/schema/byte.js:17-20 | a byte is `0x` followed by its high and low lowercase hexadecimal digits |
| Scalars.ShortValid | lib/schema/short.js:17-19 | passes exactly the integers in [-32767, 32767] |
| Scalars.ShortLiteral | lib/schema/short.js:14-16 | the literal reads back, through the `h` suffix, as the integer validated |
| Scalars.IntValid | lib/schema/int.js:17-19 | passes exactly the integers in [-2147483646, 2147483646] |
| Scalars.IntLiteral | lib/schema/int.js:14-16 | the literal reads back, through the `i` suffix, as the integer validated |
| Scalars.LongValid | lib/schema/long.js:18-25 | passes exactly the integers in [-9223372036854775806, 9223372036854775806], compared exactly |
| Scalars.LongLiteral | lib/schema/long.js:15-17 | the literal reads back, through the `j` suffix, as the integer validated |
| Scalars.LongBounds | lib/schema/long.js:21-22 | the bound strings parse to ±9223372036854775806 |
| Js.Utf16Length | lib/schema/char.js:20 | `length` is at least the number of characters, and it is 1 exactly for one character below U+10000 |
| Scalars.CharValid | lib/schema/char.js:15-23 | exactly the strings whose UTF-16 `length` is 1 pass, so one character below U+10000; the error is NotString exactly when the value is not a string, and NotOneCharacter for every other string |
| Scalars.CharLiteral | lib/schema/char.js:12-14 | the literal reads back as the character |
| Scalars.SymbolValid | lib/schema/symbol.js:16-20 | exactly strings pass |
| Scalars.SymbolLiteral | lib/schema/symbol.js:13-15 | the literal reads back as the string |
| Temporal.DateValid | lib/schema/timestamp.js:24-28 | exactly Dates pass; anything else throws NotDate |
| Temporal.Padded | lib/utils.js:13-24 | `extendDigits` of an in-range date field gives its two or three digits |
| Temporal.CalendarReads | lib/schema/timestamp.js:15-17 | the calendar text reads back as year, month and `getDay() + 1`: the weekday, not the day of the month |
| Temporal.ClockReads | lib/schema/second.js:15-18 | the clock text reads back with the hour in the minute's place |
| Temporal.FineClockReads | lib/schema/timestamp.js:18-22 | the timestamp's clock reads back as hour, hour, seconds and the milliseconds in nanoseconds; it is 18 characters |
| Temporal.TimestampReads | lib/schema/timestamp.js:14-23 | the timestamp literal reads back as (year, month, weekday) and (hour, hour, seconds, milliseconds in nanoseconds) |
| Temporal.DateTimeReads | lib/schema/datetime.js:14-22 | the datetime literal reads back as (year, month, weekday) and (hour, hour, seconds) |
| Temporal.MinuteReads | lib/schema/minute.js:13-17 | the minute literal reads back as (hour, hour); its two fields are always equal |
| Temporal.SecondReads | lib/schema/second.js:14-19 | the second literal reads back as (hour, hour, seconds) and is 8 characters |
| Temporal.DayOfMonthLost | lib/schema/timestamp.js:17 | 1 and 8 August 2017, both Tuesdays, give the same timestamp and datetime |
| Temporal.CreateTestCalendar | test/model/model.test.js:53-63 | as written, 1 August 2017 (a Tuesday) gets the calendar `2017.08.03`, the day the create test expects |
| Temporal.MinutesLost | lib/schema/timestamp.js:19 | 01:00 and 01:59 give the same timestamp, datetime, minute and second |
| KdbType.NullOf | lib/schema/kdb-type.js:2 | `null` on the base class, each type's null literal otherwise |
| KdbType.ValidOf | lib/schema/kdb-type.js:20 | the base class accepts everything; every date and time type accepts exactly Dates |
| KdbType.ConvertOf | lib/schema/kdb-type.js:22-24 | fails exactly on the four types that never bind `utils`, with that ReferenceError; a column type otherwise gives a string |
| KdbType.Valid | lib/schema/kdb-type.js:26-35 | `null` gives no error; any other value gives an error exactly when `_valid` throws |
| KdbType.Convert | lib/schema/kdb-type.js:37-49 | throws `valid`'s error; `null` gives the null literal; succeeds exactly on `null` or a valid value of a type that binds `utils` |
| KdbType.IsValid | lib/schema/kdb-type.js:51-60 | true exactly when `valid` returns no error |
| KdbType.InstanceConvert | lib/schema/kdb-type.js:12-14 | every class except Byte hands its value back unchanged, through the base class's `convert` |
| KdbType.Construct | lib/schema/kdb-type.js:4-6 | Base and Char store their argument; Byte stores its `convert`; every other type stores `undefined` |
| TypeProperties.NullIsAbsent | lib/schema/kdb-type.js:37-49 | every class converts `null` to its null literal and accepts it |
| TypeProperties.UndefinedIsValidated | lib/schema/kdb-type.js:26-35 | every column type rejects `undefined`; the base class hands it back |
| TypeProperties.BaseIsIdentity | lib/schema/kdb-type.js:20-24 | the base class accepts every value and converts it to itself |
| TypeProperties.ConvertSucceedsIffValid | lib/schema/kdb-type.js:37-60 | `convert` succeeds exactly when `isValid` holds, except on the four unbound types, where only `null` converts; an invalid value throws `valid`'s error |
| TypeProperties.ConvertGivesText | lib/schema/kdb-type.js:44-45 | every successful column-type conversion is a string |
| TypeProperties.ConstructStores | lib/schema/kdb-type.js:4-14 | the value a constructor stores, for Byte, Char and the rest |
| TypeProperties.BoolEncoding | lib/schema/bool.js:13-20 | exactly booleans and `null` convert, and the literal reads back as `v === true` |
| TypeProperties.BoolTestValues | test/schema-types/schema-types.bool.test.js:11-85 | true gives `1b`, false and `null` give `0b`; strings, numbers, objects and arrays are invalid |
| TypeProperties.ByteEncoding | lib/schema/byte.js:17-23 | a number converts exactly when it is in [0, 255], to 4 characters that read back as it |
| TypeProperties.ByteInjective | lib/schema/byte.js:17-20 | distinct bytes convert to distinct literals |
| TypeProperties.ByteHexDigits | test/schema-types/schema-types.byte.test.js:68-77 | every byte converts to `0x` and its two lowercase hexadecimal digits |
| TypeProperties.ByteNullIsZero | test/schema-types/schema-types.byte.test.js:80-82 | `null` converts like 0, to `0x00`; 255 gives `0xff` |
| TypeProperties.ByteRejectsOutOfRange | test/schema-types/schema-types.byte.test.js:23-37 | 256, 10000, -1 and -10000 are invalid |
| TypeProperties.ByteRejectsNonIntegers | test/schema-types/schema-types.byte.test.js:40-58 | 3.141526, `{}`, `[]`, `true` and a Date are invalid |
| TypeProperties.ByteDecimalString | lib/schema/byte.js:17-20 | the string "15" converts to `0x15`, which reads as 21, while the number 15 gives `0x0f` |
| TypeProperties.ByteConstructUndefined | lib/schema/byte.js:11-13 | `new Byte()` throws, because it converts `undefined` |
| TypeProperties.ShortEncoding | lib/schema/short.js:14-19 | exactly `null` and the integers in [-32767, 32767] convert, and the literal reads back as the integer |
| TypeProperties.IntEncoding | lib/schema/int.js:14-19 | exactly `null` and the integers in [-2147483646, 2147483646] convert, and the literal reads back as the integer |
| TypeProperties.LongEncoding | lib/schema/long.js:15-25 | exactly `null` and the integers within ±9223372036854775806 convert; the literal reads back as the integer; a string is kept verbatim before `j` |
| TypeProperties.IntegerLiterals | test/schema-types/schema-types-test-factory.js:80-101 | a valid number converts to its decimal text and the type letter; `null` to `0N` and the letter |
| TypeProperties.ShortIntBounds | test/schema-types/schema-types-test-factory.js:14-39 | both bounds of Short and Int are valid; one past either is not |
| TypeProperties.LongBoundStrings | test/schema-types/schema-types.long.test.js:11-18 | the bound strings ±"9223372036854775806" are valid |
| TypeProperties.LongBeyondBounds | lib/utils.js:56-67 | ±"9223372036854775807" are invalid, because the comparison is exact |
| TypeProperties.CharEncoding | lib/schema/char.js:12-23 | exactly `null` and strings of UTF-16 length 1 convert, and the literal reads back as the character |
| TypeProperties.CharCountsCodeUnits | lib/schema/char.js:20-22 | U+1F600 is two code units long and fails with NotOneCharacter, while U+FFFD converts to its quoted literal |
| TypeProperties.CharTestValues | lib/schema/char.js:7-23 | `null` converts like a space; a double quote is not escaped; "" and "ab" are invalid |
| TypeProperties.SymbolEncoding | lib/schema/symbol.js:13-20 | exactly `null` and strings convert, and the literal reads back as the string |
| TypeProperties.SymbolNullIsEmpty | lib/schema/symbol.js:7-15 | `null` converts like the empty symbol, to a lone backtick |
| TypeProperties.DateTypesAcceptDates | lib/schema/timestamp.js:24-28 | every date and time type accepts exactly `null` and Dates; anything else throws NotDate |
| TypeProperties.UnboundTypesConvert | lib/schema/kdate.js:1-17 | KDate, Month, Time and Timespan convert `null` to their null literal, throw a ReferenceError on every Date, and NotDate on anything else |
| TypeProperties.KDateConstructorIgnoresArguments | lib/schema/kdate.js:9-11 | `new KDate(...)` stores `undefined`, whatever it is given |
| Schemas.Lookup | lib/schema.js:26 | a column has a spec exactly when it is one of the schema's keys, and the spec is the one stored under it |
| Schemas.UnionMembers | lib/schema.js:15-17 | the union holds exactly the remote and the declared column names |
| Schemas.UnionOrderShape | lib/schema.js:17 | the union is the remote columns in order, then the declared-only columns in order, none twice |
| Schemas.MergeColumn | lib/schema.js:26-72 | one column's case: a kept column keeps its declared spec; a dropped one is absent; on an empty table nothing throws |
| Schemas.MergeEach | lib/schema.js:20-75 | the loop succeeds exactly when no column throws, and then gives the declared specs of the visited columns in order; otherwise it fails with the first throwing column's error |
| Schemas.MergeSchemaObj | lib/schema.js:7-76 | succeeds exactly when no column of either schema throws, with the declared specs in union order; otherwise the first throwing column's error |
| Schemas.MergeTypeSchema | lib/schema.js:78-95 | succeeds exactly when the merge does, and wraps its result in a `Schema` |
| Schemas.ThreeCases | lib/schema.js:26-65 | every column of the union is new, retained or dropped, according to which schemas have it |
| Schemas.BlockedCases | lib/schema.js:26-72 | a column throws exactly on a non-empty table, when it is new without a truthy default, retyped, or dropped |
| Schemas.EmptyTableNeverFails | lib/schema.js:27-66 | on an empty table the merge always succeeds, with the declared specs in union order |
| Schemas.MergeKeepsDeclared | lib/schema.js:20-75 | a successful merge holds exactly the declared (column, spec) pairs, no column twice, and no remote-only column |
| Schemas.IdenticalSchemasMerge | test/schema/schema.test.js:7-37 | merging a schema into an identical remote schema gives it back, whatever the table size |
| Schemas.MergeTypeSchemaIdentical | test/schema/schema.test.js:199-229 | `mergeTypeSchema` of a schema identical to the remote one gives an equal `Schema` |
| Schemas.RequiredIgnored | lib/schema.js:31 | clearing every `required` flag changes neither the outcome nor the error |
| Schemas.UnionAppends | lib/schema.js:17 | when the declared columns start with the remote ones, the union is the declared order |
| Schemas.UnionTruncates | lib/schema.js:17 | when the remote columns start with the declared ones, the union is the remote order |
| Schemas.EmptyTableAppends | lib/schema.js:24-46 | on an empty table, appending columns to the remote list gives the declared schema as it is |
| Schemas.EmptyTableTruncates | lib/schema.js:63-72 | on an empty table, dropping trailing remote columns gives the declared schema as it is |
| Schemas.FailsAtFirstBlocked | lib/schema.js:21-72 | a failing merge reports the error of the first column in union order that throws |
| Schemas.MergeKeepsDefaultTest | test/schema/schema.test.js:69-99 | the test's empty-table merge with a default and `required` flags gives the declared schema |
| Schemas.MergeRetypeAndAddTest | test/schema/schema.test.js:131-163 | the test's empty-table merge that retypes `price` and adds `amount` gives the declared schema |
| Schemas.MergeRemoveTest | test/schema/schema.test.js:165-196 | the test's empty-table merge that drops `amount` gives the declared schema |
| Schemas.MergeColumnAgrees | lib/schema.js:26-72 | a column's outcome depends on its declared spec only through the type and the default |
| Schemas.RetypeRejected | lib/schema.js:44-61 | on a table with rows, a declaration with the remote column names that changes a type fails with TypeChanged, naming the first retyped column and both its types |
| Schemas.SameColumnMerge | lib/schema.js:44-61 | a column both schemas hold at the same place passes when its type is unchanged and is refused with both types otherwise |
| Schemas.NonEmptyRejectsFalsyDefault | lib/schema.js:31-38 | on a table with any number of rows, a new column with default 0 fails with MissingDefault naming it, even though it is `required` |
| Schemas.NonEmptyRejectsRetype | lib/schema.js:48-59 | on a table with any number of rows, a retype from Real to Float fails with TypeChanged naming the column and both types |
| Schemas.NonEmptyRejectsRemoval | lib/schema.js:65-71 | on a table with any number of rows, dropping a column fails with ColumnRemoved naming it |
| Models.LowerChar | lib/model.js:29 | capitals move down by 32; everything else is unchanged; no capital remains |
| Models.Lower | lib/model.js:29 | lowercasing acts character by character and keeps the length |
| Models.TableName | lib/model.js:29 | the table name is the lowercased name followed by `s`, one character longer |
| Models.LowerNormalises | lib/model.js:29 | lowercased text has no capital, and text is its own lowercase exactly when it has none |
| Models.TableNameCaseInsensitive | lib/model.js:29 | two names share a table exactly when their lowercase forms are equal |
| Models.TradeTableName | test/schema/schema.test.js:9-10 | the model `Trade` has table `trades` |
| Models.Compile | lib/model.js:27-54 | the model succeeds exactly when the merge against the snapshot of the model's own table does; it is a fresh model whose only field set is the merged schema; a merge error propagates |
| Models.CompileKeepsDeclared | lib/model.js:39-51 | a compiled model has `null` connection and name, and a schema that holds exactly the declared specs, no column twice |
| Models.CompileEmptyTable | lib/model.js:33-45 | compiling against an empty table never fails |
| Models.CompileCaseInsensitive | lib/model.js:29-36 | names that differ only in letter case compile to the same outcome |
| Models.CompileUnchangedTable | lib/model.js:39-53 | compiling against a table that already has the declared columns gives the declaration back, whatever the table size |
| Models.Normalise | lib/model.js:101-113 | succeeds exactly on values whose `typeof` is `object`, as a one-element list; `undefined` throws RowsUndefined |
| Models.CreateRows | lib/model.js:99-128 | the loop returns exactly the normalised rows, in order and unchanged, or the error |
| Models.Create | lib/model.js:89-97 | a model without a schema throws before any row is looked at; otherwise the result of `_create` |
| Models.NormaliseCases | lib/model.js:105-113 | a string, a number and a boolean are refused; `null` and an array each become one row |
| Models.ArrayIsOneRow | lib/model.js:111-113 | an array of rows becomes one row holding the array, and never the list of its elements, whatever its length |
| Intended.CorrectedNumTypeRoundTrip | lib/schema-types.js:39-57 | with Float on 9 and Month on 13, every class looks up to itself |
| Intended.CorrectedNumTypeInjective | lib/schema-types.js:39-57 | no two classes share a corrected code |
| Intended.DayTextReads | lib/schema/kdate.js:12-17 | the corrected calendar text reads back as year, month and day of the month |
| Intended.KDateTextReads | lib/schema/kdate.js:12-17 | the corrected KDate literal reads back as the date's own year, month and day |
| Intended.KDateTestDates | test/schema-types/schema-types.kdate.test.js:4-13 | 1 January 2011, 31 December 2010 and 15 March 2021 read back as themselves |
| Intended.MonthTextReads | lib/schema/month.js:12-16 | the corrected Month literal reads back as year and month |
| Intended.TimeTextReads | lib/schema/time.js:12-18 | the corrected Time literal reads back as hours, minutes, seconds and milliseconds |
| Intended.TimestampTextReads | lib/schema/timestamp.js:14-23 | the corrected timestamp reads back as the date's own day and clock |
| Intended.DateTimeTextReads | lib/schema/datetime.js:14-22 | the corrected datetime reads back as the date's own day and clock |
| Intended.MinuteTextReads | lib/schema/minute.js:13-17 | the corrected minute literal reads back as hours and minutes |
| Intended.SecondTextReads | lib/schema/second.js:14-19 | the corrected second literal reads back as hours, minutes and seconds |
| Intended.TimestampTextInjective | lib/schema/timestamp.js:15-22 | two dates get the same corrected timestamp exactly when they agree on year, month, day, hours, minutes, seconds and milliseconds |
| Intended.TimestampTextOfInstant | lib/schema/timestamp.js:15-22 | dates that agree on those fields get the same corrected timestamp |
| Intended.TimestampTextSeparates | lib/schema/timestamp.js:15-22 | equal corrected timestamps mean equal fields |
| Intended.CreateTestLiterals | test/model/model.test.js:53-64 | corrected, the create test's date 1 August 2017 is written `2017.08.01d` and reads back as itself; its time is `01:01:01.001`, as the test expects |
| Intended.ByteText | lib/schema/byte.js:17-23 | a valid value, number or decimal string, is written as the byte it denotes; on numbers this agrees with the original |
| Intended.ByteTextDecimalString | lib/schema/byte.js:17-20 | the string "15" is written `0x0f` |
| Intended.NormaliseRowsDiffersOnArrays | lib/model.js:84-113 | the corrected normalisation gives an array's elements as the rows, and it agrees with `_create`'s exactly on the values that are not arrays, errors included |

## Left out

- Real and Float: their `_valid` calls `validateFloat` (lib/utils.js:70-121), which depends on IEEE doubles, decimal.js `precision()` and JavaScript's number-to-string. Only their registry entries are modelled.
- KdbType.ValidOf: stated only for classes other than Real and Float, which is why it takes `EncodableClass`. `KdbType.ConvertOf`, `Valid`, `Convert` and `IsValid` are restricted the same way.
- `isSameType` (lib/utils.js:7-11) is modelled as equality of the type tags. The real function instantiates both classes, and `new Byte()` throws, so on a Byte column the merge's type check would itself throw. That is not modelled.
- `isClass` (lib/utils.js:139-152) depends on JavaScript reflection and is not modelled.
- A `Date` is reduced to the values of its getters, so time zones and the calendar itself are not modelled. Whether `getDay()` agrees with the date is not checked.
- Scalars.LongLiteral, TypeProperties.LongEncoding and TypeProperties.IntegerLiterals: a JavaScript number is modelled as an exact integer. JavaScript numbers are doubles, so above 2^53 the model does not round the literal written in the source. `String()` gives the shortest text that rounds back, so `${2**62}j` is `4611686018427388000j`, while the model writes the exact `4611686018427387904j` and states that the literal reads back as the number. The literal 9223372036854775806 is the double 2^63, which lib/schema/long.js:19-24 rejects and the model accepts. Exponent notation at 10^21 and beyond is not modelled either. A Long given as a decimal string is exact in both.
- Scalars.CharValid and TypeProperties.CharEncoding: a lone surrogate such as `"\uD800"` has `length` 1 and passes lib/schema/char.js:20. A Dafny string cannot hold one, so such strings are not modelled.
- NaN, Infinity and the text of fractional numbers are not modelled. A numeric string is `[-]digits`. The rest of decimal.js's grammar (exponents, fractions, hexadecimal, whitespace) is not modelled.
- Utils.PadLeft: `|s|` counts characters, where `num.length` in lib/utils.js:19 counts UTF-16 code units. The two differ only on characters above U+FFFF; every text the model pads is decimal or hexadecimal digits.
- Utils.Split: the empty separator splits per character, where JavaScript splits per UTF-16 code unit and cuts a character above U+FFFF into two lone surrogates, which a Dafny string cannot hold. Text holding such characters is not modelled for the empty separator.
- Utils.ExtendDigits: not modelled for fractional numbers, because their JavaScript text is not modelled.
- Temporal.TimestampReads: the date encoders are stated through what their text reads back as. No lemma is stated at the level of `KdbType.Convert` for Timestamp, DateTime, Minute and Second.
- Timespan's `_convert` also reads the undeclared `year`, `month` and `day`. Since `utils` is read first, that ReferenceError is the one thrown. No corrected Timespan literal is given, because the code does not make the intended text clear.
- `Object.keys` puts integer-like keys first, and property lookup sees inherited keys such as `constructor`. Column names are plain keys in insertion order.
- Models.TableName: `toLowerCase` is modelled on ASCII only. A name that is not a string would throw; that is not modelled.
- Error message text, and the `name` and `table_name` arguments used only in those messages, are not modelled. The errors are datatypes naming the column and types.
- The connection (`getCurrentTableTypeSchema`), the Promise wrapping of `compile` and `create`, and `find` (an empty method) are not modelled.
- `_updateSchema` is modelled only as reading the keys of `_schema`, which throws on a model without one.
- Models.CreateRows: the `try`/`catch` around `push` cannot fail and is not modelled. The rows are returned as given. The encoding the create test expects (test/model/model.test.js:61-70) is not performed by the code.
- `Model.validateName`, called by test/model/model.error.test.js, does not exist in lib/model.js.
- The instance methods `toString` and `getValue` return the stored value and are not modelled separately.
- Superseded drafts are not modelled: lib/cheetahtypes.js, lib/cheetahtypes-utils.js, lib/table.js, lib/model-old.js and old/cheetah-old.js. Nor are lib/cheetah.js, lib/connection*.js or lib/error/*.

## Findings

| source | as written | input that shows it | evidently intended | confidence | as-written member | corrected member |
|---|---|---|---|---|---|---|
| lib/schema/float.js:7 | Float declares code 8 and Month (lib/schema/month.js:6) declares code 15. The dictionary gives those codes to Real and DateTime. | `convertFromNumType(Float.numType)` returns Real | Float is 9 and Month is 13, as in the dictionary at lib/schema-types.js:46-50 | high, not executed | Registry.NumTypeRoundTrip | Intended.CorrectedNumTypeRoundTrip |
| lib/schema/timestamp.js:17 | the day is `getDay() + 1`, the weekday plus one (also datetime.js:17, kdate.js:15) | 1 and 8 August 2017 give the same timestamp | `getDate()`, the day of the month, as test/schema-types/schema-types.kdate.test.js expects; the create test (test/model/model.test.js:63) instead expects the weekday-based `2017.08.03d` for 1 August 2017 | high, not executed | Temporal.DayOfMonthLost | Intended.TimestampTextInjective |
| lib/schema/timestamp.js:19 | the minutes are `getHours()` (also datetime.js:19, minute.js:15, second.js:16, time.js:14, timespan.js:14) | 01:00 and 01:59 give the same timestamp, datetime, minute and second | `getMinutes()` | high, not executed | Temporal.MinutesLost | Intended.MinuteTextReads |
| lib/schema/kdate.js:1 | kdate.js, month.js, time.js and timespan.js use `utils` without requiring it | `KDate.convert(new Date(2011, 0, 1))` throws a ReferenceError | the literal text, e.g. `2011.01.01d` as the KDate test expects | high, not executed | TypeProperties.UnboundTypesConvert | Intended.KDateTestDates |
| lib/schema/byte.js:18 | `val.toString(16)` on a string ignores the radix, so a decimal string keeps its decimal digits | `Byte.convert("15")` gives `0x15`, which is 21 | the byte the string denotes, `0x0f` | medium, not executed | TypeProperties.ByteDecimalString | Intended.ByteText |
| lib/model.js:111 | `typeof [] === 'object'`, so an array is wrapped like a single object | `create([r1, r2])` creates one row holding the array | an array is the list of rows, as the doc comment at lib/model.js:84 says | medium, not executed | Models.ArrayIsOneRow | Intended.NormaliseRowsDiffersOnArrays |

The model follows the code, so every module except Intended uses the
as-written definitions. Intended holds each correction with its property proved.
