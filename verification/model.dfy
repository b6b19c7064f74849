/** lib/model.js: the `Model` class. `compile` derives the table name, asks the
    connection for the table's current type schema and row count, and merges the
    declared schema into it; `create` normalises its argument into a list of rows. */
module Models {
  import opened Results
  import opened Js
  import opened Schemas

  // ----- the table name ------------------------------------------------------------

  predicate IsUpper(c: char) {
    'A' <= c <= 'Z'
  }

  /** `toLowerCase` on one ASCII character. */
  function LowerChar(c: char): (r: char)
    ensures !IsUpper(r)
    ensures IsUpper(c) ==> r as int == c as int + 32
    ensures !IsUpper(c) ==> r == c
  {
    if IsUpper(c) then (c as int + 32) as char else c
  }

  /** `String.prototype.toLowerCase` on ASCII text. */
  function Lower(s: string): (r: string)
    ensures |r| == |s|
    ensures forall i :: 0 <= i < |s| ==> r[i] == LowerChar(s[i])
  {
    seq(|s|, i requires 0 <= i < |s| => LowerChar(s[i]))
  }

  predicate NoUpper(s: string) {
    forall i :: 0 <= i < |s| ==> !IsUpper(s[i])
  }

  /** The table behind a model: the lowercased model name followed by `s`. */
  function TableName(name: string): (r: string)
    ensures |r| == |name| + 1 && r[|name|] == 's'
    ensures r[..|name|] == Lower(name)
  {
    Lower(name) + "s"
  }

  /** Lowercasing leaves no capital and changes nothing in text without one. */
  lemma LowerNormalises(s: string)
    ensures NoUpper(Lower(s))
    ensures NoUpper(s) <==> Lower(s) == s
  {
    if Lower(s) == s {
      forall i | 0 <= i < |s| ensures !IsUpper(s[i]) {
        assert s[i] == Lower(s)[i];
      }
    }
  }

  /** Two model names share a table exactly when they differ only in the case of
      their letters. */
  lemma TableNameCaseInsensitive(a: string, b: string)
    ensures TableName(a) == TableName(b) <==> Lower(a) == Lower(b)
  {
    if TableName(a) == TableName(b) {
      assert TableName(a)[..|a|] == TableName(b)[..|b|];
    }
  }

  /** The model the repository's tests compile. */
  lemma TradeTableName()
    ensures TableName("Trade") == "trades"
  {
    assert Lower("Trade") == "trade";
  }

  // ----- compile -------------------------------------------------------------------

  /** A `Model` instance: `_connection`, `_schema` and `_name`. The constructor sets
      all three to `null`; `_schema` otherwise holds a `Schema`. */
  datatype Model = Model(connection: JsValue, schema: Option<Schema>, name: JsValue)

  /** `new Model()`. */
  const Fresh: Model := Model(JNull, None, JNull)

  /** What `connection.getCurrentTableTypeSchema(table_name)` resolves to: the
      table's type schema and its row count. The connection is outside this model,
      so it is a parameter. */
  datatype Snapshot = Snapshot(typeSchema: Columns, size: int)

  /** `Model.compile(name, new_schema, connection)`: the merge of the declared
      schema into the snapshot of the table named after the model, set as the
      `_schema` of a fresh model; a merge error is thrown and no model is made. */
  function Compile(name: string, declared: Schema, fetch: string -> Snapshot): (r: Result<Model, MergeError>)
    ensures var snap := fetch(TableName(name));
            var merged := MergeSchemaObj(snap.size, snap.typeSchema, declared.schema);
            && (r.Success? <==> merged.Success?)
            && (r.Success? ==> r.value == Fresh.(schema := Some(Schema(merged.value))))
            && (r.Failure? ==> r.error == merged.error)
  {
    var snap := fetch(TableName(name));
    var merged :- MergeTypeSchema(snap.size, snap.typeSchema, declared);
    Success(Fresh.(schema := Some(merged)))
  }

  /** A compiled model's schema holds exactly the declared column specs, with no
      repeated column, and none of the table's columns the declaration left out. */
  lemma CompileKeepsDeclared(name: string, declared: Schema, fetch: string -> Snapshot)
    requires WellFormed(declared.schema) && WellFormed(fetch(TableName(name)).typeSchema)
    requires Compile(name, declared, fetch).Success?
    ensures var m := Compile(name, declared, fetch).value;
            && m.connection == JNull && m.name == JNull && m.schema.Some?
            && WellFormed(m.schema.value.schema)
            && forall e :: e in m.schema.value.schema <==> e in declared.schema
  {
    var snap := fetch(TableName(name));
    MergeKeepsDeclared(snap.size, snap.typeSchema, declared.schema);
  }

  /** Against an empty table, compiling always succeeds. */
  lemma CompileEmptyTable(name: string, declared: Schema, fetch: string -> Snapshot)
    requires fetch(TableName(name)).size == 0
    ensures Compile(name, declared, fetch).Success?
  {
    EmptyTableNeverFails(fetch(TableName(name)).typeSchema, declared.schema);
  }

  /** Model names that differ only in letter case compile against the same table
      and so give the same outcome. */
  lemma CompileCaseInsensitive(a: string, b: string, declared: Schema, fetch: string -> Snapshot)
    requires Lower(a) == Lower(b)
    ensures Compile(a, declared, fetch) == Compile(b, declared, fetch)
  {
    TableNameCaseInsensitive(a, b);
  }

  /** Recompiling a model against a table that already has exactly its declared
      columns gives the declaration back, whatever the table holds. */
  lemma CompileUnchangedTable(name: string, declared: Schema, fetch: string -> Snapshot)
    requires WellFormed(declared.schema)
    requires fetch(TableName(name)).typeSchema == declared.schema
    ensures Compile(name, declared, fetch) == Success(Fresh.(schema := Some(declared)))
  {
    IdenticalSchemasMerge(fetch(TableName(name)).size, declared.schema);
  }

  // ----- create --------------------------------------------------------------------

  datatype CreateError =
    | NoSchema       // `Object.keys(null)` in `_updateSchema` throws a TypeError
    | RowsUndefined  // lib/model.js:101-103
    | RowsNotObject  // lib/model.js:106-108

  /** The rows `_create` accepts: any value whose `typeof` is `object`, wrapped as a
      one-element list. `null` and arrays are objects, so an array of rows becomes
      a single row. */
  function Normalise(rows: JsValue): (r: Result<seq<JsValue>, CreateError>)
    ensures r.Success? <==> Typeof(rows) == "object"
    ensures r.Success? ==> r.value == [rows]
    ensures rows == JUndefined ==> r == Failure(RowsUndefined)
  {
    if rows == JUndefined then Failure(RowsUndefined)
    else if Typeof(rows) != "object" then Failure(RowsNotObject)
    else Success([rows])
  }

  /** `Model.prototype._create(rows)`: the checks, the wrapping, then the loop that
      pushes every row onto the list of created rows. */
  method CreateRows(rows: JsValue) returns (r: Result<seq<JsValue>, CreateError>)
    ensures r == Normalise(rows)
  {
    if rows == JUndefined {
      return Failure(RowsUndefined);
    }
    if Typeof(rows) != "object" {
      return Failure(RowsNotObject);
    }
    var list := [rows];
    var created: seq<JsValue> := [];
    for i := 0 to |list|
      invariant created == list[..i]
    {
      created := created + [list[i]];
    }
    assert list[..|list|] == list;
    return Success(created);
  }

  /** `model.create(rows)`: `_updateSchema` reads the keys of `_schema`, which
      throws on a model that has none, then `_create`. */
  method Create(m: Model, rows: JsValue) returns (r: Result<seq<JsValue>, CreateError>)
    ensures m.schema.None? ==> r == Failure(NoSchema)
    ensures m.schema.Some? ==> r == Normalise(rows)
  {
    if m.schema.None? {
      return Failure(NoSchema);
    }
    r := CreateRows(rows);
  }

  /** Strings, numbers and booleans are refused; `null`, dates, arrays and objects
      all become one row, unmodified. */
  lemma NormaliseCases()
    ensures Normalise(JStr("GOOGL")) == Failure(RowsNotObject)
    ensures Normalise(JNum(50)) == Failure(RowsNotObject)
    ensures Normalise(JBool(true)) == Failure(RowsNotObject)
    ensures Normalise(JNull) == Success([JNull])
    ensures Normalise(JArray([JNum(1), JNum(2)])) == Success([JArray([JNum(1), JNum(2)])])
  {
  }

  /** An array of rows is created as a single row holding the array: two rows
      given become one. */
  lemma ArrayIsOneRow(xs: seq<JsValue>)
    ensures Normalise(JArray(xs)) == Success([JArray(xs)])
    ensures Normalise(JArray(xs)) != Success(xs)
  {
    if |xs| > 0 {
      // an element is smaller than the array holding it, so it is not that array
      assert xs[0] in xs;
    }
  }
}
