/** The three-way schema merge of lib/schema.js: the declared schema of a model is
    reconciled with the type schema the remote table reports, column by column, with
    a policy that depends on whether the table holds any rows. */
module Schemas {
  import opened Results
  import opened Js
  import opened Registry
  import opened Utils

  /** A column's spec object `{ type, default, required }`; a key that is not
      written reads as `undefined`. */
  datatype ColumnSpec = ColumnSpec(colType: ColumnType, defaultValue: JsValue, required: JsValue)

  /** A schema object: column names to specs, in `Object.keys` order. */
  type Columns = seq<(string, ColumnSpec)>

  /** `new Schema(schema)`: the constructor stores its argument as it is. */
  datatype Schema = Schema(schema: Columns)

  /** Why the merge throws: the offending column, and for a retype both types. */
  datatype MergeError =
    | MissingDefault(column: string)                          // lib/schema.js:35-37
    | TypeChanged(column: string, current: ColumnType, declared: ColumnType)  // lib/schema.js:56-58
    | ColumnRemoved(column: string)                           // lib/schema.js:68-70

  function Names(cols: Columns): (names: seq<string>)
    ensures |names| == |cols|
    ensures forall i :: 0 <= i < |cols| ==> names[i] == cols[i].0
  {
    if |cols| == 0 then [] else [cols[0].0] + Names(cols[1..])
  }

  /** A JavaScript object never holds the same key twice. */
  predicate WellFormed(cols: Columns) {
    Distinct(Names(cols))
  }

  /** `obj[column]`: the spec stored under the name, if any. */
  function Lookup(cols: Columns, column: string): (r: Option<ColumnSpec>)
    ensures r.Some? <==> column in Names(cols)
    ensures r.Some? ==> exists i :: 0 <= i < |cols| && cols[i] == (column, r.value)
  {
    if |cols| == 0 then None
    else if cols[0].0 == column then Some(cols[0].1)
    else
      var r := Lookup(cols[1..], column);
      assert Names(cols) == [cols[0].0] + Names(cols[1..]);
      if r.Some? then
        var i :| 0 <= i < |cols[1..]| && cols[1..][i] == (column, r.value);
        assert cols[i + 1] == (column, r.value);
        r
      else r
  }

  /** Step 1 of the merge: the remote column names, then the declared names the
      remote schema does not have, each once. */
  function UnionOrder(current: Columns, declared: Columns): seq<string> {
    Dedup(Names(current) + Names(declared))
  }

  /** The union holds exactly the names of either schema. */
  lemma UnionMembers(current: Columns, declared: Columns)
    ensures forall c :: c in UnionOrder(current, declared) <==> c in Names(current) + Names(declared)
  {
    forall c
      ensures c in UnionOrder(current, declared) <==> c in Names(current) + Names(declared)
    {
      DedupMember(Names(current) + Names(declared), c);
    }
  }

  /** The three cases of the merge for one column. A spec object is always truthy,
      so `!obj[column]` means the column is absent. */
  datatype Case = New | Retained | Dropped | Neither

  function CaseOf(current: Columns, declared: Columns, column: string): Case {
    match (Lookup(current, column), Lookup(declared, column))
    case (None, Some(_)) => New
    case (Some(_), Some(_)) => Retained
    case (Some(_), None) => Dropped
    case (None, None) => Neither
  }

  /** One pass of the loop body: the spec the merged object takes for the column
      (none for a dropped one), or the error thrown. Only `default`'s truthiness is
      read, never `required`. */
  function MergeColumn(current: Columns, declared: Columns, size: int, column: string)
    : (r: Result<Option<ColumnSpec>, MergeError>)
    ensures r.Success? && r.value.Some? ==> r.value == Lookup(declared, column)
    ensures r.Success? && r.value.None? ==> Lookup(declared, column).None?
    ensures size == 0 ==> r.Success?
  {
    match (Lookup(current, column), Lookup(declared, column))
    case (None, Some(n)) =>
      if size == 0 then Success(Some(n))
      else if Truthy(n.defaultValue) then Success(Some(n))
      else Failure(MissingDefault(column))
    case (Some(c), Some(n)) =>
      if size == 0 then Success(Some(n))
      else if c.colType == n.colType then Success(Some(n))
      else Failure(TypeChanged(column, c.colType, n.colType))
    case (Some(_), None) =>
      if size == 0 then Success(None) else Failure(ColumnRemoved(column))
    case (None, None) => Success(None)
  }

  /** Whether the merge throws on this column. */
  predicate Blocked(current: Columns, declared: Columns, size: int, column: string) {
    MergeColumn(current, declared, size, column).Failure?
  }

  /** The reference for a successful merge: the declared spec of every visited
      column the declared schema has, in visiting order. */
  function Project(declared: Columns, columns: seq<string>): Columns
    decreases |columns|
  {
    if |columns| == 0 then []
    else
      var head := match Lookup(declared, columns[0]) case Some(spec) => [(columns[0], spec)] case None => [];
      head + Project(declared, columns[1..])
  }

  /** The loop over `columns`, in order: the first column that throws ends it,
      with that column's error; otherwise every kept column is written in the
      order visited. */
  function MergeEach(current: Columns, declared: Columns, size: int, columns: seq<string>)
    : (r: Result<Columns, MergeError>)
    ensures r.Success? <==> forall i :: 0 <= i < |columns| ==> !Blocked(current, declared, size, columns[i])
    ensures r.Success? ==> r.value == Project(declared, columns)
    ensures r.Failure? ==>
              exists i :: (FirstBlocked(current, declared, size, columns, i)
                           && r.error == MergeColumn(current, declared, size, columns[i]).error)
    decreases |columns|
  {
    if |columns| == 0 then Success([])
    else
      match MergeColumn(current, declared, size, columns[0])
      case Failure(e) =>
        assert FirstBlocked(current, declared, size, columns, 0);
        Failure(e)
      case Success(kept) =>
        assert forall i :: 1 <= i < |columns| ==> columns[i] == columns[1..][i - 1];
        match MergeEach(current, declared, size, columns[1..])
        case Failure(e) =>
          var i :| FirstBlocked(current, declared, size, columns[1..], i)
                   && e == MergeColumn(current, declared, size, columns[1..][i]).error;
          assert FirstBlocked(current, declared, size, columns, i + 1);
          Failure(e)
        case Success(rest) =>
          var head := if kept.Some? then [(columns[0], kept.value)] else [];
          Success(head + rest)
  }

  /** Column `i` is the first of `columns` the merge throws on. */
  predicate FirstBlocked(current: Columns, declared: Columns, size: int, columns: seq<string>, i: int) {
    && 0 <= i < |columns|
    && Blocked(current, declared, size, columns[i])
    && forall j :: 0 <= j < i ==> !Blocked(current, declared, size, columns[j])
  }

  /** `Schema._mergeSchemaObj(name, table_name, current_table_size,
      current_schema_obj, new_schema_obj)`. The two names only feed the error
      messages, which are not modelled. */
  function MergeSchemaObj(size: int, current: Columns, declared: Columns): (r: Result<Columns, MergeError>)
    ensures r.Success? <==> forall c :: c in Names(current) + Names(declared) ==> !Blocked(current, declared, size, c)
    ensures r.Success? ==> r.value == Project(declared, UnionOrder(current, declared))
    ensures r.Failure? ==>
              exists i :: (FirstBlocked(current, declared, size, UnionOrder(current, declared), i)
                           && r.error == MergeColumn(current, declared, size, UnionOrder(current, declared)[i]).error)
  {
    UnionMembers(current, declared);
    MergeEach(current, declared, size, UnionOrder(current, declared))
  }

  /** `Schema.mergeTypeSchema`: the merge of `new_schema.schema`, wrapped in a new
      `Schema`. */
  function MergeTypeSchema(size: int, current: Columns, newSchema: Schema): (r: Result<Schema, MergeError>)
    ensures r.Success? <==> MergeSchemaObj(size, current, newSchema.schema).Success?
    ensures r.Success? ==> r.value.schema == MergeSchemaObj(size, current, newSchema.schema).value
  {
    var merged :- MergeSchemaObj(size, current, newSchema.schema);
    Success(Schema(merged))
  }

  // ----- properties of the merge ---------------------------------------------------

  /** The union visits the remote columns in remote order, then the declared-only
      columns in declared order, each exactly once. */
  lemma UnionOrderShape(current: Columns, declared: Columns)
    requires WellFormed(current) && WellFormed(declared)
    ensures UnionOrder(current, declared) == Names(current) + Without(Names(declared), Names(current))
    ensures Distinct(UnionOrder(current, declared))
  {
    UnionOfDistinct(Names(current), Names(declared));
    DedupIsDistinct(Names(current) + Names(declared));
  }

  /** Every visited column falls in exactly one of the three cases, according to
      which of the two schemas has it. */
  lemma ThreeCases(current: Columns, declared: Columns, c: string)
    requires c in UnionOrder(current, declared)
    ensures CaseOf(current, declared, c) != Neither
    ensures CaseOf(current, declared, c) == New <==> c !in Names(current) && c in Names(declared)
    ensures CaseOf(current, declared, c) == Retained <==> c in Names(current) && c in Names(declared)
    ensures CaseOf(current, declared, c) == Dropped <==> c in Names(current) && c !in Names(declared)
  {
    UnionMembers(current, declared);
  }

  /** The merge throws on a column exactly when the table has rows and the column
      is new without a truthy default, retyped, or dropped. */
  lemma BlockedCases(current: Columns, declared: Columns, size: int, c: string)
    ensures Blocked(current, declared, size, c) <==>
              && size != 0
              && match CaseOf(current, declared, c)
                 case New => !Truthy(Lookup(declared, c).value.defaultValue)
                 case Retained => Lookup(current, c).value.colType != Lookup(declared, c).value.colType
                 case Dropped => true
                 case Neither => false
  {
  }

  /** An empty table accepts every addition, retype and removal: the merge is the
      declared schema in union order. */
  lemma EmptyTableNeverFails(current: Columns, declared: Columns)
    ensures MergeSchemaObj(0, current, declared) == Success(Project(declared, UnionOrder(current, declared)))
  {
  }

  /** A declared schema's own specs: the spec stored under each of its names. */
  lemma {:induction false} LookupWellFormed(cols: Columns, i: int)
    requires WellFormed(cols) && 0 <= i < |cols|
    ensures Lookup(cols, cols[i].0) == Some(cols[i].1)
    decreases |cols|
  {
    if i > 0 {
      assert Names(cols)[0] != Names(cols)[i];
      var tail := cols[1..];
      assert Names(tail) == Names(cols)[1..];
      LookupWellFormed(tail, i - 1);
    }
  }

  /** The projection holds exactly the declared entries whose names were visited. */
  lemma {:induction false} ProjectContents(declared: Columns, columns: seq<string>, e: (string, ColumnSpec))
    requires WellFormed(declared)
    ensures e in Project(declared, columns) <==> e in declared && e.0 in columns
    decreases |columns|
  {
    if |columns| > 0 {
      ProjectContents(declared, columns[1..], e);
      assert columns == [columns[0]] + columns[1..];
      if e in declared {
        var i :| 0 <= i < |declared| && declared[i] == e;
        LookupWellFormed(declared, i);
      }
    }
  }

  /** Visiting distinct names writes each at most once. */
  lemma {:induction false} ProjectDistinct(declared: Columns, columns: seq<string>)
    requires Distinct(columns)
    ensures Distinct(Names(Project(declared, columns)))
    ensures forall c :: c in Names(Project(declared, columns)) ==> c in columns
    decreases |columns|
  {
    if |columns| > 0 {
      var rest := Project(declared, columns[1..]);
      ProjectDistinct(declared, columns[1..]);
      assert forall j :: 0 < j < |columns| ==> columns[j] == columns[1..][j - 1];
      assert columns[0] !in columns[1..];
      var head := match Lookup(declared, columns[0]) case Some(spec) => [(columns[0], spec)] case None => [];
      assert Names(head + rest) == Names(head) + Names(rest);
    }
  }

  /** On success the merged schema holds exactly the declared columns, each with
      its declared spec (`default` and `required` carried as written), each once;
      a column only the remote schema has never appears. */
  lemma MergeKeepsDeclared(size: int, current: Columns, declared: Columns)
    requires WellFormed(current) && WellFormed(declared)
    requires MergeSchemaObj(size, current, declared).Success?
    ensures var m := MergeSchemaObj(size, current, declared).value;
            && (forall e :: e in m <==> e in declared)
            && WellFormed(m)
            && (forall c :: c in Names(current) && c !in Names(declared) ==> c !in Names(m))
  {
    var columns := UnionOrder(current, declared);
    var m := MergeSchemaObj(size, current, declared).value;
    UnionOrderShape(current, declared);
    UnionMembers(current, declared);
    ProjectDistinct(declared, columns);
    forall e
      ensures e in m <==> e in declared
    {
      ProjectContents(declared, columns, e);
      if e in declared {
        var i :| 0 <= i < |declared| && declared[i] == e;
        assert e.0 == Names(declared)[i];
      }
    }
    forall c | c in Names(m)
      ensures c in Names(declared)
    {
      var j :| 0 <= j < |m| && Names(m)[j] == c;
      assert m[j] in declared;
      var i :| 0 <= i < |declared| && declared[i] == m[j];
      assert Names(declared)[i] == c;
    }
  }

  /** Two schemas with the same columns and types merge to the declared one,
      whatever the table's size. */
  lemma IdenticalSchemasMerge(size: int, cols: Columns)
    requires WellFormed(cols)
    ensures MergeSchemaObj(size, cols, cols) == Success(cols)
  {
    var n := Names(cols);
    UnionOfDistinct(n, n);
    WithoutAll(n, n);
    assert UnionOrder(cols, cols) == n;
    forall c | c in n + n
      ensures !Blocked(cols, cols, size, c)
    {
    }
    ProjectNames(cols);
  }

  /** Projecting a schema onto its own names gives it back. */
  lemma {:induction false} ProjectNames(cols: Columns)
    requires WellFormed(cols)
    ensures Project(cols, Names(cols)) == cols
  {
    ProjectSuffix(cols, 0);
  }

  lemma {:induction false} ProjectSuffix(cols: Columns, k: int)
    requires WellFormed(cols) && 0 <= k <= |cols|
    ensures Project(cols, Names(cols)[k..]) == cols[k..]
    decreases |cols| - k
  {
    if k < |cols| {
      var ns := Names(cols)[k..];
      LookupWellFormed(cols, k);
      ProjectHead(cols, ns, cols[k].1);
      assert ns[1..] == Names(cols)[k + 1..];
      ProjectSuffix(cols, k + 1);
      assert cols[k..] == [cols[k]] + cols[k + 1..];
    }
  }

  lemma ProjectHead(declared: Columns, columns: seq<string>, spec: ColumnSpec)
    requires |columns| > 0 && Lookup(declared, columns[0]) == Some(spec)
    ensures Project(declared, columns) == [(columns[0], spec)] + Project(declared, columns[1..])
  {
  }

  /** `required` is never read: clearing it in every declared spec changes
      neither whether the merge throws nor which error it throws. */
  lemma RequiredIgnored(size: int, current: Columns, declared: Columns)
    ensures var stripped := ClearRequired(declared);
            && Names(stripped) == Names(declared)
            && (MergeSchemaObj(size, current, declared).Success? <==> MergeSchemaObj(size, current, stripped).Success?)
            && (MergeSchemaObj(size, current, declared).Failure? ==>
                  MergeSchemaObj(size, current, declared).error == MergeSchemaObj(size, current, stripped).error)
  {
    assert UnionOrder(current, ClearRequired(declared)) == UnionOrder(current, declared);
    MergeEachCleared(current, declared, size, UnionOrder(current, declared));
  }

  lemma {:induction false} MergeEachCleared(current: Columns, declared: Columns, size: int, columns: seq<string>)
    ensures var stripped := ClearRequired(declared);
            && (MergeEach(current, declared, size, columns).Success? <==> MergeEach(current, stripped, size, columns).Success?)
            && (MergeEach(current, declared, size, columns).Failure? ==>
                  MergeEach(current, declared, size, columns).error == MergeEach(current, stripped, size, columns).error)
    decreases |columns|
  {
    if |columns| > 0 {
      MergeColumnCleared(current, declared, size, columns[0]);
      MergeEachCleared(current, declared, size, columns[1..]);
    }
  }

  lemma MergeColumnCleared(current: Columns, declared: Columns, size: int, c: string)
    ensures var stripped := ClearRequired(declared);
            && (MergeColumn(current, declared, size, c).Success? <==> MergeColumn(current, stripped, size, c).Success?)
            && (MergeColumn(current, declared, size, c).Failure? ==>
                  MergeColumn(current, declared, size, c).error == MergeColumn(current, stripped, size, c).error)
  {
    LookupCleared(declared, c);
    MergeColumnAgrees(current, declared, ClearRequired(declared), size, c);
  }

  /** A column's outcome depends on the declared spec only through its type and
      its default. */
  lemma MergeColumnAgrees(current: Columns, d1: Columns, d2: Columns, size: int, c: string)
    requires Lookup(d1, c).Some? <==> Lookup(d2, c).Some?
    requires Lookup(d1, c).Some? ==> && Lookup(d1, c).value.colType == Lookup(d2, c).value.colType
                                     && Lookup(d1, c).value.defaultValue == Lookup(d2, c).value.defaultValue
    ensures MergeColumn(current, d1, size, c).Success? <==> MergeColumn(current, d2, size, c).Success?
    ensures MergeColumn(current, d1, size, c).Failure? ==>
              MergeColumn(current, d1, size, c).error == MergeColumn(current, d2, size, c).error
  {
  }

  /** The same schema with `required` removed from every spec. */
  function ClearRequired(cols: Columns): (r: Columns)
    ensures Names(r) == Names(cols)
    ensures forall i :: 0 <= i < |r| ==> r[i].1 == cols[i].1.(required := JUndefined)
  {
    if |cols| == 0 then [] else [(cols[0].0, cols[0].1.(required := JUndefined))] + ClearRequired(cols[1..])
  }

  lemma {:induction false} LookupCleared(cols: Columns, c: string)
    ensures Lookup(ClearRequired(cols), c) ==
              match Lookup(cols, c) case Some(spec) => Some(spec.(required := JUndefined)) case None => None
    decreases |cols|
  {
    if |cols| > 0 {
      assert ClearRequired(cols)[1..] == ClearRequired(cols[1..]);
      LookupCleared(cols[1..], c);
    }
  }

  // ----- the merges test/schema/schema.test.js checks ----------------------------

  /** A spec with only a type, as the remote type schema reports it. */
  function TypeOnly(t: ColumnType): ColumnSpec {
    ColumnSpec(t, JUndefined, JUndefined)
  }

  /** An empty table with the same two columns: a default on one of them is kept. */
  lemma MergeKeepsDefaultTest()
    ensures var current := [("symbol", TypeOnly(Symbol)), ("price", TypeOnly(Real))];
            var declared := [("symbol", ColumnSpec(Symbol, JStr("APPL"), JBool(true))),
                             ("price", ColumnSpec(Real, JUndefined, JBool(true)))];
            MergeSchemaObj(0, current, declared) == Success(declared)
  {
    var current := [("symbol", TypeOnly(Symbol)), ("price", TypeOnly(Real))];
    var declared := [("symbol", ColumnSpec(Symbol, JStr("APPL"), JBool(true))),
                     ("price", ColumnSpec(Real, JUndefined, JBool(true)))];
    assert Names(current) == Names(declared) == ["symbol", "price"];
    UnionOrderShape(current, declared);
    WithoutAll(Names(declared), Names(current));
    ProjectNames(declared);
  }

  /** When the declared columns start with the remote ones, the union is the
      declared order. */
  lemma UnionAppends(current: Columns, declared: Columns)
    requires WellFormed(declared)
    requires |current| <= |declared| && Names(declared)[..|current|] == Names(current)
    ensures UnionOrder(current, declared) == Names(declared)
  {
    DistinctPrefix(Names(declared), |current|);
    UnionOrderShape(current, declared);
    WithoutPrefix(Names(declared), |current|);
  }

  /** When the remote columns start with the declared ones, the union is the
      remote order. */
  lemma UnionTruncates(current: Columns, declared: Columns)
    requires WellFormed(current)
    requires |declared| <= |current| && Names(current)[..|declared|] == Names(declared)
    ensures UnionOrder(current, declared) == Names(current)
  {
    DistinctPrefix(Names(current), |declared|);
    UnionOrderShape(current, declared);
    WithoutAll(Names(declared), Names(current));
  }

  /** On an empty table, a declared schema that keeps the remote columns in order
      and appends new ones after them is taken as it is. */
  lemma EmptyTableAppends(current: Columns, declared: Columns)
    requires WellFormed(declared)
    requires |current| <= |declared| && Names(declared)[..|current|] == Names(current)
    ensures MergeSchemaObj(0, current, declared) == Success(declared)
  {
    UnionAppends(current, declared);
    ProjectNames(declared);
    EmptyTableNeverFails(current, declared);
  }

  /** On an empty table, a declared schema that is the remote one with its last
      columns dropped is taken as it is. */
  lemma EmptyTableTruncates(current: Columns, declared: Columns)
    requires WellFormed(current)
    requires |declared| <= |current| && Names(current)[..|declared|] == Names(declared)
    ensures MergeSchemaObj(0, current, declared) == Success(declared)
  {
    UnionTruncates(current, declared);
    ProjectTruncated(declared, Names(current));
    EmptyTableNeverFails(current, declared);
  }

  /** Visiting the declared names and then names it lacks projects to the declared
      schema itself. */
  lemma ProjectTruncated(declared: Columns, names: seq<string>)
    requires Distinct(names)
    requires |declared| <= |names| && names[..|declared|] == Names(declared)
    ensures Project(declared, names) == declared
  {
    var k := |declared|;
    DistinctPrefix(names, k);
    assert names == Names(declared) + names[k..];
    ProjectAppend(declared, Names(declared), names[k..]);
    ProjectNames(declared);
    assert forall c :: c in names[k..] ==> c !in Names(declared);
    ProjectNone(declared, names[k..]);
  }

  /** The merge fails with the error of the first column it throws on. */
  lemma FailsAtFirstBlocked(size: int, current: Columns, declared: Columns, k: int)
    requires FirstBlocked(current, declared, size, UnionOrder(current, declared), k)
    ensures MergeSchemaObj(size, current, declared)
         == Failure(MergeColumn(current, declared, size, UnionOrder(current, declared)[k]).error)
  {
    var u := UnionOrder(current, declared);
    var r := MergeSchemaObj(size, current, declared);
    assert u[k] in Names(current) + Names(declared) by { UnionMembers(current, declared); }
    var i :| FirstBlocked(current, declared, size, u, i) && r.error == MergeColumn(current, declared, size, u[i]).error;
    assert i == k;
  }

  lemma {:induction false} ProjectAppend(declared: Columns, xs: seq<string>, ys: seq<string>)
    ensures Project(declared, xs + ys) == Project(declared, xs) + Project(declared, ys)
    decreases |xs|
  {
    if |xs| > 0 {
      assert (xs + ys)[1..] == xs[1..] + ys;
      ProjectAppend(declared, xs[1..], ys);
    } else {
      assert xs + ys == ys;
    }
  }

  /** Columns the declared schema lacks contribute nothing. */
  lemma {:induction false} ProjectNone(declared: Columns, columns: seq<string>)
    requires forall c :: c in columns ==> c !in Names(declared)
    ensures Project(declared, columns) == []
    decreases |columns|
  {
    if |columns| > 0 {
      assert columns[0] in columns;
      ProjectNone(declared, columns[1..]);
    }
  }

  /** An empty table: a retype from Real to Float and a new column are accepted. */
  lemma MergeRetypeAndAddTest()
    ensures var current := [("symbol", TypeOnly(Symbol)), ("price", TypeOnly(Real))];
            var declared := [("symbol", ColumnSpec(Symbol, JStr("APPL"), JBool(true))),
                             ("price", ColumnSpec(Float, JUndefined, JBool(true))),
                             ("amount", ColumnSpec(Int, JUndefined, JBool(true)))];
            MergeSchemaObj(0, current, declared) == Success(declared)
  {
    var current := [("symbol", TypeOnly(Symbol)), ("price", TypeOnly(Real))];
    var declared := [("symbol", ColumnSpec(Symbol, JStr("APPL"), JBool(true))),
                     ("price", ColumnSpec(Float, JUndefined, JBool(true))),
                     ("amount", ColumnSpec(Int, JUndefined, JBool(true)))];
    assert Names(declared) == ["symbol", "price", "amount"];
    assert Names(declared)[..2] == ["symbol", "price"] == Names(current);
    EmptyTableAppends(current, declared);
  }

  /** An empty table: a column the declared schema drops is removed. */
  lemma MergeRemoveTest()
    ensures var current := [("symbol", TypeOnly(Symbol)), ("price", TypeOnly(Real)), ("amount", TypeOnly(Int))];
            var declared := [("symbol", TypeOnly(Symbol)), ("price", TypeOnly(Real))];
            MergeSchemaObj(0, current, declared) == Success(declared)
  {
    var current := [("symbol", TypeOnly(Symbol)), ("price", TypeOnly(Real)), ("amount", TypeOnly(Int))];
    var declared := [("symbol", TypeOnly(Symbol)), ("price", TypeOnly(Real))];
    assert Names(current) == ["symbol", "price", "amount"];
    assert Names(current)[..2] == ["symbol", "price"] == Names(declared);
    EmptyTableTruncates(current, declared);
  }

  /** `mergeTypeSchema` of a schema identical to the table's gives an equal `Schema`. */
  lemma MergeTypeSchemaIdentical(size: int, cols: Columns)
    requires WellFormed(cols)
    ensures MergeTypeSchema(size, cols, Schema(cols)) == Success(Schema(cols))
  {
    IdenticalSchemasMerge(size, cols);
  }

  /** A table with rows refuses a new column whose default is falsy (0 here),
      whatever its row count. */
  lemma NonEmptyRejectsFalsyDefault(size: int)
    requires size != 0
    ensures var current := [("symbol", TypeOnly(Symbol))];
            var declared := [("symbol", TypeOnly(Symbol)), ("amount", ColumnSpec(Int, JNum(0), JBool(true)))];
            MergeSchemaObj(size, current, declared) == Failure(MissingDefault("amount"))
  {
    var current := [("symbol", TypeOnly(Symbol))];
    var declared := [("symbol", TypeOnly(Symbol)), ("amount", ColumnSpec(Int, JNum(0), JBool(true)))];
    assert Names(current) == ["symbol"];
    assert Names(declared) == ["symbol", "amount"];
    assert Names(declared)[..1] == Names(current);
    UnionAppends(current, declared);
    var u := UnionOrder(current, declared);
    assert !Blocked(current, declared, size, u[0]);
    assert MergeColumn(current, declared, size, u[1]) == Failure(MissingDefault("amount"));
    FailsAtFirstBlocked(size, current, declared, 1);
  }

  /** A table with rows refuses a redeclaration that keeps the remote columns but
      changes a type: the error names the first retyped column and both its types. */
  lemma RetypeRejected(size: int, current: Columns, declared: Columns, k: int)
    requires size != 0 && WellFormed(current) && Names(declared) == Names(current)
    requires 0 <= k < |current|
    requires forall j :: 0 <= j < k ==> current[j].1.colType == declared[j].1.colType
    requires current[k].1.colType != declared[k].1.colType
    ensures MergeSchemaObj(size, current, declared)
         == Failure(TypeChanged(current[k].0, current[k].1.colType, declared[k].1.colType))
  {
    assert Names(current)[..|declared|] == Names(declared);
    UnionTruncates(current, declared);
    var u := UnionOrder(current, declared);
    forall j | 0 <= j < k
      ensures !Blocked(current, declared, size, u[j])
    {
      SameColumnMerge(size, current, declared, j);
    }
    SameColumnMerge(size, current, declared, k);
    FailsAtFirstBlocked(size, current, declared, k);
  }

  /** The column at the same place in two schemas with the same names: kept when
      its type is unchanged, refused with both types otherwise. */
  lemma SameColumnMerge(size: int, current: Columns, declared: Columns, j: int)
    requires size != 0 && WellFormed(current) && Names(declared) == Names(current)
    requires 0 <= j < |current|
    ensures current[j].1.colType == declared[j].1.colType ==> !Blocked(current, declared, size, current[j].0)
    ensures current[j].1.colType != declared[j].1.colType ==>
              MergeColumn(current, declared, size, current[j].0)
                == Failure(TypeChanged(current[j].0, current[j].1.colType, declared[j].1.colType))
  {
    LookupWellFormed(current, j);
    LookupWellFormed(declared, j);
    assert declared[j].0 == Names(declared)[j] == current[j].0;
  }

  /** A table with rows refuses a retype, naming both types. */
  lemma NonEmptyRejectsRetype(size: int)
    requires size != 0
    ensures var current := [("symbol", TypeOnly(Symbol)), ("price", TypeOnly(Real))];
            var declared := [("symbol", TypeOnly(Symbol)), ("price", TypeOnly(Float))];
            MergeSchemaObj(size, current, declared) == Failure(TypeChanged("price", Real, Float))
  {
    var current := [("symbol", TypeOnly(Symbol)), ("price", TypeOnly(Real))];
    var declared := [("symbol", TypeOnly(Symbol)), ("price", TypeOnly(Float))];
    assert Names(current) == Names(declared) == ["symbol", "price"];
    RetypeRejected(size, current, declared, 1);
  }

  /** A table with rows refuses to drop a column. */
  lemma NonEmptyRejectsRemoval(size: int)
    requires size != 0
    ensures var current := [("symbol", TypeOnly(Symbol)), ("price", TypeOnly(Real))];
            MergeSchemaObj(size, current, [("symbol", TypeOnly(Symbol))]) == Failure(ColumnRemoved("price"))
  {
    var current := [("symbol", TypeOnly(Symbol)), ("price", TypeOnly(Real))];
    var declared := [("symbol", TypeOnly(Symbol))];
    assert Names(current) == ["symbol", "price"];
    assert Names(declared) == ["symbol"];
    assert Names(current)[..|declared|] == Names(declared);
    UnionTruncates(current, declared);
    var u := UnionOrder(current, declared);
    assert !Blocked(current, declared, size, u[0]);
    assert MergeColumn(current, declared, size, u[1]) == Failure(ColumnRemoved("price"));
    FailsAtFirstBlocked(size, current, declared, 1);
  }
}
