/**
 * checker-functions.ts: the case-insensitive comparison of a strict schema
 * with the live table names and column records.  The `query` streams that
 * deliver those records are replaced by sequences of rows.
 */
module CheckerFunctions {
  import opened Wrappers
  import opened Js
  import opened Util
  import opened Schema
  import opened Sql
  import opened CheckersTypes

  // ---------------------------------------------------------------- lower-cased lists

  /** `list.map(s => s.toLowerCase())`. */
  function LowerAll(list: seq<string>): (r: seq<string>)
    ensures |r| == |list| && forall i :: 0 <= i < |list| ==> r[i] == ToLower(list[i])
  {
    seq(|list|, i requires 0 <= i < |list| => ToLower(list[i]))
  }

  /** `lcList.indexOf(needle.toLowerCase()) !== -1`, with `lcList` the lower-cased `list`. */
  predicate InLowerCased(list: seq<string>, needle: string) {
    ToLower(needle) in LowerAll(list)
  }

  /** Membership in the lower-cased list is membership ignoring case. */
  lemma InLowerCasedSpec(list: seq<string>, needle: string)
    ensures InLowerCased(list, needle) <==> exists i :: 0 <= i < |list| && SameIgnoringCase(list[i], needle)
  {
    if InLowerCased(list, needle) {
      var i :| 0 <= i < |list| && LowerAll(list)[i] == ToLower(needle);
      assert SameIgnoringCase(list[i], needle);
    }
  }

  // ---------------------------------------------------------------- the live tables

  /** `listTableNames`: the rows with a truthy `table_name`, in order, by name. */
  function ListTableNames(rows: seq<InfoSchemaTable>): (r: seq<string>)
    ensures |r| <= |rows|
    ensures forall k :: 0 <= k < |r| ==> r[k] != ""
    decreases |rows|
  {
    if |rows| == 0 then []
    else (if rows[0].tableName != "" then [rows[0].tableName] else []) + ListTableNames(rows[1..])
  }

  /** Exactly the truthy names are listed ... */
  lemma {:induction false} ListTableNamesMembers(rows: seq<InfoSchemaTable>, name: string)
    ensures name in ListTableNames(rows) <==> name != "" && exists k :: 0 <= k < |rows| && rows[k].tableName == name
    decreases |rows|
  {
    if |rows| > 0 {
      ListTableNamesMembers(rows[1..], name);
      if exists k :: 0 <= k < |rows| && rows[k].tableName == name {
        var k :| 0 <= k < |rows| && rows[k].tableName == name;
        if k > 0 {
          assert rows[1..][k - 1] == rows[k];
        }
      }
      if exists k :: 0 <= k < |rows[1..]| && rows[1..][k].tableName == name {
        var k :| 0 <= k < |rows[1..]| && rows[1..][k].tableName == name;
        assert rows[k + 1] == rows[1..][k];
      }
    }
  }

  /** ... and in row order. */
  lemma {:induction false} ListTableNamesAppend(a: seq<InfoSchemaTable>, b: seq<InfoSchemaTable>)
    ensures ListTableNames(a + b) == ListTableNames(a) + ListTableNames(b)
    decreases |a|
  {
    if |a| == 0 {
      assert a + b == b;
    } else {
      assert (a + b)[0] == a[0] && (a + b)[1..] == a[1..] + b;
      ListTableNamesAppend(a[1..], b);
    }
  }

  /** No name of `list` equals `name` ignoring case. */
  predicate NoneMatches(list: seq<string>, name: string) {
    forall j :: 0 <= j < |list| ==> !SameIgnoringCase(list[j], name)
  }

  /** The validation of a live table the schema does not know. */
  function TableNotInCode(collection: string): Validation {
    Validation(TableKind, collection, NotInCode, None)
  }

  /** `createCheckForTableInCode(dict)(collection)`. */
  function CheckForTableInCode(dict: SchemaStrict, collection: string): Container {
    if !InLowerCased(Keys(dict), collection) then Container(Some(TableNotInCode(collection)), collection)
    else Container(None, collection)
  }

  /**
   * The container is named by the live name; it holds `not in code` exactly
   * when no schema table has that name ignoring case.
   */
  lemma CheckForTableInCodeSpec(dict: SchemaStrict, collection: string)
    ensures var r := CheckForTableInCode(dict, collection);
      && r.name == collection
      && (r.error.Some? <==> NoneMatches(Keys(dict), collection))
      && (r.error.Some? ==> r.error.value == TableNotInCode(collection))
      && (r.error.None? <==> FindCaseInsensitiveObject(dict, collection).Some?)
  {
    InLowerCasedSpec(Keys(dict), collection);
    FindCaseInsensitiveObjectSpec(dict, collection);
    if exists i :: 0 <= i < |Keys(dict)| && SameIgnoringCase(Keys(dict)[i], collection) {
      var i :| 0 <= i < |Keys(dict)| && SameIgnoringCase(Keys(dict)[i], collection);
      assert dict[i].0 == Keys(dict)[i];
    }
    if exists i :: 0 <= i < |dict| && SameIgnoringCase(dict[i].0, collection) {
      var i :| 0 <= i < |dict| && SameIgnoringCase(dict[i].0, collection);
      assert Keys(dict)[i] == dict[i].0;
    }
  }

  /** `fetchTablesAndCheckIfInCode`: one container per live name, in order. */
  function FetchTablesAndCheckIfInCode(rows: seq<InfoSchemaTable>, schema: SchemaStrict): (r: seq<Container>)
    ensures var names := ListTableNames(rows);
      |r| == |names| && forall k :: 0 <= k < |names| ==> r[k] == CheckForTableInCode(schema, names[k])
  {
    var names := ListTableNames(rows);
    seq(|names|, k requires 0 <= k < |names| => CheckForTableInCode(schema, names[k]))
  }

  // ---------------------------------------------------------------- reducers

  /** `xs.reduce((state, x) => state.concat(step(x)), state)`. */
  function Reduce<X>(step: X -> seq<Validation>, state: seq<Validation>, xs: seq<X>): seq<Validation>
    decreases |xs|
  {
    if |xs| == 0 then state else Reduce(step, state + step(xs[0]), xs[1..])
  }

  /** The pieces of the steps, in order. */
  function Pieces<X>(step: X -> seq<Validation>, xs: seq<X>): seq<Validation>
    decreases |xs|
  {
    if |xs| == 0 then [] else step(xs[0]) + Pieces(step, xs[1..])
  }

  lemma {:induction false} ReducePieces<X>(step: X -> seq<Validation>, state: seq<Validation>, xs: seq<X>)
    ensures Reduce(step, state, xs) == state + Pieces(step, xs)
    decreases |xs|
  {
    if |xs| > 0 {
      ReducePieces(step, state + step(xs[0]), xs[1..]);
    } else {
      assert state + [] == state;
    }
  }

  lemma {:induction false} PiecesAppend<X>(step: X -> seq<Validation>, a: seq<X>, b: seq<X>)
    ensures Pieces(step, a + b) == Pieces(step, a) + Pieces(step, b)
    decreases |a|
  {
    if |a| == 0 {
      assert a + b == b;
    } else {
      assert (a + b)[0] == a[0] && (a + b)[1..] == a[1..] + b;
      PiecesAppend(step, a[1..], b);
    }
  }

  lemma {:induction false} PiecesMembers<X>(step: X -> seq<Validation>, xs: seq<X>, v: Validation)
    ensures v in Pieces(step, xs) <==> exists k :: 0 <= k < |xs| && v in step(xs[k])
    decreases |xs|
  {
    if |xs| > 0 {
      PiecesMembers(step, xs[1..], v);
      if exists k :: 0 <= k < |xs| && v in step(xs[k]) {
        var k :| 0 <= k < |xs| && v in step(xs[k]);
        if k > 0 {
          assert xs[1..][k - 1] == xs[k];
        }
      }
      if exists k :: 0 <= k < |xs[1..]| && v in step(xs[1..][k]) {
        var k :| 0 <= k < |xs[1..]| && v in step(xs[1..][k]);
        assert xs[k + 1] == xs[1..][k];
      }
    }
  }

  // ---------------------------------------------------------------- tables missing from the database

  function TableNotInDb(name: string): Validation {
    Validation(TableKind, name, NotInDb, None)
  }

  /** The step of `checkForTableInDb` for one schema table. */
  function TableInDbStep(dbTables: seq<string>): ((string, TableStrict)) -> seq<Validation> {
    (e: (string, TableStrict)) => if !InLowerCased(dbTables, e.0) then [TableNotInDb(e.0)] else []
  }

  /** `checkForTableInDb(dict, dbTables)`. */
  function CheckForTableInDb(dict: SchemaStrict, dbTables: seq<string>): seq<Validation> {
    Reduce(TableInDbStep(dbTables), [], dict)
  }

  /**
   * One `not in db` per schema table that no live name matches ignoring
   * case, and nothing else; the order is the schema's (see the append lemma).
   */
  lemma CheckForTableInDbSpec(dict: SchemaStrict, dbTables: seq<string>, v: Validation)
    ensures v in CheckForTableInDb(dict, dbTables) <==>
      exists i :: 0 <= i < |dict| && v == TableNotInDb(dict[i].0) && NoneMatches(dbTables, dict[i].0)
  {
    var step := TableInDbStep(dbTables);
    ReducePieces(step, [], dict);
    assert [] + Pieces(step, dict) == Pieces(step, dict);
    PiecesMembers(step, dict, v);
    forall i | 0 <= i < |dict|
      ensures v in step(dict[i]) <==> v == TableNotInDb(dict[i].0) && NoneMatches(dbTables, dict[i].0)
    {
      InLowerCasedSpec(dbTables, dict[i].0);
    }
  }

  lemma CheckForTableInDbAppend(a: SchemaStrict, b: SchemaStrict, dbTables: seq<string>)
    ensures CheckForTableInDb(a + b, dbTables) == CheckForTableInDb(a, dbTables) + CheckForTableInDb(b, dbTables)
  {
    var step := TableInDbStep(dbTables);
    ReducePieces(step, [], a + b);
    ReducePieces(step, [], a);
    ReducePieces(step, [], b);
    PiecesAppend(step, a, b);
  }

  // ---------------------------------------------------------------- columns missing from the database

  function ColumnNotInDb(table: string, column: string): Validation {
    Validation(ColumnKind, CreateColumnName(table, column), NotInDb, None)
  }

  /** `createColumnsInDbTableReducer(lcCols, sName)`. */
  function ColumnInDbStep(dbColumns: seq<string>, sName: string): ((string, StructProp)) -> seq<Validation> {
    (e: (string, StructProp)) =>
      if !InLowerCased(dbColumns, CreateColumnName(sName, e.0)) then [ColumnNotInDb(sName, e.0)] else []
  }

  /** `createColumnsInDbReducer(dbColumns)`: the table's columns folded into the running state. */
  function ColumnsInDbStep(dbColumns: seq<string>, state: seq<Validation>, table: (string, TableStrict)): seq<Validation> {
    Reduce(ColumnInDbStep(dbColumns, table.0), state, table.1.struct)
  }

  function ColumnsInDb(dbColumns: seq<string>, state: seq<Validation>, tables: SchemaStrict): seq<Validation>
    decreases |tables|
  {
    if |tables| == 0 then state else ColumnsInDb(dbColumns, ColumnsInDbStep(dbColumns, state, tables[0]), tables[1..])
  }

  /** `checkForColumnInDb(dict, dbColumns)`. */
  function CheckForColumnInDb(dict: SchemaStrict, dbColumns: seq<string>): seq<Validation> {
    ColumnsInDb(dbColumns, [], dict)
  }

  /** Every column of one table that is missing. */
  function TablePieces(dbColumns: seq<string>): ((string, TableStrict)) -> seq<Validation> {
    (e: (string, TableStrict)) => Pieces(ColumnInDbStep(dbColumns, e.0), e.1.struct)
  }

  lemma {:induction false} ColumnsInDbPieces(dbColumns: seq<string>, state: seq<Validation>, tables: SchemaStrict)
    ensures ColumnsInDb(dbColumns, state, tables) == state + Pieces(TablePieces(dbColumns), tables)
    decreases |tables|
  {
    if |tables| > 0 {
      var t := tables[0];
      ReducePieces(ColumnInDbStep(dbColumns, t.0), state, t.1.struct);
      assert TablePieces(dbColumns)(t) == Pieces(ColumnInDbStep(dbColumns, t.0), t.1.struct);
      ColumnsInDbPieces(dbColumns, ColumnsInDbStep(dbColumns, state, t), tables[1..]);
    } else {
      assert state + [] == state;
    }
  }

  /** The columns of table `i` that no live `table.column` matches ignoring case. */
  predicate ColumnMissing(dict: SchemaStrict, dbColumns: seq<string>, i: int, c: int)
    requires 0 <= i < |dict|
  {
    && 0 <= c < |dict[i].1.struct|
    && forall j :: 0 <= j < |dbColumns| ==> !SameIgnoringCase(dbColumns[j], CreateColumnName(dict[i].0, dict[i].1.struct[c].0))
  }

  /** `v` is the `not in db` of column `c` of table `i`, which is missing. */
  predicate ColumnMissingFrom(dict: SchemaStrict, dbColumns: seq<string>, v: Validation, i: int, c: int) {
    && 0 <= i < |dict|
    && ColumnMissing(dict, dbColumns, i, c)
    && v == ColumnNotInDb(dict[i].0, dict[i].1.struct[c].0)
  }

  /**
   * One `not in db` named `table.column` per schema column that no live
   * column name matches ignoring case, and nothing else.
   */
  lemma CheckForColumnInDbSpec(dict: SchemaStrict, dbColumns: seq<string>, v: Validation)
    ensures v in CheckForColumnInDb(dict, dbColumns) <==>
      exists i, c :: ColumnMissingFrom(dict, dbColumns, v, i, c)
  {
    var f := TablePieces(dbColumns);
    ColumnsInDbPieces(dbColumns, [], dict);
    assert [] + Pieces(f, dict) == Pieces(f, dict);
    PiecesMembers(f, dict, v);
    forall i | 0 <= i < |dict|
      ensures v in f(dict[i]) <==> exists c :: ColumnMissing(dict, dbColumns, i, c) && v == ColumnNotInDb(dict[i].0, dict[i].1.struct[c].0)
    {
      var step := ColumnInDbStep(dbColumns, dict[i].0);
      var cols := dict[i].1.struct;
      PiecesMembers(step, cols, v);
      forall c | 0 <= c < |cols|
        ensures v in step(cols[c]) <==> ColumnMissing(dict, dbColumns, i, c) && v == ColumnNotInDb(dict[i].0, cols[c].0)
      {
        InLowerCasedSpec(dbColumns, CreateColumnName(dict[i].0, cols[c].0));
      }
    }
    if v in CheckForColumnInDb(dict, dbColumns) {
      var i :| 0 <= i < |dict| && v in f(dict[i]);
      var c :| ColumnMissing(dict, dbColumns, i, c) && v == ColumnNotInDb(dict[i].0, dict[i].1.struct[c].0);
      assert ColumnMissingFrom(dict, dbColumns, v, i, c);
    }
    if exists i, c :: ColumnMissingFrom(dict, dbColumns, v, i, c) {
      var i, c :| ColumnMissingFrom(dict, dbColumns, v, i, c);
      assert v in f(dict[i]);
    }
  }

  // ---------------------------------------------------------------- flattening containers

  /** One step of `flattenSchemaValidationContainers`: a truthy error is pushed, the name always. */
  function FlattenStep(acc: Collection, svc: Container): Collection {
    Collection(acc.errors + (if svc.error.Some? then [svc.error.value] else []), acc.names + [svc.name])
  }

  function FlattenFold(acc: Collection, arr: seq<Container>): Collection
    decreases |arr|
  {
    if |arr| == 0 then acc else FlattenFold(FlattenStep(acc, arr[0]), arr[1..])
  }

  /** `flattenSchemaValidationContainers(arr)`. */
  function FlattenSchemaValidationContainers(arr: seq<Container>): Collection {
    FlattenFold(Collection([], []), arr)
  }

  /** The errors that are set, in order. */
  function ErrorsOf(arr: seq<Container>): (r: seq<Validation>)
    ensures |r| <= |arr|
    decreases |arr|
  {
    if |arr| == 0 then [] else (if arr[0].error.Some? then [arr[0].error.value] else []) + ErrorsOf(arr[1..])
  }

  /** Every name, in order. */
  function NamesOf(arr: seq<Container>): (r: seq<string>)
    ensures |r| == |arr|
    decreases |arr|
  {
    if |arr| == 0 then [] else [arr[0].name] + NamesOf(arr[1..])
  }

  lemma {:induction false} NamesOfIndex(arr: seq<Container>)
    ensures forall k :: 0 <= k < |arr| ==> NamesOf(arr)[k] == arr[k].name
    decreases |arr|
  {
    if |arr| > 0 {
      NamesOfIndex(arr[1..]);
      assert forall k :: 0 < k < |arr| ==> NamesOf(arr)[k] == NamesOf(arr[1..])[k - 1];
    }
  }

  lemma {:induction false} FlattenFoldErrors(acc: Collection, arr: seq<Container>)
    ensures FlattenFold(acc, arr).errors == acc.errors + ErrorsOf(arr)
    decreases |arr|
  {
    if |arr| == 0 {
      assert acc.errors + [] == acc.errors;
    } else {
      var head := if arr[0].error.Some? then [arr[0].error.value] else [];
      var next := FlattenStep(acc, arr[0]);
      FlattenFoldErrors(next, arr[1..]);
      assert ErrorsOf(arr) == head + ErrorsOf(arr[1..]);
      assert acc.errors + head + ErrorsOf(arr[1..]) == acc.errors + ErrorsOf(arr);
    }
  }

  lemma {:induction false} FlattenFoldNames(acc: Collection, arr: seq<Container>)
    ensures FlattenFold(acc, arr).names == acc.names + NamesOf(arr)
    decreases |arr|
  {
    if |arr| == 0 {
      assert acc.names + [] == acc.names;
    } else {
      var next := FlattenStep(acc, arr[0]);
      FlattenFoldNames(next, arr[1..]);
      assert acc.names + [arr[0].name] + NamesOf(arr[1..]) == acc.names + NamesOf(arr);
    }
  }

  lemma {:induction false} ErrorsOfMembers(arr: seq<Container>, v: Validation)
    ensures v in ErrorsOf(arr) <==> exists k :: 0 <= k < |arr| && arr[k].error == Some(v)
    decreases |arr|
  {
    if |arr| > 0 {
      ErrorsOfMembers(arr[1..], v);
      if exists k :: 0 <= k < |arr| && arr[k].error == Some(v) {
        var k :| 0 <= k < |arr| && arr[k].error == Some(v);
        if k > 0 {
          assert arr[1..][k - 1] == arr[k];
        }
      }
      if exists k :: 0 <= k < |arr[1..]| && arr[1..][k].error == Some(v) {
        var k :| 0 <= k < |arr[1..]| && arr[1..][k].error == Some(v);
        assert arr[k + 1] == arr[1..][k];
      }
    }
  }

  lemma {:induction false} ErrorsOfAppend(a: seq<Container>, b: seq<Container>)
    ensures ErrorsOf(a + b) == ErrorsOf(a) + ErrorsOf(b)
    decreases |a|
  {
    if |a| == 0 {
      assert a + b == b;
    } else {
      assert (a + b)[0] == a[0] && (a + b)[1..] == a[1..] + b;
      ErrorsOfAppend(a[1..], b);
      var head := if a[0].error.Some? then [a[0].error.value] else [];
      assert ErrorsOf(a + b) == head + ErrorsOf(a[1..] + b);
      assert ErrorsOf(a) == head + ErrorsOf(a[1..]);
    }
  }

  /** Every name in order; exactly the set errors, in order; nothing for no containers. */
  lemma FlattenSpec(arr: seq<Container>, v: Validation)
    ensures var r := FlattenSchemaValidationContainers(arr);
      && r.names == NamesOf(arr)
      && r.errors == ErrorsOf(arr)
      && (v in r.errors <==> exists k :: 0 <= k < |arr| && arr[k].error == Some(v))
      && (arr == [] ==> r == Collection([], []))
  {
    FlattenFoldErrors(Collection([], []), arr);
    FlattenFoldNames(Collection([], []), arr);
    ErrorsOfMembers(arr, v);
  }

  // ---------------------------------------------------------------- live columns

  /**
   * `findColumnInSchema(schema, table, column)`: the prop of the first
   * column matching ignoring case in the first table matching ignoring case;
   * `false` (None) when either is missing.
   */
  function FindColumnInSchema(schema: SchemaStrict, table: string, column: string): Option<StructProp> {
    match FindCaseInsensitiveObject(schema, table)
    case None => None
    case Some(t) => FindCaseInsensitiveObject(t.struct, column)
  }

  lemma FindColumnInSchemaSpec(schema: SchemaStrict, table: string, column: string)
    ensures var r := FindColumnInSchema(schema, table, column);
      && ((forall i :: 0 <= i < |schema| ==> !SameIgnoringCase(schema[i].0, table)) ==> r.None?)
      && forall i, c ::
        && 0 <= i < |schema| && SameIgnoringCase(schema[i].0, table)
        && (forall j :: 0 <= j < i ==> !SameIgnoringCase(schema[j].0, table))
        && 0 <= c < |schema[i].1.struct| && SameIgnoringCase(schema[i].1.struct[c].0, column)
        && (forall j :: 0 <= j < c ==> !SameIgnoringCase(schema[i].1.struct[j].0, column))
        ==> r == Some(schema[i].1.struct[c].1)
  {
    FindCaseInsensitiveObjectSpec(schema, table);
    forall i | 0 <= i < |schema| && SameIgnoringCase(schema[i].0, table)
      && (forall j :: 0 <= j < i ==> !SameIgnoringCase(schema[j].0, table))
      ensures FindCaseInsensitiveObject(schema, table) == Some(schema[i].1)
    {
    }
    forall i | 0 <= i < |schema|
      ensures FindCaseInsensitiveObject(schema, table) == Some(schema[i].1) ==>
        FindColumnInSchema(schema, table, column) == FindCaseInsensitiveObject(schema[i].1.struct, column)
    {
    }
    forall i | 0 <= i < |schema|
    {
      FindCaseInsensitiveObjectSpec(schema[i].1.struct, column);
    }
  }

  /** A live column the schema does not know. */
  function ColumnNotInCode(col: InfoSchemaColumn): Validation {
    Validation(ColumnKind, CreateColumnName(col.tableName, col.columnName), NotInCode, None)
  }

  /** `createInfoSchemaToValidationContainer(schema)(col)`. */
  function InfoSchemaToValidationContainer(schema: SchemaStrict, col: InfoSchemaColumn): Container {
    match FindColumnInSchema(schema, col.tableName, col.columnName)
    case Some(p) => TypeCheckColumn(p, col)
    case None => Container(Some(ColumnNotInCode(col)), CreateColumnName(col.tableName, col.columnName))
  }

  /**
   * The container is always named `table.column`; an unknown column is
   * `not in code`, a known one carries the result of the type check.
   */
  lemma InfoSchemaToValidationContainerSpec(schema: SchemaStrict, col: InfoSchemaColumn)
    ensures var r := InfoSchemaToValidationContainer(schema, col);
      var found := FindColumnInSchema(schema, col.tableName, col.columnName);
      && r.name == CreateColumnName(col.tableName, col.columnName)
      && (found.None? ==> r.error == Some(ColumnNotInCode(col)))
      && (found.Some? ==> r == TypeCheckColumn(found.value, col))
  {
    match FindColumnInSchema(schema, col.tableName, col.columnName)
    case None =>
    case Some(p) => TypeCheckColumnSpec(p, col);
  }

  /** The live columns whose table the schema knows ignoring case, in order (`filterByTable`). */
  function KnownTableColumns(rows: seq<InfoSchemaColumn>, schema: SchemaStrict): (r: seq<InfoSchemaColumn>)
    ensures |r| <= |rows|
    ensures forall k :: 0 <= k < |r| ==> FindCaseInsensitiveObject(schema, r[k].tableName).Some?
    decreases |rows|
  {
    if |rows| == 0 then []
    else
      (if FindCaseInsensitiveObject(schema, rows[0].tableName).Some? then [rows[0]] else [])
        + KnownTableColumns(rows[1..], schema)
  }

  lemma {:induction false} KnownTableColumnsMembers(rows: seq<InfoSchemaColumn>, schema: SchemaStrict, col: InfoSchemaColumn)
    ensures col in KnownTableColumns(rows, schema) <==>
      col in rows && FindCaseInsensitiveObject(schema, col.tableName).Some?
    decreases |rows|
  {
    if |rows| > 0 {
      KnownTableColumnsMembers(rows[1..], schema, col);
      assert rows == [rows[0]] + rows[1..];
    }
  }

  /** `fetchColumnsAndCheckIfInCode`: one container per kept live column, in order. */
  function FetchColumnsAndCheckIfInCode(rows: seq<InfoSchemaColumn>, schema: SchemaStrict): (r: seq<Container>)
    ensures var kept := KnownTableColumns(rows, schema);
      |r| == |kept| && forall k :: 0 <= k < |kept| ==> r[k] == InfoSchemaToValidationContainer(schema, kept[k])
  {
    var kept := KnownTableColumns(rows, schema);
    seq(|kept|, k requires 0 <= k < |kept| => InfoSchemaToValidationContainer(schema, kept[k]))
  }

  // ---------------------------------------------------------------- the two validations

  /** `validateTables(query, schema)`: the live-table errors, then the schema tables not in the database. */
  function ValidateTables(rows: seq<InfoSchemaTable>, schema: SchemaStrict): Collection {
    var svc := FlattenSchemaValidationContainers(FetchTablesAndCheckIfInCode(rows, schema));
    Collection(svc.errors + CheckForTableInDb(schema, svc.names), svc.names)
  }

  /**
   * The names are the truthy live names; an error is either a live name
   * unknown to the schema or a schema table with no live name, both ignoring
   * case.
   */
  lemma ValidateTablesSpec(rows: seq<InfoSchemaTable>, schema: SchemaStrict, v: Validation)
    ensures var r := ValidateTables(rows, schema);
      var names := ListTableNames(rows);
      && r.names == names
      && (v in r.errors <==>
          || (exists k :: 0 <= k < |names| && v == TableNotInCode(names[k]) && NoneMatches(Keys(schema), names[k]))
          || (exists i :: 0 <= i < |schema| && v == TableNotInDb(schema[i].0) && NoneMatches(names, schema[i].0)))
  {
    var names := ListTableNames(rows);
    var arr := FetchTablesAndCheckIfInCode(rows, schema);
    FlattenSpec(arr, v);
    NamesOfIndex(arr);
    assert NamesOf(arr) == names;
    CheckForTableInDbSpec(schema, names, v);
    forall k | 0 <= k < |names|
      ensures arr[k].error == Some(v) <==> v == TableNotInCode(names[k]) && NoneMatches(Keys(schema), names[k])
    {
      CheckForTableInCodeSpec(schema, names[k]);
    }
  }

  /** `validateColumns(query, schema, svc)`: columns not in the database, then live-column errors, then `svc`'s. */
  function ValidateColumns(rows: seq<InfoSchemaColumn>, schema: SchemaStrict, svc: Collection): seq<Validation> {
    var inner := FlattenSchemaValidationContainers(FetchColumnsAndCheckIfInCode(rows, schema));
    CheckForColumnInDb(schema, inner.names) + inner.errors + svc.errors
  }

  /** The `table.column` names of the kept live columns. */
  function LiveColumnNames(rows: seq<InfoSchemaColumn>, schema: SchemaStrict): (r: seq<string>)
    ensures var kept := KnownTableColumns(rows, schema);
      |r| == |kept| && forall k :: 0 <= k < |kept| ==> r[k] == CreateColumnName(kept[k].tableName, kept[k].columnName)
  {
    var kept := KnownTableColumns(rows, schema);
    seq(|kept|, k requires 0 <= k < |kept| => CreateColumnName(kept[k].tableName, kept[k].columnName))
  }

  /**
   * The result is in three parts: the schema columns that no kept live
   * `table.column` matches ignoring case, the errors of the kept live
   * columns in order, and the table errors it was given, unchanged.
   */
  lemma ValidateColumnsSpec(rows: seq<InfoSchemaColumn>, schema: SchemaStrict, svc: Collection, v: Validation)
    ensures var names := LiveColumnNames(rows, schema);
      var live := FetchColumnsAndCheckIfInCode(rows, schema);
      var missing := CheckForColumnInDb(schema, names);
      && ValidateColumns(rows, schema, svc) == missing + ErrorsOf(live) + svc.errors
      && (v in missing <==> exists i, c :: ColumnMissingFrom(schema, names, v, i, c))
      && (v in ErrorsOf(live) <==> exists k :: 0 <= k < |live| && live[k].error == Some(v))
  {
    var live := FetchColumnsAndCheckIfInCode(rows, schema);
    var kept := KnownTableColumns(rows, schema);
    FlattenSpec(live, v);
    forall k | 0 <= k < |live|
      ensures live[k].name == CreateColumnName(kept[k].tableName, kept[k].columnName)
    {
      InfoSchemaToValidationContainerSpec(schema, kept[k]);
    }
    NamesOfIndex(live);
    assert NamesOf(live) == LiveColumnNames(rows, schema);
    CheckForColumnInDbSpec(schema, LiveColumnNames(rows, schema), v);
  }
}
