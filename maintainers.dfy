/**
 * maintainers.ts: validating a database against a strict schema and
 * planning the fixes.  A fix is the text of the statement it would run; the
 * running of the fixes (`validateAndFixDatabase`) is not modelled.  An
 * exception thrown while the fixes are planned is an `Err`.
 */
module Maintainers {
  import opened Wrappers
  import opened Js
  import opened Util
  import opened Schema
  import opened Sql
  import opened CheckersTypes
  import opened CheckerFunctions
  import opened FixerColumns
  import opened Dependencies

  // ---------------------------------------------------------------- errors thrown while planning

  /**
   * `orderDependencies` throws; `createTableFromStruct` throws on a composite
   * key mismatch; a mapper dereferences the lookup of a table it does not
   * find, or of an undefined column when the name has no `.`.
   */
  datatype FixError = DependencyError(dep: DepError) | CompositeError(message: string) | LookupError(name: string)

  /** `xs.map(f)` where `f` may throw: the first exception, in order, ends the map. */
  function MapFixes<X>(f: X -> Result<string, FixError>, xs: seq<X>): Result<seq<string>, FixError>
    decreases |xs|
  {
    if |xs| == 0 then Ok([])
    else
      match f(xs[0])
      case Err(e) => Err(e)
      case Ok(s) =>
        match MapFixes(f, xs[1..])
        case Err(e) => Err(e)
        case Ok(rest) => Ok([s] + rest)
  }

  lemma {:induction false} MapFixesSpec<X>(f: X -> Result<string, FixError>, xs: seq<X>)
    ensures var r := MapFixes(f, xs);
      && (r.Ok? <==> forall k :: 0 <= k < |xs| ==> f(xs[k]).Ok?)
      && (r.Ok? ==> |r.value| == |xs| && forall k :: 0 <= k < |xs| ==> f(xs[k]) == Ok(r.value[k]))
      && (r.Err? ==> exists k :: 0 <= k < |xs| && f(xs[k]) == Err(r.error) && forall j :: 0 <= j < k ==> f(xs[j]).Ok?)
    decreases |xs|
  {
    if |xs| > 0 {
      MapFixesSpec(f, xs[1..]);
      var r := MapFixes(f, xs);
      var t := MapFixes(f, xs[1..]);
      if f(xs[0]).Ok? {
        if t.Err? {
          var k :| 0 <= k < |xs[1..]| && f(xs[1..][k]) == Err(t.error) && forall j :: 0 <= j < k ==> f(xs[1..][j]).Ok?;
          assert f(xs[k + 1]) == Err(r.error);
          forall j | 0 <= j < k + 1 ensures f(xs[j]).Ok? {
            if j > 0 {
              assert xs[j] == xs[1..][j - 1];
            }
          }
        } else {
          forall k | 0 < k < |xs| ensures f(xs[k]) == Ok(r.value[k]) {
            assert xs[k] == xs[1..][k - 1];
          }
        }
      }
      if forall k :: 0 <= k < |xs| ==> f(xs[k]).Ok? {
        forall k | 0 <= k < |xs[1..]| ensures f(xs[1..][k]).Ok? {
          assert xs[1..][k] == xs[k + 1];
        }
      }
    }
  }

  // ---------------------------------------------------------------- validateDatabase

  /**
   * `filterSchemaByTableValidations(schema, svc)` AS WRITTEN: it keeps the
   * tables whose lower-cased name is NOT among the live names.
   */
  function FilterSchemaByTableValidationsAsWritten(schema: SchemaStrict, svc: Collection): SchemaStrict {
    Filter((e: (string, TableStrict)) => ToLower(e.0) !in svc.names, schema)
  }

  /** The same filter keeping the tables confirmed present, those whose lower-cased name is live. */
  function FilterSchemaByTableValidations(schema: SchemaStrict, svc: Collection): SchemaStrict {
    Filter((e: (string, TableStrict)) => ToLower(e.0) in svc.names, schema)
  }

  /** As written, a table stays exactly when the database does not have it. */
  lemma FilterAsWrittenSpec(schema: SchemaStrict, svc: Collection, e: (string, TableStrict))
    ensures e in FilterSchemaByTableValidationsAsWritten(schema, svc) <==> e in schema && ToLower(e.0) !in svc.names
  {
    FilterMembers((e: (string, TableStrict)) => ToLower(e.0) !in svc.names, schema, e);
  }

  /** Corrected, a table stays exactly when the database has it; the order is the schema's. */
  lemma FilterSchemaSpec(schema: SchemaStrict, svc: Collection, e: (string, TableStrict))
    ensures e in FilterSchemaByTableValidations(schema, svc) <==> e in schema && ToLower(e.0) in svc.names
  {
    FilterMembers((e: (string, TableStrict)) => ToLower(e.0) in svc.names, schema, e);
  }

  /** `validateDatabase(query, schema)` AS WRITTEN, on the live table rows and column rows. */
  function ValidateDatabaseAsWritten(tables: seq<InfoSchemaTable>, columns: seq<InfoSchemaColumn>, schema: SchemaStrict): seq<Validation> {
    var svc := ValidateTables(tables, schema);
    ValidateColumns(columns, FilterSchemaByTableValidationsAsWritten(schema, svc), svc)
  }

  /** `validateDatabase` with the corrected filter: only tables present in the database have their columns checked. */
  function ValidateDatabase(tables: seq<InfoSchemaTable>, columns: seq<InfoSchemaColumn>, schema: SchemaStrict): seq<Validation> {
    var svc := ValidateTables(tables, schema);
    ValidateColumns(columns, FilterSchemaByTableValidations(schema, svc), svc)
  }

  /** A live column's error is a column `not in code` or a type difference, never a column missing from the database. */
  lemma LiveErrorKinds(schema: SchemaStrict, col: InfoSchemaColumn)
    ensures var r := InfoSchemaToValidationContainer(schema, col);
      r.error.Some? ==> r.error.value.kind == TypeKind || r.error.value == ColumnNotInCode(col)
  {
  }

  /** The live column errors never include a column missing from the database. */
  lemma {:induction false} LiveErrorsNotMissing(schema: SchemaStrict, rows: seq<InfoSchemaColumn>, v: Validation)
    requires v.kind == ColumnKind && v.reason == NotInDb
    ensures v !in ErrorsOf(FetchColumnsAndCheckIfInCode(rows, schema))
  {
    var live := FetchColumnsAndCheckIfInCode(rows, schema);
    var kept := KnownTableColumns(rows, schema);
    ErrorsOfMembers(live, v);
    forall k | 0 <= k < |live|
      ensures live[k].error != Some(v)
    {
      LiveErrorKinds(schema, kept[k]);
    }
  }

  /**
   * Corrected, the only missing-column reports are the columns of tables the
   * database has (the filter) that no kept live `table.column` matches.
   */
  lemma ValidateDatabaseColumnsSpec(tables: seq<InfoSchemaTable>, columns: seq<InfoSchemaColumn>, schema: SchemaStrict, v: Validation)
    requires v.kind == ColumnKind && v.reason == NotInDb
    ensures var present := FilterSchemaByTableValidations(schema, ValidateTables(tables, schema));
      v in ValidateDatabase(tables, columns, schema) <==>
        exists i, c :: ColumnMissingFrom(present, LiveColumnNames(columns, present), v, i, c)
  {
    var svc := ValidateTables(tables, schema);
    var present := FilterSchemaByTableValidations(schema, svc);
    ValidateColumnsSpec(columns, present, svc, v);
    LiveErrorsNotMissing(present, columns, v);
    ValidateTablesSpec(tables, schema, v);
  }

  const Orders := "orders"
  const OrdersId := "id"

  /** A schema with one table `orders` of one column `id`. */
  const OrdersSchema: SchemaStrict := [(Orders, TableStrict([(OrdersId, PropOfType(Int32))], None, None, None))]

  /** With no live tables: the table is missing, and so is its column. */
  lemma OrdersChecks()
    ensures ValidateTables([], OrdersSchema) == Collection([TableNotInDb(Orders)], [])
    ensures CheckForColumnInDb(OrdersSchema, []) == [ColumnNotInDb(Orders, OrdersId)]
    ensures CheckForColumnInDb([], []) == []
  {
    var e := OrdersSchema[0];
    assert !InLowerCased([], Orders);
    assert TableInDbStep([])(e) == [TableNotInDb(Orders)];
    var step := TableInDbStep([]);
    var first: seq<Validation> := [];
    assert first + step(e) == [TableNotInDb(Orders)];
    assert OrdersSchema[1..] == [];
    assert CheckForTableInDb(OrdersSchema, []) == Reduce(step, first + step(e), OrdersSchema[1..]);
    assert FlattenSchemaValidationContainers([]) == Collection([], []);
    assert ValidateTables([], OrdersSchema).names == [];
    var col := e.1.struct[0];
    assert !InLowerCased([], CreateColumnName(Orders, col.0));
    var cstep := ColumnInDbStep([], Orders);
    assert first + cstep(col) == [ColumnNotInDb(Orders, OrdersId)];
    assert e.1.struct[1..] == [];
    assert Reduce(cstep, [], e.1.struct) == Reduce(cstep, first + cstep(col), e.1.struct[1..]);
    assert ColumnsInDbStep([], [], e) == [ColumnNotInDb(Orders, OrdersId)];
    assert CheckForColumnInDb(OrdersSchema, []) == ColumnsInDb([], ColumnsInDbStep([], [], e), OrdersSchema[1..]);
  }

  /** No live column: nothing is live and no check of a live column reports. */
  lemma NoLiveColumns(schema: SchemaStrict)
    ensures FlattenSchemaValidationContainers(FetchColumnsAndCheckIfInCode([], schema)) == Collection([], [])
  {
    assert KnownTableColumns([], schema) == [];
    assert FlattenSchemaValidationContainers([]) == Collection([], []);
  }

  /** A table missing from the database: as written its column is reported missing too, before the table. */
  lemma MissingTableColumnsAsWritten()
    ensures ValidateDatabaseAsWritten([], [], OrdersSchema) == [ColumnNotInDb(Orders, OrdersId), TableNotInDb(Orders)]
  {
    OrdersChecks();
    var svc := ValidateTables([], OrdersSchema);
    var e := OrdersSchema[0];
    assert OrdersSchema[..0] == [];
    var kept := FilterSchemaByTableValidationsAsWritten(OrdersSchema, svc);
    assert kept == [e];
    NoLiveColumns(kept);
  }

  /** Corrected, only the table is reported. */
  lemma MissingTableColumnsCorrected()
    ensures ValidateDatabase([], [], OrdersSchema) == [TableNotInDb(Orders)]
  {
    OrdersChecks();
    var svc := ValidateTables([], OrdersSchema);
    assert OrdersSchema[..0] == [];
    var kept := FilterSchemaByTableValidations(OrdersSchema, svc);
    assert kept == [];
    NoLiveColumns(kept);
  }

  // ---------------------------------------------------------------- fix planning

  /** `FixControls`; an absent flag is false. */
  datatype FixControls = FixControls(additive: bool, codeToDbNotNull: bool, codeToDbNull: bool)

  /** The controls `validateAndFixDatabase` uses when given none. */
  const DefaultControls := FixControls(true, true, false)

  /** `ValidationFixContainer`: the statements to run and the validations left over. */
  datatype FixContainer = FixContainer(fixes: seq<string>, validations: seq<Validation>)

  /** `generateFixes`: the kept validations mapped to fixes, the others left over, both in order. */
  function GenerateFixes(validations: seq<Validation>, keep: Validation -> bool, fix: Validation -> Result<string, FixError>): Result<FixContainer, FixError> {
    match MapFixes(fix, Filter(keep, validations))
    case Err(e) => Err(e)
    case Ok(fixes) => Ok(FixContainer(fixes, Filter(Not(keep), validations)))
  }

  /**
   * Every validation is either turned into a fix or left over, never both:
   * the two lists split the validations; the planning fails exactly when the
   * fix of a kept validation fails.
   */
  lemma GenerateFixesSpec(validations: seq<Validation>, keep: Validation -> bool, fix: Validation -> Result<string, FixError>)
    ensures var r := GenerateFixes(validations, keep, fix);
      var kept := Filter(keep, validations);
      && (r.Ok? <==> forall k :: 0 <= k < |kept| ==> fix(kept[k]).Ok?)
      && (r.Ok? ==>
            && |r.value.fixes| == |kept|
            && (forall k :: 0 <= k < |kept| ==> fix(kept[k]) == Ok(r.value.fixes[k]))
            && r.value.validations == Filter(Not(keep), validations)
            && multiset(kept) + multiset(r.value.validations) == multiset(validations))
  {
    MapFixesSpec(fix, Filter(keep, validations));
    FilterPartition(keep, validations);
  }

  /** What is left over is exactly what the filter rejects. */
  lemma LeftOverSpec(validations: seq<Validation>, keep: Validation -> bool, v: Validation)
    ensures v in Filter(Not(keep), validations) <==> v in validations && !keep(v)
  {
    FilterMembers(Not(keep), validations, v);
  }

  // ---- the mappers

  /** `const [table, column] = name.split('.')`: `column` is undefined (None) without a `.`. */
  function SplitName(name: string): (string, Option<string>) {
    var parts := Split(name, '.');
    (parts[0], if |parts| > 1 then Some(parts[1]) else None)
  }

  lemma SplitNameOfColumnName(table: string, column: string)
    requires '.' !in table && '.' !in column
    ensures SplitName(CreateColumnName(table, column)) == (table, Some(column))
  {
    CreateColumnNameSplit(table, column);
  }

  /**
   * The lookups of both mappers: the table, then the column, ignoring case.
   * A missing table or an undefined column throws; a missing column gives
   * `false` (None).
   */
  function LookupColumn(schema: SchemaStrict, name: string): Result<(string, string, Option<StructProp>), FixError> {
    var (table, column) := SplitName(name);
    match FindCaseInsensitiveObject(schema, table)
    case None => Err(LookupError(name))
    case Some(t) =>
      if column.None? then Err(LookupError(name))
      else Ok((table, column.value, FindCaseInsensitiveObject(t.struct, column.value)))
  }

  /** `nullFixMapper(query, schema)(sv)`: with no prop, `hasConstraint` is false and DROP NOT NULL is chosen. */
  function NullFix(schema: SchemaStrict, sv: Validation): Result<string, FixError> {
    match LookupColumn(schema, sv.name)
    case Err(e) => Err(e)
    case Ok((table, column, p)) => Ok(if p.Some? then SetColumnNullConstraint(table, column, p.value) else SetNull(table, column))
  }

  /** `columnAddMapper(query, schema)(sv)`: with no prop the column text is ''. */
  function ColumnAdd(schema: SchemaStrict, sv: Validation): Result<string, FixError> {
    match LookupColumn(schema, sv.name)
    case Err(e) => Err(e)
    case Ok((table, column, p)) => Ok(if p.Some? then CreateColumn(table, column, p.value) else AddColumn(table) + " ")
  }

  /**
   * For a validation named `table.column` the schema declares (the first
   * matches ignoring case), the mappers alter that column with its own prop.
   */
  lemma MappersOfDeclaredColumn(schema: SchemaStrict, sv: Validation, i: nat, c: nat)
    requires 0 <= i < |schema| && 0 <= c < |schema[i].1.struct|
    requires var table := schema[i].0; var column := schema[i].1.struct[c].0;
      && '.' !in table && '.' !in column && sv.name == CreateColumnName(table, column)
    requires forall j :: 0 <= j < i ==> !SameIgnoringCase(schema[j].0, schema[i].0)
    requires forall j :: 0 <= j < c ==> !SameIgnoringCase(schema[i].1.struct[j].0, schema[i].1.struct[c].0)
    ensures var table := schema[i].0; var column := schema[i].1.struct[c].0; var p := schema[i].1.struct[c].1;
      && NullFix(schema, sv) == Ok(SetColumnNullConstraint(table, column, p))
      && ColumnAdd(schema, sv) == Ok(CreateColumn(table, column, p))
  {
    var table := schema[i].0;
    var column := schema[i].1.struct[c].0;
    SplitNameOfColumnName(table, column);
    FindCaseInsensitiveObjectSpec(schema, table);
    FindCaseInsensitiveObjectSpec(schema[i].1.struct, column);
  }

  /** A name without a `.`, or a table the schema lacks, makes both mappers throw. */
  lemma MappersThrow(schema: SchemaStrict, sv: Validation)
    requires '.' !in sv.name || FindCaseInsensitiveObject(schema, SplitName(sv.name).0).None?
    ensures NullFix(schema, sv).Err? && ColumnAdd(schema, sv).Err?
  {
    if '.' !in sv.name {
      assert IndexOfChar(sv.name, '.') == -1;
      assert Split(sv.name, '.') == [sv.name];
    }
  }

  // ---- the filters

  /**
   * `createNotNullFilter(fixControls)`: a null-constraint difference, in a
   * direction the controls ask for.
   */
  function NotNullFilter(controls: FixControls, sv: Validation): bool {
    if controls.codeToDbNotNull && controls.codeToDbNull then
      sv.kind == TypeKind && sv.reason == ConstraintReason
        && (sv.extra == Some(DbNullCodeNotNull) || sv.extra == Some(DbNotNullCodeNull))
    else if controls.codeToDbNotNull then
      sv.kind == TypeKind && sv.reason == ConstraintReason && sv.extra == Some(DbNotNullCodeNull)
    else if controls.codeToDbNull then
      sv.kind == TypeKind && sv.reason == ConstraintReason && sv.extra == Some(DbNullCodeNotNull)
    else false
  }

  /** The truth table: each flag admits its own direction, and nothing is admitted without one. */
  lemma NotNullFilterSpec(controls: FixControls, sv: Validation)
    ensures NotNullFilter(controls, sv) <==>
      && sv.kind == TypeKind && sv.reason == ConstraintReason
      && ((controls.codeToDbNotNull && sv.extra == Some(DbNotNullCodeNull))
          || (controls.codeToDbNull && sv.extra == Some(DbNullCodeNotNull)))
  {
  }

  /** The default controls fix only a column the database holds NOT NULL and the code does not. */
  lemma DefaultNotNullFilter(sv: Validation)
    ensures NotNullFilter(DefaultControls, sv) <==>
      sv.kind == TypeKind && sv.reason == ConstraintReason && sv.extra == Some(DbNotNullCodeNull)
  {
  }

  /** The filter of `addColumns`. */
  predicate IsColumnNotInDb(sv: Validation) {
    sv.kind == ColumnKind && sv.reason == NotInDb
  }

  /** `addNotNull`. */
  function AddNotNull(schema: SchemaStrict, validations: seq<Validation>, controls: FixControls): Result<FixContainer, FixError> {
    GenerateFixes(validations, sv => NotNullFilter(controls, sv), sv => NullFix(schema, sv))
  }

  /** `addColumns`. */
  function AddColumns(schema: SchemaStrict, validations: seq<Validation>): Result<FixContainer, FixError> {
    GenerateFixes(validations, IsColumnNotInDb, sv => ColumnAdd(schema, sv))
  }

  /** Exactly the column `not in db` validations become ADD COLUMN fixes; the rest is left over. */
  lemma AddColumnsSpec(schema: SchemaStrict, validations: seq<Validation>, v: Validation)
    ensures var r := AddColumns(schema, validations);
      var kept := Filter(IsColumnNotInDb, validations);
      && (r.Ok? ==>
            && |r.value.fixes| == |kept|
            && (forall k :: 0 <= k < |kept| ==> ColumnAdd(schema, kept[k]) == Ok(r.value.fixes[k]))
            && (v in r.value.validations <==> v in validations && !IsColumnNotInDb(v)))
      && (v in kept <==> v in validations && IsColumnNotInDb(v))
  {
    GenerateFixesSpec(validations, IsColumnNotInDb, sv => ColumnAdd(schema, sv));
    LeftOverSpec(validations, IsColumnNotInDb, v);
    FilterMembers(IsColumnNotInDb, validations, v);
  }

  /** The null fixes are the admitted validations, in order; the rest is left over. */
  lemma AddNotNullSpec(schema: SchemaStrict, validations: seq<Validation>, controls: FixControls, v: Validation)
    ensures var r := AddNotNull(schema, validations, controls);
      var keep := sv => NotNullFilter(controls, sv);
      var kept := Filter(keep, validations);
      && (r.Ok? ==>
            && |r.value.fixes| == |kept|
            && (forall k :: 0 <= k < |kept| ==> NullFix(schema, kept[k]) == Ok(r.value.fixes[k]))
            && (v in r.value.validations <==> v in validations && !NotNullFilter(controls, v)))
      && (v in kept <==> v in validations && NotNullFilter(controls, v))
  {
    var keep := sv => NotNullFilter(controls, sv);
    GenerateFixesSpec(validations, keep, sv => NullFix(schema, sv));
    LeftOverSpec(validations, keep, v);
    FilterMembers(keep, validations, v);
  }

  // ---- tables

  /** `mapValidationTableNotInDb`: the name of a table missing from the database, else ''. */
  function MapValidationTableNotInDb(sv: Validation): string {
    if sv.kind == TableKind && sv.reason == NotInDb then sv.name else ""
  }

  /** `validations.map(mapValidationTableNotInDb).filter(Boolean)`. */
  function TablesToCreate(validations: seq<Validation>): seq<string> {
    Filter(NonEmptyString, MapSeq(MapValidationTableNotInDb, validations))
  }

  /** The tables to create are the non-empty names of the table `not in db` validations. */
  lemma TablesToCreateSpec(validations: seq<Validation>, t: string)
    ensures t in TablesToCreate(validations) <==>
      t != "" && exists k :: 0 <= k < |validations| && IsTableNotInDb(validations[k], t)
  {
    var names := MapSeq(MapValidationTableNotInDb, validations);
    FilterMembers(NonEmptyString, names, t);
    if t in names && t != "" {
      var k :| 0 <= k < |names| && names[k] == t;
      assert IsTableNotInDb(validations[k], t);
    }
    if t != "" && exists k :: 0 <= k < |validations| && IsTableNotInDb(validations[k], t) {
      var k :| 0 <= k < |validations| && IsTableNotInDb(validations[k], t);
      assert names[k] == t;
    }
  }

  predicate IsTableNotInDb(sv: Validation, name: string) {
    sv.kind == TableKind && sv.reason == NotInDb && sv.name == name
  }

  /** The schema entries whose name is in the list, compared exactly. */
  function NamedIn(names: seq<string>): ((string, TableStrict)) -> bool {
    (e: (string, TableStrict)) => e.0 in names
  }

  /**
   * `orderedSchemaFromValidations`: the whole schema is ordered (and may
   * throw), then cut down to the tables to create.
   */
  function OrderedSchemaFromValidations(schema: SchemaStrict, validations: seq<Validation>): Result<Dict<TableStrict>, FixError> {
    match OrderDependencies(schema)
    case Err(e) => Err(DependencyError(e))
    case Ok(order) => Ok(Filter(NamedIn(TablesToCreate(validations)), order))
  }

  /** Among the tables kept, each comes after the kept tables it references. */
  ghost predicate OrderedWithin(schema: SchemaStrict, res: Dict<TableStrict>, names: seq<string>) {
    forall i, d :: 0 <= i < |res| && Edge(schema, res[i].0, d) && d in names ==> exists m :: 0 <= m < i && res[m].0 == d
  }

  lemma {:induction false} FilterOrdered(schema: SchemaStrict, order: Dict<TableStrict>, names: seq<string>)
    requires Ordered(schema, order)
    ensures OrderedWithin(schema, Filter(NamedIn(names), order), names)
    decreases |order|
  {
    if |order| > 0 {
      var n := |order| - 1;
      var p := NamedIn(names);
      var front := Filter(p, order[..n]);
      assert Ordered(schema, order[..n]) by {
        forall i, d | 0 <= i < n && Edge(schema, order[..n][i].0, d)
          ensures exists m :: 0 <= m < i && order[..n][m].0 == d
        {
          var m :| 0 <= m < i && order[m].0 == d;
          assert order[..n][m].0 == d;
        }
      }
      FilterOrdered(schema, order[..n], names);
      var r := Filter(p, order);
      if p(order[n]) {
        assert r == front + [order[n]];
        forall i, d | 0 <= i < |r| && Edge(schema, r[i].0, d) && d in names
          ensures exists m :: 0 <= m < i && r[m].0 == d
        {
          if i < |front| {
            var m :| 0 <= m < i && front[m].0 == d;
            assert r[m] == front[m];
          } else {
            var m :| 0 <= m < n && order[m].0 == d;
            FilterMembers(p, order[..n], order[m]);
            assert order[..n][m] == order[m];
            var j :| 0 <= j < |front| && front[j] == order[m];
            assert r[j].0 == d;
          }
        }
      } else {
        assert r == front + [];
        assert front + [] == front;
      }
    }
  }

  /** A filter keeps keys unique. */
  lemma {:induction false} FilterUnique(xs: Dict<TableStrict>, p: ((string, TableStrict)) -> bool)
    requires UniqueKeys(xs)
    ensures UniqueKeys(Filter(p, xs))
    decreases |xs|
  {
    if |xs| > 0 {
      var n := |xs| - 1;
      var front := Filter(p, xs[..n]);
      FilterUnique(xs[..n], p);
      if p(xs[n]) {
        var r := Filter(p, xs);
        assert r == front + [xs[n]];
        forall i | 0 <= i < |front| ensures front[i].0 != xs[n].0 {
          FilterMembers(p, xs[..n], front[i]);
          var j :| 0 <= j < n && xs[..n][j] == front[i];
          assert xs[j] == front[i];
        }
        forall i, j | 0 <= i < j < |r| ensures r[i].0 != r[j].0 {
          if j < |front| {
            assert r[i] == front[i] && r[j] == front[j];
          } else {
            assert r[i] == front[i] && r[j] == xs[n];
          }
        }
      }
    }
  }

  /**
   * Ordered, the tables to create are each schema table named by a table
   * `not in db` validation, once, with its own struct, after the tables to
   * create that it references; ordering throws only when the whole schema
   * cannot be ordered (an unrelated cycle included).
   */
  lemma OrderedSchemaFromValidationsSpec(schema: SchemaStrict, validations: seq<Validation>, e: (string, TableStrict))
    ensures var r := OrderedSchemaFromValidations(schema, validations);
      var names := TablesToCreate(validations);
      && (r.Err? <==> OrderDependencies(schema).Err?)
      && (r.Err? ==> r.error == DependencyError(OrderDependencies(schema).error))
      && (r.Ok? ==>
            && UniqueKeys(r.value)
            && (e in r.value <==> e.0 in names && e.0 in Keys(schema) && Get(schema, e.0) == Some(e.1))
            && OrderedWithin(schema, r.value, names))
  {
    OrderDependenciesSpec(schema);
    var o := OrderDependencies(schema);
    if o.Ok? {
      var names := TablesToCreate(validations);
      var order := o.value;
      FilterMembers(NamedIn(names), order, e);
      FilterUnique(order, NamedIn(names));
      FilterOrdered(schema, order, names);
      if e in order {
        var i :| 0 <= i < |order| && order[i] == e;
        assert Keys(order)[i] == e.0;
      }
      if e.0 in Keys(schema) && Get(schema, e.0) == Some(e.1) {
        assert e.0 in Keys(order);
        var i :| 0 <= i < |order| && Keys(order)[i] == e.0;
        assert order[i] == e;
      }
    }
  }

  /** `createTableFromStruct` for one ordered table; a composite key mismatch throws. */
  function CreateTableFix(e: (string, TableStrict)): Result<string, FixError> {
    match CreateTableFromStruct(e.0, e.1)
    case Err(m) => Err(CompositeError(m))
    case Ok(text) => Ok(text)
  }

  /** The validations `addTables` leaves over: not about tables, on no table being created. */
  function KeepForColumns(tables: seq<string>): Validation -> bool {
    (sv: Validation) => sv.kind != TableKind && SplitName(sv.name).0 !in tables
  }

  /** `addTables`. */
  function AddTables(schema: SchemaStrict, validations: seq<Validation>): Result<FixContainer, FixError> {
    var columns := Filter(KeepForColumns(TablesToCreate(validations)), validations);
    match OrderedSchemaFromValidations(schema, validations)
    case Err(e) => Err(e)
    case Ok(ordered) =>
      match CreateTables(ordered)
      case Err(e) => Err(e)
      case Ok(fixes) => Ok(FixContainer(fixes, columns))
  }

  /** The text of one CREATE TABLE fix, or its composite key mismatch. */
  lemma CreateTableFixSpec(e: (string, TableStrict))
    ensures CreateTableFix(e).Ok? <==> !ForeignKeyMismatch(e.1)
    ensures CreateTableFix(e).Ok? ==> CreateTableFromStruct(e.0, e.1) == Ok(CreateTableFix(e).value)
    ensures CreateTableFix(e).Err? ==> CreateTableFix(e) == Err(CompositeError(CreateTableFromStruct(e.0, e.1).error))
  {
    CreateTableFromStructSpec(e.0, e.1);
  }

  /** The CREATE TABLE fixes of the ordered tables. */
  function CreateTables(ordered: Dict<TableStrict>): Result<seq<string>, FixError> {
    MapFixes(CreateTableFix, ordered)
  }

  /**
   * One CREATE TABLE per ordered table, in that order; it throws exactly
   * when one of them has a composite key mismatch.
   */
  lemma CreateTablesSpec(ordered: Dict<TableStrict>)
    ensures var r := CreateTables(ordered);
      && (r.Ok? <==> forall k :: 0 <= k < |ordered| ==> !ForeignKeyMismatch(ordered[k].1))
      && (r.Ok? ==>
            && |r.value| == |ordered|
            && forall k :: 0 <= k < |ordered| ==>
                 CreateTableFromStruct(ordered[k].0, ordered[k].1) == Ok(r.value[k]))
      && (r.Err? ==> r.error.CompositeError?)
  {
    MapFixesSpec(CreateTableFix, ordered);
    forall k | 0 <= k < |ordered|
      ensures CreateTableFix(ordered[k]).Ok? <==> !ForeignKeyMismatch(ordered[k].1)
      ensures CreateTableFix(ordered[k]).Ok? ==> CreateTableFromStruct(ordered[k].0, ordered[k].1) == Ok(CreateTableFix(ordered[k]).value)
    {
      CreateTableFixSpec(ordered[k]);
    }
    var m := CreateTables(ordered);
    if m.Err? {
      var k :| 0 <= k < |ordered| && CreateTableFix(ordered[k]) == Err(m.error);
      assert m.error.CompositeError?;
    }
  }

  /** `addTables` fails when ordering fails or a CREATE TABLE fails, and its fixes are the CREATE TABLEs. */
  lemma AddTablesFixes(schema: SchemaStrict, validations: seq<Validation>)
    ensures var r := AddTables(schema, validations);
      var o := OrderedSchemaFromValidations(schema, validations);
      && (r.Ok? <==> o.Ok? && CreateTables(o.value).Ok?)
      && (r.Ok? ==> r.value.fixes == CreateTables(o.value).value)
      && (r.Err? ==> r.error == if o.Err? then o.error else CreateTables(o.value).error)
  {
  }

  /** Every table validation and every validation on a table being created is dropped. */
  lemma AddTablesLeftOver(schema: SchemaStrict, validations: seq<Validation>, v: Validation)
    ensures var r := AddTables(schema, validations);
      r.Ok? ==>
        (v in r.value.validations <==>
           v in validations && v.kind != TableKind && SplitName(v.name).0 !in TablesToCreate(validations))
  {
    FilterMembers(KeepForColumns(TablesToCreate(validations)), validations, v);
  }

  // ---- fixValidations

  /**
   * `fixValidations(query, schema, fixControls)(validations)`: with
   * `additive` the tables, then the columns, then the null constraints are
   * fixed, each on what the previous step left over.
   */
  function FixValidations(schema: SchemaStrict, controls: FixControls, validations: seq<Validation>): Result<FixContainer, FixError> {
    if !controls.additive then Ok(FixContainer([], validations))
    else
      match AddTables(schema, validations)
      case Err(e) => Err(e)
      case Ok(tables) =>
        match AddColumns(schema, tables.validations)
        case Err(e) => Err(e)
        case Ok(columns) =>
          match AddNotNull(schema, columns.validations, controls)
          case Err(e) => Err(e)
          case Ok(nulls) => Ok(FixContainer(tables.fixes + columns.fixes + nulls.fixes, nulls.validations))
  }

  /** A validation that no step of an additive fix handles. */
  predicate Unfixed(controls: FixControls, validations: seq<Validation>, v: Validation) {
    && v.kind != TableKind
    && SplitName(v.name).0 !in TablesToCreate(validations)
    && !IsColumnNotInDb(v)
    && !NotNullFilter(controls, v)
  }

  /**
   * Without `additive` nothing is fixed and everything is left over; with it
   * the validations left over are exactly those no step handles, and the
   * fixes are the table fixes, then the column fixes, then the null fixes.
   */
  lemma FixValidationsSpec(schema: SchemaStrict, controls: FixControls, validations: seq<Validation>, v: Validation)
    ensures !controls.additive ==> FixValidations(schema, controls, validations) == Ok(FixContainer([], validations))
    ensures var r := FixValidations(schema, controls, validations);
      controls.additive && r.Ok? ==>
        && (v in r.value.validations <==> v in validations && Unfixed(controls, validations, v))
        && (var t := AddTables(schema, validations).value;
            var c := AddColumns(schema, t.validations).value;
            && t.fixes == CreateTables(OrderedSchemaFromValidations(schema, validations).value).value
            && |c.fixes| == |Filter(IsColumnNotInDb, t.validations)|
            && r.value.fixes[..|t.fixes|] == t.fixes
            && r.value.fixes[|t.fixes|..|t.fixes| + |c.fixes|] == c.fixes)
  {
    var r := FixValidations(schema, controls, validations);
    if controls.additive && r.Ok? {
      var t := AddTables(schema, validations).value;
      var c := AddColumns(schema, t.validations).value;
      var n := AddNotNull(schema, c.validations, controls).value;
      AddTablesFixes(schema, validations);
      AddTablesLeftOver(schema, validations, v);
      AddColumnsSpec(schema, t.validations, v);
      AddNotNullSpec(schema, c.validations, controls, v);
      assert r.value.fixes == t.fixes + c.fixes + n.fixes;
      assert (t.fixes + c.fixes + n.fixes)[..|t.fixes|] == t.fixes;
      assert (t.fixes + c.fixes + n.fixes)[|t.fixes|..|t.fixes| + |c.fixes|] == c.fixes;
    }
  }

  /**
   * `validateAndFixDatabase`: the fixes of the validations, run in order,
   * and the validations left over, which is what it emits.
   */
  function ValidateAndFixDatabase(tables: seq<InfoSchemaTable>, columns: seq<InfoSchemaColumn>, schema: SchemaStrict, controls: FixControls): Result<FixContainer, FixError> {
    FixValidations(schema, controls, ValidateDatabase(tables, columns, schema))
  }

  /**
   * With the default controls no column missing from the database and no
   * column the database holds NOT NULL against the code is left over.
   */
  lemma DefaultFixesLeaveNoMissingColumn(tables: seq<InfoSchemaTable>, columns: seq<InfoSchemaColumn>, schema: SchemaStrict, v: Validation)
    requires ValidateAndFixDatabase(tables, columns, schema, DefaultControls).Ok?
    requires v in ValidateAndFixDatabase(tables, columns, schema, DefaultControls).value.validations
    ensures !IsColumnNotInDb(v) && v.kind != TableKind
    ensures !(v.kind == TypeKind && v.reason == ConstraintReason && v.extra == Some(DbNotNullCodeNull))
  {
    FixValidationsSpec(schema, DefaultControls, ValidateDatabase(tables, columns, schema), v);
    DefaultNotNullFilter(v);
  }
}
