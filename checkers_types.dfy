/**
 * checkers-types.ts: comparing one live column with its declared prop
 * (type and nullability), naming `table.column`, and checking that every
 * declared `relation` points at an existing column of the same type.
 */
module CheckersTypes {
  import opened Wrappers
  import opened Js
  import opened Util
  import opened Schema
  import opened TypeMappings
  import opened Sql
  import opened FixerSchema

  // ---------------------------------------------------------------- one column

  /**
   * `compareNullConstraints`: only the literal 'YES' counts as nullable, and
   * only `NotNull` is looked up (a `PrimaryKey` alone does not count).
   */
  function CompareNullConstraints(col: InfoSchemaColumn, constraints: seq<Constraint>): Option<Validation> {
    if col.isNullable == "YES" then
      if NotNull in constraints then
        Some(Validation(TypeKind, col.columnName, ConstraintReason, Some(DbNullCodeNotNull)))
      else None
    else
      if NotNull !in constraints then
        Some(Validation(TypeKind, col.columnName, ConstraintReason, Some(DbNotNullCodeNull)))
      else None
  }

  /** A difference is reported exactly when the database and the declared `NotNull` disagree. */
  lemma CompareNullConstraintsSpec(col: InfoSchemaColumn, constraints: seq<Constraint>)
    ensures var r := CompareNullConstraints(col, constraints);
      && (r.Some? <==> (col.isNullable == "YES" <==> NotNull in constraints))
      && (r.Some? ==> r.value.kind == TypeKind && r.value.name == col.columnName && r.value.reason == ConstraintReason)
      && (r.Some? && col.isNullable == "YES" ==> r.value.extra == Some(DbNullCodeNotNull))
      && (r.Some? && col.isNullable != "YES" ==> r.value.extra == Some(DbNotNullCodeNull))
  {
  }

  /** The `reduce` of `compareTypes`: once a generic matches, the flag stays true. */
  function MatchFold(ms: seq<TypeMapping>, t: SchemaType, state: bool): bool {
    if |ms| == 0 then state
    else MatchFold(ms[1..], t, if state then state else TypeName(ms[0].generic) == TypeName(t))
  }

  lemma {:induction false} MatchFoldSpec(ms: seq<TypeMapping>, t: SchemaType, state: bool)
    ensures MatchFold(ms, t, state) <==> state || exists k :: 0 <= k < |ms| && ms[k].generic == t
  {
    if |ms| > 0 {
      TypeNameInjective(ms[0].generic, t);
      MatchFoldSpec(ms[1..], t, if state then state else TypeName(ms[0].generic) == TypeName(t));
      assert forall k :: 1 <= k < |ms| ==> ms[1..][k - 1] == ms[k];
    }
  }

  /** `compareTypes(type, col, constraints)`. */
  function CompareTypes(t: SchemaType, col: InfoSchemaColumn, constraints: seq<Constraint>): Option<Validation> {
    match MappingsForInfoSchema(col.dataType)
    case None => Some(Validation(TypeKind, col.columnName, NotInCode, None))
    case Some(ms) =>
      if !MatchFold(ms, t, false) then
        Some(Validation(TypeKind, col.columnName, TypeMismatch, Some("db: " + col.dataType + " code: " + TypeName(t))))
      else CompareNullConstraints(col, constraints)
  }

  /**
   * An unmapped data type is not in code; a mapped one whose generics lack
   * the declared type is a mismatch; otherwise the null constraints decide.
   */
  lemma CompareTypesSpec(t: SchemaType, col: InfoSchemaColumn, constraints: seq<Constraint>)
    ensures var r := CompareTypes(t, col, constraints);
      && (MappingsForInfoSchema(col.dataType).None? ==>
            r == Some(Validation(TypeKind, col.columnName, NotInCode, None)))
      && (MappingsForInfoSchema(col.dataType).Some? && t !in GenericsUnder(col.dataType) ==>
            r == Some(Validation(TypeKind, col.columnName, TypeMismatch,
                                 Some("db: " + col.dataType + " code: " + TypeName(t)))))
      && (t in GenericsUnder(col.dataType) ==> r == CompareNullConstraints(col, constraints))
  {
    match MappingsForInfoSchema(col.dataType)
    case None =>
    case Some(ms) =>
      MatchFoldSpec(ms, t, false);
      var g := GenericsUnder(col.dataType);
      if t in g {
        var k :| 0 <= k < |g| && g[k] == t;
        assert ms[k].generic == t;
      } else {
        forall k | 0 <= k < |ms| ensures ms[k].generic != t {
          assert g[k] == ms[k].generic;
        }
      }
  }

  /** Round trip: a column of the data type a mapping names never fails the type check. */
  lemma CompareTypesRoundTrip(i: nat, col: InfoSchemaColumn, constraints: seq<Constraint>)
    requires i < |Mappings| && col.dataType == Mappings[i].infoSchema
    ensures CompareTypes(Mappings[i].generic, col, constraints) == CompareNullConstraints(col, constraints)
  {
    InfoSchemaRoundTrip(i);
    CompareTypesSpec(Mappings[i].generic, col, constraints);
  }

  /** `createColumnName(t, c)`. */
  function CreateColumnName(tableName: string, columnName: string): string {
    tableName + "." + columnName
  }

  /** A column name splits back at its dot when neither part holds one. */
  lemma CreateColumnNameSplit(tableName: string, columnName: string)
    requires '.' !in tableName && '.' !in columnName
    ensures Split(CreateColumnName(tableName, columnName), '.') == [tableName, columnName]
  {
    SplitPair(tableName, columnName, '.');
  }

  /** `typeCheckColumn(prop, col)`: a missing constraint list is the default `[]`. */
  function TypeCheckColumn(p: StructProp, col: InfoSchemaColumn): Container {
    match CompareTypes(p.typ, col, p.constraints.GetOr([]))
    case Some(diff) =>
      Container(Some(diff.(name := CreateColumnName(col.tableName, diff.name))),
                CreateColumnName(col.tableName, col.columnName))
    case None => Container(None, col.tableName + "." + col.columnName)
  }

  /** The container and its error are both named `table.column`; the error is the type comparison's. */
  lemma TypeCheckColumnSpec(p: StructProp, col: InfoSchemaColumn)
    ensures var r := TypeCheckColumn(p, col);
      var diff := CompareTypes(p.typ, col, p.constraints.GetOr([]));
      && r.name == CreateColumnName(col.tableName, col.columnName)
      && (r.error.Some? <==> diff.Some?)
      && (r.error.Some? ==> r.error.value == diff.value.(name := CreateColumnName(col.tableName, col.columnName)))
  {
    match CompareTypes(p.typ, col, p.constraints.GetOr([]))
    case None =>
    case Some(diff) =>
      assert diff.name == col.columnName;
  }

  // ---------------------------------------------------------------- relations

  function StructureNotFound(r: Relation): string {
    "Structure \"" + r.struct + "\" not found"
  }

  function PropNotFound(r: Relation): string {
    "Prop " + r.prop + " not found in Structure " + r.struct
  }

  function PropWrongType(r: Relation, found: SchemaType, t: SchemaType): string {
    "Prop " + r.prop + " on " + r.struct + " is of type " + TypeName(found) + " but relationship specifies " + TypeName(t)
  }

  /** `findRelation(s, r, type)`: '' when the relation holds, otherwise why not. */
  function FindRelation(s: SchemaStrict, r: Relation, t: SchemaType): string {
    match Get(s, r.struct)
    case None => StructureNotFound(r)
    case Some(table) =>
      match Get(table.struct, r.prop)
      case None => PropNotFound(r)
      case Some(p) => if p.typ == t then "" else PropWrongType(r, p.typ, t)
  }

  /** The relation holds exactly when the table and its column exist and the types agree. */
  predicate RelationHolds(s: SchemaStrict, r: Relation, t: SchemaType) {
    && Get(s, r.struct).Some?
    && Get(Get(s, r.struct).value.struct, r.prop).Some?
    && Get(Get(s, r.struct).value.struct, r.prop).value.typ == t
  }

  lemma FindRelationSpec(s: SchemaStrict, r: Relation, t: SchemaType)
    ensures FindRelation(s, r, t) == "" <==> RelationHolds(s, r, t)
  {
  }

  /** The three failure messages differ from one another. */
  lemma RelationMessagesDistinct(r: Relation, found: SchemaType, t: SchemaType)
    ensures StructureNotFound(r) != PropNotFound(r)
    ensures StructureNotFound(r) != PropWrongType(r, found, t)
    ensures PropNotFound(r) != PropWrongType(r, found, t)
  {
    assert StructureNotFound(r)[0] == 'S';
    assert PropNotFound(r)[0] == 'P' && PropWrongType(r, found, t)[0] == 'P';
    var n := |"Prop " + r.prop + " "|;
    assert PropNotFound(r)[n] == 'n';
    assert PropWrongType(r, found, t)[n] == 'o';
  }

  /** `SchemaErr`: the accumulator of `validateSchemaRelations`. */
  datatype SchemaErr = SchemaErr(count: nat, text: string)

  /** The failing relation message of one column, or '' when it has none or it holds. */
  function ColumnRelationError(s: SchemaStrict, p: StructProp): string {
    if p.relation.Some? then FindRelation(s, p.relation.value, p.typ) else ""
  }

  /** Every failing relation message, table by table and column by column. */
  function ColumnErrors(s: SchemaStrict, cols: StructStrict): (r: seq<string>)
    ensures forall k :: 0 <= k < |r| ==> r[k] != ""
  {
    if |cols| == 0 then []
    else
      var e := ColumnRelationError(s, cols[0].1);
      (if e != "" then [e] else []) + ColumnErrors(s, cols[1..])
  }

  function RelationErrors(s: SchemaStrict, tables: SchemaStrict): (r: seq<string>)
    ensures forall k :: 0 <= k < |r| ==> r[k] != ""
  {
    if |tables| == 0 then [] else ColumnErrors(s, tables[0].1.struct) + RelationErrors(s, tables[1..])
  }

  /** The `createStructValidationReducer` step AS WRITTEN: the new message replaces the text. */
  function KeepLast(st: SchemaErr, e: string): SchemaErr {
    SchemaErr(st.count + 1, if st.text != "" then "\n" + e else e)
  }

  /** The same step as intended: the new message is added on a line of its own. */
  function Append(st: SchemaErr, e: string): SchemaErr {
    SchemaErr(st.count + 1, if st.text != "" then st.text + "\n" + e else e)
  }

  /** The reducer over one table's columns, with a chosen step. */
  function StructFold(s: SchemaStrict, st: SchemaErr, cols: StructStrict, keepLast: bool): SchemaErr
    decreases |cols|
  {
    if |cols| == 0 then st
    else
      var e := ColumnRelationError(s, cols[0].1);
      var next := if e == "" then st else if keepLast then KeepLast(st, e) else Append(st, e);
      StructFold(s, next, cols[1..], keepLast)
  }

  /** `createSchemaValidationReducer` folded over the tables. */
  function SchemaFold(s: SchemaStrict, st: SchemaErr, tables: SchemaStrict, keepLast: bool): SchemaErr
    decreases |tables|
  {
    if |tables| == 0 then st else SchemaFold(s, StructFold(s, st, tables[0].1.struct, keepLast), tables[1..], keepLast)
  }

  /** The step applied to a list of messages. */
  function Absorb(st: SchemaErr, errs: seq<string>, keepLast: bool): SchemaErr
    decreases |errs|
  {
    if |errs| == 0 then st
    else Absorb(if keepLast then KeepLast(st, errs[0]) else Append(st, errs[0]), errs[1..], keepLast)
  }

  lemma {:induction false} AbsorbAppend(st: SchemaErr, a: seq<string>, b: seq<string>, keepLast: bool)
    ensures Absorb(st, a + b, keepLast) == Absorb(Absorb(st, a, keepLast), b, keepLast)
    decreases |a|
  {
    if |a| > 0 {
      assert (a + b)[0] == a[0] && (a + b)[1..] == a[1..] + b;
      AbsorbAppend(if keepLast then KeepLast(st, a[0]) else Append(st, a[0]), a[1..], b, keepLast);
    } else {
      assert a + b == b;
    }
  }

  lemma {:induction false} StructFoldAbsorb(s: SchemaStrict, st: SchemaErr, cols: StructStrict, keepLast: bool)
    ensures StructFold(s, st, cols, keepLast) == Absorb(st, ColumnErrors(s, cols), keepLast)
    decreases |cols|
  {
    if |cols| > 0 {
      var e := ColumnRelationError(s, cols[0].1);
      var next := if e == "" then st else if keepLast then KeepLast(st, e) else Append(st, e);
      StructFoldAbsorb(s, next, cols[1..], keepLast);
      if e != "" {
        AbsorbAppend(st, [e], ColumnErrors(s, cols[1..]), keepLast);
        assert Absorb(st, [e], keepLast) == next;
      } else {
        assert ColumnErrors(s, cols) == ColumnErrors(s, cols[1..]);
      }
    }
  }

  lemma {:induction false} SchemaFoldAbsorb(s: SchemaStrict, st: SchemaErr, tables: SchemaStrict, keepLast: bool)
    ensures SchemaFold(s, st, tables, keepLast) == Absorb(st, RelationErrors(s, tables), keepLast)
    decreases |tables|
  {
    if |tables| > 0 {
      var cols := tables[0].1.struct;
      StructFoldAbsorb(s, st, cols, keepLast);
      SchemaFoldAbsorb(s, StructFold(s, st, cols, keepLast), tables[1..], keepLast);
      AbsorbAppend(st, ColumnErrors(s, cols), RelationErrors(s, tables[1..]), keepLast);
    }
  }

  /** The steps count the messages. */
  lemma {:induction false} AbsorbCount(st: SchemaErr, errs: seq<string>, keepLast: bool)
    ensures Absorb(st, errs, keepLast).count == st.count + |errs|
    decreases |errs|
  {
    if |errs| > 0 {
      AbsorbCount(if keepLast then KeepLast(st, errs[0]) else Append(st, errs[0]), errs[1..], keepLast);
    }
  }

  /** As written, only the last message survives, behind a line break when there was an earlier text. */
  lemma {:induction false} KeepLastText(st: SchemaErr, errs: seq<string>)
    requires forall k :: 0 <= k < |errs| ==> errs[k] != ""
    ensures Absorb(st, errs, true).text ==
      if |errs| == 0 then st.text
      else if st.text != "" || |errs| > 1 then "\n" + errs[|errs| - 1]
      else errs[0]
    decreases |errs|
  {
    if |errs| > 0 {
      KeepLastText(KeepLast(st, errs[0]), errs[1..]);
    }
  }

  /** As intended, every message is kept, one per line, after the earlier text. */
  lemma {:induction false} AppendText(st: SchemaErr, errs: seq<string>)
    requires st.text != "" && |errs| > 0
    ensures Absorb(st, errs, false).text == st.text + "\n" + Join("\n", errs)
    decreases |errs|
  {
    var next := Append(st, errs[0]);
    if |errs| > 1 {
      AppendText(next, errs[1..]);
      assert Join("\n", errs) == errs[0] + "\n" + Join("\n", errs[1..]);
    }
  }

  lemma JoinedText(errs: seq<string>)
    requires forall k :: 0 <= k < |errs| ==> errs[k] != ""
    ensures Absorb(SchemaErr(0, ""), errs, false).text == Join("\n", errs)
  {
    if |errs| > 1 {
      AppendText(Append(SchemaErr(0, ""), errs[0]), errs[1..]);
    }
  }

  /** `validateSchemaRelations(schema)` AS WRITTEN. */
  function ValidateSchemaRelationsAsWritten(schema: Schema): string {
    var s := Strictify(schema);
    SchemaFold(s, SchemaErr(0, ""), s, true).text
  }

  /** `validateSchemaRelations(schema)` with every failing relation reported. */
  function ValidateSchemaRelations(schema: Schema): string {
    var s := Strictify(schema);
    SchemaFold(s, SchemaErr(0, ""), s, false).text
  }

  /**
   * As written, the answer is '' iff every relation holds; otherwise it is
   * the last failing message, behind a line break when there were several:
   * every earlier message is lost.
   */
  lemma ValidateSchemaRelationsAsWrittenSpec(schema: Schema)
    ensures var s := Strictify(schema);
      var errs := RelationErrors(s, s);
      && (ValidateSchemaRelationsAsWritten(schema) == "" <==> errs == [])
      && (|errs| == 1 ==> ValidateSchemaRelationsAsWritten(schema) == errs[0])
      && (|errs| > 1 ==> ValidateSchemaRelationsAsWritten(schema) == "\n" + errs[|errs| - 1])
  {
    var s := Strictify(schema);
    SchemaFoldAbsorb(s, SchemaErr(0, ""), s, true);
    KeepLastText(SchemaErr(0, ""), RelationErrors(s, s));
  }

  /** Corrected: '' iff every relation holds, otherwise every failing message, one per line, in order. */
  lemma ValidateSchemaRelationsSpec(schema: Schema)
    ensures var s := Strictify(schema);
      && ValidateSchemaRelations(schema) == Join("\n", RelationErrors(s, s))
      && (ValidateSchemaRelations(schema) == "" <==> RelationErrors(s, s) == [])
  {
    var s := Strictify(schema);
    var errs := RelationErrors(s, s);
    SchemaFoldAbsorb(s, SchemaErr(0, ""), s, false);
    JoinedText(errs);
    if |errs| > 0 {
      JoinNonEmpty(errs);
    }
  }

  lemma JoinNonEmpty(parts: seq<string>)
    requires |parts| > 0 && parts[0] != ""
    ensures Join("\n", parts) != ""
  {
  }

  /** Each failing relation is counted once. */
  lemma RelationCount(schema: Schema, keepLast: bool)
    ensures var s := Strictify(schema);
      SchemaFold(s, SchemaErr(0, ""), s, keepLast).count == |RelationErrors(s, s)|
  {
    var s := Strictify(schema);
    SchemaFoldAbsorb(s, SchemaErr(0, ""), s, keepLast);
    AbsorbCount(SchemaErr(0, ""), RelationErrors(s, s), keepLast);
  }

  const ToB := Relation("id", "B")
  const ToC := Relation("id", "C")
  const BrokenB := StructProp(None, None, Some(ToB), Int32, None, None)
  const BrokenC := StructProp(None, None, Some(ToC), Int32, None, None)

  /** One table whose two columns reference missing tables `B` and `C`. */
  const TwoBrokenRelations: Schema := [("A", BareStruct([("b", Full(BrokenB)), ("c", Full(BrokenC))]))]

  lemma TwoBrokenStrict()
    ensures Strictify(TwoBrokenRelations) == [("A", TableStrict([("b", BrokenB), ("c", BrokenC)], None, None, None))]
  {
    var cols := [("b", Full(BrokenB)), ("c", Full(BrokenC))];
    assert StrictifyStruct(cols) == [("b", BrokenB), ("c", BrokenC)];
  }

  /** Both relations fail, `B` first: neither table exists. */
  lemma TwoBrokenErrors()
    ensures var s := Strictify(TwoBrokenRelations);
      RelationErrors(s, s) == [StructureNotFound(ToB), StructureNotFound(ToC)]
  {
    TwoBrokenStrict();
    var s := Strictify(TwoBrokenRelations);
    var cols := [("b", BrokenB), ("c", BrokenC)];
    assert Get(s, "B") == None && Get(s, "C") == None;
    assert cols[1..] == [("c", BrokenC)] && cols[1..][1..] == [];
    assert ColumnErrors(s, cols[1..]) == [StructureNotFound(ToC)];
    assert s[1..] == [];
  }

  /** As written, the message about `B` is lost ... */
  lemma LostRelationMessage()
    ensures ValidateSchemaRelationsAsWritten(TwoBrokenRelations) == "\n" + StructureNotFound(ToC)
  {
    TwoBrokenErrors();
    ValidateSchemaRelationsAsWrittenSpec(TwoBrokenRelations);
  }

  /** ... and corrected, both messages are kept, in order. */
  lemma KeptRelationMessages()
    ensures ValidateSchemaRelations(TwoBrokenRelations) == StructureNotFound(ToB) + "\n" + StructureNotFound(ToC)
  {
    TwoBrokenErrors();
    ValidateSchemaRelationsSpec(TwoBrokenRelations);
    var errs := [StructureNotFound(ToB), StructureNotFound(ToC)];
    assert errs[1..] == [StructureNotFound(ToC)];
  }
}
