/**
 * fixer-functions.ts, first half: the text of one column definition, of its
 * constraints, references and default, of the composite table constraints,
 * of a whole CREATE TABLE and of the two per-column ALTER statements.  The
 * `query` capability these texts are handed to is not modelled.
 */
module FixerColumns {
  import opened Wrappers
  import opened Js
  import opened Util
  import opened Schema
  import opened SchemaGuards
  import opened TypeMappings
  import opened Sql

  /** `MAX_VAR_CHAR`. */
  const MaxVarChar: int := 255

  // ---------------------------------------------------------------- isConstraint

  /** The `reduce` of `isConstraint`: the flag turns true at a match and stays true. */
  function IsConstraintFold(c: Constraint, cs: seq<Constraint>, acc: bool): bool {
    if |cs| == 0 then acc else IsConstraintFold(c, cs[1..], if cs[0] == c then true else acc)
  }

  /** `isConstraint(constraint, item)`. */
  function IsConstraint(c: Constraint, p: StructProp): bool {
    if HasConstraints(Full(p)) then IsConstraintFold(c, p.constraints.value, false) else false
  }

  lemma {:induction false} IsConstraintFoldSpec(c: Constraint, cs: seq<Constraint>, acc: bool)
    ensures IsConstraintFold(c, cs, acc) <==> acc || c in cs
  {
    if |cs| > 0 {
      IsConstraintFoldSpec(c, cs[1..], if cs[0] == c then true else acc);
      assert cs == [cs[0]] + cs[1..];
    }
  }

  /** `isConstraint` is plain membership in the listed constraints. */
  lemma IsConstraintSpec(c: Constraint, p: StructProp)
    ensures IsConstraint(c, p) <==> p.constraints.Some? && c in p.constraints.value
  {
    if HasConstraints(Full(p)) {
      IsConstraintFoldSpec(c, p.constraints.value, false);
    }
  }

  /** `isAutomatic`: `isConstraint` with `Automatic` bound. */
  function IsAutomatic(p: StructProp): bool {
    IsConstraint(Automatic, p)
  }

  // ---------------------------------------------------------------- one column

  /** `createAutomaticColumnNameType`: the automatic column text, or '' for a type without one. */
  function CreateAutomaticColumnNameType(name: string, t: SchemaType): string {
    match AutomaticFor(t)
    case Some(a) => if a != "" then name + " " + a else ""
    case None => ""
  }

  lemma AutomaticColumnSpec(name: string, t: SchemaType)
    ensures CreateAutomaticColumnNameType(name, t) ==
      if t == Int32 || t == UInt32 then name + " " + "serial PRIMARY KEY"
      else if t == Int64 || t == UInt64 then name + " " + "bigserial PRIMARY KEY"
      else if t == TimestampS then name + " " + "timestamp default current_timestamp"
      else ""
  {
    AutomaticsSpec(t);
  }

  /** What one constraint adds in `createConstraints`. */
  function ConstraintText(c: Constraint): string {
    if ConstraintName(c) in AppOnlyMappings then ""
    else match ConstraintMappingFor(c)
      case None => ""
      case Some(m) => if m.create == "" then "" else m.create + " "
  }

  /** Only the three constraints with SQL text add anything, each followed by a blank. */
  lemma ConstraintTextSpec(c: Constraint)
    ensures ConstraintText(c) ==
      if c == NotNull then "NOT NULL "
      else if c == PrimaryKey then "PRIMARY KEY "
      else if c == Unique then "UNIQUE "
      else ""
  {
    AppOnlySpec(c);
    ConstraintMappingSpec(c);
  }

  /** `xs.reduce((s, x) => s + f(x), s)`, the shape of the `reduce` in `createConstraints`. */
  function FoldAppend<X>(f: X -> string, s: string, xs: seq<X>): string
    decreases |xs|
  {
    if |xs| == 0 then s else FoldAppend(f, s + f(xs[0]), xs[1..])
  }

  /** The texts `f` gives the elements, one after the other. */
  function ConcatMap<X>(f: X -> string, xs: seq<X>): string {
    if |xs| == 0 then "" else f(xs[0]) + ConcatMap(f, xs[1..])
  }

  lemma {:induction false} FoldAppendConcat<X>(f: X -> string, s: string, xs: seq<X>)
    ensures FoldAppend(f, s, xs) == s + ConcatMap(f, xs)
    decreases |xs|
  {
    if |xs| > 0 {
      FoldAppendConcat(f, s + f(xs[0]), xs[1..]);
    }
  }

  lemma {:induction false} ConcatMapAppend<X>(f: X -> string, a: seq<X>, b: seq<X>)
    ensures ConcatMap(f, a + b) == ConcatMap(f, a) + ConcatMap(f, b)
  {
    if |a| > 0 {
      assert (a + b)[0] == a[0] && (a + b)[1..] == a[1..] + b;
      ConcatMapAppend(f, a[1..], b);
    } else {
      assert a + b == b;
    }
  }

  /** The texts of the constraints, one after the other in list order. */
  function ConstraintTexts(cs: seq<Constraint>): string {
    ConcatMap(ConstraintText, cs)
  }

  /** `createConstraints(item)`. */
  function CreateConstraints(p: StructProp): string {
    if HasConstraints(Full(p)) then FoldAppend(ConstraintText, "", p.constraints.value) else ""
  }

  /** Constraints without SQL text (app-only ones and `Check`) add nothing. */
  lemma {:induction false} ConstraintTextsSkip(cs: seq<Constraint>)
    requires forall k :: 0 <= k < |cs| ==> cs[k] !in {NotNull, PrimaryKey, Unique}
    ensures ConstraintTexts(cs) == ""
  {
    if |cs| > 0 {
      ConstraintTextSpec(cs[0]);
      ConstraintTextsSkip(cs[1..]);
    }
  }

  /** `createConstraints` writes the text of every listed constraint, in list order. */
  lemma CreateConstraintsSpec(p: StructProp)
    ensures CreateConstraints(p) == if p.constraints.Some? then ConstraintTexts(p.constraints.value) else ""
  {
    if HasConstraints(Full(p)) {
      FoldAppendConcat(ConstraintText, "", p.constraints.value);
    }
  }

  /** A constraint written later in the list comes later in the text. */
  lemma CreateConstraintsSnoc(p: StructProp, c: Constraint)
    requires p.constraints.Some?
    ensures CreateConstraints(p.(constraints := Some(p.constraints.value + [c]))) ==
      CreateConstraints(p) + ConstraintText(c)
  {
    var cs := p.constraints.value;
    CreateConstraintsSpec(p);
    CreateConstraintsSpec(p.(constraints := Some(cs + [c])));
    ConcatMapAppend(ConstraintText, cs, [c]);
    assert ConcatMap(ConstraintText, [c]) == ConstraintText(c);
  }

  /** `createReferences(item)`. */
  function CreateReferences(p: StructProp): string {
    if p.relation.Some? then Trim(ForeignKey(p.relation.value.struct, p.relation.value.prop)) else ""
  }

  /** The `trim` in `createReferences` never changes the REFERENCES clause. */
  lemma CreateReferencesSpec(p: StructProp)
    ensures CreateReferences(p) ==
      if p.relation.Some? then ForeignKey(p.relation.value.struct, p.relation.value.prop) else ""
  {
    if p.relation.Some? {
      var f := ForeignKey(p.relation.value.struct, p.relation.value.prop);
      assert f[0] == 'R' && f[|f| - 1] == ')';
      assert TrimStart(f) == f;
    }
  }

  /** `createDefault(prop)`: only a truthy default is written. */
  function CreateDefault(p: StructProp): string {
    if p.defaultValue.Some? && Truthy(p.defaultValue.value) then "DEFAULT " + ToStr(p.defaultValue.value) else ""
  }

  lemma CreateDefaultSpec(p: StructProp)
    ensures CreateDefault(p) != "" <==> p.defaultValue.Some? && Truthy(p.defaultValue.value)
    ensures CreateDefault(p) != "" ==> CreateDefault(p)[..8] == "DEFAULT "
  {
  }

  /** `prop.typeMax || MAX_VAR_CHAR`. */
  function VarCharSize(p: StructProp): int {
    if p.typeMax.Some? && p.typeMax.value != 0 then p.typeMax.value else MaxVarChar
  }

  /**
   * `createColumnFromProp(name, prop)`.  `isSchemaStructProp(prop)` holds for
   * every typed prop (its type tag is a non-empty string), so the String
   * branch needs no further test.
   */
  function CreateColumnFromProp(name: string, p: StructProp): string {
    if IsAutomatic(p) then CreateAutomaticColumnNameType(name, p.typ)
    else match MappingFor(p.typ)
      case None => ""
      case Some(m) =>
        if m.create != "" then
          name + " " + m.create + " " + CreateConstraints(p) + " " + CreateReferences(p)
        else if p.typ == String then
          name + " " + VarChar(VarCharSize(p)) + " " + CreateConstraints(p) + " "
          + CreateReferences(p) + " " + CreateDefault(p)
        else ""
  }

  /** The SQL type text of a mapped type: its `create`, or `varchar(n)` for String. */
  function SqlTypeText(p: StructProp): string
    requires HasMapping(p.typ)
  {
    MappingForSpec(p.typ);
    if p.typ == String then VarChar(VarCharSize(p)) else MappingFor(p.typ).value.create
  }

  /**
   * The four cases of a column definition: automatic columns use `automatics`,
   * unmapped types give '', String gets its varchar size and a DEFAULT, every
   * other mapped type its `create` text without a DEFAULT.
   */
  lemma CreateColumnFromPropSpec(name: string, p: StructProp)
    ensures p.constraints.Some? && Automatic in p.constraints.value ==>
      CreateColumnFromProp(name, p) == CreateAutomaticColumnNameType(name, p.typ)
    ensures !(p.constraints.Some? && Automatic in p.constraints.value) && !HasMapping(p.typ) ==>
      CreateColumnFromProp(name, p) == ""
    ensures !(p.constraints.Some? && Automatic in p.constraints.value) && HasMapping(p.typ) && p.typ != String ==>
      CreateColumnFromProp(name, p) ==
        name + " " + SqlTypeText(p) + " " + CreateConstraints(p) + " " + CreateReferences(p)
    ensures !(p.constraints.Some? && Automatic in p.constraints.value) && p.typ == String ==>
      CreateColumnFromProp(name, p) ==
        name + " " + VarChar(VarCharSize(p)) + " " + CreateConstraints(p) + " " + CreateReferences(p)
        + " " + CreateDefault(p)
  {
    IsConstraintSpec(Automatic, p);
    MappingForSpec(p.typ);
    if HasMapping(p.typ) {
      OnlyStringHasEmptyCreate(p.typ);
    }
  }

  /** A column text is empty exactly when its type has no (automatic) definition. */
  lemma CreateColumnFromPropEmpty(name: string, p: StructProp)
    ensures CreateColumnFromProp(name, p) == "" <==>
      if p.constraints.Some? && Automatic in p.constraints.value then AutomaticFor(p.typ).None?
      else !HasMapping(p.typ)
  {
    CreateColumnFromPropSpec(name, p);
    IsConstraintSpec(Automatic, p);
    AutomaticsSpec(p.typ);
    if !IsAutomatic(p) && HasMapping(p.typ) {
      var r := CreateColumnFromProp(name, p);
      assert r[|name|] == ' ';
    }
  }

  /** `createColumn`: ALTER TABLE ... ADD COLUMN, then the column definition. */
  function CreateColumn(table: string, column: string, p: StructProp): (r: string)
    ensures AddColumn(table) <= r
    ensures var c := CreateColumnFromProp(column, p); |c| < |r| && r[|r| - |c|..] == c
  {
    AddColumn(table) + " " + CreateColumnFromProp(column, p)
  }

  /** `setColumnNullConstraint`: the statement chosen for a column's nullability. */
  function SetColumnNullConstraint(table: string, column: string, p: StructProp): string {
    if HasConstraint(NotNull, p) then SetNotNull(table, column) else SetNull(table, column)
  }

  /** SET NOT NULL is chosen iff `NotNull` or `PrimaryKey` is listed, DROP NOT NULL otherwise. */
  lemma SetColumnNullConstraintSpec(table: string, column: string, p: StructProp)
    ensures var listed := p.constraints.Some? && (NotNull in p.constraints.value || PrimaryKey in p.constraints.value);
      && (SetColumnNullConstraint(table, column, p) == SetNotNull(table, column) <==> listed)
      && (SetColumnNullConstraint(table, column, p) == SetNull(table, column) <==> !listed)
  {
    HasConstraintSpec(NotNull, p);
    NullStatements(table, column);
  }

  // ---------------------------------------------------------------- composites

  /** `createCompositeUnique`. */
  function CreateCompositeUnique(t: TableStrict): (r: seq<string>)
    ensures forall k :: 0 <= k < |r| ==> r[k] != ""
  {
    if t.unique.Some? && |t.unique.value| > 0 then
      seq(|t.unique.value|, i requires 0 <= i < |t.unique.value| => Sql.Unique(t.unique.value[i]))
    else []
  }

  /** `map(foreignKeyComposite)`: the first mismatched entry throws. */
  function ForeignKeyTexts(fks: seq<RelationComposite>): (r: Result<seq<string>, string>)
    ensures r.Ok? ==> |r.value| == |fks| && forall k :: 0 <= k < |fks| ==> r.value[k] != ""
  {
    if |fks| == 0 then Ok([])
    else
      var head := ForeignKeyComposite(fks[0].props, fks[0].propsForeign, fks[0].struct);
      if head.Err? then Err(head.error)
      else
        var tail := ForeignKeyTexts(fks[1..]);
        if tail.Err? then tail else Ok([head.value] + tail.value)
  }

  /** `createCompositeForeignKey`. */
  function CreateCompositeForeignKey(t: TableStrict): Result<seq<string>, string> {
    if t.foreignKey.Some? && |t.foreignKey.value| > 0 then ForeignKeyTexts(t.foreignKey.value) else Ok([])
  }

  /** `createCompositePrimaryKey`. */
  function CreateCompositePrimaryKey(t: TableStrict): string {
    if t.primaryKey.Some? && |t.primaryKey.value| > 0 then Sql.PrimaryKey(t.primaryKey.value) else ""
  }

  /** `createCompositeConstraints`; a composite foreign key with mismatched lists throws. */
  function CreateCompositeConstraints(t: TableStrict): Result<seq<string>, string> {
    match CreateCompositeForeignKey(t)
    case Err(e) => Err(e)
    case Ok(fks) => Ok(Filter(NonEmptyString, CreateCompositeUnique(t) + fks + [CreateCompositePrimaryKey(t)]))
  }

  /** Some composite foreign key of the table pairs lists of different lengths. */
  predicate ForeignKeyMismatch(t: TableStrict) {
    && t.foreignKey.Some?
    && exists k :: 0 <= k < |t.foreignKey.value| && |t.foreignKey.value[k].props| != |t.foreignKey.value[k].propsForeign|
  }

  lemma {:induction false} ForeignKeyTextsSpec(fks: seq<RelationComposite>)
    ensures ForeignKeyTexts(fks).Err? <==> exists k :: 0 <= k < |fks| && |fks[k].props| != |fks[k].propsForeign|
    ensures ForeignKeyTexts(fks).Err? ==>
      ForeignKeyTexts(fks).error == "foreignKeyComposite column/reference mismatch"
    ensures ForeignKeyTexts(fks).Ok? ==> forall k :: 0 <= k < |fks| ==>
      ForeignKeyTexts(fks).value[k] == ForeignKeyComposite(fks[k].props, fks[k].propsForeign, fks[k].struct).value
  {
    if |fks| > 0 {
      ForeignKeyTextsSpec(fks[1..]);
      assert forall k :: 1 <= k < |fks| ==> fks[1..][k - 1] == fks[k];
      if |fks[0].props| == |fks[0].propsForeign| && ForeignKeyTexts(fks[1..]).Err? {
        var k :| 0 <= k < |fks[1..]| && |fks[1..][k].props| != |fks[1..][k].propsForeign|;
        assert |fks[k + 1].props| != |fks[k + 1].propsForeign|;
      }
    }
  }

  /**
   * The composite constraints are the uniques, then the foreign keys, then the
   * primary key when one is declared; nothing else is dropped, and the only
   * failure is a foreign key whose two column lists differ in length.
   */
  lemma CreateCompositeConstraintsSpec(t: TableStrict)
    ensures CreateCompositeConstraints(t).Err? <==> ForeignKeyMismatch(t)
    ensures CreateCompositeConstraints(t).Ok? ==>
      CreateCompositeConstraints(t).value ==
        CreateCompositeUnique(t) + CreateCompositeForeignKey(t).value
        + (if t.primaryKey.Some? && |t.primaryKey.value| > 0 then [Sql.PrimaryKey(t.primaryKey.value)] else [])
  {
    if t.foreignKey.Some? {
      ForeignKeyTextsSpec(t.foreignKey.value);
    }
    var fk := CreateCompositeForeignKey(t);
    if fk.Ok? {
      var u := CreateCompositeUnique(t);
      var pk := CreateCompositePrimaryKey(t);
      FilterKeeps(NonEmptyString, u + fk.value);
      FilterAppend(NonEmptyString, u + fk.value, [pk]);
      assert Filter(NonEmptyString, [pk]) == if pk != "" then [pk] else [];
    }
  }

  // ---------------------------------------------------------------- CREATE TABLE

  /** The trimmed text of one column entry. */
  function TrimmedColumn(e: (string, StructProp)): string {
    Trim(CreateColumnFromProp(e.0, e.1))
  }

  /** `xs.map(f)`. */
  function MapSeq<X, Y>(f: X -> Y, xs: seq<X>): (r: seq<Y>)
    ensures |r| == |xs| && forall k :: 0 <= k < |xs| ==> r[k] == f(xs[k])
  {
    seq(|xs|, k requires 0 <= k < |xs| => f(xs[k]))
  }

  lemma MapSeqAppend<X, Y>(f: X -> Y, a: seq<X>, b: seq<X>)
    ensures MapSeq(f, a + b) == MapSeq(f, a) + MapSeq(f, b)
  {
  }

  /** The trimmed text of every column, in column order. */
  function TrimmedColumns(struct: StructStrict): seq<string> {
    MapSeq(TrimmedColumn, struct)
  }

  /**
   * The `objReduce` of `createTableFromStruct`, which pushes each trimmed
   * column text that is not empty.
   */
  function ColumnTexts(struct: StructStrict): seq<string> {
    Filter(NonEmptyString, TrimmedColumns(struct))
  }

  /** Columns are listed in column order: the texts of two column maps, one after the other. */
  lemma ColumnTextsAppend(a: StructStrict, b: StructStrict)
    ensures ColumnTexts(a + b) == ColumnTexts(a) + ColumnTexts(b)
  {
    MapSeqAppend(TrimmedColumn, a, b);
    FilterAppend(NonEmptyString, TrimmedColumns(a), TrimmedColumns(b));
  }

  /** A column text is listed iff it is the non-empty trimmed text of some column. */
  lemma ColumnTextsMembers(struct: StructStrict, x: string)
    ensures x in ColumnTexts(struct) <==>
      x != "" && exists k :: 0 <= k < |struct| && x == Trim(CreateColumnFromProp(struct[k].0, struct[k].1))
  {
    var ts := TrimmedColumns(struct);
    FilterMembers(NonEmptyString, ts, x);
    if x in ts {
      var k :| 0 <= k < |ts| && ts[k] == x;
      assert x == Trim(CreateColumnFromProp(struct[k].0, struct[k].1));
    }
  }

  /** `createTableFromStruct(query, name, s)`: the CREATE TABLE text, or the composite key error. */
  function CreateTableFromStruct(name: string, t: TableStrict): Result<string, string> {
    match CreateCompositeConstraints(t)
    case Err(e) => Err(e)
    case Ok(composites) => Ok(CreateTable(name, ColumnTexts(t.struct) + composites))
  }

  /**
   * The CREATE TABLE lists the non-empty columns, then the composite
   * constraints, and no item of the list is empty.
   */
  lemma CreateTableFromStructSpec(name: string, t: TableStrict)
    ensures CreateTableFromStruct(name, t).Err? <==> ForeignKeyMismatch(t)
    ensures CreateTableFromStruct(name, t).Ok? ==>
      var items := ColumnTexts(t.struct) + CreateCompositeConstraints(t).value;
      && CreateTableFromStruct(name, t).value == CreateTable(name, items)
      && forall k :: 0 <= k < |items| ==> items[k] != ""
  {
    CreateCompositeConstraintsSpec(t);
    var c := CreateCompositeConstraints(t);
    if c.Ok? {
      var cols := ColumnTexts(t.struct);
      assert CreateTableFromStruct(name, t) == Ok(CreateTable(name, cols + c.value));
      AllNonEmptyAppend(cols, c.value);
    }
  }

  lemma AllNonEmptyAppend(a: seq<string>, b: seq<string>)
    requires forall k :: 0 <= k < |a| ==> a[k] != ""
    requires forall k :: 0 <= k < |b| ==> b[k] != ""
    ensures forall k :: 0 <= k < |a + b| ==> (a + b)[k] != ""
  {
  }
}
