/**
 * schema.ts: the declared schema (type tags, constraints, relations, column
 * props, tables) and the validation records the checkers produce.
 */
module Schema {
  import opened Wrappers
  import opened Js
  import opened Util

  /** `SchemaType`: the 11 numeric and 4 non-numeric tags. */
  datatype SchemaType =
    | Decimal | Int8 | Int16 | Int32 | Int64
    | UInt8 | UInt16 | UInt32 | UInt64 | TimestampMs | TimestampS
    | Boolean | Date | Ipv4 | String

  predicate IsNumeric(t: SchemaType) {
    !(t.Boolean? || t.Date? || t.Ipv4? || t.String?)
  }

  /** The tag as it is written in a schema (the JSON string). */
  function TypeName(t: SchemaType): (s: string)
    ensures |s| > 0
  {
    match t
    case Decimal => "Decimal"
    case Int8 => "Int8"
    case Int16 => "Int16"
    case Int32 => "Int32"
    case Int64 => "Int64"
    case UInt8 => "UInt8"
    case UInt16 => "UInt16"
    case UInt32 => "UInt32"
    case UInt64 => "UInt64"
    case TimestampMs => "TimestampMs"
    case TimestampS => "TimestampS"
    case Boolean => "Boolean"
    case Date => "Date"
    case Ipv4 => "Ipv4"
    case String => "String"
  }

  /** Reads a tag back; every other string is not a type. */
  function ParseType(s: string): Option<SchemaType> {
    if s == "Decimal" then Some(Decimal)
    else if s == "Int8" then Some(Int8)
    else if s == "Int16" then Some(Int16)
    else if s == "Int32" then Some(Int32)
    else if s == "Int64" then Some(Int64)
    else if s == "UInt8" then Some(UInt8)
    else if s == "UInt16" then Some(UInt16)
    else if s == "UInt32" then Some(UInt32)
    else if s == "UInt64" then Some(UInt64)
    else if s == "TimestampMs" then Some(TimestampMs)
    else if s == "TimestampS" then Some(TimestampS)
    else if s == "Boolean" then Some(Boolean)
    else if s == "Date" then Some(Date)
    else if s == "Ipv4" then Some(Ipv4)
    else if s == "String" then Some(String)
    else None
  }

  lemma ParseTypeName(t: SchemaType)
    ensures ParseType(TypeName(t)) == Some(t)
  {
  }

  lemma ParseTypeInverse(s: string)
    ensures ParseType(s).Some? ==> TypeName(ParseType(s).value) == s
  {
  }

  lemma TypeNameInjective(a: SchemaType, b: SchemaType)
    ensures TypeName(a) == TypeName(b) ==> a == b
  {
    ParseTypeName(a);
    ParseTypeName(b);
  }

  /** `SchemaConstraint`. */
  datatype Constraint =
    | Automatic | Check | DbModifyOnly | DbInternal | EncryptAppLayer
    | EncryptDbLayer | NotNull | PrimaryKey | Unique

  function ConstraintName(c: Constraint): (s: string)
    ensures |s| > 0
  {
    match c
    case Automatic => "Automatic"
    case Check => "Check"
    case DbModifyOnly => "DbModifyOnly"
    case DbInternal => "DbInternal"
    case EncryptAppLayer => "EncryptAppLayer"
    case EncryptDbLayer => "EncryptDbLayer"
    case NotNull => "NotNull"
    case PrimaryKey => "PrimaryKey"
    case Unique => "Unique"
  }

  /** `SchemaRelation`: a column referencing column `prop` of table `struct`. */
  datatype Relation = Relation(prop: string, struct: string)

  /** `SchemaRelationComposite`: a composite FOREIGN KEY. */
  datatype RelationComposite = RelationComposite(props: seq<string>, propsForeign: seq<string>, struct: string)

  /** `SchemaStructProp`; absent optional members are `None`. */
  datatype StructProp = StructProp(
    constraints: Option<seq<Constraint>>,
    defaultValue: Option<Value>,
    relation: Option<Relation>,
    typ: SchemaType,
    typeMax: Option<int>,
    typeMin: Option<int>)

  /** A prop with only its type, as `strictify` writes a bare tag. */
  function PropOfType(t: SchemaType): (p: StructProp)
    ensures p.typ == t && p.constraints.None? && p.relation.None?
  {
    StructProp(None, None, None, t, None, None)
  }

  /** `SchemaStructItem`: a bare type tag or a full prop. */
  datatype StructItem = Bare(tag: SchemaType) | Full(prop: StructProp)

  type Struct = Dict<StructItem>
  type StructStrict = Dict<StructProp>

  /**
   * `SchemaItem`: a table definition (`SchemaProp`, with its optional composite
   * constraints) or a bare column map (`SchemaStruct`).
   */
  datatype SchemaItem =
    | Table(struct: Struct, unique: Option<seq<seq<string>>>, primaryKey: Option<seq<string>>,
            foreignKey: Option<seq<RelationComposite>>)
    | BareStruct(columns: Struct)

  /** `SchemaPropStrict`. */
  datatype TableStrict = TableStrict(struct: StructStrict, unique: Option<seq<seq<string>>>,
                                     primaryKey: Option<seq<string>>, foreignKey: Option<seq<RelationComposite>>)

  type Schema = Dict<SchemaItem>
  type SchemaStrict = Dict<TableStrict>

  /** `SchemaValidation.type`. */
  datatype Kind = TableKind | ColumnKind | TypeKind

  /** `Reasons`. */
  datatype Reason = NotInDb | NotInCode | TypeMismatch | ConstraintReason

  /** The two `SchemaValidationExtra` texts for null-constraint differences. */
  const DbNullCodeNotNull: string := "db: NULL code: NOT NULL"
  const DbNotNullCodeNull: string := "db: NOT NULL code: NULL"

  /** `SchemaValidation`. */
  datatype Validation = Validation(kind: Kind, name: string, reason: Reason, extra: Option<string>)

  /** `SchemaValidationContainer`: `error` may be falsy (None). */
  datatype Container = Container(error: Option<Validation>, name: string)

  /** `SchemaValidationCollection`. */
  datatype Collection = Collection(errors: seq<Validation>, names: seq<string>)
}
