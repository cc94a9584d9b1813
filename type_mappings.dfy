/**
 * type-mappings.ts: the static tables relating schema type tags and
 * constraints to PostgreSQL text, and the indexes derived from them.
 */
module TypeMappings {
  import opened Wrappers
  import opened Util
  import opened Schema

  /** `TypeMapping`: `createA` is the fallback used when `create` is empty. */
  datatype TypeMapping = TypeMapping(create: string, createA: Option<string>, generic: SchemaType,
                                     infoSchema: string, ts: string)

  /** `ConstraintMapping`. */
  datatype ConstraintMapping = ConstraintMapping(create: string, createA: Option<string>, generic: Constraint)

  function M(create: string, generic: SchemaType, infoSchema: string, ts: string): TypeMapping {
    TypeMapping(create, None, generic, infoSchema, ts)
  }

  /** `typeMappings`, in table order. */
  const Mappings: seq<TypeMapping> := [
    M("bigint", Int64, "bigint", "number"),
    M("bigint", UInt64, "bigint", "number"),
    M("boolean", Boolean, "boolean", "boolean"),
    M("inet", Ipv4, "inet", "string"),
    TypeMapping("", Some("varchar"), String, "character varying", "string"),
    M("integer", Int32, "integer", "number"),
    M("smallint", Int16, "smallint", "number"),
    M("integer", UInt32, "integer", "number"),
    M("smallint", UInt16, "smallint", "number"),
    M("timestamp default current_timestamp", TimestampS, "timestamp without time zone", "number")
  ]

  function InfoSchemaOf(m: TypeMapping): string { m.infoSchema }
  function GenericOf(m: TypeMapping): string { TypeName(m.generic) }

  /** `typeMappingsByGeneric`, written out; `ByGenericDerived` shows it is `arrToObj(typeMappings, 'generic')`. */
  const ByGeneric: Dict<TypeMapping> := [
    ("Int64", Mappings[0]), ("UInt64", Mappings[1]), ("Boolean", Mappings[2]), ("Ipv4", Mappings[3]),
    ("String", Mappings[4]), ("Int32", Mappings[5]), ("Int16", Mappings[6]), ("UInt32", Mappings[7]),
    ("UInt16", Mappings[8]), ("TimestampS", Mappings[9])
  ]

  /**
   * `typeMappingsByInfoSchema`, written out; `ByInfoSchemaDerived` shows it
   * answers every lookup as `arrToObj(typeMappings, 'infoSchema', true)` does.
   */
  const ByInfoSchema: Dict<seq<TypeMapping>> := [
    ("bigint", [Mappings[0], Mappings[1]]), ("boolean", [Mappings[2]]), ("inet", [Mappings[3]]),
    ("character varying", [Mappings[4]]), ("integer", [Mappings[5], Mappings[7]]),
    ("smallint", [Mappings[6], Mappings[8]]), ("timestamp without time zone", [Mappings[9]])
  ]

  /** The position of each generic's entry in `typeMappings`, or -1. */
  function IndexOfGeneric(t: SchemaType): (i: int)
    ensures -1 <= i < |Mappings| && (i >= 0 ==> Mappings[i].generic == t)
  {
    match t
    case Int64 => 0
    case UInt64 => 1
    case Boolean => 2
    case Ipv4 => 3
    case String => 4
    case Int32 => 5
    case Int16 => 6
    case UInt32 => 7
    case UInt16 => 8
    case TimestampS => 9
    case _ => -1
  }

  lemma GenericKeysDistinct()
    ensures forall i, j :: 0 <= i < j < |Mappings| ==> GenericOf(Mappings[i]) != GenericOf(Mappings[j])
  {
    var ms := Mappings;
    assert forall i, j :: 0 <= i < j < |ms| ==> ms[i].generic != ms[j].generic;
    forall i, j | 0 <= i < j < |ms| ensures GenericOf(ms[i]) != GenericOf(ms[j]) {
      ParseTypeName(ms[i].generic);
      ParseTypeName(ms[j].generic);
    }
  }

  lemma ByGenericEntries(r: Dict<TypeMapping>)
    requires |r| == |Mappings| && forall i :: 0 <= i < |Mappings| ==> r[i] == (GenericOf(Mappings[i]), Mappings[i])
    ensures r == ByGeneric
  {
    forall i | 0 <= i < |r| ensures r[i] == ByGeneric[i] {
    }
  }

  /** The written-out index is the one `arrToObj(typeMappings, 'generic')` builds. */
  lemma ByGenericDerived()
    ensures ArrToObj(Mappings, GenericOf) == ByGeneric
  {
    GenericKeysDistinct();
    ArrToObjDistinct(Mappings, GenericOf);
    ByGenericEntries(ArrToObj(Mappings, GenericOf));
  }

  /** The indices in `typeMappings` of the entries of group `g` of the by-infoSchema index. */
  function GroupIndices(g: nat): seq<nat>
    requires g < |ByInfoSchema|
  {
    [[0, 1], [2], [3], [4], [5, 7], [6, 8], [9]][g]
  }

  /** The group of `typeMappings[i]` in the by-infoSchema index. */
  function GroupOf(i: nat): (g: nat)
    requires i < |Mappings|
    ensures g < |ByInfoSchema| && ByInfoSchema[g].0 == Mappings[i].infoSchema && i in GroupIndices(g)
  {
    [0, 0, 1, 2, 3, 4, 5, 4, 5, 6][i]
  }

  lemma InfoSchemaKeysDistinct(g: nat)
    requires g < |ByInfoSchema|
    ensures forall h :: 0 <= h < g ==> ByInfoSchema[h].0 != ByInfoSchema[g].0
  {
  }

  lemma InfoSchemaKeysPairwise()
    ensures forall g, h :: 0 <= g < |ByInfoSchema| && 0 <= h < |ByInfoSchema| && g != h ==> ByInfoSchema[g].0 != ByInfoSchema[h].0
  {
    forall g, h | 0 <= g < |ByInfoSchema| && 0 <= h < |ByInfoSchema| && g != h ensures ByInfoSchema[g].0 != ByInfoSchema[h].0 {
      if h < g { InfoSchemaKeysDistinct(g); } else { InfoSchemaKeysDistinct(h); }
    }
  }

  lemma GroupIndicesSpec(g: nat, i: nat)
    requires g < |ByInfoSchema| && i < |Mappings|
    ensures i in GroupIndices(g) <==> GroupOf(i) == g
    ensures forall a, b :: 0 <= a < b < |GroupIndices(g)| ==> GroupIndices(g)[a] < GroupIndices(g)[b]
    ensures forall m :: 0 <= m < |GroupIndices(g)| ==> GroupIndices(g)[m] < |Mappings|
  {
  }

  lemma GroupMembers(g: nat)
    requires g < |ByInfoSchema|
    ensures forall i :: 0 <= i < |Mappings| ==> (InfoSchemaOf(Mappings[i]) == ByInfoSchema[g].0 <==> i in GroupIndices(g))
    ensures Pick(Mappings, GroupIndices(g)) == ByInfoSchema[g].1
  {
    InfoSchemaKeysPairwise();
    forall i | 0 <= i < |Mappings| ensures InfoSchemaOf(Mappings[i]) == ByInfoSchema[g].0 <==> i in GroupIndices(g) {
      GroupIndicesSpec(g, i);
    }
    GroupIndicesSpec(g, 0);
  }

  lemma BigintGroupDerived()
    ensures Get(ArrToObjAggregate(Mappings, InfoSchemaOf), ByInfoSchema[0].0) == Some(ByInfoSchema[0].1)
  {
    GroupMembers(0);
    GroupIndicesSpec(0, 0);
    ArrToObjAggregateIndices(Mappings, InfoSchemaOf, ByInfoSchema[0].0, GroupIndices(0));
  }

  lemma BooleanGroupDerived()
    ensures Get(ArrToObjAggregate(Mappings, InfoSchemaOf), ByInfoSchema[1].0) == Some(ByInfoSchema[1].1)
  {
    GroupMembers(1);
    GroupIndicesSpec(1, 0);
    ArrToObjAggregateIndices(Mappings, InfoSchemaOf, ByInfoSchema[1].0, GroupIndices(1));
  }

  lemma InetGroupDerived()
    ensures Get(ArrToObjAggregate(Mappings, InfoSchemaOf), ByInfoSchema[2].0) == Some(ByInfoSchema[2].1)
  {
    GroupMembers(2);
    GroupIndicesSpec(2, 0);
    ArrToObjAggregateIndices(Mappings, InfoSchemaOf, ByInfoSchema[2].0, GroupIndices(2));
  }

  lemma CharacterVaryingGroupDerived()
    ensures Get(ArrToObjAggregate(Mappings, InfoSchemaOf), ByInfoSchema[3].0) == Some(ByInfoSchema[3].1)
  {
    GroupMembers(3);
    GroupIndicesSpec(3, 0);
    ArrToObjAggregateIndices(Mappings, InfoSchemaOf, ByInfoSchema[3].0, GroupIndices(3));
  }

  lemma IntegerGroupDerived()
    ensures Get(ArrToObjAggregate(Mappings, InfoSchemaOf), ByInfoSchema[4].0) == Some(ByInfoSchema[4].1)
  {
    GroupMembers(4);
    GroupIndicesSpec(4, 0);
    ArrToObjAggregateIndices(Mappings, InfoSchemaOf, ByInfoSchema[4].0, GroupIndices(4));
  }

  lemma SmallintGroupDerived()
    ensures Get(ArrToObjAggregate(Mappings, InfoSchemaOf), ByInfoSchema[5].0) == Some(ByInfoSchema[5].1)
  {
    GroupMembers(5);
    GroupIndicesSpec(5, 0);
    ArrToObjAggregateIndices(Mappings, InfoSchemaOf, ByInfoSchema[5].0, GroupIndices(5));
  }

  lemma TimestampGroupDerived()
    ensures Get(ArrToObjAggregate(Mappings, InfoSchemaOf), ByInfoSchema[6].0) == Some(ByInfoSchema[6].1)
  {
    GroupMembers(6);
    GroupIndicesSpec(6, 0);
    ArrToObjAggregateIndices(Mappings, InfoSchemaOf, ByInfoSchema[6].0, GroupIndices(6));
  }

  lemma InfoSchemaGroupDerived(g: nat)
    requires g < |ByInfoSchema|
    ensures Get(ArrToObjAggregate(Mappings, InfoSchemaOf), ByInfoSchema[g].0) == Some(ByInfoSchema[g].1)
  {
    if g == 0 {
      BigintGroupDerived();
    } else if g == 1 {
      BooleanGroupDerived();
    } else if g == 2 {
      InetGroupDerived();
    } else if g == 3 {
      CharacterVaryingGroupDerived();
    } else if g == 4 {
      IntegerGroupDerived();
    } else if g == 5 {
      SmallintGroupDerived();
    } else {
      TimestampGroupDerived();
    }
  }

  lemma InfoSchemaMissingDerived(dataType: string)
    requires dataType !in Keys(ByInfoSchema)
    ensures Get(ArrToObjAggregate(Mappings, InfoSchemaOf), dataType) == None
  {
    forall i | 0 <= i < |Mappings| ensures InfoSchemaOf(Mappings[i]) != dataType {
      var g := GroupOf(i);
      assert Keys(ByInfoSchema)[g] == ByInfoSchema[g].0;
    }
    WithKeyIndices(Mappings, InfoSchemaOf, dataType, []);
    ArrToObjAggregateGet(Mappings, InfoSchemaOf, dataType);
  }

  /** The written-out index answers every lookup as `arrToObj(typeMappings, 'infoSchema', true)` does. */
  lemma ByInfoSchemaDerived(dataType: string)
    ensures Get(ArrToObjAggregate(Mappings, InfoSchemaOf), dataType) == Get(ByInfoSchema, dataType)
  {
    var g := IndexOfKey(ByInfoSchema, dataType);
    if g >= 0 {
      InfoSchemaGroupDerived(g);
      InfoSchemaKeysDistinct(g);
      GetFirst(ByInfoSchema, g);
    } else {
      forall j | 0 <= j < |ByInfoSchema| ensures Keys(ByInfoSchema)[j] != dataType {
      }
      InfoSchemaMissingDerived(dataType);
    }
  }

  /** `typeMappingsByGeneric[type]`. */
  function MappingFor(t: SchemaType): Option<TypeMapping> {
    Get(ByGeneric, TypeName(t))
  }

  /** `typeMappingsByInfoSchema[dataType]`. */
  function MappingsForInfoSchema(dataType: string): Option<seq<TypeMapping>> {
    Get(ByInfoSchema, dataType)
  }

  predicate HasMapping(t: SchemaType) {
    t in {Int64, UInt64, Boolean, Ipv4, String, Int32, Int16, UInt32, UInt16, TimestampS}
  }

  /** Each generic is found at its own entry; Int8, UInt8, Decimal, Date and TimestampMs have none. */
  lemma MappingForIndex(t: SchemaType)
    ensures MappingFor(t) == if IndexOfGeneric(t) >= 0 then Some(Mappings[IndexOfGeneric(t)]) else None
  {
    var i := IndexOfGeneric(t);
    if i >= 0 {
      GetFirst(ByGeneric, i);
    }
  }

  lemma MappingForSpec(t: SchemaType)
    ensures MappingFor(t).Some? <==> HasMapping(t)
    ensures MappingFor(t).Some? ==> MappingFor(t).value in Mappings && MappingFor(t).value.generic == t
  {
    MappingForIndex(t);
  }

  /** The TypeScript type a generic maps to. */
  lemma MappingTs(t: SchemaType)
    requires HasMapping(t)
    ensures MappingFor(t).Some?
    ensures MappingFor(t).value.ts ==
      if t == Boolean then "boolean" else if t == String || t == Ipv4 then "string" else "number"
  {
    MappingForIndex(t);
  }

  /** String is the one mapping with an empty `create`; it falls back to `varchar`. */
  lemma OnlyStringHasEmptyCreate(t: SchemaType)
    requires HasMapping(t)
    ensures MappingFor(t).Some?
    ensures MappingFor(t).value.create == "" <==> t == String
    ensures t == String ==> MappingFor(t).value.createA == Some("varchar")
  {
    MappingForIndex(t);
  }

  /** The generics grouped under one `information_schema` data type, in table order. */
  function GenericsUnder(dataType: string): seq<SchemaType> {
    match MappingsForInfoSchema(dataType)
    case None => []
    case Some(ms) => seq(|ms|, k requires 0 <= k < |ms| => ms[k].generic)
  }

  lemma GroupGenerics(g: nat)
    requires g < |ByInfoSchema|
    ensures GenericsUnder(ByInfoSchema[g].0) == seq(|ByInfoSchema[g].1|, k requires 0 <= k < |ByInfoSchema[g].1| => ByInfoSchema[g].1[k].generic)
  {
    InfoSchemaKeysDistinct(g);
    GetFirst(ByInfoSchema, g);
  }

  /** A data type no entry uses (for example `varchar`) has no group. */
  lemma UnmappedInfoSchema(dataType: string)
    requires forall i :: 0 <= i < |Mappings| ==> Mappings[i].infoSchema != dataType
    ensures MappingsForInfoSchema(dataType).None?
  {
    forall g | 0 <= g < |ByInfoSchema| ensures Keys(ByInfoSchema)[g] != dataType {
      assert ByInfoSchema[g].0 == Mappings[GroupIndices(g)[0]].infoSchema;
    }
  }

  /** Where `typeMappings[i]` sits inside its group. */
  function PosInGroup(i: nat): (p: nat)
    requires i < |Mappings|
    ensures p < |GroupIndices(GroupOf(i))| && GroupIndices(GroupOf(i))[p] == i
  {
    [0, 1, 0, 0, 0, 0, 0, 1, 1, 0][i]
  }

  /** Round trip: every entry's generic is listed under its own `infoSchema` name. */
  lemma InfoSchemaRoundTrip(i: nat)
    requires i < |Mappings|
    ensures MappingsForInfoSchema(Mappings[i].infoSchema).Some?
    ensures Mappings[i] in MappingsForInfoSchema(Mappings[i].infoSchema).value
    ensures Mappings[i].generic in GenericsUnder(Mappings[i].infoSchema)
  {
    var g, p := GroupOf(i), PosInGroup(i);
    InfoSchemaKeysDistinct(g);
    GetFirst(ByInfoSchema, g);
    GroupMembers(g);
    var ms := ByInfoSchema[g].1;
    assert ms[p] == Mappings[i];
    assert GenericsUnder(Mappings[i].infoSchema)[p] == Mappings[i].generic;
  }

  function C(create: string, generic: Constraint): ConstraintMapping {
    ConstraintMapping(create, None, generic)
  }

  /** `constraintMappings`. */
  const ConstraintMappings: seq<ConstraintMapping> := [
    ConstraintMapping("", Some("CHECK"), Check),
    C("NOT NULL", NotNull),
    C("PRIMARY KEY", PrimaryKey),
    C("UNIQUE", Unique)
  ]

  function ConstraintGenericOf(m: ConstraintMapping): string { ConstraintName(m.generic) }

  /** `constraintMappingsByGeneric`, written out; `ConstraintsByGenericDerived` shows how it is built. */
  const ConstraintsByGeneric: Dict<ConstraintMapping> := [
    ("Check", ConstraintMappings[0]), ("NotNull", ConstraintMappings[1]),
    ("PrimaryKey", ConstraintMappings[2]), ("Unique", ConstraintMappings[3])
  ]

  lemma ConstraintEntries(r: Dict<ConstraintMapping>)
    requires |r| == |ConstraintMappings|
    requires forall i :: 0 <= i < |r| ==> r[i] == (ConstraintGenericOf(ConstraintMappings[i]), ConstraintMappings[i])
    ensures r == ConstraintsByGeneric
  {
    forall i | 0 <= i < |r| ensures r[i] == ConstraintsByGeneric[i] {
    }
  }

  lemma ConstraintsByGenericDerived()
    ensures ArrToObj(ConstraintMappings, ConstraintGenericOf) == ConstraintsByGeneric
  {
    var cm := ConstraintMappings;
    assert forall i, j :: 0 <= i < j < |cm| ==> ConstraintGenericOf(cm[i]) != ConstraintGenericOf(cm[j]);
    ArrToObjDistinct(cm, ConstraintGenericOf);
    ConstraintEntries(ArrToObj(cm, ConstraintGenericOf));
  }

  /** `constraintMappingsByGeneric[c]`. */
  function ConstraintMappingFor(c: Constraint): Option<ConstraintMapping> {
    Get(ConstraintsByGeneric, ConstraintName(c))
  }

  function IndexOfConstraint(c: Constraint): (i: int)
    ensures -1 <= i < |ConstraintMappings| && (i >= 0 ==> ConstraintMappings[i].generic == c)
  {
    match c
    case Check => 0
    case NotNull => 1
    case PrimaryKey => 2
    case Unique => 3
    case _ => -1
  }

  lemma ConstraintMappingIndex(c: Constraint)
    ensures ConstraintMappingFor(c) ==
      if IndexOfConstraint(c) >= 0 then Some(ConstraintMappings[IndexOfConstraint(c)]) else None
  {
    var i := IndexOfConstraint(c);
    if i >= 0 {
      GetFirst(ConstraintsByGeneric, i);
    }
  }

  /** NotNull, PrimaryKey and Unique have SQL text; Check's is empty; nothing else is mapped. */
  lemma ConstraintMappingSpec(c: Constraint)
    ensures ConstraintMappingFor(c).Some? <==> c in {Check, NotNull, PrimaryKey, Unique}
    ensures c == NotNull ==> ConstraintMappingFor(c) == Some(C("NOT NULL", NotNull))
    ensures c == PrimaryKey ==> ConstraintMappingFor(c) == Some(C("PRIMARY KEY", PrimaryKey))
    ensures c == Unique ==> ConstraintMappingFor(c) == Some(C("UNIQUE", Unique))
    ensures c == Check ==> ConstraintMappingFor(c) == Some(ConstraintMapping("", Some("CHECK"), Check))
  {
    ConstraintMappingIndex(c);
  }

  /** `automatics`, keyed by type tag. */
  const Automatics: Dict<string> := [
    ("Int32", "serial PRIMARY KEY"),
    ("Int64", "bigserial PRIMARY KEY"),
    ("TimestampS", "timestamp default current_timestamp"),
    ("UInt32", "serial PRIMARY KEY"),
    ("UInt64", "bigserial PRIMARY KEY")
  ]

  /** `automatics[type]`. */
  function AutomaticFor(t: SchemaType): Option<string> {
    Get(Automatics, TypeName(t))
  }

  function IndexOfAutomatic(t: SchemaType): (i: int)
    ensures -1 <= i < |Automatics| && (i >= 0 ==> Automatics[i].0 == TypeName(t))
  {
    match t
    case Int32 => 0
    case Int64 => 1
    case TimestampS => 2
    case UInt32 => 3
    case UInt64 => 4
    case _ => -1
  }

  lemma AutomaticIndex(t: SchemaType)
    ensures AutomaticFor(t) == if IndexOfAutomatic(t) >= 0 then Some(Automatics[IndexOfAutomatic(t)].1) else None
  {
    var i := IndexOfAutomatic(t);
    if i >= 0 {
      GetFirst(Automatics, i);
    } else {
      AutomaticAbsent(t);
    }
  }

  /** A type without an automatic column definition has no `automatics` entry. */
  lemma AutomaticAbsent(t: SchemaType)
    requires IndexOfAutomatic(t) < 0
    ensures AutomaticFor(t) == None
  {
    forall j | 0 <= j < |Automatics| ensures Automatics[j].0 != TypeName(t) {
      var u := [Int32, Int64, TimestampS, UInt32, UInt64][j];
      assert Automatics[j].0 == TypeName(u);
      assert IndexOfAutomatic(u) >= 0;
      TypeNameInjective(t, u);
    }
    GetAbsent(Automatics, TypeName(t));
  }

  lemma AutomaticsSpec(t: SchemaType)
    ensures AutomaticFor(t) ==
      if t == Int32 || t == UInt32 then Some("serial PRIMARY KEY")
      else if t == Int64 || t == UInt64 then Some("bigserial PRIMARY KEY")
      else if t == TimestampS then Some("timestamp default current_timestamp")
      else None
  {
    AutomaticIndex(t);
  }

  /** `appOnlyMappings`: constraints that have no effect on the database. */
  const AppOnlyMappings: seq<string> := ["Automatic", "DbModifyOnly", "DbInternal", "EncryptAppLayer", "EncryptDbLayer"]

  lemma AppOnlySpec(c: Constraint)
    ensures ConstraintName(c) in AppOnlyMappings <==> c in {Automatic, DbModifyOnly, DbInternal, EncryptAppLayer, EncryptDbLayer}
  {
  }
}
