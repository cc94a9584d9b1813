/**
 * fixer-functions.ts, second half: `strictify`, which expands the shorthand
 * forms of a schema (bare type tags, bare column maps) into the strict form,
 * and `mutateStructIntoSchemaStructs`, which adds columns to every table in
 * place.
 *
 * The source folds each dictionary into a fresh object with `s[i] = ...`;
 * the keys of a JavaScript object are distinct, so the fold writes every key
 * once, in key order, and is modelled here as the entry-wise map.
 */
module FixerSchema {
  import opened Wrappers
  import opened Util
  import opened Schema
  import opened SchemaGuards

  // ---------------------------------------------------------------- strictify

  /** `strictifySchemaStructItem`: a bare tag becomes `{type: tag}`, a prop stays. */
  function StrictifyStructItem(item: StructItem): (p: StructProp)
    ensures item.Bare? ==> p == PropOfType(item.tag)
    ensures item.Full? ==> p == item.prop
  {
    match item
    case Bare(t) => PropOfType(t)
    case Full(p) => p
  }

  /** `strictifySchemaStruct`. */
  function StrictifyStruct(struct: Struct): (r: StructStrict)
    ensures |r| == |struct|
    ensures forall k :: 0 <= k < |struct| ==> r[k] == (struct[k].0, StrictifyStructItem(struct[k].1))
  {
    seq(|struct|, k requires 0 <= k < |struct| => (struct[k].0, StrictifyStructItem(struct[k].1)))
  }

  /**
   * `strictifySchemaItem`.  A table whose columns are all props is returned
   * as it is; a table with a bare tag gets its struct strictified and keeps
   * its composite keys; a bare column map is wrapped as `{struct: ...}`.
   */
  function StrictifySchemaItem(item: SchemaItem): TableStrict {
    match item
    case Table(struct, u, pk, fk) =>
      if forall k :: 0 <= k < |struct| ==> struct[k].1.Full? then
        TableStrict(seq(|struct|, k requires 0 <= k < |struct| => (struct[k].0, struct[k].1.prop)), u, pk, fk)
      else
        TableStrict(StrictifyStruct(struct), u, pk, fk)
    case BareStruct(columns) => TableStrict(StrictifyStruct(columns), None, None, None)
  }

  /** `strictify(schema)`. */
  function Strictify(schema: Schema): (r: SchemaStrict)
    ensures |r| == |schema|
    ensures forall k :: 0 <= k < |schema| ==> r[k] == (schema[k].0, StrictifySchemaItem(schema[k].1))
  {
    seq(|schema|, k requires 0 <= k < |schema| => (schema[k].0, StrictifySchemaItem(schema[k].1)))
  }

  /** A strict column map written in the loose form (every column a full prop). */
  function LoosenStruct(struct: StructStrict): (r: Struct)
    ensures |r| == |struct|
    ensures forall k :: 0 <= k < |struct| ==> r[k] == (struct[k].0, Full(struct[k].1))
  {
    seq(|struct|, k requires 0 <= k < |struct| => (struct[k].0, Full(struct[k].1)))
  }

  /** A strict table written as a schema item. */
  function Loosen(t: TableStrict): SchemaItem {
    Table(LoosenStruct(t.struct), t.unique, t.primaryKey, t.foreignKey)
  }

  function LoosenSchema(schema: SchemaStrict): (r: Schema)
    ensures |r| == |schema|
    ensures forall k :: 0 <= k < |schema| ==> r[k] == (schema[k].0, Loosen(schema[k].1))
  {
    seq(|schema|, k requires 0 <= k < |schema| => (schema[k].0, Loosen(schema[k].1)))
  }

  /** Both table branches give the strictified columns: a prop-only struct is its own strict form. */
  lemma StrictifyItemStruct(item: SchemaItem)
    ensures StrictifySchemaItem(item).struct == StrictifyStruct(SchemaColumns(item))
  {
    if item.Table? {
      var struct := item.struct;
      if forall k :: 0 <= k < |struct| ==> struct[k].1.Full? {
        assert forall k :: 0 <= k < |struct| ==> StrictifyStructItem(struct[k].1) == struct[k].1.prop;
      }
    }
  }

  /** An already strict table comes back unchanged. */
  lemma StrictifyStrict(t: TableStrict)
    ensures StrictifySchemaItem(Loosen(t)) == t
  {
    StrictifyItemStruct(Loosen(t));
    assert StrictifyStruct(LoosenStruct(t.struct)) == t.struct;
  }

  /** An already strict schema comes back unchanged. */
  lemma StrictifySchemaStrict(schema: SchemaStrict)
    ensures Strictify(LoosenSchema(schema)) == schema
  {
    forall k | 0 <= k < |schema|
      ensures Strictify(LoosenSchema(schema))[k] == schema[k]
    {
      StrictifyStrict(schema[k].1);
    }
  }

  /** `strictify` is idempotent. */
  lemma StrictifyIdempotent(schema: Schema)
    ensures Strictify(LoosenSchema(Strictify(schema))) == Strictify(schema)
  {
    StrictifySchemaStrict(Strictify(schema));
  }

  /** Table names, their order and every table's column names are kept. */
  lemma StrictifyNames(schema: Schema)
    ensures Keys(Strictify(schema)) == Keys(schema)
    ensures forall k :: 0 <= k < |schema| ==> Keys(Strictify(schema)[k].1.struct) == Keys(SchemaColumns(schema[k].1))
  {
    forall k | 0 <= k < |schema|
      ensures Keys(Strictify(schema)[k].1.struct) == Keys(SchemaColumns(schema[k].1))
    {
      var c := SchemaColumns(schema[k].1);
      StrictifyItemStruct(schema[k].1);
      assert Keys(StrictifyStruct(c)) == Keys(c);
    }
  }

  /** The column map of a schema item: a table's struct, or the bare map itself. */
  function SchemaColumns(item: SchemaItem): Struct {
    match item
    case Table(struct, _, _, _) => struct
    case BareStruct(columns) => columns
  }

  /** A bare tag T becomes `{type: T}`; a table keeps its composite keys, a bare map gets none. */
  lemma StrictifyItemShape(item: SchemaItem, column: string)
    ensures var t := StrictifySchemaItem(item);
      && Get(t.struct, column) == (match Get(SchemaColumns(item), column)
           case None => None
           case Some(i) => Some(StrictifyStructItem(i)))
      && (item.Table? ==> t.unique == item.unique && t.primaryKey == item.primaryKey && t.foreignKey == item.foreignKey)
      && (item.BareStruct? ==> t.unique.None? && t.primaryKey.None? && t.foreignKey.None?)
  {
    StrictifyItemStruct(item);
    StrictifyGet(SchemaColumns(item), column);
  }

  lemma {:induction false} StrictifyGet(struct: Struct, column: string)
    ensures Get(StrictifyStruct(struct), column) == match Get(struct, column)
      case None => None
      case Some(i) => Some(StrictifyStructItem(i))
  {
    if |struct| > 0 {
      StrictifyGet(struct[1..], column);
      assert StrictifyStruct(struct)[1..] == StrictifyStruct(struct[1..]);
    }
  }

  // The branch the source takes is decided by run-time guards on the
  // JavaScript value; the typed branches above agree with them.

  function ListOfLists(xss: seq<seq<string>>): Any {
    AArr(seq(|xss|, i requires 0 <= i < |xss| => StrList(xss[i])))
  }

  /** A schema item as a JavaScript value. */
  function SchemaItemToAny(item: SchemaItem): Any {
    match item
    case Table(struct, u, pk, fk) =>
      AObj([("struct", StructToAny(struct))]
        + OptField("unique", if u.Some? then Some(ListOfLists(u.value)) else None)
        + OptField("primaryKey", if pk.Some? then Some(StrList(pk.value)) else None)
        + OptField("foreignKey", if fk.Some? then
            Some(AArr(seq(|fk.value|, i requires 0 <= i < |fk.value| => CompositeToAny(fk.value[i])))) else None))
    case BareStruct(columns) => StructToAny(columns)
  }

  /**
   * A table passes `isSchemaProp`, and then `isSchemaStructStrict` exactly when
   * no column is a bare tag; a bare column map without a column named
   * `struct` fails `isSchemaProp`.
   */
  lemma StrictifyGuards(item: SchemaItem)
    ensures item.Table? ==> IsSchemaProp(SchemaItemToAny(item))
    ensures item.Table? ==> (IsSchemaStructStrict(Prop(SchemaItemToAny(item), "struct")) <==>
      forall k :: 0 <= k < |item.struct| ==> item.struct[k].1.Full?)
    ensures item.BareStruct? && "struct" !in Keys(item.columns) ==> !IsSchemaProp(SchemaItemToAny(item))
  {
    match item
    case Table(struct, _, _, _) =>
      var fields := SchemaItemToAny(item).fields;
      assert fields[0] == ("struct", StructToAny(struct));
      GetFirst(fields, 0);
      StructIsSchemaStruct(struct);
      StructIsStrict(struct);
    case BareStruct(columns) =>
      var fields := StructToAny(columns).fields;
      if "struct" !in Keys(columns) {
        forall j | 0 <= j < |fields| ensures fields[j].0 != "struct" {
          assert fields[j].0 == Keys(columns)[j];
        }
        GetAbsent(fields, "struct");
      }
  }

  // ---------------------------------------------------------------- mutateStructIntoSchemaStructs

  /** Truthiness of a column entry: a tag is a non-empty string and a prop an object. */
  function ItemTruthy(item: StructItem): bool {
    match item
    case Bare(t) => |TypeName(t)| > 0
    case Full(_) => true
  }

  /** `objReduce(s, augmentObjIfNew, struct)`: the columns of `s` that `struct` lacks are added. */
  function AugmentWith(struct: Struct, s: Struct): Struct
    decreases |s|
  {
    if |s| == 0 then struct
    else AugmentWith(AugmentedIfNew(struct, s[0].1, s[0].0, ItemTruthy), s[1..])
  }

  /** An existing column is kept; a missing one takes the first entry of `s` with its name. */
  lemma {:induction false} AugmentWithGet(struct: Struct, s: Struct, column: string)
    ensures Get(AugmentWith(struct, s), column) ==
      if Get(struct, column).Some? then Get(struct, column) else Get(s, column)
    decreases |s|
  {
    if |s| > 0 {
      var next := AugmentedIfNew(struct, s[0].1, s[0].0, ItemTruthy);
      AugmentedIfNewSpec(struct, s[0].1, s[0].0, ItemTruthy);
      AugmentWithGet(next, s[1..], column);
    }
  }

  /** The existing columns keep their places; new ones follow. */
  lemma {:induction false} AugmentWithKeys(struct: Struct, s: Struct)
    ensures Keys(struct) <= Keys(AugmentWith(struct, s))
    decreases |s|
  {
    if |s| > 0 {
      var next := AugmentedIfNew(struct, s[0].1, s[0].0, ItemTruthy);
      if next != struct {
        PutKeys(struct, s[0].0, s[0].1);
      }
      AugmentWithKeys(next, s[1..]);
    }
  }

  /**
   * `item.struct ? item.struct : item` receives the new columns; a table
   * keeps its composite keys.
   */
  function AugmentItem(item: SchemaItem, s: Struct): SchemaItem {
    match item
    case Table(struct, u, pk, fk) => Table(AugmentWith(struct, s), u, pk, fk)
    case BareStruct(columns) => BareStruct(AugmentWith(columns, s))
  }

  /** The schema after `mutateStructIntoSchemaStructs(s, schema)`. */
  function AugmentSchema(schema: Schema, s: Struct): (r: Schema)
    ensures |r| == |schema|
    ensures forall k :: 0 <= k < |schema| ==> r[k] == (schema[k].0, AugmentItem(schema[k].1, s))
  {
    seq(|schema|, k requires 0 <= k < |schema| => (schema[k].0, AugmentItem(schema[k].1, s)))
  }

  /**
   * Every table ends up with every column of `s`; the columns it had are
   * untouched, in place; table names and composite keys are unchanged.
   */
  lemma AugmentSchemaSpec(schema: Schema, s: Struct, k: nat, column: string)
    requires k < |schema|
    ensures var before, after := schema[k].1, AugmentSchema(schema, s)[k].1;
      && AugmentSchema(schema, s)[k].0 == schema[k].0
      && after.Table? == before.Table?
      && (before.Table? ==> after.unique == before.unique && after.primaryKey == before.primaryKey
                            && after.foreignKey == before.foreignKey)
      && Keys(SchemaColumns(before)) <= Keys(SchemaColumns(after))
      && Get(SchemaColumns(after), column) ==
           if Get(SchemaColumns(before), column).Some? then Get(SchemaColumns(before), column)
           else Get(s, column)
  {
    AugmentWithGet(SchemaColumns(schema[k].1), s, column);
    AugmentWithKeys(SchemaColumns(schema[k].1), s);
  }

  /** A schema whose tables' column maps the library changes in place. */
  class MutableSchema {
    var schema: Schema

    constructor (init: Schema)
      ensures schema == init
    {
      schema := init;
    }

    /** `mutateStructIntoSchemaStructs(s, schema)`: returns the same schema object. */
    method MutateStructIntoSchemaStructs(s: Struct) returns (r: MutableSchema)
      modifies this
      ensures r == this
      ensures schema == AugmentSchema(old(schema), s)
    {
      ghost var orig := schema;
      var i := 0;
      while i < |schema|
        invariant 0 <= i <= |schema| == |orig|
        invariant forall j :: 0 <= j < i ==> schema[j] == (orig[j].0, AugmentItem(orig[j].1, s))
        invariant forall j :: i <= j < |schema| ==> schema[j] == orig[j]
        decreases |orig| - i
      {
        var item := schema[i].1;
        ghost var before := schema;
        var struct := new MutableDict(SchemaColumns(item));
        var k := 0;
        while k < |s|
          invariant 0 <= k <= |s|
          invariant AugmentWith(struct.entries, s[k..]) == AugmentWith(SchemaColumns(item), s)
          invariant schema == before
        {
          assert s[k..][0] == s[k] && s[k..][1..] == s[k + 1..];
          var _ := struct.AugmentIfNew(s[k].1, s[k].0, ItemTruthy);
          k := k + 1;
        }
        var updated := match item
          case Table(_, u, pk, fk) => Table(struct.entries, u, pk, fk)
          case BareStruct(_) => BareStruct(struct.entries);
        schema := schema[i := (schema[i].0, updated)];
        i := i + 1;
      }
      r := this;
    }
  }
}
