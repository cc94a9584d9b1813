/**
 * schema-guards.ts: the constraint predicates on typed props and the run-time
 * guards that recognise a schema shape in an arbitrary JavaScript value.
 * The guards take an `Any`, a JSON-like value; the typed schema of module
 * Schema embeds into it (`StructToAny`, `ItemToAny`), and the lemmas at the
 * end say what the guards answer on such embedded values.
 */
module SchemaGuards {
  import opened Wrappers
  import opened Js
  import opened Util
  import opened Schema

  /** `hasConstraint`: a missing `NotNull` falls back to a `PrimaryKey` lookup. */
  function HasConstraint(c: Constraint, p: StructProp): bool
    decreases if c == NotNull then 1 else 0
  {
    if p.constraints.Some? && |p.constraints.value| > 0 then
      if c !in p.constraints.value then
        if c == NotNull then HasConstraint(PrimaryKey, p) else false
      else true
    else false
  }

  /** A constraint is present iff it is listed, or it is `NotNull` and `PrimaryKey` is listed. */
  lemma HasConstraintSpec(c: Constraint, p: StructProp)
    ensures HasConstraint(c, p) <==>
      p.constraints.Some? && (c in p.constraints.value || (c == NotNull && PrimaryKey in p.constraints.value))
  {
    if c == NotNull && p.constraints.Some? && c !in p.constraints.value {
      assert HasConstraint(c, p) == HasConstraint(PrimaryKey, p);
    }
  }

  /** `hasConstraints`: a full prop with a non-empty constraint list. */
  function HasConstraints(item: StructItem): bool {
    match item
    case Bare(_) => false
    case Full(p) => p.constraints.Some? && |p.constraints.value| > 0
  }

  /** `hasConstraints` holds exactly when some constraint is present on a full prop. */
  lemma HasConstraintsSome(item: StructItem)
    ensures HasConstraints(item) <==> item.Full? && exists c :: HasConstraint(c, item.prop)
  {
    if HasConstraints(item) {
      var c := item.prop.constraints.value[0];
      assert HasConstraint(c, item.prop);
    }
    if item.Full? && exists c :: HasConstraint(c, item.prop) {
      var c :| HasConstraint(c, item.prop);
      HasConstraintSpec(c, item.prop);
    }
  }

  /** `hasDbOnlyConstraints`. */
  function HasDbOnlyConstraints(p: StructProp): bool {
    HasConstraint(DbModifyOnly, p) || HasConstraint(DbInternal, p)
  }

  lemma HasDbOnlyConstraintsSpec(p: StructProp)
    ensures HasDbOnlyConstraints(p) <==>
      p.constraints.Some? && (DbModifyOnly in p.constraints.value || DbInternal in p.constraints.value)
  {
    HasConstraintSpec(DbModifyOnly, p);
    HasConstraintSpec(DbInternal, p);
  }

  /** The keys of `schemeNumeric` and `schemaNonNumeric`. */
  const SchemeNumeric: seq<string> := ["Decimal", "Int8", "Int16", "Int32", "Int64", "UInt8", "UInt16",
                                       "UInt32", "UInt64", "TimestampMs", "TimestampS"]
  const SchemaNonNumeric: seq<string> := ["Boolean", "Date", "Ipv4", "String"]

  /** `isSchemaNumeric` on a string. */
  predicate IsSchemaNumeric(s: string) {
    s in SchemeNumeric
  }

  /** `isSchemaNonNumeric` on a string. */
  predicate IsSchemaNonNumeric(s: string) {
    s in SchemaNonNumeric
  }

  /** `isSchemaType` on a string. */
  predicate IsSchemaType(s: string) {
    IsSchemaNumeric(s) || IsSchemaNonNumeric(s)
  }

  /** The guard accepts exactly the written tags, and splits them as `IsNumeric` does. */
  lemma IsSchemaTypeSpec(s: string)
    ensures IsSchemaType(s) <==> ParseType(s).Some?
    ensures IsSchemaNumeric(s) <==> ParseType(s).Some? && IsNumeric(ParseType(s).value)
    ensures IsSchemaNonNumeric(s) <==> ParseType(s).Some? && !IsNumeric(ParseType(s).value)
  {
  }

  /** Every tag's name passes the guard. */
  lemma IsSchemaTypeName(t: SchemaType)
    ensures IsSchemaType(TypeName(t))
    ensures IsSchemaNumeric(TypeName(t)) <==> IsNumeric(t)
  {
    IsSchemaTypeSpec(TypeName(t));
    ParseTypeName(t);
  }

  /** A JSON-like JavaScript value; object fields in key order. */
  datatype Any =
    | ANull | AUndefined | ANaN
    | ABool(b: bool) | ANum(n: int) | AStr(s: string)
    | AArr(elems: seq<Any>) | AObj(fields: seq<(string, Any)>)

  predicate AnyTruthy(a: Any) {
    match a
    case ANull => false
    case AUndefined => false
    case ANaN => false
    case ABool(b) => b
    case ANum(n) => n != 0
    case AStr(s) => s != ""
    case _ => true
  }

  /** `isObject` (util.ts): a truthy value whose `typeof` is `object`. */
  predicate IsObject(a: Any) {
    a.AArr? || a.AObj?
  }

  /** `a[key]`: an own field of an object, `undefined` otherwise. */
  function Prop(a: Any, key: string): Any {
    if a.AObj? then Get(a.fields, key).GetOr(AUndefined) else AUndefined
  }

  /** The values `for (i in a)` visits: array elements or own field values, in order. */
  function OwnValues(a: Any): seq<Any> {
    match a
    case AArr(elems) => elems
    case AObj(fields) => Values(fields)
    case _ => []
  }

  /** What `isSchemaStructFn(fn, a)` answers. */
  predicate AllOwn(fn: Any -> bool, a: Any) {
    IsObject(a) && forall i :: 0 <= i < |OwnValues(a)| ==> fn(OwnValues(a)[i])
  }

  /** `isSchemaStructFn`: the `for…in` loop with its `result` flag and `break`s. */
  method IsSchemaStructFn(fn: Any -> bool, arg: Any) returns (result: bool)
    ensures result == AllOwn(fn, arg)
    ensures !IsObject(arg) ==> !result
    ensures arg == AObj([]) ==> result
  {
    if !IsObject(arg) {
      return false;
    }
    var vals := OwnValues(arg);
    result := true;
    var i := 0;
    while i < |vals|
      invariant 0 <= i <= |vals|
      invariant result == forall j :: 0 <= j < i ==> fn(vals[j])
    {
      if !result {
        break;
      }
      if !fn(vals[i]) {
        result := false;
        break;
      }
      i := i + 1;
    }
  }

  /** `isSchemaStructProp`: `arg && arg.type`. */
  predicate IsSchemaStructProp(a: Any) {
    AnyTruthy(a) && AnyTruthy(Prop(a, "type"))
  }

  /** `isSchemaType` on any value; only a string can name a tag here. */
  predicate IsSchemaTypeAny(a: Any) {
    a.AStr? && IsSchemaType(a.s)
  }

  /** `isSchemaStructItem`. */
  predicate IsSchemaStructItem(a: Any) {
    IsSchemaStructProp(a) || IsSchemaTypeAny(a)
  }

  /** `isSchemaStruct`. */
  predicate IsSchemaStruct(a: Any) {
    AllOwn(IsSchemaStructItem, a)
  }

  /** `isSchemaStructStrict`. */
  predicate IsSchemaStructStrict(a: Any) {
    AllOwn(IsSchemaStructProp, a)
  }

  /** `isSchemaProp`: `arg && isSchemaStruct(arg.struct)`. */
  predicate IsSchemaProp(a: Any) {
    AnyTruthy(a) && IsSchemaStruct(Prop(a, "struct"))
  }

  /**
   * `isSchemaRelationComposite`.  It reads `arg.props` without a guard, so
   * `null` and `undefined` throw a TypeError.
   */
  function IsSchemaRelationComposite(a: Any): (r: Result<bool, string>)
    ensures r.Err? <==> a.ANull? || a.AUndefined?
    ensures r == Ok(true) <==>
      Prop(a, "props").AArr? && Prop(a, "propsForeign").AArr? && Prop(a, "struct").AStr? &&
      |Prop(a, "props").elems| == |Prop(a, "propsForeign").elems|
  {
    if a.ANull? || a.AUndefined? then Err("TypeError")
    else
      var props := Prop(a, "props");
      var foreign := Prop(a, "propsForeign");
      if !props.AArr? then Ok(false)
      else if !foreign.AArr? then Ok(false)
      else if !Prop(a, "struct").AStr? then Ok(false)
      else Ok(|props.elems| == |foreign.elems|)
  }

  // The typed schema as a JavaScript value.

  function StrList(xs: seq<string>): (a: Any)
    ensures a.AArr? && |a.elems| == |xs|
  {
    AArr(seq(|xs|, i requires 0 <= i < |xs| => AStr(xs[i])))
  }

  function ValueToAny(v: Value): Any {
    match v
    case Int(i) => ANum(i)
    case Str(s) => AStr(s)
    case Bool(b) => ABool(b)
    case Null => ANull
    case Undefined => AUndefined
    case NaN => ANaN
  }

  /** An optional member becomes a field only when present. */
  function OptField(key: string, v: Option<Any>): seq<(string, Any)> {
    if v.Some? then [(key, v.value)] else []
  }

  function PropToAny(p: StructProp): Any {
    AObj([("type", AStr(TypeName(p.typ)))]
      + OptField("constraints", if p.constraints.Some? then
          Some(StrList(seq(|p.constraints.value|, i requires 0 <= i < |p.constraints.value| =>
            ConstraintName(p.constraints.value[i])))) else None)
      + OptField("defaultValue", if p.defaultValue.Some? then Some(ValueToAny(p.defaultValue.value)) else None)
      + OptField("relation", if p.relation.Some? then
          Some(AObj([("prop", AStr(p.relation.value.prop)), ("struct", AStr(p.relation.value.struct))])) else None)
      + OptField("typeMax", if p.typeMax.Some? then Some(ANum(p.typeMax.value)) else None)
      + OptField("typeMin", if p.typeMin.Some? then Some(ANum(p.typeMin.value)) else None))
  }

  function ItemToAny(item: StructItem): Any {
    match item
    case Bare(t) => AStr(TypeName(t))
    case Full(p) => PropToAny(p)
  }

  function StructToAny(s: Struct): (a: Any)
    ensures a.AObj? && |a.fields| == |s|
  {
    AObj(seq(|s|, i requires 0 <= i < |s| => (s[i].0, ItemToAny(s[i].1))))
  }

  function CompositeToAny(rc: RelationComposite): Any {
    AObj([("props", StrList(rc.props)), ("propsForeign", StrList(rc.propsForeign)),
          ("struct", AStr(rc.struct))])
  }

  /** A full prop is recognised by its `type` field; a bare tag is not a prop. */
  lemma ItemIsProp(item: StructItem)
    ensures IsSchemaStructProp(ItemToAny(item)) <==> item.Full?
    ensures IsSchemaStructItem(ItemToAny(item))
  {
    match item
    case Bare(t) =>
      IsSchemaTypeName(t);
    case Full(p) =>
      var fields := PropToAny(p).fields;
      assert fields[0] == ("type", AStr(TypeName(p.typ)));
      GetFirst(fields, 0);
  }

  /** Every typed struct passes `isSchemaStruct`. */
  lemma StructIsSchemaStruct(s: Struct)
    ensures IsSchemaStruct(StructToAny(s))
  {
    var vals := OwnValues(StructToAny(s));
    forall i | 0 <= i < |vals|
      ensures IsSchemaStructItem(vals[i])
    {
      ItemIsProp(s[i].1);
    }
  }

  /** A typed struct passes `isSchemaStructStrict` iff none of its columns is a bare tag. */
  lemma StructIsStrict(s: Struct)
    ensures IsSchemaStructStrict(StructToAny(s)) <==> forall i :: 0 <= i < |s| ==> s[i].1.Full?
  {
    var vals := OwnValues(StructToAny(s));
    assert forall i :: 0 <= i < |s| ==> vals[i] == ItemToAny(s[i].1);
    forall i | 0 <= i < |s|
      ensures IsSchemaStructProp(vals[i]) <==> s[i].1.Full?
    {
      ItemIsProp(s[i].1);
    }
  }

  /** A well-formed composite key passes exactly when its two lists have equal length. */
  lemma CompositeGuard(rc: RelationComposite)
    ensures IsSchemaRelationComposite(CompositeToAny(rc)) == Ok(|rc.props| == |rc.propsForeign|)
  {
    var fields := CompositeToAny(rc).fields;
    GetFirst(fields, 0);
    GetFirst(fields, 1);
    GetFirst(fields, 2);
  }
}
