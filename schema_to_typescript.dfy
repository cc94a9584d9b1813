/**
 * schema-to-typescript.ts: the TypeScript interface text generated from a
 * strict schema.  Each `objReduce` is a fold over the entries of an object
 * in key order; a JavaScript object holds each key once, so `d[key]` is the
 * entry's own value.  Reading `.ts` of a type with no mapping throws; that
 * exception is an `Err` carrying the type.  Writing the file is not
 * modelled.
 */
module SchemaToTypeScript {
  import opened Wrappers
  import opened Schema
  import opened TypeMappings

  // ---------------------------------------------------------------- the folds

  /** `schemaStructPropToTypeScript(state, prop, name)`: appends `  name: ts;`. */
  function StructPropToTypeScript(state: string, prop: StructProp, name: string): Result<string, SchemaType> {
    match MappingFor(prop.typ)
    case None => Err(prop.typ)
    case Some(m) => Ok(state + "  " + name + ": " + m.ts + ";\n")
  }

  /** `objReduce(struct, schemaStructPropToTypeScript, state)`. */
  function StructToTypeScript(state: string, struct: StructStrict): Result<string, SchemaType>
    decreases |struct|
  {
    if |struct| == 0 then Ok(state)
    else
      match StructPropToTypeScript(state, struct[0].1, struct[0].0)
      case Err(t) => Err(t)
      case Ok(next) => StructToTypeScript(next, struct[1..])
  }

  /** `scPropToInterface(state, scProp, name)`: appends the interface of one table. */
  function PropToInterface(state: string, table: TableStrict, name: string): Result<string, SchemaType> {
    match StructToTypeScript("", table.struct)
    case Err(t) => Err(t)
    case Ok(body) => Ok(state + "export interface " + name + " {\n" + body + "}\n\n")
  }

  /** `objReduce(schema, scPropToInterface, state)`. */
  function SchemaFold(state: string, schema: SchemaStrict): Result<string, SchemaType>
    decreases |schema|
  {
    if |schema| == 0 then Ok(state)
    else
      match PropToInterface(state, schema[0].1, schema[0].0)
      case Err(t) => Err(t)
      case Ok(next) => SchemaFold(next, schema[1..])
  }

  /** `schemaToTypeScript`. */
  function SchemaToTypeScript(schema: SchemaStrict): Result<string, SchemaType> {
    SchemaFold("", schema)
  }

  // ---------------------------------------------------------------- the intended text

  /** The TypeScript type of a mapped schema type. */
  function TsName(t: SchemaType): string {
    if t == Boolean then "boolean" else if t == String || t == Ipv4 then "string" else "number"
  }

  /** One member line. */
  function MemberLine(name: string, t: SchemaType): string {
    "  " + name + ": " + TsName(t) + ";\n"
  }

  /** The member lines of a struct, in column order. */
  function MemberLines(struct: StructStrict): string
    decreases |struct|
  {
    if |struct| == 0 then "" else MemberLine(struct[0].0, struct[0].1.typ) + MemberLines(struct[1..])
  }

  function InterfaceText(name: string, struct: StructStrict): string {
    "export interface " + name + " {\n" + MemberLines(struct) + "}\n\n"
  }

  /** The interfaces of a schema, in key order. */
  function SchemaText(schema: SchemaStrict): string
    decreases |schema|
  {
    if |schema| == 0 then "" else InterfaceText(schema[0].0, schema[0].1.struct) + SchemaText(schema[1..])
  }

  /** Every column's type has a TypeScript mapping. */
  predicate AllMapped(struct: StructStrict) {
    forall k :: 0 <= k < |struct| ==> HasMapping(struct[k].1.typ)
  }

  /** Column k is the first whose type has no mapping. */
  predicate FirstUnmapped(struct: StructStrict, k: int) {
    0 <= k < |struct| && !HasMapping(struct[k].1.typ) && forall j :: 0 <= j < k ==> HasMapping(struct[j].1.typ)
  }

  /** Table i is the first with an unmapped column, and column k the first unmapped one in it. */
  predicate FirstUnmappedTable(schema: SchemaStrict, i: int, k: int) {
    && 0 <= i < |schema|
    && FirstUnmapped(schema[i].1.struct, k)
    && forall j :: 0 <= j < i ==> AllMapped(schema[j].1.struct)
  }

  // ---------------------------------------------------------------- the folds build the intended text

  /** A mapped column appends its member line; an unmapped one throws with its type. */
  lemma {:induction false} StructPropLine(state: string, prop: StructProp, name: string)
    ensures var r := StructPropToTypeScript(state, prop, name);
      && (r.Ok? <==> HasMapping(prop.typ))
      && (r.Ok? ==> r.value == state + MemberLine(name, prop.typ))
      && (r.Err? ==> r.error == prop.typ)
  {
    MappingForSpec(prop.typ);
    if HasMapping(prop.typ) {
      MappingTs(prop.typ);
      var ts := MappingFor(prop.typ).value.ts;
      assert ts == TsName(prop.typ);
      LineText(state, name, ts);
    }
  }

  /** The text appended for one column, regrouped as the member line. */
  lemma {:induction false} LineText(state: string, name: string, ts: string)
    ensures state + "  " + name + ": " + ts + ";\n" == state + ("  " + name + ": " + ts + ";\n")
  {
  }

  lemma {:induction false} Regroup(a: string, b: string, c: string)
    ensures (a + b) + c == a + (b + c)
  {
  }

  lemma {:induction false} AllMappedCons(struct: StructStrict)
    requires |struct| > 0
    ensures AllMapped(struct) <==> HasMapping(struct[0].1.typ) && AllMapped(struct[1..])
  {
    assert forall k :: 1 <= k < |struct| ==> struct[k] == struct[1..][k - 1];
  }

  lemma {:induction false} FirstUnmappedCons(struct: StructStrict, k: int)
    requires |struct| > 0 && HasMapping(struct[0].1.typ) && FirstUnmapped(struct[1..], k)
    ensures FirstUnmapped(struct, k + 1) && struct[k + 1] == struct[1..][k]
  {
    assert forall j :: 1 <= j < k + 1 ==> struct[j] == struct[1..][j - 1];
  }

  lemma {:induction false} StructToTypeScriptSpec(state: string, struct: StructStrict)
    ensures var r := StructToTypeScript(state, struct);
      && (r.Ok? <==> AllMapped(struct))
      && (r.Ok? ==> r.value == state + MemberLines(struct))
      && (r.Err? ==> exists k :: FirstUnmapped(struct, k) && r.error == struct[k].1.typ)
    decreases |struct|
  {
    if |struct| > 0 {
      var rest := struct[1..];
      AllMappedCons(struct);
      StructPropLine(state, struct[0].1, struct[0].0);
      var step := StructPropToTypeScript(state, struct[0].1, struct[0].0);
      if step.Ok? {
        StructToTypeScriptSpec(step.value, rest);
        var r := StructToTypeScript(step.value, rest);
        var line := MemberLine(struct[0].0, struct[0].1.typ);
        if r.Ok? {
          Regroup(state, line, MemberLines(rest));
        } else {
          var k :| FirstUnmapped(rest, k) && r.error == rest[k].1.typ;
          FirstUnmappedCons(struct, k);
        }
      } else {
        assert FirstUnmapped(struct, 0);
      }
    }
  }

  /** A table's interface: its name, its member lines in column order, the closing brace and a blank line. */
  lemma {:induction false} PropToInterfaceSpec(state: string, table: TableStrict, name: string)
    ensures var r := PropToInterface(state, table, name);
      && (r.Ok? <==> AllMapped(table.struct))
      && (r.Ok? ==> r.value == state + InterfaceText(name, table.struct))
      && (r.Err? ==> exists k :: FirstUnmapped(table.struct, k) && r.error == table.struct[k].1.typ)
  {
    StructToTypeScriptSpec("", table.struct);
    var r := PropToInterface(state, table, name);
    if r.Ok? {
      var body := MemberLines(table.struct);
      assert "" + body == body;
      assert state + "export interface " + name + " {\n" + body + "}\n\n" == state + InterfaceText(name, table.struct);
    }
  }

  lemma {:induction false} SchemaFoldSpec(state: string, schema: SchemaStrict)
    ensures var r := SchemaFold(state, schema);
      && (r.Ok? <==> forall i :: 0 <= i < |schema| ==> AllMapped(schema[i].1.struct))
      && (r.Ok? ==> r.value == state + SchemaText(schema))
      && (r.Err? ==> exists i, k :: FirstUnmappedTable(schema, i, k) && r.error == schema[i].1.struct[k].1.typ)
    decreases |schema|
  {
    if |schema| > 0 {
      var rest := schema[1..];
      assert forall i :: 1 <= i < |schema| ==> schema[i] == rest[i - 1];
      PropToInterfaceSpec(state, schema[0].1, schema[0].0);
      var step := PropToInterface(state, schema[0].1, schema[0].0);
      if step.Ok? {
        SchemaFoldSpec(step.value, rest);
        var r := SchemaFold(state, schema);
        var block := InterfaceText(schema[0].0, schema[0].1.struct);
        if r.Ok? {
          Regroup(state, block, SchemaText(rest));
        } else {
          var i, k :| FirstUnmappedTable(rest, i, k) && r.error == rest[i].1.struct[k].1.typ;
          assert FirstUnmappedTable(schema, i + 1, k);
        }
      } else {
        var k :| FirstUnmapped(schema[0].1.struct, k) && step.error == schema[0].1.struct[k].1.typ;
        assert FirstUnmappedTable(schema, 0, k);
      }
    }
  }

  /**
   * `schemaToTypeScript` is the interfaces of the tables in key order, or
   * the type of the first column, in the first such table, that has no
   * TypeScript mapping.
   */
  lemma {:induction false} SchemaToTypeScriptSpec(schema: SchemaStrict)
    ensures var r := SchemaToTypeScript(schema);
      && (r.Ok? <==> forall i :: 0 <= i < |schema| ==> AllMapped(schema[i].1.struct))
      && (r.Ok? ==> r.value == SchemaText(schema))
      && (r.Err? ==> exists i, k :: FirstUnmappedTable(schema, i, k) && r.error == schema[i].1.struct[k].1.typ)
  {
    SchemaFoldSpec("", schema);
    assert "" + SchemaText(schema) == SchemaText(schema);
  }

  /** An empty schema gives the empty text. */
  lemma {:induction false} EmptySchema()
    ensures SchemaToTypeScript([]) == Ok("")
  {
  }

  /** Appending a table appends its interface. */
  lemma {:induction false} SchemaTextAppend(schema: SchemaStrict, name: string, table: TableStrict)
    ensures SchemaText(schema + [(name, table)]) == SchemaText(schema) + InterfaceText(name, table.struct)
    decreases |schema|
  {
    if |schema| == 0 {
      assert [(name, table)][1..] == [];
    } else {
      var s := schema + [(name, table)];
      assert s[1..] == schema[1..] + [(name, table)];
      SchemaTextAppend(schema[1..], name, table);
    }
  }

  /** A UInt8 column has no TypeScript mapping: the generation throws. */
  lemma {:induction false} UnmappedColumnThrows(name: string, column: string)
    ensures SchemaToTypeScript([(name, TableStrict([(column, PropOfType(UInt8))], None, None, None))]) == Err(UInt8)
  {
    MappingForSpec(UInt8);
  }
}
