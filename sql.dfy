/**
 * queries/sql.ts: the DDL text builders.  The `query` capability that
 * `createTable` hands its text to is not modelled; `CreateTable` is the text.
 */
module Sql {
  import opened Wrappers
  import opened Js

  /** `InfoSchemaTable`: one row of the live table list; `table_name` may be falsy (''). */
  datatype InfoSchemaTable = InfoSchemaTable(tableName: string)

  /** `InfoSchemaColumn`: one row of `information_schema.columns`, the fields the checkers read. */
  datatype InfoSchemaColumn = InfoSchemaColumn(columnName: string, tableName: string, dataType: string, isNullable: string)

  /** `columns.join(', ')`. */
  function ColumnList(cols: seq<string>): string {
    Join(", ", cols)
  }

  /** The text `createTable` runs. */
  function CreateTable(tableName: string, columnsAndConstraints: seq<string>): string {
    "CREATE TABLE " + tableName + " (" + Trim(ColumnList(columnsAndConstraints)) + ");"
  }

  /** `varChar(size)`. */
  function VarChar(size: int): string {
    "varchar(" + IntToDecimal(size) + ")"
  }

  /** `foreignKey(column, key)`: the REFERENCES clause of a column. */
  function ForeignKey(column: string, key: string): string {
    "REFERENCES " + column + " (" + key + ")"
  }

  function Unique(columns: seq<string>): string {
    "UNIQUE(" + ColumnList(columns) + ")"
  }

  function PrimaryKey(columns: seq<string>): string {
    "PRIMARY KEY(" + ColumnList(columns) + ")"
  }

  /** `foreignKeyComposite`: throws when the two column lists differ in length. */
  function ForeignKeyComposite(columns: seq<string>, references: seq<string>, otherTable: string): (r: Result<string, string>)
    ensures r.Err? <==> |columns| != |references|
    ensures r.Err? ==> r.error == "foreignKeyComposite column/reference mismatch"
  {
    if |columns| != |references| then Err("foreignKeyComposite column/reference mismatch")
    else Ok("FOREIGN KEY (" + ColumnList(columns) + ") REFERENCES " + otherTable + " (" + ColumnList(references) + ")")
  }

  function AlterTable(table: string): string {
    "ALTER TABLE " + table
  }

  function AddColumn(table: string): string {
    AlterTable(table) + " ADD COLUMN"
  }

  function AlterColumn(table: string, column: string): string {
    AlterTable(table) + " ALTER COLUMN " + column
  }

  function SetNull(table: string, column: string): string {
    AlterColumn(table, column) + " DROP NOT NULL"
  }

  function SetNotNull(table: string, column: string): string {
    AlterColumn(table, column) + " SET NOT NULL"
  }

  /** The column list of CREATE TABLE has no white space at either end ... */
  lemma CreateTableTrimmed(items: seq<string>)
    ensures var body := Trim(ColumnList(items));
      body == [] || (!IsWhiteSpace(body[0]) && !IsWhiteSpace(body[|body| - 1]))
  {
    var t := TrimStart(ColumnList(items));
    var body := TrimEnd(t);
    if body != [] {
      assert body[0] == t[0];
    }
  }

  /** ... and a list that has none there is written as it is. */
  lemma CreateTableUntrimmed(tableName: string, items: seq<string>)
    requires var l := ColumnList(items); l == [] || (!IsWhiteSpace(l[0]) && !IsWhiteSpace(l[|l| - 1]))
    ensures CreateTable(tableName, items) == "CREATE TABLE " + tableName + " (" + ColumnList(items) + ");"
  {
  }

  /** Both null statements alter the same column and are never the same text. */
  lemma NullStatements(table: string, column: string)
    ensures SetNull(table, column)[..|AlterColumn(table, column)|] == AlterColumn(table, column)
    ensures SetNotNull(table, column)[..|AlterColumn(table, column)|] == AlterColumn(table, column)
    ensures SetNull(table, column) != SetNotNull(table, column)
  {
    var a := AlterColumn(table, column);
    assert SetNull(table, column)[|a| + 1] == 'D';
    assert SetNotNull(table, column)[|a| + 1] == 'S';
  }

  /** Every ALTER statement starts with `ALTER TABLE t`. */
  lemma AlterStatements(table: string, column: string)
    ensures AddColumn(table)[..|AlterTable(table)|] == AlterTable(table)
    ensures SetNull(table, column)[..|AlterTable(table)|] == AlterTable(table)
    ensures SetNotNull(table, column)[..|AlterTable(table)|] == AlterTable(table)
  {
  }

  /** Each part after the first, with the blank that follows the comma of `, `. */
  function Spaced(parts: seq<string>): (r: seq<string>)
    ensures |r| == |parts| && forall i :: 0 <= i < |parts| ==> r[i] == " " + parts[i]
  {
    seq(|parts|, i requires 0 <= i < |parts| => " " + parts[i])
  }

  lemma {:induction false} SpacedJoin(parts: seq<string>)
    requires |parts| > 0
    ensures " " + ColumnList(parts) == Join([','], Spaced(parts))
  {
    if |parts| > 1 {
      SpacedJoin(parts[1..]);
      assert Spaced(parts)[1..] == Spaced(parts[1..]);
    }
  }

  /**
   * A column list reads back at its commas: the first name, then each other
   * name behind its blank, when no name holds a comma.
   */
  lemma ColumnListSplit(cols: seq<string>)
    requires |cols| > 0 && forall k :: 0 <= k < |cols| ==> ',' !in cols[k]
    ensures Split(ColumnList(cols), ',') == [cols[0]] + Spaced(cols[1..])
  {
    var parts := [cols[0]] + Spaced(cols[1..]);
    if |cols| > 1 {
      SpacedJoin(cols[1..]);
      assert parts[1..] == Spaced(cols[1..]);
      assert Join([','], parts) == cols[0] + "," + Join([','], Spaced(cols[1..]));
      assert ColumnList(cols) == Join([','], parts);
    }
    forall k | 0 <= k < |parts|
      ensures ',' !in parts[k]
    {
      if k > 0 {
        assert parts[k] == " " + cols[k];
      }
    }
    SplitJoin(parts, ',');
  }
}
