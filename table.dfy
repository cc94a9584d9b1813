/**
 * table.ts: the query text builders, the filtering and coercion of input
 * values against a table's struct, and the small folds of the CRUD layer.
 * The connection pool, the query streams and the Observable plumbing are
 * not modelled: a CRUD operation is the statement it would run, its text
 * and its parameters.  An exception thrown while the statement is built is
 * an `Err`.
 */
module Table {
  import opened Wrappers
  import opened Js
  import opened Util
  import opened Schema
  import opened SchemaGuards
  import opened TypeConverters

  // ---------------------------------------------------------------- placeholders

  /** The placeholder `$n`. */
  function Param(n: int): string {
    "$" + IntToDecimal(n)
  }

  /** The numbers first, first + 1, ..., first + n - 1. */
  function Numbers(first: int, n: nat): (r: seq<int>)
    ensures |r| == n && forall k :: 0 <= k < n ==> r[k] == first + k
  {
    if n == 0 then [] else Numbers(first, n - 1) + [first + n - 1]
  }

  /** Placeholders numbered without a gap or a restart: 1, 2, ..., n. */
  predicate Consecutive(nums: seq<int>) {
    forall k :: 0 <= k < |nums| ==> nums[k] == k + 1
  }

  lemma {:induction false} NumbersConcat(first: int, m: nat, n: nat)
    ensures Numbers(first, m) + Numbers(first + m, n) == Numbers(first, m + n)
  {
    if n > 0 {
      NumbersConcat(first, m, n - 1);
      assert Numbers(first, m) + (Numbers(first + m, n - 1) + [first + m + n - 1])
          == (Numbers(first, m) + Numbers(first + m, n - 1)) + [first + m + n - 1];
    } else {
      assert Numbers(first, m) + [] == Numbers(first, m);
    }
  }

  /** Each column bound to its placeholder, `${col}${op}$${n}`. */
  function Bindings(cols: seq<string>, op: string, nums: seq<int>): (r: seq<string>)
    requires |nums| == |cols|
    ensures |r| == |cols| && forall k :: 0 <= k < |cols| ==> r[k] == cols[k] + op + Param(nums[k])
  {
    seq(|cols|, k requires 0 <= k < |cols| => cols[k] + op + Param(nums[k]))
  }

  // ---------------------------------------------------------------- SELECT, UPDATE, DELETE

  /** `createSelectWhereQuery`: the i-th column is bound to `$(i + 1)`. */
  function SelectWhereQuery(name: string, cols: seq<string>): string {
    "SELECT * FROM " + name + " WHERE " + Join(" AND ", Bindings(cols, "=", Numbers(1, |cols|)))
  }

  /** The SET placeholders of `createUpdateQuery`, `$1..$k`. */
  function UpdateSetNumbers(cols: seq<string>): seq<int> {
    Numbers(1, |cols|)
  }

  /** As written, the i-th WHERE column is bound to `$(k + i)`. */
  function UpdateWhereNumbersAsWritten(cols: seq<string>, idProps: seq<string>): seq<int> {
    Numbers(|cols|, |idProps|)
  }

  /** The WHERE placeholders continuing after SET, `$(k + 1)...`. */
  function UpdateWhereNumbers(cols: seq<string>, idProps: seq<string>): seq<int> {
    Numbers(|cols| + 1, |idProps|)
  }

  function UpdateText(name: string, cols: seq<string>, setNums: seq<int>, idProps: seq<string>, whereNums: seq<int>): string
    requires |setNums| == |cols| && |whereNums| == |idProps|
  {
    "UPDATE " + name + " SET " + Join(", ", Bindings(cols, " = ", setNums))
      + " WHERE " + Join(" AND ", Bindings(idProps, " = ", whereNums))
  }

  /** `createUpdateQuery` as written; `vals` is not read. */
  function UpdateQueryAsWritten(name: string, cols: seq<string>, idProps: seq<string>): string {
    UpdateText(name, cols, UpdateSetNumbers(cols), idProps, UpdateWhereNumbersAsWritten(cols, idProps))
  }

  /** `createUpdateQuery` with the WHERE numbering continuing after SET. */
  function UpdateQuery(name: string, cols: seq<string>, idProps: seq<string>): string {
    UpdateText(name, cols, UpdateSetNumbers(cols), idProps, UpdateWhereNumbers(cols, idProps))
  }

  /**
   * As written the first WHERE placeholder repeats the last SET one, and
   * the placeholder after the last SET one is only reached by the last WHERE
   * column's predecessor: `$(k + m)` is never used.
   */
  lemma {:induction false} UpdateNumberingAsWritten(cols: seq<string>, idProps: seq<string>)
    requires |cols| >= 1 && |idProps| >= 1
    ensures var nums := UpdateSetNumbers(cols) + UpdateWhereNumbersAsWritten(cols, idProps);
      && UpdateWhereNumbersAsWritten(cols, idProps)[0] == UpdateSetNumbers(cols)[|cols| - 1]
      && !Consecutive(nums)
      && (|cols| + |idProps|) !in nums
  {
    var nums := UpdateSetNumbers(cols) + UpdateWhereNumbersAsWritten(cols, idProps);
    assert nums[|cols|] == |cols|;
  }

  /** Corrected, SET and WHERE together number `$1..$(k + m)`, each once. */
  lemma {:induction false} UpdateNumbering(cols: seq<string>, idProps: seq<string>)
    ensures UpdateSetNumbers(cols) + UpdateWhereNumbers(cols, idProps) == Numbers(1, |cols| + |idProps|)
    ensures Consecutive(UpdateSetNumbers(cols) + UpdateWhereNumbers(cols, idProps))
  {
    NumbersConcat(1, |cols|, |idProps|);
  }

  /** As written the i-th WHERE column of `createDeleteQuery` is bound to `$i`. */
  function DeleteNumbersAsWritten(idProps: seq<string>): seq<int> {
    Numbers(0, |idProps|)
  }

  function DeleteNumbers(idProps: seq<string>): seq<int> {
    Numbers(1, |idProps|)
  }

  function DeleteQueryAsWritten(name: string, idProps: seq<string>): string {
    "DELETE FROM " + name + " WHERE " + Join(" AND ", Bindings(idProps, " = ", DeleteNumbersAsWritten(idProps)))
  }

  function DeleteQuery(name: string, idProps: seq<string>): string {
    "DELETE FROM " + name + " WHERE " + Join(" AND ", Bindings(idProps, " = ", DeleteNumbers(idProps)))
  }

  /**
   * As written the first id is bound to `$0`, which no parameter list
   * fills, and the last id value is never referenced; corrected the ids
   * are bound to `$1..$m`.
   */
  lemma {:induction false} DeleteNumbering(idProps: seq<string>)
    requires |idProps| >= 1
    ensures DeleteNumbersAsWritten(idProps)[0] == 0 && !Consecutive(DeleteNumbersAsWritten(idProps))
    ensures |idProps| !in DeleteNumbersAsWritten(idProps)
    ensures Consecutive(DeleteNumbers(idProps))
  {
    assert DeleteNumbersAsWritten(idProps)[0] == 0;
  }

  /** The WHERE of `createSelectWhereQuery` numbers its columns `$1..$n`. */
  lemma {:induction false} SelectWhereNumbering(cols: seq<string>)
    ensures Consecutive(Numbers(1, |cols|))
  {
  }

  /** `createSelectAllQuery`: `*` when no column is listed. */
  function SelectAllQuery(name: string, cols: seq<string>): string {
    if |cols| > 0 then "SELECT " + Join(", ", cols) + " FROM " + name
    else "SELECT * FROM " + name
  }

  /** No column listed selects what the one column `*` would; listed columns come back in order. */
  lemma {:induction false} SelectAllColumns(name: string, cols: seq<string>)
    ensures SelectAllQuery(name, []) == SelectAllQuery(name, ["*"])
    ensures |cols| > 0 ==> SelectAllQuery(name, cols)[7..7 + |Join(", ", cols)|] == Join(", ", cols)
  {
  }

  // ---------------------------------------------------------------- INSERT ... VALUES

  /** The value at index i opens a new row: the chunk size divides i. */
  predicate StartsRow(chunkSize: nat, i: nat) {
    chunkSize != 0 && i % chunkSize == 0
  }

  /**
   * One step of `makeParamReducer(chunkSize)` at index `i` of `n` values; a
   * chunk size of 0 never divides (`i % 0` is NaN in JavaScript).
   */
  function ParamStepAsWritten(chunkSize: nat, n: nat, vstr: string, i: nat): string {
    var pos := Param(i + 1);
    if n == 1 then "(" + pos + ")"
    else if i == 0 then "(" + pos
    else if StartsRow(chunkSize, i) then vstr + "), (" + pos
    else if i == n - 1 then vstr + ", " + pos + ")"
    else vstr + ", " + pos
  }

  /** The same step closing the last group when it opens one. */
  function ParamStep(chunkSize: nat, n: nat, vstr: string, i: nat): string {
    var pos := Param(i + 1);
    if n == 1 then "(" + pos + ")"
    else if i == 0 then "(" + pos
    else if StartsRow(chunkSize, i) then vstr + "), (" + pos + (if i == n - 1 then ")" else "")
    else if i == n - 1 then vstr + ", " + pos + ")"
    else vstr + ", " + pos
  }

  /** `vals.reduce(makeParamReducer(chunkSize), '')` over the first `k` of `n` values. */
  function ParamFoldAsWritten(chunkSize: nat, n: nat, k: nat): string
    requires k <= n
  {
    if k == 0 then "" else ParamStepAsWritten(chunkSize, n, ParamFoldAsWritten(chunkSize, n, k - 1), k - 1)
  }

  function ParamFold(chunkSize: nat, n: nat, k: nat): string
    requires k <= n
  {
    if k == 0 then "" else ParamStep(chunkSize, n, ParamFold(chunkSize, n, k - 1), k - 1)
  }

  /** `createInsertQuery` as written. */
  function InsertQueryAsWritten(name: string, cols: seq<string>, vals: seq<Value>): string {
    "INSERT INTO " + name + " (" + Join(", ", cols) + ") VALUES " + ParamFoldAsWritten(|cols|, |vals|, |vals|)
  }

  /** `createInsertQuery` with every group closed. */
  function InsertQuery(name: string, cols: seq<string>, vals: seq<Value>): string {
    "INSERT INTO " + name + " (" + Join(", ", cols) + ") VALUES " + ParamFold(|cols|, |vals|, |vals|)
  }

  // ---- the intended row groups

  /**
   * The placeholder numbers 1..n cut into rows: a new row starts at the
   * value whose index the chunk size divides.
   */
  function Groups(chunkSize: nat, n: nat): (gs: seq<seq<int>>)
    requires n >= 1
    ensures |gs| >= 1 && |gs[|gs| - 1]| >= 1
  {
    if n == 1 then [[1]]
    else
      var gs := Groups(chunkSize, n - 1);
      if StartsRow(chunkSize, n - 1) then gs + [[n]]
      else gs[..|gs| - 1] + [gs[|gs| - 1] + [n]]
  }

  function Flatten(gs: seq<seq<int>>): seq<int>
    decreases |gs|
  {
    if |gs| == 0 then [] else Flatten(gs[..|gs| - 1]) + gs[|gs| - 1]
  }

  /** The placeholders of one row. */
  function Params(g: seq<int>): (r: seq<string>)
    ensures |r| == |g|
    decreases |g|
  {
    if |g| == 0 then [] else Params(g[..|g| - 1]) + [Param(g[|g| - 1])]
  }

  /** `$a, $b, ...` of one row. */
  function ParamList(g: seq<int>): string {
    Join(", ", Params(g))
  }

  /** A row, `($a, $b, ...)`. */
  function Row(g: seq<int>): string {
    "(" + ParamList(g) + ")"
  }

  function RowTexts(gs: seq<seq<int>>): (r: seq<string>)
    ensures |r| == |gs|
    decreases |gs|
  {
    if |gs| == 0 then [] else RowTexts(gs[..|gs| - 1]) + [Row(gs[|gs| - 1])]
  }

  /** The VALUES list the rows evidently stand for: each row parenthesised, rows separated by `, `. */
  function Rows(gs: seq<seq<int>>): string {
    Join(", ", RowTexts(gs))
  }

  /** The rows with the last one still open. */
  function OpenRows(gs: seq<seq<int>>): string
    requires |gs| >= 1
  {
    if |gs| == 1 then "(" + ParamList(gs[0])
    else Rows(gs[..|gs| - 1]) + ", (" + ParamList(gs[|gs| - 1])
  }

  lemma {:induction false} ModStep(k: int, c: int)
    requires c >= 1 && k >= 1
    ensures k % c == 0 ==> (k - 1) % c == c - 1
    ensures k % c != 0 ==> (k - 1) % c == k % c - 1
  {
    var q := k / c;
    var r := k % c;
    if r == 0 {
      assert k - 1 == (q - 1) * c + (c - 1);
      UniqueMod(k - 1, c, q - 1, c - 1);
    } else {
      assert k - 1 == q * c + (r - 1);
      UniqueMod(k - 1, c, q, r - 1);
    }
  }

  lemma {:induction false} UniqueMod(a: int, c: int, q: int, r: int)
    requires c >= 1 && 0 <= r < c && a == q * c + r
    ensures a % c == r
  {
    var q2 := a / c;
    var r2 := a % c;
    assert (q - q2) * c == r2 - r;
    if q > q2 {
      MulAtLeast(q - q2, c);
    } else if q < q2 {
      MulAtLeast(q2 - q, c);
    }
  }

  lemma {:induction false} MulAtLeast(a: int, c: int)
    requires a >= 1 && c >= 1
    ensures a * c >= c
  {
  }

  lemma {:induction false} FlattenStart(gs: seq<seq<int>>, x: int)
    ensures Flatten(gs + [[x]]) == Flatten(gs) + [x]
  {
    assert (gs + [[x]])[..|gs|] == gs;
  }

  lemma {:induction false} FlattenExtend(gs: seq<seq<int>>, x: int)
    requires |gs| >= 1
    ensures Flatten(gs[..|gs| - 1] + [gs[|gs| - 1] + [x]]) == Flatten(gs) + [x]
  {
    var front, last := gs[..|gs| - 1], gs[|gs| - 1];
    var r := front + [last + [x]];
    assert r[..|r| - 1] == front;
    assert Flatten(gs) == Flatten(front) + last;
    assert Flatten(r) == Flatten(front) + (last + [x]);
  }

  /** The rows hold 1..n in order. */
  lemma {:induction false} GroupsFlatten(chunkSize: nat, n: nat)
    requires n >= 1
    ensures Flatten(Groups(chunkSize, n)) == Numbers(1, n)
  {
    if n > 1 {
      GroupsFlatten(chunkSize, n - 1);
      var gs := Groups(chunkSize, n - 1);
      if StartsRow(chunkSize, n - 1) {
        FlattenStart(gs, n);
      } else {
        FlattenExtend(gs, n);
      }
      assert Numbers(1, n - 1) + [n] == Numbers(1, n);
    } else {
      assert Flatten([[1]]) == Flatten([]) + [1];
    }
  }

  /**
   * Without a chunk size there is one row; otherwise every row but the
   * last has `chunkSize` numbers and the last has `(n - 1) % chunkSize + 1`,
   * so a multiple of the chunk size fills every row.
   */
  lemma {:induction false} GroupsSizes(chunkSize: nat, n: nat)
    requires n >= 1
    ensures var gs := Groups(chunkSize, n);
      && (chunkSize == 0 ==> |gs| == 1)
      && (chunkSize >= 1 ==>
            && (forall j :: 0 <= j < |gs| - 1 ==> |gs[j]| == chunkSize)
            && |gs[|gs| - 1]| == (n - 1) % chunkSize + 1)
  {
    if n > 1 {
      GroupsSizes(chunkSize, n - 1);
      var gs := Groups(chunkSize, n - 1);
      var r := Groups(chunkSize, n);
      if chunkSize >= 1 {
        ModStep(n - 1, chunkSize);
        if (n - 1) % chunkSize == 0 {
          assert r == gs + [[n]];
          assert |gs[|gs| - 1]| == chunkSize;
        } else {
          assert r == gs[..|gs| - 1] + [gs[|gs| - 1] + [n]];
          assert |r| == |gs| && forall j :: 0 <= j < |gs| - 1 ==> r[j] == gs[j];
        }
      }
    }
  }

  /** Rows of a multiple of the chunk size are all full. */
  lemma {:induction false} RowsFull(chunkSize: nat, n: nat)
    requires chunkSize >= 1 && n >= 1 && n % chunkSize == 0
    ensures var gs := Groups(chunkSize, n);
      forall j :: 0 <= j < |gs| ==> |gs[j]| == chunkSize
  {
    GroupsSizes(chunkSize, n);
    ModStep(n, chunkSize);
  }

  /** A row list is its open form closed. */
  lemma {:induction false} RowsClose(gs: seq<seq<int>>)
    requires |gs| >= 1
    ensures Rows(gs) == OpenRows(gs) + ")"
  {
    var front, last := gs[..|gs| - 1], gs[|gs| - 1];
    if |gs| > 1 {
      assert gs == front + [last];
      RowsSnoc(front, last);
      RegroupRow(Rows(front), ParamList(last));
    } else {
      assert RowTexts(gs) == RowTexts([]) + [Row(last)];
    }
  }

  /** One more row is joined after a comma. */
  lemma {:induction false} RowsSnoc(front: seq<seq<int>>, last: seq<int>)
    requires |front| >= 1
    ensures Rows(front + [last]) == Rows(front) + ", " + Row(last)
  {
    var gs := front + [last];
    assert gs[..|gs| - 1] == front;
    JoinSnoc(", ", RowTexts(front), Row(last));
  }

  lemma {:induction false} RegroupRow(rows: string, p: string)
    ensures rows + ", " + ("(" + p + ")") == rows + ", (" + p + ")"
  {
  }

  /** A row of one value. */
  lemma {:induction false} SingleParam(x: int)
    ensures ParamList([x]) == Param(x)
  {
    assert [x][..0] == [];
    assert Params([x]) == [Param(x)];
  }

  /** Opening a new row. */
  lemma {:induction false} OpenRowsNew(gs: seq<seq<int>>, x: int)
    requires |gs| >= 1
    ensures OpenRows(gs + [[x]]) == OpenRows(gs) + "), (" + Param(x)
  {
    var r := gs + [[x]];
    assert r[..|r| - 1] == gs;
    RowsClose(gs);
    SingleParam(x);
  }

  lemma {:induction false} ParamListSnoc(g: seq<int>, x: int)
    requires |g| >= 1
    ensures ParamList(g + [x]) == ParamList(g) + ", " + Param(x)
  {
    assert (g + [x])[..|g|] == g;
    assert Params(g + [x]) == Params(g) + [Param(x)];
    JoinSnoc(", ", Params(g), Param(x));
  }

  lemma {:induction false} OpenRowsExtendFirst(g: seq<int>, x: int)
    requires |g| >= 1
    ensures OpenRows([g + [x]]) == OpenRows([g]) + ", " + Param(x)
  {
    ParamListSnoc(g, x);
    var p, q := ParamList(g), Param(x);
    assert OpenRows([g + [x]]) == "(" + (p + ", " + q);
    assert "(" + (p + ", " + q) == ("(" + p) + ", " + q;
  }

  lemma {:induction false} OpenRowsExtendLater(front: seq<seq<int>>, g: seq<int>, x: int)
    requires |front| >= 1 && |g| >= 1
    ensures OpenRows(front + [g + [x]]) == OpenRows(front + [g]) + ", " + Param(x)
  {
    ParamListSnoc(g, x);
    var rows, p, q := Rows(front), ParamList(g), Param(x);
    var r, gs := front + [g + [x]], front + [g];
    assert r[..|r| - 1] == front && gs[..|gs| - 1] == front;
    assert OpenRows(r) == rows + ", (" + (p + ", " + q);
    assert rows + ", (" + (p + ", " + q) == (rows + ", (" + p) + ", " + q;
  }

  /** Extending the open row. */
  lemma {:induction false} OpenRowsExtend(gs: seq<seq<int>>, x: int)
    requires |gs| >= 1 && |gs[|gs| - 1]| >= 1
    ensures OpenRows(gs[..|gs| - 1] + [gs[|gs| - 1] + [x]]) == OpenRows(gs) + ", " + Param(x)
  {
    var front := gs[..|gs| - 1];
    var last := gs[|gs| - 1];
    assert gs == front + [last];
    if |gs| == 1 {
      OpenRowsExtendFirst(last, x);
    } else {
      OpenRowsExtendLater(front, last, x);
    }
  }

  /** The k-th value opening a row. */
  lemma {:induction false} FoldStartsRow(chunkSize: nat, n: nat, k: nat)
    requires 2 <= k <= n && StartsRow(chunkSize, k - 1)
    ensures ParamFold(chunkSize, n, k) == ParamFold(chunkSize, n, k - 1) + "), (" + Param(k) + (if k == n then ")" else "")
  {
  }

  lemma {:induction false} FoldStartsRowAsWritten(chunkSize: nat, n: nat, k: nat)
    requires 2 <= k <= n && StartsRow(chunkSize, k - 1)
    ensures ParamFoldAsWritten(chunkSize, n, k) == ParamFoldAsWritten(chunkSize, n, k - 1) + "), (" + Param(k)
  {
  }

  /** The k-th value extending the open row. */
  lemma {:induction false} FoldExtendsRow(chunkSize: nat, n: nat, k: nat)
    requires 2 <= k <= n && !StartsRow(chunkSize, k - 1)
    ensures ParamFold(chunkSize, n, k) == ParamFold(chunkSize, n, k - 1) + ", " + Param(k) + (if k == n then ")" else "")
  {
  }

  lemma {:induction false} FoldExtendsRowAsWritten(chunkSize: nat, n: nat, k: nat)
    requires 2 <= k <= n && !StartsRow(chunkSize, k - 1)
    ensures ParamFoldAsWritten(chunkSize, n, k) == ParamFoldAsWritten(chunkSize, n, k - 1) + ", " + Param(k) + (if k == n then ")" else "")
  {
  }

  lemma {:induction false} GroupsStep(chunkSize: nat, k: nat)
    requires k >= 2
    ensures var gs := Groups(chunkSize, k - 1);
      && (StartsRow(chunkSize, k - 1) ==> Groups(chunkSize, k) == gs + [[k]])
      && (!StartsRow(chunkSize, k - 1) ==> Groups(chunkSize, k) == gs[..|gs| - 1] + [gs[|gs| - 1] + [k]])
  {
  }

  /** Before the last value both folds hold the rows so far, the last one open. */
  lemma {:induction false} ParamFoldOpen(chunkSize: nat, n: nat, k: nat)
    requires 1 <= k < n
    ensures ParamFold(chunkSize, n, k) == OpenRows(Groups(chunkSize, k))
    ensures ParamFoldAsWritten(chunkSize, n, k) == ParamFold(chunkSize, n, k)
  {
    if k > 1 {
      ParamFoldOpen(chunkSize, n, k - 1);
      var gs := Groups(chunkSize, k - 1);
      GroupsStep(chunkSize, k);
      if StartsRow(chunkSize, k - 1) {
        FoldStartsRow(chunkSize, n, k);
        FoldStartsRowAsWritten(chunkSize, n, k);
        OpenRowsNew(gs, k);
      } else {
        FoldExtendsRow(chunkSize, n, k);
        FoldExtendsRowAsWritten(chunkSize, n, k);
        OpenRowsExtend(gs, k);
      }
    } else {
      SingleParam(1);
      assert ParamFold(chunkSize, n, 1) == "(" + Param(1);
    }
  }

  lemma {:induction false} LastStepStarts(chunkSize: nat, n: nat)
    requires n >= 2 && StartsRow(chunkSize, n - 1)
    ensures var gs := Groups(chunkSize, n);
      && ParamFold(chunkSize, n, n) == OpenRows(gs) + ")"
      && ParamFoldAsWritten(chunkSize, n, n) == OpenRows(gs)
  {
    var gs := Groups(chunkSize, n - 1);
    var open := OpenRows(gs);
    ParamFoldOpen(chunkSize, n, n - 1);
    assert ParamFold(chunkSize, n, n - 1) == open && ParamFoldAsWritten(chunkSize, n, n - 1) == open;
    GroupsStep(chunkSize, n);
    OpenRowsNew(gs, n);
    assert OpenRows(Groups(chunkSize, n)) == open + "), (" + Param(n);
    FoldStartsRow(chunkSize, n, n);
    assert ParamFold(chunkSize, n, n) == open + "), (" + Param(n) + ")";
    FoldStartsRowAsWritten(chunkSize, n, n);
    assert ParamFoldAsWritten(chunkSize, n, n) == open + "), (" + Param(n);
  }

  lemma {:induction false} LastStepExtends(chunkSize: nat, n: nat)
    requires n >= 2 && !StartsRow(chunkSize, n - 1)
    ensures var gs := Groups(chunkSize, n);
      && ParamFold(chunkSize, n, n) == OpenRows(gs) + ")"
      && ParamFoldAsWritten(chunkSize, n, n) == OpenRows(gs) + ")"
  {
    ParamFoldOpen(chunkSize, n, n - 1);
    GroupsStep(chunkSize, n);
    var line := ParamFold(chunkSize, n, n - 1) + ", " + Param(n);
    FoldExtendsRow(chunkSize, n, n);
    assert ParamFold(chunkSize, n, n) == line + ")";
    FoldExtendsRowAsWritten(chunkSize, n, n);
    assert ParamFoldAsWritten(chunkSize, n, n) == line + ")";
    var gs := Groups(chunkSize, n - 1);
    assert OpenRows(gs) == ParamFold(chunkSize, n, n - 1);
    assert Groups(chunkSize, n) == gs[..|gs| - 1] + [gs[|gs| - 1] + [n]];
    OpenRowsExtend(gs, n);
  }

  /** The last value's step, from the open rows before it. */
  lemma {:induction false} LastStep(chunkSize: nat, n: nat)
    requires n >= 2
    ensures var gs := Groups(chunkSize, n);
      && ParamFold(chunkSize, n, n) == OpenRows(gs) + ")"
      && ParamFoldAsWritten(chunkSize, n, n) == OpenRows(gs) + (if StartsRow(chunkSize, n - 1) then "" else ")")
  {
    if StartsRow(chunkSize, n - 1) {
      LastStepStarts(chunkSize, n);
      assert OpenRows(Groups(chunkSize, n)) + "" == OpenRows(Groups(chunkSize, n));
    } else {
      LastStepExtends(chunkSize, n);
    }
  }

  /** Corrected, the VALUES list is the rows of the values, every one closed. */
  lemma {:induction false} ParamFoldRows(chunkSize: nat, n: nat)
    requires n >= 1
    ensures ParamFold(chunkSize, n, n) == Rows(Groups(chunkSize, n))
  {
    if n == 1 {
      SingleParam(1);
      assert RowTexts([[1]]) == [Row([1])];
    } else {
      LastStep(chunkSize, n);
      RowsClose(Groups(chunkSize, n));
    }
  }

  /**
   * As written the last row is left open exactly when it holds one value
   * of several: `(n - 1) % chunkSize == 0` with n >= 2.
   */
  lemma {:induction false} ParamFoldAsWrittenRows(chunkSize: nat, n: nat)
    requires n >= 1
    ensures var gs := Groups(chunkSize, n);
      if n >= 2 && StartsRow(chunkSize, n - 1)
      then ParamFoldAsWritten(chunkSize, n, n) == OpenRows(gs) && ParamFoldAsWritten(chunkSize, n, n) != Rows(gs)
      else ParamFoldAsWritten(chunkSize, n, n) == Rows(gs)
  {
    ParamFoldRows(chunkSize, n);
    if n >= 2 {
      LastStep(chunkSize, n);
      var gs := Groups(chunkSize, n);
      RowsClose(gs);
      assert |Rows(gs)| == |OpenRows(gs)| + 1;
    } else {
      assert ParamFoldAsWritten(chunkSize, 1, 1) == ParamFold(chunkSize, 1, 1);
    }
  }

  // ---- examples

  lemma {:induction false} SmallParams()
    ensures Param(0) == "$0" && Param(1) == "$1" && Param(2) == "$2"
  {
    assert DigitChar(0) == '0' && DigitChar(1) == '1' && DigitChar(2) == '2';
  }

  /** One value gives `($1)`. */
  lemma {:induction false} InsertOneValue()
    ensures InsertQueryAsWritten("users", ["name"], [Str("jane")]) == "INSERT INTO users (name) VALUES ($1)"
  {
    SmallParams();
    var f := ParamFoldAsWritten(1, 1, 1);
    assert f == ParamStepAsWritten(1, 1, "", 0) == "($1)";
  }

  /** Two columns and two values give the row `($1, $2)`. */
  lemma {:induction false} InsertTwoColumns()
    ensures ParamFoldAsWritten(2, 2, 2) == "($1, $2)"
  {
    SmallParams();
    var f1 := ParamFoldAsWritten(2, 2, 1);
    assert f1 == ParamStepAsWritten(2, 2, "", 0) == "($1";
    assert ParamFoldAsWritten(2, 2, 2) == ParamStepAsWritten(2, 2, f1, 1) == f1 + ", " + "$2" + ")";
  }

  /** One column and two rows: as written the second row is never closed. */
  lemma {:induction false} InsertTwoRows()
    ensures ParamFoldAsWritten(1, 2, 2) == "($1), ($2"
    ensures ParamFold(1, 2, 2) == "($1), ($2)"
  {
    SmallParams();
    var w := ParamFoldAsWritten(1, 2, 1);
    var c := ParamFold(1, 2, 1);
    assert w == ParamStepAsWritten(1, 2, "", 0) == "($1";
    assert c == ParamStep(1, 2, "", 0) == "($1";
    assert ParamFoldAsWritten(1, 2, 2) == ParamStepAsWritten(1, 2, w, 1) == w + "), (" + "$2";
    assert ParamFold(1, 2, 2) == ParamStep(1, 2, c, 1) == c + "), (" + "$2" + ")";
  }

  /** One SET column and one id: as written both are bound to `$1`. */
  lemma {:induction false} UpdateExampleAsWritten()
    ensures UpdateQueryAsWritten("t", ["a"], ["id"]) == "UPDATE t SET a = $1 WHERE id = $1"
  {
    SmallParams();
    assert Bindings(["a"], " = ", Numbers(1, 1)) == ["a" + " = " + "$1"];
    assert Bindings(["id"], " = ", Numbers(1, 1)) == ["id" + " = " + "$1"];
  }

  /** Corrected, the id is bound to `$2`. */
  lemma {:induction false} UpdateExample()
    ensures UpdateQuery("t", ["a"], ["id"]) == "UPDATE t SET a = $1 WHERE id = $2"
  {
    SmallParams();
    assert Bindings(["a"], " = ", Numbers(1, 1)) == ["a" + " = " + "$1"];
    assert Bindings(["id"], " = ", Numbers(2, 1)) == ["id" + " = " + "$2"];
  }

  /** One id: as written it is bound to `$0`. */
  lemma {:induction false} DeleteExample()
    ensures DeleteQueryAsWritten("t", ["id"]) == "DELETE FROM t WHERE id = $0"
    ensures DeleteQuery("t", ["id"]) == "DELETE FROM t WHERE id = $1"
  {
    SmallParams();
    var w := Bindings(["id"], " = ", Numbers(0, 1));
    var c := Bindings(["id"], " = ", Numbers(1, 1));
    assert w == ["id" + " = " + "$0"];
    assert c == ["id" + " = " + "$1"];
  }

  // ---------------------------------------------------------------- coercion

  /** The cast `propSchemaToSql` picks: `toGeneral` wins over `toSql`. */
  function Converter(t: SchemaType): Option<Caster> {
    if ToGeneral(t).Some? then ToGeneral(t) else ToSql(t)
  }

  /** `prop.typeMax` is truthy: declared and not 0. */
  predicate TruthyMax(p: StructProp) {
    p.typeMax.Some? && p.typeMax.value != 0
  }

  /**
   * `propSchemaToSql` as written: a string is cut to `typeMax`; anything
   * else is the RAW value clamped to the declared bounds.
   */
  function PropSchemaToSqlAsWritten(p: StructProp, v: Value): Value {
    var converted := if Converter(p.typ).Some? then Some(Apply(Converter(p.typ).value, v)) else None;
    if converted.Some? && converted.value.Str? then
      if TruthyMax(p) then Str(SlicePrefix(converted.value.s, p.typeMax.value)) else converted.value
    else ToIntBetweenOptional(p.typeMin, p.typeMax, v)
  }

  /** `propSchemaToSql` clamping the converted value, or the raw one when the type has no cast. */
  function PropSchemaToSql(p: StructProp, v: Value): Value {
    var converted := if Converter(p.typ).Some? then Some(Apply(Converter(p.typ).value, v)) else None;
    if converted.Some? && converted.value.Str? then
      if TruthyMax(p) then Str(SlicePrefix(converted.value.s, p.typeMax.value)) else converted.value
    else ToIntBetweenOptional(p.typeMin, p.typeMax, if converted.Some? then converted.value else v)
  }

  /** `propToSql`: a bare tag uses `toSql`, then `toGeneral`, else `''`; a prop goes to `propSchemaToSql`. */
  function PropToSql(item: StructItem, v: Value): Value {
    match item
    case Bare(t) =>
      if ToSql(t).Some? then Apply(ToSql(t).value, v)
      else if ToGeneral(t).Some? then Apply(ToGeneral(t).value, v)
      else Str("")
    case Full(p) => PropSchemaToSql(p, v)
  }

  /**
   * A string column, an address or a boolean is written as a string, cut to
   * a truthy `typeMax`; a positive `typeMax` bounds its length.
   */
  lemma {:induction false} PropSchemaToSqlStrings(p: StructProp, v: Value)
    requires p.typ in {String, Ipv4, Boolean}
    ensures var full := if p.typ == Boolean then (if Truthy(v) then "TRUE" else "FALSE") else ToStr(v);
      var r := PropSchemaToSql(p, v);
      && r.Str? && |r.s| <= |full| && r.s == full[..|r.s|]
      && (!TruthyMax(p) ==> r.s == full)
      && (TruthyMax(p) && p.typeMax.value > 0 ==> |r.s| <= p.typeMax.value)
      && PropSchemaToSqlAsWritten(p, v) == r
  {
  }

  /** As written, a number column with no declared bounds passes the raw value through. */
  lemma {:induction false} RawValuePassesThrough(p: StructProp, v: Value)
    requires p.typ !in {String, Ipv4, Boolean} && p.typeMin.None? && p.typeMax.None?
    ensures PropSchemaToSqlAsWritten(p, v) == v
  {
  }

  /** 300 in a UInt8 column: as written 300 is sent, corrected the type's range clamps it to 255. */
  lemma {:induction false} UInt8Column()
    ensures PropSchemaToSqlAsWritten(PropOfType(UInt8), Int(300)) == Int(300)
    ensures PropSchemaToSql(PropOfType(UInt8), Int(300)) == Int(255)
    ensures PropSchemaToSql(PropOfType(UInt8), Int(-5)) == Int(0)
  {
    UInt8Saturates(300);
    UInt8Saturates(-5);
  }

  /**
   * Corrected, a fixed-size integer column with no declared bounds is
   * clamped to the range of its type.
   */
  lemma {:induction false} PropSchemaToSqlClamps(p: StructProp, v: Value)
    requires p.typ in {Int8, Int16, Int32, UInt8, UInt16, UInt32} && p.typeMin.None? && p.typeMax.None?
    ensures PropSchemaToSql(p, v) == Apply(ToGeneral(p.typ).value, v)
    ensures var r := PropSchemaToSql(p, v);
      r.Int? ==> (if p.typ in {Int8, Int16, Int32} then -Pow2(Bits(p.typ) - 1) else 0) <= r.i
                   <= (if p.typ in {Int8, Int16, Int32} then Pow2(Bits(p.typ) - 1) - 1 else Pow2(Bits(p.typ)) - 1)
  {
    if p.typ in {Int8, Int16, Int32} {
      SignedClamp(p.typ, v);
    } else {
      UnsignedClamp(p.typ, v);
    }
  }

  /** Corrected, declared bounds still clamp: the result lies within them. */
  lemma {:induction false} PropSchemaToSqlBounds(p: StructProp, v: Value)
    requires p.typ !in {String, Ipv4, Boolean} && p.typeMin.Some? && p.typeMax.Some? && p.typeMin.value <= p.typeMax.value
    ensures var r := PropSchemaToSql(p, v);
      r.Int? ==> p.typeMin.value <= r.i <= p.typeMax.value
  {
    var converted := if Converter(p.typ).Some? then Apply(Converter(p.typ).value, v) else v;
    IntBetweenBound(p.typeMin.value, p.typeMax.value, converted);
  }

  /** A bare tag without a cast (Date, Decimal) becomes `''`. */
  lemma {:induction false} PropToSqlUncast(t: SchemaType, v: Value)
    requires t in {Date, Decimal}
    ensures PropToSql(Bare(t), v) == Str("")
  {
  }

  // ---------------------------------------------------------------- validatePropValsForInput

  /** `vals[i]`, undefined past the end. */
  function ValueAt(vals: seq<Value>, i: nat): Value {
    if i < |vals| then vals[i] else Undefined
  }

  /** A column the application may write: the struct has it and it carries no db-only constraint. */
  predicate Writable(struct: StructStrict, col: string) {
    Get(struct, col).Some? && !HasDbOnlyConstraints(Get(struct, col).value)
  }

  /** The indices of the writable columns, in order. */
  function WritableIndices(struct: StructStrict, cols: seq<string>): (r: seq<nat>)
    ensures forall j :: 0 <= j < |r| ==> r[j] < |cols|
    decreases |cols|
  {
    if |cols| == 0 then []
    else WritableIndices(struct, cols[..|cols| - 1]) + (if Writable(struct, cols[|cols| - 1]) then [|cols| - 1] else [])
  }

  lemma {:induction false} WritableIndicesSpec(struct: StructStrict, cols: seq<string>, i: int)
    ensures var idx := WritableIndices(struct, cols);
      && (i in idx <==> 0 <= i < |cols| && Writable(struct, cols[i]))
      && (forall a, b :: 0 <= a < b < |idx| ==> idx[a] < idx[b])
    decreases |cols|
  {
    if |cols| > 0 {
      var n := |cols| - 1;
      WritableIndicesSpec(struct, cols[..n], i);
      assert cols[..n][..] == cols[..n];
      if 0 <= i < n {
        assert cols[..n][i] == cols[i];
      }
    }
  }

  /** What `validatePropValsForInput` returns: the writable columns and their coerced values. */
  function ValidPropVals(struct: StructStrict, cols: seq<string>, vals: seq<Value>): (seq<string>, seq<Value>)
    decreases |cols|
  {
    if |cols| == 0 then ([], [])
    else
      var i := |cols| - 1;
      var front := ValidPropVals(struct, cols[..i], vals);
      if Writable(struct, cols[i]) then
        (front.0 + [cols[i]], front.1 + [PropToSql(Full(Get(struct, cols[i]).value), ValueAt(vals, i))])
      else front
  }

  /** The j-th output pair is the j-th writable column and its value coerced by the column's prop. */
  ghost predicate PairedWithWritable(struct: StructStrict, cols: seq<string>, vals: seq<Value>, kept: seq<string>, params: seq<Value>)
  {
    var idx := WritableIndices(struct, cols);
    && |kept| == |idx| && |params| == |idx|
    && forall j :: 0 <= j < |idx| ==>
         && kept[j] == cols[idx[j]]
         && Get(struct, cols[idx[j]]).Some?
         && params[j] == PropToSql(Full(Get(struct, cols[idx[j]]).value), ValueAt(vals, idx[j]))
  }

  lemma {:induction false} ValidPropValsSpec(struct: StructStrict, cols: seq<string>, vals: seq<Value>)
    ensures var r := ValidPropVals(struct, cols, vals);
      PairedWithWritable(struct, cols, vals, r.0, r.1)
    decreases |cols|
  {
    if |cols| > 0 {
      var i := |cols| - 1;
      ValidPropValsSpec(struct, cols[..i], vals);
      var idx := WritableIndices(struct, cols[..i]);
      forall j | 0 <= j < |idx|
        ensures cols[..i][idx[j]] == cols[idx[j]]
      {
      }
    }
  }

  /** Only the values at the columns' own indices are read. */
  lemma {:induction false} ValidPropValsReadsColumnsOnly(struct: StructStrict, cols: seq<string>, vals: seq<Value>, vals2: seq<Value>)
    requires forall k :: 0 <= k < |cols| ==> ValueAt(vals, k) == ValueAt(vals2, k)
    ensures ValidPropVals(struct, cols, vals) == ValidPropVals(struct, cols, vals2)
    decreases |cols|
  {
    if |cols| > 0 {
      ValidPropValsReadsColumnsOnly(struct, cols[..|cols| - 1], vals, vals2);
    }
  }

  /** Values past the columns are never read. */
  lemma {:induction false} ValuesPastColumnsIgnored(struct: StructStrict, cols: seq<string>, vals: seq<Value>)
    requires |vals| >= |cols|
    ensures ValidPropVals(struct, cols, vals) == ValidPropVals(struct, cols, vals[..|cols|])
  {
    ValidPropValsReadsColumnsOnly(struct, cols, vals, vals[..|cols|]);
  }

  /** `validatePropValsForInput(struct, cols, vals)`: the reduce pushing into `state.cols` and `state.vals`. */
  method ValidatePropValsForInput(struct: StructStrict, cols: seq<string>, vals: seq<Value>) returns (outCols: seq<string>, outVals: seq<Value>)
    ensures (outCols, outVals) == ValidPropVals(struct, cols, vals)
  {
    outCols, outVals := [], [];
    var i := 0;
    while i < |cols|
      invariant 0 <= i <= |cols|
      invariant (outCols, outVals) == ValidPropVals(struct, cols[..i], vals)
    {
      assert cols[..i + 1][..i] == cols[..i];
      var item := Get(struct, cols[i]);
      if item.Some? {
        if HasDbOnlyConstraints(item.value) {
        } else {
          outCols := outCols + [cols[i]];
          outVals := outVals + [PropToSql(Full(item.value), ValueAt(vals, i))];
        }
      }
      i := i + 1;
    }
    assert cols[..|cols|] == cols;
  }

  /** A column the struct does not declare is skipped with its value. */
  lemma {:induction false} ValidPropValsSkipsUnknown()
    ensures ValidPropVals([("name", PropOfType(String))], ["name", "rank"], [Str("jane"), Str("major")]) == (["name"], [Str("jane")])
  {
    var struct := [("name", PropOfType(String))];
    var vals := [Str("jane"), Str("major")];
    assert Get(struct, "rank") == None;
    assert Get(struct, "name") == Some(PropOfType(String));
    assert !HasDbOnlyConstraints(PropOfType(String));
    PropSchemaToSqlStrings(PropOfType(String), Str("jane"));
    assert PropToSql(Full(PropOfType(String)), Str("jane")) == Str("jane");
    assert ["name", "rank"][..1] == ["name"];
    assert ["name"][..0] == [];
    assert ValidPropVals(struct, ["name"], vals) == ([] + ["name"], [] + [Str("jane")]);
    assert !Writable(struct, "rank");
    assert ValidPropVals(struct, ["name", "rank"], vals) == ValidPropVals(struct, ["name"], vals);
    assert [] + ["name"] == ["name"] && [] + [Str("jane")] == [Str("jane")];
  }

  // ---------------------------------------------------------------- reduceByKeys

  /** The indices below `n` that `keys` lists, in order. */
  function KeyIndices(keys: seq<int>, n: nat): (r: seq<nat>)
    ensures forall j :: 0 <= j < |r| ==> r[j] < n
  {
    if n == 0 then [] else KeyIndices(keys, n - 1) + (if n - 1 in keys then [n - 1] else [])
  }

  lemma {:induction false} KeyIndicesSpec(keys: seq<int>, n: nat, i: int)
    ensures var idx := KeyIndices(keys, n);
      && (i in idx <==> 0 <= i < n && i in keys)
      && (forall a, b :: 0 <= a < b < |idx| ==> idx[a] < idx[b])
  {
    if n > 0 {
      KeyIndicesSpec(keys, n - 1, i);
    }
  }

  /** `xs.reduce(reduceByKeys(keys), [])`: the elements whose index `keys` lists, in order. */
  method ReduceByKeys<T>(keys: seq<int>, xs: seq<T>) returns (r: seq<T>)
    ensures var idx := KeyIndices(keys, |xs|);
      |r| == |idx| && forall j :: 0 <= j < |idx| ==> r[j] == xs[idx[j]]
  {
    r := [];
    var i := 0;
    while i < |xs|
      invariant 0 <= i <= |xs|
      invariant var idx := KeyIndices(keys, i);
        |r| == |idx| && forall j :: 0 <= j < |idx| ==> r[j] == xs[idx[j]]
    {
      if i in keys {
        r := r + [xs[i]];
      }
      i := i + 1;
    }
  }

  /**
   * `insertOrSelectIfExistsObservable` selects on the key columns: the key
   * columns and the key values come from the same indices, so they stay
   * paired.
   */
  method KeyColumnsAndValues(cols: seq<string>, vals: seq<Value>, keyIndexes: seq<int>) returns (keyCols: seq<string>, keyVals: seq<Value>)
    ensures var idx := KeyIndices(keyIndexes, |cols|);
      |cols| == |vals| ==>
        && |keyCols| == |idx| && |keyVals| == |idx|
        && forall j :: 0 <= j < |idx| ==> keyCols[j] == cols[idx[j]] && keyVals[j] == vals[idx[j]]
  {
    keyCols := ReduceByKeys(keyIndexes, cols);
    keyVals := ReduceByKeys(keyIndexes, vals);
  }

  // ---------------------------------------------------------------- query results

  datatype TableRow = TableRow(id: int)

  /** A `QueryResult`; `rows` is None when it is not an array. */
  datatype QueryResult = QueryResult(rows: Option<seq<TableRow>>)

  /** `isValidResult`: a result whose rows are a non-empty array. */
  predicate IsValidResult(result: Option<QueryResult>) {
    result.Some? && result.value.rows.Some? && |result.value.rows.value| > 0
  }

  /** A valid result has a first row; a missing result, a non-array or an empty array is not valid. */
  lemma {:induction false} IsValidResultSpec(result: Option<QueryResult>)
    ensures IsValidResult(result) <==> exists row :: result.Some? && result.value.rows.Some? && row in result.value.rows.value
    ensures !IsValidResult(None) && !IsValidResult(Some(QueryResult(None))) && !IsValidResult(Some(QueryResult(Some([]))))
  {
    if IsValidResult(result) {
      assert result.value.rows.value[0] in result.value.rows.value;
    }
  }

  /** `hasQueryError(first, result, i)`: the first failure found stays. */
  function HasQueryError(first: int, result: seq<TableRow>, i: nat): int {
    if first >= 0 then first
    else if |result| == 0 then i
    else first
  }

  /** `results.reduce(hasQueryError, first)` from index `i`. */
  function HasQueryErrorFold(first: int, results: seq<seq<TableRow>>, i: nat): int
    decreases |results|
  {
    if |results| == 0 then first else HasQueryErrorFold(HasQueryError(first, results[0], i), results[1..], i + 1)
  }

  /** The index of the first empty result, or -1. */
  function FirstError(results: seq<seq<TableRow>>): int {
    HasQueryErrorFold(-1, results, 0)
  }

  lemma {:induction false} HasQueryErrorFoldSpec(first: int, results: seq<seq<TableRow>>, i: nat)
    requires first == -1 || first >= 0
    ensures var r := HasQueryErrorFold(first, results, i);
      && (first >= 0 ==> r == first)
      && (first == -1 ==>
            && (r == -1 <==> forall k :: 0 <= k < |results| ==> |results[k]| > 0)
            && (r != -1 ==> i <= r < i + |results| && |results[r - i]| == 0)
            && (r != -1 ==> forall k :: 0 <= k < r - i ==> |results[k]| > 0))
    decreases |results|
  {
    if |results| > 0 {
      var next := HasQueryError(first, results[0], i);
      HasQueryErrorFoldSpec(next, results[1..], i + 1);
      if first == -1 && next == -1 {
        var r := HasQueryErrorFold(first, results, i);
        assert forall k :: 1 <= k < |results| ==> results[k] == results[1..][k - 1];
        if r != -1 {
          assert results[r - i] == results[1..][r - i - 1];
        }
      }
    }
  }

  /** `firstError` is -1 exactly when every result has a row, else the index of the first empty one. */
  lemma {:induction false} FirstErrorSpec(results: seq<seq<TableRow>>)
    ensures var r := FirstError(results);
      && (r == -1 <==> forall k :: 0 <= k < |results| ==> |results[k]| > 0)
      && (r != -1 ==> 0 <= r < |results| && |results[r]| == 0 && forall k :: 0 <= k < r ==> |results[k]| > 0)
  {
    HasQueryErrorFoldSpec(-1, results, 0);
  }

  /** The exception naming the dependent column at `k`, `undefined` past the end of `depCols`. */
  function CompoundError(depCols: seq<string>, k: int): string {
    "compoundInsertOrSelect: failed on dependent query for " + (if 0 <= k < |depCols| then depCols[k] else "undefined")
  }

  /**
   * `createReduceCompoundInsertOrSelectResults(depCols)(results)`: the id of
   * each first row, or the exception for the first empty result.
   */
  function CompoundResults(depCols: seq<string>, results: seq<seq<TableRow>>): Result<seq<int>, string> {
    var firstError := FirstError(results);
    if firstError != -1 then Err(CompoundError(depCols, firstError))
    else
      FirstErrorSpec(results);
      Ok(seq(|results|, k requires 0 <= k < |results| => results[k][0].id))
  }

  /** Every result has a row and the ids are the first rows' ids, or the error names the first empty result. */
  lemma {:induction false} CompoundResultsSpec(depCols: seq<string>, results: seq<seq<TableRow>>)
    ensures var r := CompoundResults(depCols, results);
      && (r.Ok? <==> forall k :: 0 <= k < |results| ==> |results[k]| > 0)
      && (r.Ok? ==> |r.value| == |results| && forall k :: 0 <= k < |results| ==> r.value[k] == results[k][0].id)
      && (r.Err? ==> exists k :: FirstEmpty(results, k) && r.error == CompoundError(depCols, k))
  {
    FirstErrorSpec(results);
  }

  predicate FirstEmpty(results: seq<seq<TableRow>>, k: int) {
    0 <= k < |results| && |results[k]| == 0 && forall j :: 0 <= j < k ==> |results[j]| > 0
  }

  /** An empty second result names the second column; two single rows give their ids. */
  lemma {:induction false} CompoundExamples()
    ensures CompoundResults(["col1", "col2"], [[TableRow(7)], []]) == Err(CompoundError(["col1", "col2"], 1))
    ensures CompoundResults(["col1", "col2"], [[TableRow(1)], [TableRow(2)]]) == Ok([1, 2])
  {
    var bad: seq<seq<TableRow>> := [[TableRow(7)], []];
    FirstErrorSpec(bad);
    assert |bad[0]| == 1 && |bad[1]| == 0;
    var good: seq<seq<TableRow>> := [[TableRow(1)], [TableRow(2)]];
    FirstErrorSpec(good);
    assert |good[0]| == 1 && |good[1]| == 1;
    assert seq(2, k requires 0 <= k < 2 => good[k][0].id) == [1, 2];
  }

  // ---------------------------------------------------------------- colsAndValsFromColsOrObject

  /** The `colsOrObject` argument of `insert` and `update`: a column list, or an object of column values. */
  datatype ColsOrObject = Columns(cols: seq<string>) | Object(fields: Dict<Value>)

  const LengthMismatch := "columns and values length must be the same or vals must be a multiple of cols"

  /** As written: equal lengths, or a column count that a non-zero value count divides. */
  predicate PairsAsWritten(cols: nat, vals: nat) {
    cols == vals || (vals != 0 && cols % vals == 0)
  }

  /** As the message says: equal lengths, or a positive multiple of a non-zero column count. */
  predicate Pairs(cols: nat, vals: nat) {
    cols == vals || (cols != 0 && vals != 0 && vals % cols == 0)
  }

  /** `cols.map(col => colsOrObject[col])`. */
  function FieldValues(fields: Dict<Value>, cols: seq<string>): seq<Value> {
    seq(|cols|, k requires 0 <= k < |cols| => Get(fields, cols[k]).GetOr(Undefined))
  }

  /** `colsAndValsFromColsOrObject` as written. */
  function ColsAndValsAsWritten(cv: ColsOrObject, vals: seq<Value>): Result<(seq<string>, seq<Value>), string> {
    match cv
    case Columns(cols) => if PairsAsWritten(|cols|, |vals|) then Ok((cols, vals)) else Err(LengthMismatch)
    case Object(fields) => Ok((Keys(fields), FieldValues(fields, Keys(fields))))
  }

  /** `colsAndValsFromColsOrObject` with the divisibility test the way round its message states. */
  function ColsAndVals(cv: ColsOrObject, vals: seq<Value>): Result<(seq<string>, seq<Value>), string> {
    match cv
    case Columns(cols) => if Pairs(|cols|, |vals|) then Ok((cols, vals)) else Err(LengthMismatch)
    case Object(fields) => Ok((Keys(fields), FieldValues(fields, Keys(fields))))
  }

  /**
   * A column list is passed on unchanged with its values, or rejected; as
   * written a list is accepted with fewer values than columns (or none at
   * all when there are no columns), corrected only with whole rows of values.
   */
  lemma {:induction false} ColsAndValsColumns(cols: seq<string>, vals: seq<Value>)
    ensures var w := ColsAndValsAsWritten(Columns(cols), vals);
      && (w.Ok? ==> w.value == (cols, vals))
      && (w.Err? ==> w.error == LengthMismatch)
      && (w.Ok? && |cols| != |vals| ==> |vals| < |cols| || |cols| == 0)
    ensures var r := ColsAndVals(Columns(cols), vals);
      && (r.Ok? ==> r.value == (cols, vals))
      && (r.Err? ==> r.error == LengthMismatch)
      && (r.Ok? <==> |cols| == |vals| || (|cols| > 0 && exists rows :: 1 <= rows && |vals| == rows * |cols|))
  {
    var c, v := |cols|, |vals|;
    if c > 0 && v > 0 && v % c == 0 {
      assert v == (v / c) * c;
      MulAtLeast(v / c, c);
    }
    if c > 0 && (exists rows :: 1 <= rows && v == rows * c) {
      var rows :| 1 <= rows && v == rows * c;
      UniqueMod(v, c, rows, 0);
    }
    if c != v && v != 0 && c % v == 0 && c > 0 {
      assert c == (c / v) * v;
      assert c / v != 0;
      MulAtLeast(c / v, v);
    }
  }

  /** Two columns with two rows of values, and four columns with half the values. */
  lemma {:induction false} ColsAndValsMultiples()
    ensures ColsAndValsAsWritten(Columns(["a", "b"]), [Int(1), Int(2), Int(3), Int(4)]) == Err(LengthMismatch)
    ensures ColsAndVals(Columns(["a", "b"]), [Int(1), Int(2), Int(3), Int(4)]).Ok?
    ensures ColsAndValsAsWritten(Columns(["a", "b", "c", "d"]), [Int(1), Int(2)]).Ok?
    ensures ColsAndVals(Columns(["a", "b", "c", "d"]), [Int(1), Int(2)]) == Err(LengthMismatch)
  {
  }

  /** An object yields its keys and, for each, its value; the given `vals` are ignored. */
  lemma {:induction false} ColsAndValsObject(fields: Dict<Value>, vals: seq<Value>)
    requires UniqueKeys(fields)
    ensures ColsAndVals(Object(fields), vals) == Ok((Keys(fields), Values(fields)))
    ensures ColsAndValsAsWritten(Object(fields), vals) == ColsAndVals(Object(fields), vals)
  {
    forall k | 0 <= k < |fields|
      ensures Get(fields, fields[k].0) == Some(fields[k].1)
    {
      GetFirst(fields, k);
    }
    assert FieldValues(fields, Keys(fields)) == Values(fields);
  }

  // ---------------------------------------------------------------- CRUD statements

  /**
   * Why a CRUD call fails: an error its Observable delivers, or the
   * TypeError `getStruct` throws when `schema[tableName]` is undefined.
   */
  datatype QueryError = Rejected(message: string) | NoSuchTable(table: string)

  /** The text and the parameters a CRUD call hands to `query`. */
  datatype Statement = Statement(text: string, params: seq<Value>)

  /** `getStruct`: the table's struct; a missing table throws before any "table not found" test. */
  function GetStruct(schema: SchemaStrict, tableName: string): (r: Result<StructStrict, QueryError>)
    ensures r.Err? <==> tableName !in Keys(schema)
    ensures r.Err? ==> r == Err(NoSuchTable(tableName))
  {
    match Get(schema, tableName)
    case Some(t) => Ok(t.struct)
    case None => Err(NoSuchTable(tableName))
  }

  /** The schema is an object: the struct found is that of the table's entry. */
  lemma {:induction false} GetStructOf(schema: SchemaStrict, i: nat)
    requires UniqueKeys(schema) && i < |schema|
    ensures GetStruct(schema, schema[i].0) == Ok(schema[i].1.struct)
  {
    GetFirst(schema, i);
  }

  const PairUp := "where: columns and values must pair up"

  /** `selectWhereValidator`: the lengths are compared before the table is looked up. */
  function SelectWhereValidator(schema: SchemaStrict, tableName: string, cols: seq<string>, vals: seq<Value>): (r: Result<StructStrict, QueryError>)
    ensures r.Ok? <==> |cols| == |vals| && tableName in Keys(schema)
    ensures |cols| != |vals| ==> r == Err(Rejected(PairUp))
    ensures |cols| == |vals| ==> r == GetStruct(schema, tableName)
  {
    if |cols| != |vals| then Err(Rejected(PairUp)) else GetStruct(schema, tableName)
  }

  /** `selectWhereObservable` and `selectWhereStream`: the statement they run. */
  function SelectWhere(schema: SchemaStrict, tableName: string, cols: seq<string>, vals: seq<Value>): Result<Statement, QueryError> {
    var v := SelectWhereValidator(schema, tableName, cols, vals);
    if v.Err? then Err(v.error)
    else
      var cv := ValidPropVals(v.value, cols, vals);
      Ok(Statement(SelectWhereQuery(tableName, cv.0), cv.1))
  }

  /** `selectStream`: the listed columns, no parameters; the schema is not read. */
  function Select(tableName: string, cols: seq<string>): Statement {
    Statement(SelectAllQuery(tableName, cols), [])
  }

  /** `insert` as written: the inverted pairing, one pass of `validatePropValsForInput` and the as-written VALUES fold. */
  function InsertAsWritten(schema: SchemaStrict, tableName: string, cv: ColsOrObject, vals: seq<Value>): Result<Statement, QueryError> {
    var cnv := ColsAndValsAsWritten(cv, vals);
    if cnv.Err? then Err(Rejected(cnv.error))
    else
      var struct := GetStruct(schema, tableName);
      if struct.Err? then Err(struct.error)
      else
        var valid := ValidPropVals(struct.value, cnv.value.0, cnv.value.1);
        Ok(Statement(InsertQueryAsWritten(tableName, valid.0, valid.1), valid.1))
  }

  /** The values cut into rows of `c`, from the front; the last row takes what is left. */
  function ValueRows(vals: seq<Value>, c: nat): seq<seq<Value>>
    decreases |vals|
  {
    if |vals| == 0 || c == 0 then []
    else if |vals| <= c then [vals]
    else [vals[..c]] + ValueRows(vals[c..], c)
  }

  /** The sequences of `xs` one after another. */
  function Concat<T>(xs: seq<seq<T>>): seq<T>
    decreases |xs|
  {
    if |xs| == 0 then [] else xs[0] + Concat(xs[1..])
  }

  /** Each row of values coerced by `validatePropValsForInput`. */
  function RowParams(struct: StructStrict, cols: seq<string>, rows: seq<seq<Value>>): seq<seq<Value>> {
    seq(|rows|, r requires 0 <= r < |rows| => ValidPropVals(struct, cols, rows[r]).1)
  }

  /**
   * `insert` with the pairing the way round its message, each row of
   * values coerced on its own, and the VALUES fold closing every row.
   */
  function Insert(schema: SchemaStrict, tableName: string, cv: ColsOrObject, vals: seq<Value>): Result<Statement, QueryError> {
    var cnv := ColsAndVals(cv, vals);
    if cnv.Err? then Err(Rejected(cnv.error))
    else
      var struct := GetStruct(schema, tableName);
      if struct.Err? then Err(struct.error)
      else
        var cols := cnv.value.0;
        var kept := ValidPropVals(struct.value, cols, cnv.value.1).0;
        var params := Concat(RowParams(struct.value, cols, ValueRows(cnv.value.1, |cols|)));
        Ok(Statement(InsertQuery(tableName, kept, params), params))
  }

  /** `update` as written: only the SET values are passed, though the WHERE names the id columns. */
  function UpdateAsWritten(schema: SchemaStrict, tableName: string, idProps: seq<string>, idValues: seq<Value>,
                           cv: ColsOrObject, vals: seq<Value>): Result<Statement, QueryError>
  {
    var cnv := ColsAndValsAsWritten(cv, vals);
    if cnv.Err? then Err(Rejected(cnv.error))
    else
      var struct := GetStruct(schema, tableName);
      if struct.Err? then Err(struct.error)
      else
        var valid := ValidPropVals(struct.value, cnv.value.0, cnv.value.1);
        Ok(Statement(UpdateQueryAsWritten(tableName, valid.0, idProps), valid.1))
  }

  /**
   * `update` numbering the ids after the SET values and passing the id values
   * after them. It keeps the source's own pairing test: an UPDATE sets one
   * row, so the rows of values the corrected `insert` accepts have no meaning here.
   */
  function Update(schema: SchemaStrict, tableName: string, idProps: seq<string>, idValues: seq<Value>,
                  cv: ColsOrObject, vals: seq<Value>): Result<Statement, QueryError>
  {
    var cnv := ColsAndValsAsWritten(cv, vals);
    if cnv.Err? then Err(Rejected(cnv.error))
    else
      var struct := GetStruct(schema, tableName);
      if struct.Err? then Err(struct.error)
      else
        var valid := ValidPropVals(struct.value, cnv.value.0, cnv.value.1);
        Ok(Statement(UpdateQuery(tableName, valid.0, idProps), valid.1 + idValues))
  }

  /** `deleteFrom` as written. */
  function DeleteFromAsWritten(schema: SchemaStrict, tableName: string, idProps: seq<string>, idValues: seq<Value>): Result<Statement, QueryError> {
    var struct := GetStruct(schema, tableName);
    if struct.Err? then Err(struct.error)
    else Ok(Statement(DeleteQueryAsWritten(tableName, idProps), idValues))
  }

  /** `deleteFrom` binding the ids from `$1`. */
  function DeleteFrom(schema: SchemaStrict, tableName: string, idProps: seq<string>, idValues: seq<Value>): Result<Statement, QueryError> {
    var struct := GetStruct(schema, tableName);
    if struct.Err? then Err(struct.error)
    else Ok(Statement(DeleteQuery(tableName, idProps), idValues))
  }

  // ---- what the statements bind

  /** Every placeholder number has a parameter: `$1..$|params|`. */
  predicate Bound(nums: seq<int>, params: seq<Value>) {
    forall k :: 0 <= k < |nums| ==> 1 <= nums[k] <= |params|
  }

  /** The WHERE binds the writable columns `kept`, in order, to their coerced values. */
  ghost predicate SelectWhereBinds(struct: StructStrict, tableName: string, cols: seq<string>, vals: seq<Value>, kept: seq<string>, st: Statement) {
    && PairedWithWritable(struct, cols, vals, kept, st.params)
    && st.text == SelectWhereQuery(tableName, kept)
    && Bound(Numbers(1, |kept|), st.params)
  }

  lemma {:induction false} SelectWhereSpec(schema: SchemaStrict, tableName: string, cols: seq<string>, vals: seq<Value>)
    ensures var r := SelectWhere(schema, tableName, cols, vals);
      && (|cols| != |vals| ==> r == Err(Rejected(PairUp)))
      && (|cols| == |vals| && tableName !in Keys(schema) ==> r == Err(NoSuchTable(tableName)))
      && (r.Ok? <==> |cols| == |vals| && tableName in Keys(schema))
      && (r.Ok? ==> exists kept :: SelectWhereBinds(GetStruct(schema, tableName).value, tableName, cols, vals, kept, r.value))
  {
    var r := SelectWhere(schema, tableName, cols, vals);
    if r.Ok? {
      var struct := GetStruct(schema, tableName).value;
      ValidPropValsSpec(struct, cols, vals);
      var cv := ValidPropVals(struct, cols, vals);
      assert SelectWhereBinds(struct, tableName, cols, vals, cv.0, r.value);
    }
  }

  /** Fewer values than the chunk size: one row. */
  lemma {:induction false} GroupsOneRow(chunkSize: nat, n: nat)
    requires 1 <= n <= chunkSize
    ensures Groups(chunkSize, n) == [Numbers(1, n)]
  {
    if n > 1 {
      GroupsOneRow(chunkSize, n - 1);
      UniqueMod(n - 1, chunkSize, 0, n - 1);
      assert !StartsRow(chunkSize, n - 1);
      GroupsStep(chunkSize, n);
      var g := Numbers(1, n - 1);
      assert [g][..0] == [];
      assert g + [n] == Numbers(1, n);
    } else {
      assert Numbers(1, 1) == [1];
    }
  }

  /** As many values as columns: the VALUES list is the single row `($1, ..., $n)`. */
  lemma {:induction false} OneRow(n: nat)
    requires n >= 1
    ensures ParamFold(n, n, n) == Row(Numbers(1, n))
  {
    ParamFoldRows(n, n);
    GroupsOneRow(n, n);
    assert RowTexts([Numbers(1, n)]) == [Row(Numbers(1, n))];
  }

  /** As written, the VALUES list of `insert`: one row binding the writable columns `kept` to their coerced values. */
  ghost predicate InsertAsWrittenBinds(struct: StructStrict, tableName: string, cols: seq<string>, vals: seq<Value>, kept: seq<string>, st: Statement) {
    && PairedWithWritable(struct, cols, vals, kept, st.params)
    && st.text == "INSERT INTO " + tableName + " (" + Join(", ", kept) + ") VALUES " + (if |kept| == 0 then "" else Row(Numbers(1, |kept|)))
    && Bound(Numbers(1, |kept|), st.params)
  }

  /**
   * `insert` as written rejects a mismatched column list, throws for a
   * missing table, and otherwise writes a single row: values past the
   * columns never reach the statement, and columns past the values are
   * bound to their coercion of `undefined`.
   */
  lemma {:induction false} InsertAsWrittenSpec(schema: SchemaStrict, tableName: string, cv: ColsOrObject, vals: seq<Value>)
    ensures var r := InsertAsWritten(schema, tableName, cv, vals);
      var cnv := ColsAndValsAsWritten(cv, vals);
      && (cnv.Err? ==> r == Err(Rejected(LengthMismatch)))
      && (cnv.Ok? && tableName !in Keys(schema) ==> r == Err(NoSuchTable(tableName)))
      && (r.Ok? <==> cnv.Ok? && tableName in Keys(schema))
      && (r.Ok? ==> InsertAsWrittenBinds(GetStruct(schema, tableName).value, tableName, cnv.value.0, cnv.value.1,
                                         ValidPropVals(GetStruct(schema, tableName).value, cnv.value.0, cnv.value.1).0, r.value))
  {
    var r := InsertAsWritten(schema, tableName, cv, vals);
    var cnv := ColsAndValsAsWritten(cv, vals);
    if r.Ok? {
      var struct := GetStruct(schema, tableName).value;
      ValidPropValsSpec(struct, cnv.value.0, cnv.value.1);
      var valid := ValidPropVals(struct, cnv.value.0, cnv.value.1);
      InsertAsWrittenText(tableName, valid.0, valid.1);
    }
  }

  /** As written, as many parameters as columns make the single row `($1, ..., $k)`. */
  lemma {:induction false} InsertAsWrittenText(tableName: string, kept: seq<string>, params: seq<Value>)
    requires |params| == |kept|
    ensures InsertQueryAsWritten(tableName, kept, params) ==
      "INSERT INTO " + tableName + " (" + Join(", ", kept) + ") VALUES " + (if |kept| == 0 then "" else Row(Numbers(1, |kept|)))
  {
    var k := |kept|;
    if k > 0 {
      ParamFoldAsWrittenRows(k, k);
      if k >= 2 {
        UniqueMod(k - 1, k, 0, k - 1);
      }
      GroupsOneRow(k, k);
      assert RowTexts([Numbers(1, k)]) == [Row(Numbers(1, k))];
    }
  }

  /** The rows numbered `1..c`, `c+1..2c`, ..., `(q-1)c+1..qc`. */
  function RowNumbers(q: nat, c: nat): (gs: seq<seq<int>>)
    ensures |gs| == q
  {
    if q == 0 then [] else RowNumbers(q - 1, c) + [Numbers((q - 1) * c + 1, c)]
  }

  /** Row q, opened at `b + 1` after q full rows, fills up to its m-th number. */
  lemma {:induction false} GroupsFill(c: nat, q: nat, b: nat, front: seq<seq<int>>, m: nat)
    requires c >= 1 && 1 <= m <= c && b == q * c
    requires Groups(c, b + 1) == front + [Numbers(b + 1, 1)]
    ensures Groups(c, b + m) == front + [Numbers(b + 1, m)]
    decreases m
  {
    if m > 1 {
      GroupsFill(c, q, b, front, m - 1);
      InsideRow(c, q, b, m - 1);
      GroupsExtendRow(c, b + m, front, b + 1, m);
    }
  }

  /** Inside a row, past its first number, the chunk size divides no index. */
  lemma {:induction false} InsideRow(c: nat, q: nat, b: nat, r: nat)
    requires c >= 1 && 1 <= r < c && b == q * c
    ensures !StartsRow(c, b + r)
  {
    UniqueMod(b + r, c, q, r);
  }

  /** A number whose index the chunk size does not divide extends the last row. */
  lemma {:induction false} GroupsExtendRow(c: nat, n: nat, front: seq<seq<int>>, first: int, m: nat)
    requires 2 <= m && n >= 2 && !StartsRow(c, n - 1) && first + m - 1 == n
    requires Groups(c, n - 1) == front + [Numbers(first, m - 1)]
    ensures Groups(c, n) == front + [Numbers(first, m)]
  {
    GroupsStep(c, n);
    var gs := Groups(c, n - 1);
    assert gs[..|gs| - 1] == front;
  }

  /** A number whose index the chunk size divides opens a row. */
  lemma {:induction false} GroupsOpenRow(c: nat, n: nat, front: seq<seq<int>>)
    requires n >= 2 && StartsRow(c, n - 1)
    requires Groups(c, n - 1) == front
    ensures Groups(c, n) == front + [Numbers(n, 1)]
  {
    GroupsStep(c, n);
    assert Numbers(n, 1) == [n];
  }

  /** q full rows of c values: the rows are `RowNumbers(q, c)`. */
  lemma {:induction false} GroupsWhole(c: nat, q: nat)
    requires c >= 1 && q >= 1
    ensures Groups(c, q * c) == RowNumbers(q, c)
    decreases q
  {
    if q == 1 {
      GroupsFirstRow(c);
    } else {
      var b := (q - 1) * c;
      var front := RowNumbers(q - 1, c);
      GroupsWhole(c, q - 1);
      GroupsNextRow(c, q - 1, b, front);
      NextMultiple(c, q, b);
      assert RowNumbers(q, c) == front + [Numbers(b + 1, c)];
    }
  }

  /** The first c values fill the first row. */
  lemma {:induction false} GroupsFirstRow(c: nat)
    requires c >= 1
    ensures Groups(c, 1 * c) == RowNumbers(1, c)
  {
    assert 0 * c == 0 && 1 * c == c;
    assert Numbers(1, 1) == [1];
    GroupsFill(c, 0, 0, [], c);
    assert RowNumbers(1, c) == [] + [Numbers(1, c)];
  }

  lemma {:induction false} NextMultiple(c: nat, q: nat, b: nat)
    requires q >= 1 && b == (q - 1) * c
    ensures b + c == q * c
  {
  }

  /** After q full rows, ending at b, the next c values fill one more row. */
  lemma {:induction false} GroupsNextRow(c: nat, q: nat, b: nat, front: seq<seq<int>>)
    requires c >= 1 && q >= 1 && b == q * c
    requires Groups(c, b) == front
    ensures Groups(c, b + c) == front + [Numbers(b + 1, c)]
  {
    MulAtLeast(q, c);
    UniqueMod(b, c, q, 0);
    GroupsOpenRow(c, b + 1, front);
    GroupsFill(c, q, b, front, c);
  }

  /** Rows of c values hold every value, in order, and each has c of them when c divides the count. */
  lemma {:induction false} ValueRowsSpec(vals: seq<Value>, c: nat)
    requires c >= 1
    ensures Concat(ValueRows(vals, c)) == vals
    ensures |vals| % c == 0 ==> forall r :: 0 <= r < |ValueRows(vals, c)| ==> |ValueRows(vals, c)[r]| == c
    decreases |vals|
  {
    var rows := ValueRows(vals, c);
    if |vals| == 0 {
    } else if |vals| <= c {
      assert rows == [vals];
      assert Concat(rows) == vals + Concat([]);
      if |vals| < c {
        UniqueMod(|vals|, c, 0, |vals|);
      }
    } else {
      var rest := vals[c..];
      ValueRowsSpec(rest, c);
      assert rows[1..] == ValueRows(rest, c);
      assert Concat(rows) == vals[..c] + rest;
      if |vals| % c == 0 {
        var q := |vals| / c;
        assert |rest| == (q - 1) * c + 0;
        UniqueMod(|rest|, c, q - 1, 0);
      }
    }
  }

  /** Rows of k values concatenate to k values per row. */
  lemma {:induction false} ConcatLength<T>(xs: seq<seq<T>>, k: nat)
    requires forall r :: 0 <= r < |xs| ==> |xs[r]| == k
    ensures |Concat(xs)| == |xs| * k
    decreases |xs|
  {
    if |xs| > 0 {
      ConcatLength(xs[1..], k);
      assert |xs| * k == k + (|xs| - 1) * k;
    }
  }

  /** The writable columns do not depend on the values. */
  lemma {:induction false} KeptColumns(struct: StructStrict, cols: seq<string>, vals: seq<Value>, vals2: seq<Value>)
    ensures ValidPropVals(struct, cols, vals).0 == ValidPropVals(struct, cols, vals2).0
    ensures |ValidPropVals(struct, cols, vals).1| == |ValidPropVals(struct, cols, vals).0|
    decreases |cols|
  {
    if |cols| > 0 {
      KeptColumns(struct, cols[..|cols| - 1], vals, vals2);
    }
  }

  /**
   * Corrected, the VALUES list of `insert` for the value rows `rows`: each
   * row coerced on its own binds the writable columns `kept`, the rows
   * follow one another in the parameters, and the text has one row of
   * placeholders per row of values, numbered `$1..$n` without a gap.
   */
  ghost predicate InsertBinds(struct: StructStrict, tableName: string, cols: seq<string>, rows: seq<seq<Value>>,
                              kept: seq<string>, st: Statement) {
    var params := RowParams(struct, cols, rows);
    && (forall r :: 0 <= r < |rows| ==> PairedWithWritable(struct, cols, rows[r], kept, params[r]))
    && st.params == Concat(params)
    && |st.params| == |rows| * |kept|
    && st.text == "INSERT INTO " + tableName + " (" + Join(", ", kept) + ") VALUES "
                  + (if |st.params| == 0 then "" else Rows(RowNumbers(|rows|, |kept|)))
    && (|st.params| > 0 ==> Flatten(RowNumbers(|rows|, |kept|)) == Numbers(1, |st.params|))
  }

  /**
   * Corrected, `insert` rejects a mismatched column list and throws for a
   * missing table; otherwise the values, cut into rows of one value per
   * column, are every value given, each row is coerced and written as a
   * row of its own.
   */
  lemma {:induction false} InsertSpec(schema: SchemaStrict, tableName: string, cv: ColsOrObject, vals: seq<Value>)
    ensures var r := Insert(schema, tableName, cv, vals);
      var cnv := ColsAndVals(cv, vals);
      && (cnv.Err? ==> r == Err(Rejected(LengthMismatch)))
      && (cnv.Ok? && tableName !in Keys(schema) ==> r == Err(NoSuchTable(tableName)))
      && (r.Ok? <==> cnv.Ok? && tableName in Keys(schema))
      && (r.Ok? ==>
            var cols := cnv.value.0;
            var rows := ValueRows(cnv.value.1, |cols|);
            && Concat(rows) == cnv.value.1
            && (forall j :: 0 <= j < |rows| ==> |rows[j]| == |cols|)
            && InsertBinds(GetStruct(schema, tableName).value, tableName, cols, rows,
                           ValidPropVals(GetStruct(schema, tableName).value, cols, cnv.value.1).0, r.value))
  {
    var r := Insert(schema, tableName, cv, vals);
    var cnv := ColsAndVals(cv, vals);
    if r.Ok? {
      var struct := GetStruct(schema, tableName).value;
      ColsAndValsWhole(cv, vals);
      InsertRows(struct, tableName, cnv.value.0, cnv.value.1);
    }
  }

  /** A whole number of value rows: each is coerced and written as a row of its own. */
  lemma {:induction false} InsertRows(struct: StructStrict, tableName: string, cols: seq<string>, vs: seq<Value>)
    requires |cols| == 0 ==> vs == []
    requires |cols| > 0 ==> |vs| % |cols| == 0
    ensures var rows := ValueRows(vs, |cols|);
      var kept := ValidPropVals(struct, cols, vs).0;
      var params := Concat(RowParams(struct, cols, rows));
      && Concat(rows) == vs
      && (forall j :: 0 <= j < |rows| ==> |rows[j]| == |cols|)
      && InsertBinds(struct, tableName, cols, rows, kept, Statement(InsertQuery(tableName, kept, params), params))
  {
    var rows := ValueRows(vs, |cols|);
    var kept := ValidPropVals(struct, cols, vs).0;
    if |cols| > 0 {
      ValueRowsSpec(vs, |cols|);
    }
    var params := RowParams(struct, cols, rows);
    forall j | 0 <= j < |rows|
      ensures PairedWithWritable(struct, cols, rows[j], kept, params[j]) && |params[j]| == |kept|
    {
      ValidPropValsSpec(struct, cols, rows[j]);
      KeptColumns(struct, cols, rows[j], vs);
    }
    ConcatLength(params, |kept|);
    InsertRowsText(tableName, kept, |rows|, Concat(params));
  }

  /** What the corrected pairing accepts: no values for no columns, and otherwise a whole number of rows. */
  lemma {:induction false} ColsAndValsWhole(cv: ColsOrObject, vals: seq<Value>)
    requires ColsAndVals(cv, vals).Ok?
    ensures var cnv := ColsAndVals(cv, vals).value;
      && (|cnv.0| == 0 ==> cnv.1 == [])
      && (|cnv.0| > 0 ==> |cnv.1| % |cnv.0| == 0)
  {
    var cnv := ColsAndVals(cv, vals).value;
    if |cnv.0| == |cnv.1| && |cnv.0| > 0 {
      UniqueMod(|cnv.1|, |cnv.0|, 1, 0);
    }
  }

  /** The corrected VALUES text for q rows of k writable columns. */
  lemma {:induction false} InsertRowsText(tableName: string, kept: seq<string>, q: nat, params: seq<Value>)
    requires |params| == q * |kept|
    ensures InsertQuery(tableName, kept, params) == "INSERT INTO " + tableName + " (" + Join(", ", kept) + ") VALUES "
                  + (if |params| == 0 then "" else Rows(RowNumbers(q, |kept|)))
    ensures |params| > 0 ==> Flatten(RowNumbers(q, |kept|)) == Numbers(1, |params|)
  {
    var k := |kept|;
    if |params| > 0 {
      assert k >= 1 && q >= 1;
      ParamFoldRows(k, |params|);
      GroupsWhole(k, q);
      GroupsFlatten(k, |params|);
    }
  }

  /**
   * Four columns with two values: as written they are accepted, one row
   * is written and the last two columns are bound to `undefined`;
   * corrected the call is rejected.  Two columns with four values: as
   * written rejected, corrected written as two rows.
   */
  lemma {:induction false} InsertMismatchedCounts(struct: StructStrict, cols4: seq<string>, cols2: seq<string>, a: Value, b: Value, c: Value, d: Value)
    requires |cols4| == 4 && |cols2| == 2
    ensures var s := [("t", TableStrict(struct, None, None, None))];
      && InsertAsWritten(s, "t", Columns(cols4), [a, b]).Ok?
      && InsertAsWritten(s, "t", Columns(cols4), [a, b]).value.params == ValidPropVals(struct, cols4, [a, b, Undefined, Undefined]).1
      && Insert(s, "t", Columns(cols4), [a, b]) == Err(Rejected(LengthMismatch))
      && InsertAsWritten(s, "t", Columns(cols2), [a, b, c, d]) == Err(Rejected(LengthMismatch))
      && Insert(s, "t", Columns(cols2), [a, b, c, d]).Ok?
      && Insert(s, "t", Columns(cols2), [a, b, c, d]).value.params ==
           ValidPropVals(struct, cols2, [a, b]).1 + ValidPropVals(struct, cols2, [c, d]).1
  {
    var s := [("t", TableStrict(struct, None, None, None))];
    assert Get(s, "t") == Some(s[0].1);
    ValidPropValsReadsColumnsOnly(struct, cols4, [a, b], [a, b, Undefined, Undefined]);
    var vs := [a, b, c, d];
    assert vs[..2] == [a, b] && vs[2..] == [c, d];
    assert ValueRows([c, d], 2) == [[c, d]];
    assert ValueRows(vs, 2) == [[a, b], [c, d]];
    var ps := RowParams(struct, cols2, [[a, b], [c, d]]);
    assert Concat(ps[1..][1..]) == [];
    assert Concat(ps[1..]) == ps[1];
    assert Concat(ps) == ps[0] + ps[1];
  }

  /** The SET binds `kept` to `setVals`; the ids follow, from `$(|kept| + 1)`. */
  ghost predicate UpdateBinds(struct: StructStrict, tableName: string, cols: seq<string>, vals: seq<Value>,
                              idProps: seq<string>, idValues: seq<Value>, kept: seq<string>, setVals: seq<Value>, st: Statement) {
    && PairedWithWritable(struct, cols, vals, kept, setVals)
    && st.text == UpdateQuery(tableName, kept, idProps)
    && st.params == setVals + idValues
    && UpdateSetNumbers(kept) + UpdateWhereNumbers(kept, idProps) == Numbers(1, |st.params|)
  }

  /**
   * Corrected `update`: the placeholders are `$1..$n` for the n parameters
   * whenever one id value is given per id column, and a column list is never
   * accepted with more values than columns unless it is empty, so no value
   * meant for a column is left unread.
   */
  lemma {:induction false} UpdateSpec(schema: SchemaStrict, tableName: string, idProps: seq<string>, idValues: seq<Value>, cv: ColsOrObject, vals: seq<Value>)
    requires |idValues| == |idProps|
    ensures var r := Update(schema, tableName, idProps, idValues, cv, vals);
      var cnv := ColsAndValsAsWritten(cv, vals);
      && (cnv.Err? ==> r == Err(Rejected(LengthMismatch)))
      && (cnv.Ok? && tableName !in Keys(schema) ==> r == Err(NoSuchTable(tableName)))
      && (r.Ok? <==> cnv.Ok? && tableName in Keys(schema))
      && (r.Ok? && cv.Columns? ==> cnv.value == (cv.cols, vals) && (|vals| <= |cv.cols| || |cv.cols| == 0))
      && (r.Ok? ==> exists kept, setVals :: UpdateBinds(GetStruct(schema, tableName).value, tableName, cnv.value.0, cnv.value.1,
                                                        idProps, idValues, kept, setVals, r.value))
  {
    var r := Update(schema, tableName, idProps, idValues, cv, vals);
    var cnv := ColsAndValsAsWritten(cv, vals);
    if cv.Columns? {
      ColsAndValsColumns(cv.cols, vals);
    }
    if r.Ok? {
      var struct := GetStruct(schema, tableName).value;
      var cols, vs := cnv.value.0, cnv.value.1;
      ValidPropValsSpec(struct, cols, vs);
      var valid := ValidPropVals(struct, cols, vs);
      UpdateNumbering(valid.0, idProps);
      assert UpdateBinds(struct, tableName, cols, vs, idProps, idValues, valid.0, valid.1, r.value);
    }
  }

  /** Two columns with two rows of values: a row-splitting pairing would keep only 1 and 2; `update` rejects the call. */
  lemma {:induction false} UpdateRowsRejected(schema: SchemaStrict)
    ensures Update(schema, "t", ["id"], [Int(9)], Columns(["a", "b"]), [Int(1), Int(2), Int(3), Int(4)]) == Err(Rejected(LengthMismatch))
    ensures ColsAndVals(Columns(["a", "b"]), [Int(1), Int(2), Int(3), Int(4)]).Ok?
  {
    ColsAndValsMultiples();
  }

  /** As written: the SET binds `kept` to the parameters, which are the SET values alone. */
  ghost predicate UpdateAsWrittenBinds(struct: StructStrict, tableName: string, cols: seq<string>, vals: seq<Value>,
                                       idProps: seq<string>, kept: seq<string>, st: Statement) {
    && PairedWithWritable(struct, cols, vals, kept, st.params)
    && st.text == UpdateQueryAsWritten(tableName, kept, idProps)
    && (|idProps| >= 1 && (|kept| == 0 || |idProps| >= 2) ==>
          !Bound(UpdateSetNumbers(kept) + UpdateWhereNumbersAsWritten(kept, idProps), st.params))
  }

  /**
   * As written the id values never reach `query`, and a WHERE placeholder
   * has no parameter as soon as there are two ids or no writable column.
   */
  lemma {:induction false} UpdateAsWrittenUnbound(schema: SchemaStrict, tableName: string, idProps: seq<string>, idValues: seq<Value>, cv: ColsOrObject, vals: seq<Value>)
    ensures var r := UpdateAsWritten(schema, tableName, idProps, idValues, cv, vals);
      var cnv := ColsAndValsAsWritten(cv, vals);
      r.Ok? ==> exists kept :: UpdateAsWrittenBinds(GetStruct(schema, tableName).value, tableName, cnv.value.0, cnv.value.1, idProps, kept, r.value)
  {
    var r := UpdateAsWritten(schema, tableName, idProps, idValues, cv, vals);
    if r.Ok? {
      var struct := GetStruct(schema, tableName).value;
      var cnv := ColsAndValsAsWritten(cv, vals).value;
      ValidPropValsSpec(struct, cnv.0, cnv.1);
      var kept := ValidPropVals(struct, cnv.0, cnv.1).0;
      var k := |kept|;
      var nums := UpdateSetNumbers(kept) + UpdateWhereNumbersAsWritten(kept, idProps);
      if |idProps| >= 1 && k == 0 {
        assert nums[0] == 0;
      } else if |idProps| >= 2 {
        assert nums[k + 1] == k + 1;
      }
      assert UpdateAsWrittenBinds(struct, tableName, cnv.0, cnv.1, idProps, kept, r.value);
    }
  }

  /** Corrected `deleteFrom`: with one value per id, every id placeholder has its value, `$(i + 1)` for the i-th. */
  lemma {:induction false} DeleteFromSpec(schema: SchemaStrict, tableName: string, idProps: seq<string>, idValues: seq<Value>)
    requires |idValues| == |idProps|
    ensures var r := DeleteFrom(schema, tableName, idProps, idValues);
      && (r.Err? <==> tableName !in Keys(schema))
      && (r.Ok? ==> Bound(DeleteNumbers(idProps), r.value.params) && Consecutive(DeleteNumbers(idProps)))
    ensures var w := DeleteFromAsWritten(schema, tableName, idProps, idValues);
      w.Ok? && |idProps| >= 1 ==> !Bound(DeleteNumbersAsWritten(idProps), w.value.params)
  {
    if |idProps| >= 1 {
      assert DeleteNumbersAsWritten(idProps)[0] == 0;
    }
  }
}
