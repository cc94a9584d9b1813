/**
 * `orderDependencies` (fixer-functions.ts): a post-order depth-first walk over
 * the column `relation` edges of a strict schema, so that every table comes
 * after the tables it references.  The walk keeps the tables already
 * `checked`, the stack of `ancestors` being visited and the `result`.
 *
 * `VisitTable`/`VisitItems`/`Walk` are the walk as functions over a
 * `WalkState`; `DependencyWalker` is the source's form, one object whose
 * fields the nested visits update in place, proved equal to the functions.
 */
module Dependencies {
  import opened Wrappers
  import opened Util
  import opened Schema

  /** The two exceptions the walk throws. */
  datatype DepError = Circular(from: string, to: string) | Unresolved(name: string)

  function Message(e: DepError): string {
    match e
    case Circular(from, to) => "DB Fixer: circular dependency found: " + from + " -> " + to
    case Unresolved(name) => "DB Fixer: unable to resolve: " + name
  }

  /** `CircularDepStore`: `checked` holds the keys whose flag is true. */
  datatype WalkState = WalkState(result: Dict<TableStrict>, checked: set<string>, ancestors: seq<string>)

  ghost function Names(schema: SchemaStrict): set<string> {
    set k | k in Keys(schema)
  }

  /** The columns of table `key`, in key order. */
  function Columns(schema: SchemaStrict, key: string): seq<StructProp>
    requires key in Keys(schema)
  {
    Values(Get(schema, key).value.struct)
  }

  // ---------------------------------------------------------------------
  // The walk
  // ---------------------------------------------------------------------

  /** `schemaIterator(state, schema[key], key)`. */
  function VisitTable(schema: SchemaStrict, st: WalkState, key: string): (r: Result<WalkState, DepError>)
    requires key in Keys(schema)
    ensures r.Ok? ==> st.checked <= r.value.checked
    decreases |Names(schema) - st.checked|, 0, 0
  {
    if key in st.checked then Ok(st)
    else
      var st1 := WalkState(st.result, st.checked + {key}, st.ancestors + [key]);
      FewerUnchecked(Names(schema), st.checked, st1.checked, key);
      match VisitItems(schema, st1, key, 0)
      case Err(e) => Err(e)
      case Ok(st2) =>
        Ok(WalkState(st2.result + [(key, Get(schema, key).value)], st2.checked,
                     if |st2.ancestors| > 0 then st2.ancestors[..|st2.ancestors| - 1] else []))
  }

  /** The struct iterator of table `key`, from its `i`-th column on. */
  function VisitItems(schema: SchemaStrict, st: WalkState, key: string, i: nat): (r: Result<WalkState, DepError>)
    requires key in Keys(schema) && i <= |Columns(schema, key)|
    ensures r.Ok? ==> st.checked <= r.value.checked
    decreases |Names(schema) - st.checked|, 1, |Columns(schema, key)| - i
  {
    var items := Columns(schema, key);
    if i == |items| then Ok(st)
    else if items[i].relation.None? then VisitItems(schema, st, key, i + 1)
    else
      var dependsOn := items[i].relation.value.struct;
      if dependsOn in st.ancestors then Err(Circular(key, dependsOn))
      else if dependsOn in st.checked then VisitItems(schema, st, key, i + 1)
      else if Get(schema, dependsOn).None? then Err(Unresolved(dependsOn))
      else
        match VisitTable(schema, st, dependsOn)
        case Err(e) => Err(e)
        case Ok(st') =>
          FewerUnchecked(Names(schema), st.checked, st'.checked, dependsOn);
          VisitItems(schema, st', key, i + 1)
  }

  /** `objReduce(schema, schemaIterator, state)` from the `i`-th key on. */
  function Walk(schema: SchemaStrict, st: WalkState, i: nat): Result<WalkState, DepError>
    requires i <= |schema|
    decreases |schema| - i
  {
    if i == |schema| then Ok(st)
    else
      assert Keys(schema)[i] == schema[i].0;
      match VisitTable(schema, st, schema[i].0)
      case Err(e) => Err(e)
      case Ok(st') => Walk(schema, st', i + 1)
  }

  const Start: WalkState := WalkState([], {}, [])

  /** `orderDependencies`: the tables in dependency order, or the exception it throws. */
  function OrderDependencies(schema: SchemaStrict): Result<Dict<TableStrict>, DepError> {
    match Walk(schema, Start, 0)
    case Err(e) => Err(e)
    case Ok(st) => Ok(st.result)
  }

  lemma FewerUnchecked(n: set<string>, a: set<string>, b: set<string>, k: string)
    requires a <= b
    ensures |n - b| <= |n - a|
    ensures k in n && k !in a && k in b ==> |n - b| < |n - a|
  {
    var rest := (n - a) - (n - b);
    assert n - a == (n - b) + rest;
    assert (n - b) * rest == {};
    if k in n && k !in a && k in b {
      assert k in rest;
    }
  }

  // ---------------------------------------------------------------------
  // The dependency graph and the walk's invariant
  // ---------------------------------------------------------------------

  /** Table `a` has a column whose `relation` names table `b`. */
  ghost predicate Edge(schema: SchemaStrict, a: string, b: string) {
    a in Keys(schema) &&
    exists j :: 0 <= j < |Columns(schema, a)| && Columns(schema, a)[j].relation.Some? &&
      Columns(schema, a)[j].relation.value.struct == b
  }

  ghost predicate IsPath(schema: SchemaStrict, p: seq<string>) {
    forall k :: 0 <= k < |p| - 1 ==> Edge(schema, p[k], p[k + 1])
  }

  /** The edge `a -> b` closes a cycle: `b` leads back to `a`. */
  ghost predicate Cycle(schema: SchemaStrict, a: string, b: string) {
    Edge(schema, a, b) &&
    exists p :: IsPath(schema, p) && |p| > 0 && p[0] == b && p[|p| - 1] == a
  }

  /** Every table in `res` comes after the tables it references. */
  ghost predicate Ordered(schema: SchemaStrict, res: Dict<TableStrict>) {
    forall i, d :: 0 <= i < |res| && Edge(schema, res[i].0, d) ==> exists m :: 0 <= m < i && res[m].0 == d
  }

  ghost predicate Good(schema: SchemaStrict, st: WalkState) {
    && UniqueKeys(st.result)
    && (forall i :: 0 <= i < |st.result| ==> Get(schema, st.result[i].0) == Some(st.result[i].1))
    && Ordered(schema, st.result)
    && (forall k :: k in st.checked <==> k in Keys(st.result) || k in st.ancestors)
    && (forall k :: k in st.ancestors ==> k !in Keys(st.result))
    && IsPath(schema, st.ancestors)
  }

  lemma KeysPrefix<V>(a: Dict<V>, b: Dict<V>)
    requires a <= b
    ensures forall k :: k in Keys(a) ==> k in Keys(b)
  {
    forall k | k in Keys(a) ensures k in Keys(b) {
      var i :| 0 <= i < |a| && Keys(a)[i] == k;
      assert b[i] == a[i];
    }
  }

  /** Pushing a table onto the ancestors keeps the invariant. */
  lemma PushGood(schema: SchemaStrict, st: WalkState, key: string)
    requires Good(schema, st) && key !in st.checked
    requires st.ancestors == [] || Edge(schema, st.ancestors[|st.ancestors| - 1], key)
    ensures Good(schema, WalkState(st.result, st.checked + {key}, st.ancestors + [key]))
  {
    var a := st.ancestors + [key];
    forall k | 0 <= k < |a| - 1 ensures Edge(schema, a[k], a[k + 1]) {
      if k < |a| - 2 {
        assert a[k] == st.ancestors[k] && a[k + 1] == st.ancestors[k + 1];
      }
    }
  }

  /** The targets of the first `n` columns of table `key` are all placed in `res`. */
  ghost predicate TargetsPlaced(schema: SchemaStrict, key: string, n: nat, res: Dict<TableStrict>)
    requires key in Keys(schema) && n <= |Columns(schema, key)|
  {
    forall j :: 0 <= j < n && Columns(schema, key)[j].relation.Some? ==>
      Columns(schema, key)[j].relation.value.struct in Keys(res)
  }

  /** What an exception says about the graph. */
  ghost predicate Sound(schema: SchemaStrict, r: Result<WalkState, DepError>) {
    && (r.Err? && r.error.Circular? ==> Cycle(schema, r.error.from, r.error.to))
    && (r.Err? && r.error.Unresolved? ==>
          r.error.name !in Keys(schema) && exists a :: Edge(schema, a, r.error.name))
  }

  /** A successful step keeps the invariant and the ancestors and only appends to the result. */
  ghost predicate Extends(schema: SchemaStrict, st: WalkState, r: Result<WalkState, DepError>) {
    r.Ok? ==> Good(schema, r.value) && r.value.ancestors == st.ancestors && st.result <= r.value.result
  }

  /** Popping a finished table into the result keeps the invariant. */
  lemma PopGood(schema: SchemaStrict, st: WalkState, st2: WalkState, key: string)
    requires key in Keys(schema) && key !in st.ancestors
    requires Good(schema, st2) && st2.ancestors == st.ancestors + [key]
    requires TargetsPlaced(schema, key, |Columns(schema, key)|, st2.result)
    ensures var res := st2.result + [(key, Get(schema, key).value)];
      && Good(schema, WalkState(res, st2.checked, st.ancestors))
      && key in Keys(res) && st2.result <= res
  {
    var res := st2.result + [(key, Get(schema, key).value)];
    assert st2.ancestors[|st2.ancestors| - 1] == key;
    assert key !in Keys(st2.result);
    PopKeys(st2.result, (key, Get(schema, key).value));
    PopOrdered(schema, st2.result, key);
    assert IsPath(schema, st.ancestors) by {
      forall k | 0 <= k < |st.ancestors| - 1 ensures Edge(schema, st.ancestors[k], st.ancestors[k + 1]) {
        assert st.ancestors[k] == st2.ancestors[k] && st.ancestors[k + 1] == st2.ancestors[k + 1];
      }
    }
    forall k | k in st2.checked ensures k in Keys(res) || k in st.ancestors {
      if k in st2.ancestors && k !in st.ancestors {
        assert k == key;
      }
    }
  }

  /** Appending an entry with a fresh key keeps the keys distinct. */
  lemma PopKeys<V>(d: Dict<V>, e: (string, V))
    requires UniqueKeys(d) && e.0 !in Keys(d)
    ensures UniqueKeys(d + [e]) && Keys(d + [e]) == Keys(d) + [e.0] && d <= d + [e]
  {
    var res := d + [e];
    SnocIndex(d, e);
    forall i, j | 0 <= i < j < |res| ensures res[i].0 != res[j].0 {
      if j == |d| {
        assert res[i].0 == Keys(d)[i];
      }
    }
  }

  /** A table whose targets are all placed may follow them. */
  lemma PopOrdered(schema: SchemaStrict, d: Dict<TableStrict>, key: string)
    requires key in Keys(schema) && Ordered(schema, d)
    requires TargetsPlaced(schema, key, |Columns(schema, key)|, d)
    ensures Ordered(schema, d + [(key, Get(schema, key).value)])
  {
    var res := d + [(key, Get(schema, key).value)];
    var n := |d|;
    SnocIndex(d, (key, Get(schema, key).value));
    forall i, t | 0 <= i < |res| && Edge(schema, res[i].0, t) ensures exists m :: 0 <= m < i && res[m].0 == t {
      if i == n {
        var j :| 0 <= j < |Columns(schema, key)| && Columns(schema, key)[j].relation.Some? &&
          Columns(schema, key)[j].relation.value.struct == t;
        assert t in Keys(d);
        var m :| 0 <= m < n && Keys(d)[m] == t;
        assert res[m].0 == t;
      } else {
        var m :| 0 <= m < i && d[m].0 == t;
        assert res[m].0 == t;
      }
    }
  }

  /** The walk of one table keeps the invariant and places the table, or fails soundly. */
  lemma {:induction false} VisitTableGood(schema: SchemaStrict, st: WalkState, key: string)
    requires key in Keys(schema) && Good(schema, st) && key !in st.ancestors
    requires st.ancestors == [] || Edge(schema, st.ancestors[|st.ancestors| - 1], key)
    ensures Extends(schema, st, VisitTable(schema, st, key))
    ensures VisitTable(schema, st, key).Ok? ==> key in Keys(VisitTable(schema, st, key).value.result)
    ensures Sound(schema, VisitTable(schema, st, key))
    decreases |Names(schema) - st.checked|, 0, 0
  {
    if key !in st.checked {
      var st1 := WalkState(st.result, st.checked + {key}, st.ancestors + [key]);
      FewerUnchecked(Names(schema), st.checked, st1.checked, key);
      PushGood(schema, st, key);
      VisitItemsGood(schema, st1, key, 0);
      FinishTable(schema, st, key);
    }
  }

  /** The step of `VisitTableGood` after the columns are walked. */
  lemma FinishTable(schema: SchemaStrict, st: WalkState, key: string)
    requires key in Keys(schema) && key !in st.checked && key !in st.ancestors
    requires var st1 := WalkState(st.result, st.checked + {key}, st.ancestors + [key]);
      && Extends(schema, st1, VisitItems(schema, st1, key, 0))
      && (VisitItems(schema, st1, key, 0).Ok? ==>
            TargetsPlaced(schema, key, |Columns(schema, key)|, VisitItems(schema, st1, key, 0).value.result))
      && Sound(schema, VisitItems(schema, st1, key, 0))
    ensures Extends(schema, st, VisitTable(schema, st, key))
    ensures VisitTable(schema, st, key).Ok? ==> key in Keys(VisitTable(schema, st, key).value.result)
    ensures Sound(schema, VisitTable(schema, st, key))
  {
    var st1 := WalkState(st.result, st.checked + {key}, st.ancestors + [key]);
    var r1 := VisitItems(schema, st1, key, 0);
    if r1.Ok? {
      var st2 := r1.value;
      assert VisitTable(schema, st, key) == Ok(WalkState(st2.result + [(key, Get(schema, key).value)], st2.checked, st.ancestors));
      PopGood(schema, st, st2, key);
    } else {
      assert VisitTable(schema, st, key) == r1;
    }
  }

  lemma {:induction false} VisitItemsGood(schema: SchemaStrict, st: WalkState, key: string, i: nat)
    requires key in Keys(schema) && i <= |Columns(schema, key)| && Good(schema, st)
    requires |st.ancestors| > 0 && st.ancestors[|st.ancestors| - 1] == key
    requires TargetsPlaced(schema, key, i, st.result)
    ensures Extends(schema, st, VisitItems(schema, st, key, i))
    ensures VisitItems(schema, st, key, i).Ok? ==>
      TargetsPlaced(schema, key, |Columns(schema, key)|, VisitItems(schema, st, key, i).value.result)
    ensures Sound(schema, VisitItems(schema, st, key, i))
    decreases |Names(schema) - st.checked|, 1, |Columns(schema, key)| - i
  {
    var items := Columns(schema, key);
    if i < |items| {
      if items[i].relation.None? {
        assert VisitItems(schema, st, key, i) == VisitItems(schema, st, key, i + 1);
        NextColumn(schema, key, i, st.result);
        VisitItemsGood(schema, st, key, i + 1);
      } else {
        var dependsOn := items[i].relation.value.struct;
        assert Edge(schema, key, dependsOn);
        if dependsOn in st.ancestors {
          assert VisitItems(schema, st, key, i) == Err(Circular(key, dependsOn));
          AncestorCycle(schema, st.ancestors, key, dependsOn);
        } else if dependsOn in st.checked {
          assert VisitItems(schema, st, key, i) == VisitItems(schema, st, key, i + 1);
          assert dependsOn in Keys(st.result);
          NextColumn(schema, key, i, st.result);
          VisitItemsGood(schema, st, key, i + 1);
        } else if Get(schema, dependsOn).Some? {
          VisitTableGood(schema, st, dependsOn);
          var r1 := VisitTable(schema, st, dependsOn);
          if r1.Ok? {
            var st' := r1.value;
            assert VisitItems(schema, st, key, i) == VisitItems(schema, st', key, i + 1);
            FewerUnchecked(Names(schema), st.checked, st'.checked, dependsOn);
            PlacedPrefix(schema, key, i, st.result, st'.result);
            NextColumn(schema, key, i, st'.result);
            VisitItemsGood(schema, st', key, i + 1);
          } else {
            assert VisitItems(schema, st, key, i) == r1;
          }
        } else {
          assert VisitItems(schema, st, key, i) == Err(Unresolved(dependsOn));
        }
      }
    }
  }

  /** An ancestor named by an edge from the last ancestor closes a cycle. */
  lemma AncestorCycle(schema: SchemaStrict, ancestors: seq<string>, key: string, dependsOn: string)
    requires IsPath(schema, ancestors) && |ancestors| > 0 && ancestors[|ancestors| - 1] == key
    requires Edge(schema, key, dependsOn) && dependsOn in ancestors
    ensures Cycle(schema, key, dependsOn)
  {
    var m :| 0 <= m < |ancestors| && ancestors[m] == dependsOn;
    var p := ancestors[m..];
    assert IsPath(schema, p) by {
      forall k | 0 <= k < |p| - 1 ensures Edge(schema, p[k], p[k + 1]) {
        assert p[k] == ancestors[m + k] && p[k + 1] == ancestors[m + k + 1];
      }
    }
    assert p[0] == dependsOn && p[|p| - 1] == key;
  }

  /** Column `i` is placed too once its target (if any) is in `res`. */
  lemma NextColumn(schema: SchemaStrict, key: string, i: nat, res: Dict<TableStrict>)
    requires key in Keys(schema) && i < |Columns(schema, key)| && TargetsPlaced(schema, key, i, res)
    requires Columns(schema, key)[i].relation.Some? ==> Columns(schema, key)[i].relation.value.struct in Keys(res)
    ensures TargetsPlaced(schema, key, i + 1, res)
  {
  }

  lemma PlacedPrefix(schema: SchemaStrict, key: string, i: nat, a: Dict<TableStrict>, b: Dict<TableStrict>)
    requires key in Keys(schema) && i <= |Columns(schema, key)| && TargetsPlaced(schema, key, i, a) && a <= b
    ensures TargetsPlaced(schema, key, i, b)
  {
    KeysPrefix(a, b);
  }

  lemma {:induction false} WalkGood(schema: SchemaStrict, st: WalkState, i: nat)
    requires i <= |schema| && Good(schema, st) && st.ancestors == []
    requires forall m :: 0 <= m < i ==> schema[m].0 in Keys(st.result)
    ensures Extends(schema, st, Walk(schema, st, i))
    ensures Walk(schema, st, i).Ok? ==> forall m :: 0 <= m < |schema| ==> schema[m].0 in Keys(Walk(schema, st, i).value.result)
    ensures Sound(schema, Walk(schema, st, i))
    decreases |schema| - i
  {
    if i < |schema| {
      assert Keys(schema)[i] == schema[i].0;
      VisitTableGood(schema, st, schema[i].0);
      var r1 := VisitTable(schema, st, schema[i].0);
      if r1.Ok? {
        assert Walk(schema, st, i) == Walk(schema, r1.value, i + 1);
        KeysSoFar(schema, i, st.result, r1.value.result);
        WalkGood(schema, r1.value, i + 1);
      } else {
        assert Walk(schema, st, i) == Err(r1.error);
      }
    }
  }

  lemma KeysSoFar(schema: SchemaStrict, i: nat, a: Dict<TableStrict>, b: Dict<TableStrict>)
    requires i < |schema| && a <= b && schema[i].0 in Keys(b)
    requires forall m :: 0 <= m < i ==> schema[m].0 in Keys(a)
    ensures forall m :: 0 <= m < i + 1 ==> schema[m].0 in Keys(b)
  {
    KeysPrefix(a, b);
  }

  /**
   * On success every schema table is listed exactly once, with its own
   * definition, after every table one of its columns references.  A circular
   * error names an edge that closes a cycle; an unresolved one names a
   * referenced table the schema does not have.
   */
  lemma OrderDependenciesSpec(schema: SchemaStrict)
    ensures var r := OrderDependencies(schema);
      && (r.Ok? ==>
            && UniqueKeys(r.value)
            && (forall k :: k in Keys(r.value) <==> k in Keys(schema))
            && (forall i :: 0 <= i < |r.value| ==> Get(schema, r.value[i].0) == Some(r.value[i].1))
            && Ordered(schema, r.value))
      && (r.Err? && r.error.Circular? ==> Cycle(schema, r.error.from, r.error.to))
      && (r.Err? && r.error.Unresolved? ==>
            r.error.name !in Keys(schema) && exists a :: Edge(schema, a, r.error.name))
  {
    WalkGood(schema, Start, 0);
    var w := Walk(schema, Start, 0);
    if w.Ok? {
      var res := w.value.result;
      forall k | k in Keys(res) ensures k in Keys(schema) {
        var i :| 0 <= i < |res| && Keys(res)[i] == k;
        assert Get(schema, res[i].0).Some?;
      }
      forall k | k in Keys(schema) ensures k in Keys(res) {
        var i :| 0 <= i < |schema| && Keys(schema)[i] == k;
        assert schema[i].0 == k;
      }
    }
  }

  /** A schema that gets an order has no cycle. */
  lemma OrderedAcyclic(schema: SchemaStrict)
    requires OrderDependencies(schema).Ok?
    ensures forall a, b :: !Cycle(schema, a, b)
  {
    OrderDependenciesSpec(schema);
    var res := OrderDependencies(schema).value;
    forall a, b | Cycle(schema, a, b) ensures false {
      var p :| IsPath(schema, p) && |p| > 0 && p[0] == b && p[|p| - 1] == a;
      EdgeBefore(schema, res, a, b);
      PathDescends(schema, res, p);
    }
  }

  /** In an ordered result the target of an edge sits before its source. */
  lemma EdgeBefore(schema: SchemaStrict, res: Dict<TableStrict>, a: string, b: string)
    ensures Ordered(schema, res) && a in Keys(res) && Edge(schema, a, b) ==>
      b in Keys(res) && IndexOfKey(res, b) < IndexOfKey(res, a)
  {
    if Ordered(schema, res) && a in Keys(res) && Edge(schema, a, b) {
      var ia := IndexOfKey(res, a);
      assert res[ia].0 == a;
      var m :| 0 <= m < ia && res[m].0 == b;
      assert Keys(res)[m] == b;
    }
  }

  /** Along a path the positions in an ordered result strictly decrease. */
  lemma {:induction false} PathDescends(schema: SchemaStrict, res: Dict<TableStrict>, p: seq<string>)
    requires Ordered(schema, res) && IsPath(schema, p) && |p| > 0 && p[|p| - 1] in Keys(res)
    requires forall k :: k in Keys(res) <==> k in Keys(schema)
    ensures p[0] in Keys(res) && IndexOfKey(res, p[0]) >= IndexOfKey(res, p[|p| - 1]) + |p| - 1
  {
    if |p| > 1 {
      var q := p[1..];
      assert IsPath(schema, q) by {
        forall k | 0 <= k < |q| - 1 ensures Edge(schema, q[k], q[k + 1]) {
          assert q[k] == p[k + 1] && q[k + 1] == p[k + 2];
        }
      }
      PathDescends(schema, res, q);
      assert Edge(schema, p[0], p[1]);
      var i0 := IndexOfKey(res, p[0]);
      var i1 := IndexOfKey(res, p[1]);
      assert p[0] in Keys(schema);
      assert res[i0].0 == p[0];
      var m :| 0 <= m < i0 && res[m].0 == p[1];
      assert i1 <= m;
    }
  }

  // ---------------------------------------------------------------------
  // The source's form: one state object updated in place
  // ---------------------------------------------------------------------

  class DependencyWalker {
    const schema: SchemaStrict
    var result: Dict<TableStrict>
    var checked: set<string>
    var ancestors: seq<string>

    constructor (schema: SchemaStrict)
      ensures this.schema == schema && State() == Start
    {
      this.schema := schema;
      result, checked, ancestors := [], {}, [];
    }

    function State(): WalkState
      reads this
    {
      WalkState(result, checked, ancestors)
    }

    /** `schemaIterator(state, schema[key], key)`; an exception is returned as `Some`. */
    method SchemaIterator(key: string) returns (err: Option<DepError>)
      requires key in Keys(schema)
      modifies this
      ensures var r := VisitTable(schema, old(State()), key);
        (err.Some? <==> r.Err?) && (r.Err? ==> err == Some(r.error)) && (r.Ok? ==> State() == r.value)
      decreases |Names(schema) - checked|
    {
      if key in checked {
        return None;
      }
      ghost var st0 := State();
      ancestors := ancestors + [key];
      checked := checked + {key};
      ghost var st1 := State();
      var t := Get(schema, key).value;
      var items := Values(t.struct);
      assert items == Columns(schema, key);
      var i := 0;
      while i < |items|
        invariant 0 <= i <= |items|
        invariant st1.checked <= checked
        invariant VisitItems(schema, st1, key, 0) == VisitItems(schema, State(), key, i)
        decreases |items| - i
      {
        if items[i].relation.Some? {
          var dependsOn := items[i].relation.value.struct;
          if dependsOn in ancestors {
            return Some(Circular(key, dependsOn));
          }
          if dependsOn !in checked {
            if Get(schema, dependsOn).None? {
              return Some(Unresolved(dependsOn));
            }
            FewerUnchecked(Names(schema), st0.checked, checked, key);
            ghost var pre := State();
            var e := SchemaIterator(dependsOn);
            if e.Some? {
              return e;
            }
            FewerUnchecked(Names(schema), pre.checked, checked, dependsOn);
          }
        }
        i := i + 1;
      }
      result := result + [(key, t)];
      ancestors := if |ancestors| > 0 then ancestors[..|ancestors| - 1] else [];
      err := None;
    }
  }

  /** `orderDependencies` on a fresh state object. */
  method OrderDependenciesInPlace(schema: SchemaStrict) returns (r: Result<Dict<TableStrict>, DepError>)
    ensures r == OrderDependencies(schema)
  {
    var w := new DependencyWalker(schema);
    var i := 0;
    while i < |schema|
      invariant 0 <= i <= |schema| && w.schema == schema
      invariant Walk(schema, Start, 0) == Walk(schema, w.State(), i)
      decreases |schema| - i
    {
      assert Keys(schema)[i] == schema[i].0;
      var e := w.SchemaIterator(schema[i].0);
      if e.Some? {
        return Err(e.value);
      }
      i := i + 1;
    }
    r := Ok(w.result);
  }
}
