/**
 * util.ts: dictionaries (as ordered association lists, because `Object.keys`
 * order drives results), integer clamps, string truncation, `zip`/`unzip`,
 * `arrToObj`, `objFilter`, the case-insensitive key lookup and
 * `augmentObjIfNew`, the one helper that changes its argument; and
 * `Array.prototype.filter`, which the maintainers and fixers share.
 */
module Util {
  import opened Wrappers
  import opened Js

  /** A JavaScript object used as a dictionary: its own keys in `Object.keys` order. */
  type Dict<V> = seq<(string, V)>

  function Keys<V>(d: Dict<V>): (ks: seq<string>)
    ensures |ks| == |d| && forall k :: 0 <= k < |d| ==> ks[k] == d[k].0
  {
    seq(|d|, k requires 0 <= k < |d| => d[k].0)
  }

  function Values<V>(d: Dict<V>): (vs: seq<V>)
    ensures |vs| == |d| && forall k :: 0 <= k < |d| ==> vs[k] == d[k].1
  {
    seq(|d|, k requires 0 <= k < |d| => d[k].1)
  }

  /** A JavaScript object never holds the same own key twice. */
  ghost predicate UniqueKeys<V>(d: Dict<V>) {
    forall i, j :: 0 <= i < j < |d| ==> d[i].0 != d[j].0
  }

  function IndexOfKey<V>(d: Dict<V>, key: string): (i: int)
    ensures -1 <= i < |d|
    ensures i >= 0 ==> d[i].0 == key && forall j :: 0 <= j < i ==> d[j].0 != key
    ensures i == -1 ==> forall j :: 0 <= j < |d| ==> d[j].0 != key
  {
    if |d| == 0 then -1
    else if d[0].0 == key then 0
    else
      var j := IndexOfKey(d[1..], key);
      assert forall m :: 0 <= m < |d| - 1 ==> d[1..][m] == d[m + 1];
      if j == -1 then -1 else j + 1
  }

  /** `d[key]` for an own key. */
  function Get<V>(d: Dict<V>, key: string): (r: Option<V>)
    ensures r.Some? <==> key in Keys(d)
  {
    if |d| == 0 then None
    else if d[0].0 == key then Some(d[0].1)
    else
      ConsSplit(d);
      ConsKeys(d[0], d[1..]);
      Get(d[1..], key)
  }

  /** The first entry with a key is the one `Get` finds. */
  lemma {:induction false} GetFirst<V>(d: Dict<V>, i: nat)
    requires i < |d| && forall j :: 0 <= j < i ==> d[j].0 != d[i].0
    ensures Get(d, d[i].0) == Some(d[i].1)
  {
    if i > 0 {
      assert d[1..][i - 1] == d[i];
      GetFirst(d[1..], i - 1);
    }
  }

  /** A key no entry carries is absent. */
  lemma {:induction false} GetAbsent<V>(d: Dict<V>, key: string)
    requires forall j :: 0 <= j < |d| ==> d[j].0 != key
    ensures Get(d, key) == None
  {
    if |d| > 0 {
      assert forall m :: 0 <= m < |d| - 1 ==> d[1..][m] == d[m + 1];
      GetAbsent(d[1..], key);
    }
  }

  /** `d[key] = v`: an existing key keeps its place, a new key goes last, no other key changes. */
  function Put<V>(d: Dict<V>, key: string, v: V): (r: Dict<V>)
    ensures Get(r, key) == Some(v)
    ensures forall k :: k != key ==> Get(r, k) == Get(d, k)
  {
    if |d| == 0 then [(key, v)]
    else
      Cons(d[0], d[1..]);
      ConsSplit(d);
      if d[0].0 == key then
        Cons((key, v), d[1..]);
        [(key, v)] + d[1..]
      else
        var t := Put(d[1..], key, v);
        Cons(d[0], t);
        [d[0]] + t
  }

  /** How a dictionary with a first entry `e` followed by `t` answers lookups. */
  lemma Cons<V>(e: (string, V), t: Dict<V>)
    ensures Keys([e] + t) == [e.0] + Keys(t)
    ensures forall k :: Get([e] + t, k) == if e.0 == k then Some(e.1) else Get(t, k)
  {
    ConsTail(e, t);
    ConsKeys(e, t);
  }

  lemma ConsKeys<V>(e: (string, V), t: Dict<V>)
    ensures Keys([e] + t) == [e.0] + Keys(t)
  {
    var d := [e] + t;
    forall i | 0 <= i < |d| ensures Keys(d)[i] == ([e.0] + Keys(t))[i] {
      if i > 0 {
        assert d[i] == t[i - 1];
      }
    }
  }

  lemma ConsTail<X>(a: X, s: seq<X>)
    ensures ([a] + s)[1..] == s
  {
  }

  lemma ConsSplit<X>(s: seq<X>)
    requires |s| > 0
    ensures [s[0]] + s[1..] == s
  {
  }

  lemma SnocCons<X>(a: X, s: seq<X>, x: X)
    ensures [a] + (s + [x]) == ([a] + s) + [x]
  {
  }

  /** `Put` keeps the key order: an existing key stays where it is, a new key comes last. */
  lemma {:induction false} PutKeys<V>(d: Dict<V>, key: string, v: V)
    ensures key in Keys(d) ==> Keys(Put(d, key, v)) == Keys(d)
    ensures key !in Keys(d) ==> Keys(Put(d, key, v)) == Keys(d) + [key]
  {
    if |d| == 0 {
      assert Keys([(key, v)]) == [key];
    } else {
      Cons(d[0], d[1..]);
      ConsSplit(d);
      if d[0].0 == key {
        Cons((key, v), d[1..]);
      } else {
        var t := Put(d[1..], key, v);
        PutKeys(d[1..], key, v);
        Cons(d[0], t);
        SnocCons(d[0].0, Keys(d[1..]), key);
      }
    }
  }

  /** `Put` never creates a duplicate key. */
  lemma PutUnique<V>(d: Dict<V>, key: string, v: V)
    requires UniqueKeys(d)
    ensures UniqueKeys(Put(d, key, v))
  {
    var r := Put(d, key, v);
    PutKeys(d, key, v);
    forall i, j | 0 <= i < j < |r| ensures r[i].0 != r[j].0 {
      assert Keys(r)[i] == r[i].0 && Keys(r)[j] == r[j].0;
      if key !in Keys(d) {
        assert j < |d| ==> Keys(d)[i] == r[i].0 && Keys(d)[j] == r[j].0;
      } else {
        assert Keys(d)[i] == r[i].0 && Keys(d)[j] == r[j].0;
      }
    }
  }

  /** A key not yet present is appended. */
  lemma {:induction false} PutNew<V>(d: Dict<V>, key: string, v: V)
    requires key !in Keys(d)
    ensures Put(d, key, v) == d + [(key, v)]
  {
    if |d| > 0 {
      Cons(d[0], d[1..]);
      ConsSplit(d);
      PutNew(d[1..], key, v);
      SnocCons(d[0], d[1..], (key, v));
    }
  }

  // ---------------------------------------------------------------------
  // arrToObj, zip, unzip, objFilter (each fills a fresh accumulator: a fold)
  // ---------------------------------------------------------------------

  /** `arrToObj(arr, prop)`: later elements with the same key overwrite earlier ones. */
  function ArrToObj<T>(arr: seq<T>, prop: T -> string): Dict<T>
  {
    if |arr| == 0 then []
    else Put(ArrToObj(arr[..|arr| - 1], prop), prop(arr[|arr| - 1]), arr[|arr| - 1])
  }

  /** `arrToObj(arr, prop, true)`: elements grouped by key, groups ordered by first occurrence. */
  function ArrToObjAggregate<T>(arr: seq<T>, prop: T -> string): Dict<seq<T>>
  {
    if |arr| == 0 then []
    else
      var state := ArrToObjAggregate(arr[..|arr| - 1], prop);
      var el := arr[|arr| - 1];
      Put(state, prop(el), Get(state, prop(el)).GetOr([]) + [el])
  }

  /** The elements of `arr` whose key is `k`, in order. */
  function WithKey<T>(arr: seq<T>, prop: T -> string, k: string): seq<T>
  {
    if |arr| == 0 then []
    else WithKey(arr[..|arr| - 1], prop, k) + (if prop(arr[|arr| - 1]) == k then [arr[|arr| - 1]] else [])
  }

  /** A key no element produces is absent. */
  lemma {:induction false} ArrToObjAbsent<T>(arr: seq<T>, prop: T -> string, k: string)
    requires forall i :: 0 <= i < |arr| ==> prop(arr[i]) != k
    ensures Get(ArrToObj(arr, prop), k) == None
  {
    if |arr| > 0 {
      ArrToObjAbsent(arr[..|arr| - 1], prop, k);
    }
  }

  /** A key maps to the last element that produces it. */
  lemma {:induction false} ArrToObjLastWins<T>(arr: seq<T>, prop: T -> string, i: nat)
    requires i < |arr| && forall j :: i < j < |arr| ==> prop(arr[j]) != prop(arr[i])
    ensures Get(ArrToObj(arr, prop), prop(arr[i])) == Some(arr[i])
  {
    if i < |arr| - 1 {
      var p := arr[..|arr| - 1];
      assert p[i] == arr[i];
      ArrToObjLastWins(p, prop, i);
    }
  }

  /** Each group holds exactly the elements with that key, in their original order. */
  lemma {:induction false} ArrToObjAggregateGet<T>(arr: seq<T>, prop: T -> string, k: string)
    ensures Get(ArrToObjAggregate(arr, prop), k) ==
      if WithKey(arr, prop, k) == [] then None else Some(WithKey(arr, prop, k))
  {
    if |arr| > 0 {
      var p := arr[..|arr| - 1];
      var el := arr[|arr| - 1];
      ArrToObjAggregateGet(p, prop, k);
      var state := ArrToObjAggregate(p, prop);
      if prop(el) == k {
        assert Get(state, k).GetOr([]) == WithKey(p, prop, k);
        assert WithKey(arr, prop, k) == WithKey(p, prop, k) + [el];
      } else {
        assert WithKey(arr, prop, k) == WithKey(p, prop, k);
        assert Get(ArrToObjAggregate(arr, prop), k) == Get(state, k);
      }
    }
  }

  lemma {:induction false} ArrToObjAggregateUnique<T>(arr: seq<T>, prop: T -> string)
    ensures UniqueKeys(ArrToObjAggregate(arr, prop))
  {
    if |arr| > 0 {
      var p := arr[..|arr| - 1];
      var el := arr[|arr| - 1];
      ArrToObjAggregateUnique(p, prop);
      var state := ArrToObjAggregate(p, prop);
      PutUnique(state, prop(el), Get(state, prop(el)).GetOr([]) + [el]);
    }
  }

  lemma {:induction false} ArrToObjUnique<T>(arr: seq<T>, prop: T -> string)
    ensures UniqueKeys(ArrToObj(arr, prop))
  {
    if |arr| > 0 {
      var p := arr[..|arr| - 1];
      ArrToObjUnique(p, prop);
      PutUnique(ArrToObj(p, prop), prop(arr[|arr| - 1]), arr[|arr| - 1]);
    }
  }

  /** The elements of `arr` at the indices `idx`, in that order. */
  function Pick<T>(arr: seq<T>, idx: seq<nat>): seq<T>
    requires forall m :: 0 <= m < |idx| ==> idx[m] < |arr|
  {
    seq(|idx|, m requires 0 <= m < |idx| => arr[idx[m]])
  }

  /** The group of key `k` is the elements at exactly the indices where `k` occurs. */
  lemma {:induction false} WithKeyIndices<T>(arr: seq<T>, prop: T -> string, k: string, idx: seq<nat>)
    requires forall a, b :: 0 <= a < b < |idx| ==> idx[a] < idx[b]
    requires forall m :: 0 <= m < |idx| ==> idx[m] < |arr|
    requires forall i :: 0 <= i < |arr| ==> (prop(arr[i]) == k <==> i in idx)
    ensures WithKey(arr, prop, k) == Pick(arr, idx)
  {
    if |arr| > 0 {
      var n := |arr| - 1;
      var p := arr[..n];
      if prop(arr[n]) == k {
        var idx' := DropLastIndex(idx, n);
        assert forall i :: 0 <= i < |p| ==> (prop(p[i]) == k <==> i in idx') by {
          forall i | 0 <= i < |p| ensures prop(p[i]) == k <==> i in idx' {
            assert p[i] == arr[i];
          }
        }
        WithKeyIndices(p, prop, k, idx');
        assert Pick(arr, idx) == Pick(p, idx') + [arr[n]];
      } else {
        assert forall m :: 0 <= m < |idx| ==> idx[m] < n by {
          forall m | 0 <= m < |idx| ensures idx[m] < n {
            assert idx[m] in idx;
          }
        }
        WithKeyIndices(p, prop, k, idx);
        assert Pick(arr, idx) == Pick(p, idx);
      }
    }
  }

  /** Removing the largest index `n` from an increasing list of indices below `n + 1`. */
  lemma DropLastIndex(idx: seq<nat>, n: nat) returns (idx': seq<nat>)
    requires forall a, b :: 0 <= a < b < |idx| ==> idx[a] < idx[b]
    requires forall m :: 0 <= m < |idx| ==> idx[m] <= n
    requires n in idx
    ensures |idx| > 0 && idx' == idx[..|idx| - 1] && idx[|idx| - 1] == n
    ensures forall a, b :: 0 <= a < b < |idx'| ==> idx'[a] < idx'[b]
    ensures forall m :: 0 <= m < |idx'| ==> idx'[m] < n
    ensures forall i :: 0 <= i < n ==> (i in idx <==> i in idx')
  {
    var last := |idx| - 1;
    assert idx[last] == n by {
      var q :| 0 <= q < |idx| && idx[q] == n;
      assert idx[q] <= idx[last];
    }
    idx' := idx[..last];
    forall m | 0 <= m < |idx'| ensures idx'[m] < n {
      assert idx[m] < idx[last];
    }
    forall i | 0 <= i < n ensures i in idx <==> i in idx' {
      if i in idx {
        var q :| 0 <= q < |idx| && idx[q] == i;
        assert q != last;
        assert idx'[q] == i;
      }
    }
  }

  /** The group `arrToObj(arr, prop, true)` holds for `k` is the elements at exactly the indices where `k` occurs. */
  lemma ArrToObjAggregateIndices<T>(arr: seq<T>, prop: T -> string, k: string, idx: seq<nat>)
    requires forall a, b :: 0 <= a < b < |idx| ==> idx[a] < idx[b]
    requires forall m :: 0 <= m < |idx| ==> idx[m] < |arr|
    requires forall i :: 0 <= i < |arr| ==> (prop(arr[i]) == k <==> i in idx)
    ensures Get(ArrToObjAggregate(arr, prop), k) == if idx == [] then None else Some(Pick(arr, idx))
  {
    WithKeyIndices(arr, prop, k, idx);
    ArrToObjAggregateGet(arr, prop, k);
  }

  /** With distinct keys, `arrToObj` keeps every element, in order. */
  lemma {:induction false} ArrToObjDistinct<T>(arr: seq<T>, prop: T -> string)
    requires forall i, j :: 0 <= i < j < |arr| ==> prop(arr[i]) != prop(arr[j])
    ensures |ArrToObj(arr, prop)| == |arr|
    ensures forall i :: 0 <= i < |arr| ==> ArrToObj(arr, prop)[i] == (prop(arr[i]), arr[i])
  {
    if |arr| > 0 {
      var n := |arr| - 1;
      assert forall i :: 0 <= i < n ==> arr[..n][i] == arr[i];
      ArrToObjDistinct(arr[..n], prop);
      var d := ArrToObj(arr[..n], prop);
      assert ArrToObj(arr, prop) == Put(d, prop(arr[n]), arr[n]);
      AppendsFresh(arr, d, prop);
      PutNew(d, prop(arr[n]), arr[n]);
    }
  }

  /** One step of `ArrToObjDistinct`: the last key is fresh, and appending its entry extends the pairing. */
  lemma AppendsFresh<T>(arr: seq<T>, d: Dict<T>, prop: T -> string)
    requires |arr| > 0 && forall i :: 0 <= i < |arr| - 1 ==> prop(arr[i]) != prop(arr[|arr| - 1])
    requires |d| == |arr| - 1
    requires forall i :: 0 <= i < |arr[..|arr| - 1]| ==> d[i] == (prop(arr[..|arr| - 1][i]), arr[..|arr| - 1][i])
    ensures prop(arr[|arr| - 1]) !in Keys(d)
    ensures |d + [(prop(arr[|arr| - 1]), arr[|arr| - 1])]| == |arr|
    ensures forall i :: 0 <= i < |arr| ==> (d + [(prop(arr[|arr| - 1]), arr[|arr| - 1])])[i] == (prop(arr[i]), arr[i])
  {
    var n := |arr| - 1;
    var e := (prop(arr[n]), arr[n]);
    assert forall i :: 0 <= i < n ==> arr[..n][i] == arr[i];
    FreshKey(d, prop(arr[n]));
    SnocIndex(d, e);
  }

  /** `values[i]`, undefined (None) past the end. */
  function At<T>(values: seq<T>, i: nat): Option<T> {
    if i < |values| then Some(values[i]) else None
  }

  /** `zip(keys, values)`. */
  function Zip<T>(keys: seq<string>, values: seq<T>): Dict<Option<T>>
  {
    if |keys| == 0 then []
    else Put(Zip(keys[..|keys| - 1], values), keys[|keys| - 1], At(values, |keys| - 1))
  }

  /** The key at index i maps to `values[i]` when no later key repeats it: the last one wins. */
  lemma {:induction false} ZipGet<T>(keys: seq<string>, values: seq<T>, i: nat)
    requires i < |keys| && forall j :: i < j < |keys| ==> keys[j] != keys[i]
    ensures Get(Zip(keys, values), keys[i]) == Some(At(values, i))
  {
    if i < |keys| - 1 {
      ZipGet(keys[..|keys| - 1], values, i);
    }
  }

  lemma {:induction false} ZipKeys<T>(keys: seq<string>, values: seq<T>, k: string)
    ensures k in Keys(Zip(keys, values)) <==> k in keys
  {
    if |keys| > 0 {
      var n := |keys| - 1;
      ZipKeys(keys[..n], values, k);
      PutKeys(Zip(keys[..n], values), keys[n], At(values, n));
      assert k in keys <==> k in keys[..n] || k == keys[n] by {
        assert keys == keys[..n] + [keys[n]];
      }
    }
  }

  /** `unzip(d)`: the keys and the values as two parallel lists. */
  function Unzip<T>(d: Dict<T>): (seq<string>, seq<T>)
  {
    if |d| == 0 then ([], [])
    else
      var s := Unzip(d[..|d| - 1]);
      (s.0 + [d[|d| - 1].0], s.1 + [d[|d| - 1].1])
  }

  lemma {:induction false} UnzipParallel<T>(d: Dict<T>)
    ensures Unzip(d).0 == Keys(d) && Unzip(d).1 == Values(d)
  {
    if |d| > 0 {
      UnzipParallel(d[..|d| - 1]);
    }
  }

  function SomeAll<T>(d: Dict<T>): (r: Dict<Option<T>>)
    ensures |r| == |d| && forall k :: 0 <= k < |d| ==> r[k] == (d[k].0, Some(d[k].1))
  {
    seq(|d|, k requires 0 <= k < |d| => (d[k].0, Some(d[k].1)))
  }

  lemma {:induction false} ZipIgnoresLaterValues<T>(keys: seq<string>, values: seq<T>, more: seq<T>)
    requires |keys| <= |values|
    ensures Zip(keys, values + more) == Zip(keys, values)
  {
    if |keys| > 0 {
      ZipIgnoresLaterValues(keys[..|keys| - 1], values, more);
    }
  }

  /** With distinct keys, `zip` pairs the i-th key with the i-th value, in order. */
  lemma {:induction false} ZipDistinct<T>(keys: seq<string>, values: seq<T>)
    requires forall i, j :: 0 <= i < j < |keys| ==> keys[i] != keys[j]
    ensures |Zip(keys, values)| == |keys|
    ensures forall i :: 0 <= i < |keys| ==> Zip(keys, values)[i] == (keys[i], At(values, i))
  {
    if |keys| > 0 {
      var n := |keys| - 1;
      ZipDistinct(keys[..n], values);
      var d := Zip(keys[..n], values);
      ZipAppendsFresh(keys, values, d);
      PutNew(d, keys[n], At(values, n));
    }
  }

  /** One step of `ZipDistinct`: the last key is fresh, and appending its entry extends the pairing. */
  lemma ZipAppendsFresh<T>(keys: seq<string>, values: seq<T>, d: Dict<Option<T>>)
    requires |keys| > 0 && forall i :: 0 <= i < |keys| - 1 ==> keys[i] != keys[|keys| - 1]
    requires |d| == |keys| - 1
    requires forall i :: 0 <= i < |keys[..|keys| - 1]| ==> d[i] == (keys[..|keys| - 1][i], At(values, i))
    ensures keys[|keys| - 1] !in Keys(d)
    ensures |d + [(keys[|keys| - 1], At(values, |keys| - 1))]| == |keys|
    ensures forall i :: 0 <= i < |keys| ==> (d + [(keys[|keys| - 1], At(values, |keys| - 1))])[i] == (keys[i], At(values, i))
  {
    var n := |keys| - 1;
    var e := (keys[n], At(values, n));
    assert forall i :: 0 <= i < n ==> keys[..n][i] == keys[i];
    FreshKey(d, keys[n]);
    SnocIndex(d, e);
  }

  /** A key that no entry carries is not among the keys. */
  lemma FreshKey<V>(d: Dict<V>, key: string)
    requires forall i :: 0 <= i < |d| ==> d[i].0 != key
    ensures key !in Keys(d)
  {
    forall i | 0 <= i < |d| ensures Keys(d)[i] != key {
    }
  }

  lemma SnocIndex<X>(s: seq<X>, x: X)
    ensures |s + [x]| == |s| + 1 && (s + [x])[|s|] == x
    ensures forall i :: 0 <= i < |s| ==> (s + [x])[i] == s[i]
  {
  }

  /** `zip` undoes `unzip` on a dictionary. */
  lemma ZipUnzip<T>(d: Dict<T>)
    requires UniqueKeys(d)
    ensures Zip(Unzip(d).0, Unzip(d).1) == SomeAll(d)
  {
    UnzipParallel(d);
    var ks, vs := Keys(d), Values(d);
    ZipDistinct(ks, vs);
    var z := Zip(ks, vs);
    forall i | 0 <= i < |d| ensures z[i] == SomeAll(d)[i] {
      assert At(vs, i) == Some(d[i].1);
    }
  }

  /** `objFilter(d, callback)`: the entries the callback accepts, in key order. */
  function ObjFilter<T>(d: Dict<T>, keep: (T, string, nat) -> bool): Dict<T>
  {
    if |d| == 0 then []
    else
      var s := ObjFilter(d[..|d| - 1], keep);
      var e := d[|d| - 1];
      if keep(e.1, e.0, |d| - 1) then Put(s, e.0, e.1) else s
  }

  lemma {:induction false} ObjFilterKeys<T>(d: Dict<T>, keep: (T, string, nat) -> bool, k: string)
    ensures k in Keys(ObjFilter(d, keep)) ==> k in Keys(d)
  {
    if |d| > 0 {
      var s := ObjFilter(d[..|d| - 1], keep);
      var e := d[|d| - 1];
      ObjFilterKeys(d[..|d| - 1], keep, k);
      PutKeys(s, e.0, e.1);
      assert Keys(d[..|d| - 1]) == Keys(d)[..|d| - 1];
    }
  }

  /** On a dictionary, an entry survives `objFilter` exactly when the callback accepts it. */
  lemma {:induction false} ObjFilterGet<T>(d: Dict<T>, keep: (T, string, nat) -> bool, i: nat)
    requires UniqueKeys(d) && i < |d|
    ensures Get(ObjFilter(d, keep), d[i].0) == if keep(d[i].1, d[i].0, i) then Some(d[i].1) else None
  {
    var p := d[..|d| - 1];
    if i < |d| - 1 {
      ObjFilterGet(p, keep, i);
    } else if |d| > 1 {
      ObjFilterKeys(p, keep, d[i].0);
      assert d[i].0 !in Keys(p);
    }
  }

  // ---------------------------------------------------------------------
  // Conversions and clamps
  // ---------------------------------------------------------------------

  /** `toStringMax(max, val)`. */
  function ToStringMax(max: int, v: Value): (r: string)
    ensures |r| <= |ToStr(v)| && r == ToStr(v)[..|r|]
    ensures 0 <= max ==> |r| <= max
    ensures |ToStr(v)| <= max ==> r == ToStr(v)
  {
    var s := ToStr(v);
    if |s| > max then SlicePrefix(s, max) else s
  }

  /** `toIntMin(min, val)`. */
  function ToIntMin(min: int, v: Value): Value {
    match ParseInt(v)
    case Int(n) => if n < min then Int(min) else Int(n)
    case _ => NaN
  }

  /** `toIntMax(max, val)`. */
  function ToIntMax(max: int, v: Value): Value {
    match ParseInt(v)
    case Int(n) => if n > max then Int(max) else Int(n)
    case _ => NaN
  }

  /** `toGtZeroIntMax(max, val)`. */
  function ToGtZeroIntMax(max: int, v: Value): Value {
    match ParseInt(v)
    case Int(n) => if n > max then Int(max) else if n < 0 then Int(0) else Int(n)
    case _ => NaN
  }

  /** `toIntBetween(min, max, val)`. */
  function ToIntBetween(min: int, max: int, v: Value): Value {
    match ParseInt(v)
    case Int(n) => if n < min then Int(min) else if n > max then Int(max) else Int(n)
    case _ => NaN
  }

  /** `toIntBetweenOptional(min, max, val)`: undefined bounds are `None`. */
  function ToIntBetweenOptional(min: Option<int>, max: Option<int>, v: Value): Value {
    if min.None? && max.None? then v
    else if min.None? then ToIntMax(max.value, v)
    else if max.None? then ToIntMin(min.value, v)
    else ToIntBetween(min.value, max.value, v)
  }

  lemma IntMinBound(min: int, v: Value)
    ensures ToIntMin(min, v).Int? <==> ParseInt(v).Int?
    ensures ToIntMin(min, v).Int? ==> ToIntMin(min, v).i >= min
    ensures ParseInt(v).Int? && ParseInt(v).i >= min ==> ToIntMin(min, v) == ParseInt(v)
  {
  }

  lemma IntMaxBound(max: int, v: Value)
    ensures ToIntMax(max, v).Int? <==> ParseInt(v).Int?
    ensures ToIntMax(max, v).Int? ==> ToIntMax(max, v).i <= max
    ensures ParseInt(v).Int? && ParseInt(v).i <= max ==> ToIntMax(max, v) == ParseInt(v)
  {
  }

  lemma GtZeroIntMaxBound(max: int, v: Value)
    requires max >= 0
    ensures ToGtZeroIntMax(max, v).Int? <==> ParseInt(v).Int?
    ensures ToGtZeroIntMax(max, v).Int? ==> 0 <= ToGtZeroIntMax(max, v).i <= max
  {
    var p := ParseInt(v);
    if p.Int? {
      assert ToGtZeroIntMax(max, v) == if p.i > max then Int(max) else if p.i < 0 then Int(0) else Int(p.i);
    }
  }

  /** For min <= max the result lies in [min, max] and is the identity inside it. */
  lemma IntBetweenBound(min: int, max: int, v: Value)
    requires min <= max
    ensures ToIntBetween(min, max, v).Int? <==> ParseInt(v).Int?
    ensures ToIntBetween(min, max, v).Int? ==> min <= ToIntBetween(min, max, v).i <= max
    ensures ParseInt(v).Int? && min <= ParseInt(v).i <= max ==> ToIntBetween(min, max, v) == ParseInt(v)
  {
  }

  /** Integers pass through each clamp unchanged inside its bound. */
  lemma IntBetweenOfInt(min: int, max: int, n: int)
    requires min <= n <= max
    ensures ToIntBetween(min, max, Int(n)) == Int(n)
  {
    ParseIntOfInt(n);
  }

  lemma IntBetweenOptionalCases(min: Option<int>, max: Option<int>, v: Value)
    ensures min.None? && max.None? ==> ToIntBetweenOptional(min, max, v) == v
    ensures min.None? && max.Some? ==> ToIntBetweenOptional(min, max, v) == ToIntMax(max.value, v)
    ensures min.Some? && max.None? ==> ToIntBetweenOptional(min, max, v) == ToIntMin(min.value, v)
    ensures min.Some? && max.Some? ==> ToIntBetweenOptional(min, max, v) == ToIntBetween(min.value, max.value, v)
  {
  }

  /** `toSqlBoolean(val)`. */
  function ToSqlBoolean(v: Value): (r: string)
    ensures r == "TRUE" <==> Truthy(v)
    ensures r == "TRUE" || r == "FALSE"
  {
    if Truthy(v) then "TRUE" else "FALSE"
  }

  /** `toJsBoolean(val)`: the identity. */
  function ToJsBoolean(v: Value): (r: Value)
    ensures r == v
  {
    v
  }

  // ---------------------------------------------------------------------
  // Case-insensitive lookup
  // ---------------------------------------------------------------------

  /** Index of the first key equal to `prop` ignoring case, or -1. */
  function CaseInsensitiveIndex<T>(d: Dict<T>, prop: string): (i: int)
    ensures -1 <= i < |d|
    ensures i >= 0 ==> SameIgnoringCase(d[i].0, prop)
    ensures forall j :: 0 <= j < |d| && (i == -1 || j < i) ==> !SameIgnoringCase(d[j].0, prop)
  {
    if |d| == 0 then -1
    else if SameIgnoringCase(d[0].0, prop) then 0
    else var j := CaseInsensitiveIndex(d[1..], prop); if j == -1 then -1 else j + 1
  }

  /**
   * One step of the `objReduce` in `findCaseInsensitivePropInObj`: a truthy
   * accumulator is kept; otherwise a key equal to `prop` ignoring case gives
   * its value, and any other key resets the accumulator to `false` (None).
   */
  function FindStep<T>(acc: Option<T>, e: (string, T), prop: string, truthy: T -> bool): Option<T> {
    if acc.Some? && truthy(acc.value) then acc
    else if SameIgnoringCase(e.0, prop) then Some(e.1)
    else None
  }

  /** The reduce over the entries in key order, from the accumulator `acc`. */
  function FindFold<T>(d: Dict<T>, prop: string, truthy: T -> bool, acc: Option<T>): Option<T>
    decreases |d|
  {
    if |d| == 0 then acc else FindFold(d[1..], prop, truthy, FindStep(acc, d[0], prop, truthy))
  }

  /**
   * `findCaseInsensitivePropInObj(obj, prop)`, the reduce started from
   * `false`; `truthy` is JavaScript truthiness on the object's values.
   */
  function FindCaseInsensitivePropInObj<T>(d: Dict<T>, prop: string, truthy: T -> bool): Option<T> {
    FindFold(d, prop, truthy, None)
  }

  /** Entry i is the first key matching `prop` ignoring case whose value is truthy. */
  ghost predicate FirstTruthyMatch<T>(d: Dict<T>, prop: string, truthy: T -> bool, i: int) {
    && 0 <= i < |d| && SameIgnoringCase(d[i].0, prop) && truthy(d[i].1)
    && forall j :: 0 <= j < i ==> !(SameIgnoringCase(d[j].0, prop) && truthy(d[j].1))
  }

  /** No key matching `prop` ignoring case holds a truthy value. */
  ghost predicate NoTruthyMatch<T>(d: Dict<T>, prop: string, truthy: T -> bool) {
    forall j :: 0 <= j < |d| ==> !(SameIgnoringCase(d[j].0, prop) && truthy(d[j].1))
  }

  /** What the reduce ends with when no matching key is truthy: the last entry decides. */
  function LastEntryMatch<T>(d: Dict<T>, prop: string): Option<T> {
    if |d| > 0 && SameIgnoringCase(d[|d| - 1].0, prop) then Some(d[|d| - 1].1) else None
  }

  /** Once truthy, the accumulator is the result. */
  lemma {:induction false} FindFoldSticks<T>(d: Dict<T>, prop: string, truthy: T -> bool, acc: Option<T>)
    requires acc.Some? && truthy(acc.value)
    ensures FindFold(d, prop, truthy, acc) == acc
    decreases |d|
  {
    if |d| > 0 {
      FindFoldSticks(d[1..], prop, truthy, acc);
    }
  }

  lemma {:induction false} FindFoldSpec<T>(d: Dict<T>, prop: string, truthy: T -> bool, acc: Option<T>)
    requires !(acc.Some? && truthy(acc.value))
    ensures forall i :: FirstTruthyMatch(d, prop, truthy, i) ==> FindFold(d, prop, truthy, acc) == Some(d[i].1)
    ensures NoTruthyMatch(d, prop, truthy) ==>
      FindFold(d, prop, truthy, acc) == if |d| == 0 then acc else LastEntryMatch(d, prop)
    decreases |d|
  {
    if |d| > 0 {
      var rest := d[1..];
      var next := FindStep(acc, d[0], prop, truthy);
      assert forall j :: 0 <= j < |rest| ==> rest[j] == d[j + 1];
      if next.Some? && truthy(next.value) {
        FindFoldSticks(rest, prop, truthy, next);
        assert FirstTruthyMatch(d, prop, truthy, 0);
      } else {
        FindFoldSpec(rest, prop, truthy, next);
        forall i | FirstTruthyMatch(d, prop, truthy, i)
          ensures FindFold(d, prop, truthy, acc) == Some(d[i].1)
        {
          assert i > 0;
          assert FirstTruthyMatch(rest, prop, truthy, i - 1);
        }
        if NoTruthyMatch(d, prop, truthy) {
          assert NoTruthyMatch(rest, prop, truthy);
          if |rest| == 0 {
            assert next == LastEntryMatch(d, prop);
          } else {
            assert rest[|rest| - 1] == d[|d| - 1];
          }
        }
      }
    }
  }

  /**
   * `findCaseInsensitivePropInObj` gives the value of the first key, in key
   * order, that matches ignoring case and holds a truthy value; when there is
   * none, the last entry decides: its value if its key matches, else `false`.
   */
  lemma {:induction false} FindCaseInsensitiveSpec<T>(d: Dict<T>, prop: string, truthy: T -> bool)
    ensures forall i :: FirstTruthyMatch(d, prop, truthy, i) ==>
      FindCaseInsensitivePropInObj(d, prop, truthy) == Some(d[i].1)
    ensures NoTruthyMatch(d, prop, truthy) ==>
      FindCaseInsensitivePropInObj(d, prop, truthy) == LastEntryMatch(d, prop)
  {
    FindFoldSpec(d, prop, truthy, None);
  }

  /** A key holding a truthy value is found, whatever the case of the probe, with a truthy value. */
  lemma {:induction false} FindCaseInsensitiveExact<T>(d: Dict<T>, key: string, truthy: T -> bool)
    requires exists i :: 0 <= i < |d| && d[i].0 == key && truthy(d[i].1)
    ensures var r := FindCaseInsensitivePropInObj(d, key, truthy); r.Some? && truthy(r.value)
  {
    FindCaseInsensitiveSpec(d, key, truthy);
    var i :| 0 <= i < |d| && d[i].0 == key && truthy(d[i].1);
    FirstTruthyExists(d, key, truthy, i);
  }

  /** Some matching truthy entry gives a first one. */
  lemma {:induction false} FirstTruthyExists<T>(d: Dict<T>, prop: string, truthy: T -> bool, i: int)
    requires 0 <= i < |d| && SameIgnoringCase(d[i].0, prop) && truthy(d[i].1)
    ensures exists f :: 0 <= f <= i && FirstTruthyMatch(d, prop, truthy, f)
    decreases i
  {
    if !FirstTruthyMatch(d, prop, truthy, i) {
      var j :| 0 <= j < i && SameIgnoringCase(d[j].0, prop) && truthy(d[j].1);
      FirstTruthyExists(d, prop, truthy, j);
    }
  }

  /** A key matching in both cases: the falsy first value is passed over. */
  lemma {:induction false} FalsyValuePassedOver()
    ensures FindCaseInsensitivePropInObj([("a", Int(0)), ("A", Int(5))], "a", Truthy) == Some(Int(5))
  {
    assert ToLower("A") == "a";
    assert Truthy(Int(5));
    FindCaseInsensitiveSpec([("a", Int(0)), ("A", Int(5))], "a", Truthy);
    assert FirstTruthyMatch([("a", Int(0)), ("A", Int(5))], "a", Truthy, 1);
  }

  /** An exact key whose value is falsy is reset by a later key: `false`. */
  lemma {:induction false} FalsyValueReset()
    ensures FindCaseInsensitivePropInObj([("a", Int(0)), ("b", Int(1))], "a", Truthy).None?
  {
    assert ToLower("b")[0] == 'b' && ToLower("a")[0] == 'a';
    FindCaseInsensitiveSpec([("a", Int(0)), ("b", Int(1))], "a", Truthy);
    assert NoTruthyMatch([("a", Int(0)), ("b", Int(1))], "a", Truthy);
  }

  /**
   * The lookup on an object whose values are all objects (schema tables,
   * struct columns), which JavaScript treats as truthy.
   */
  function FindCaseInsensitiveObject<T>(d: Dict<T>, prop: string): Option<T> {
    FindCaseInsensitivePropInObj(d, prop, (x: T) => true)
  }

  /** On objects, the value of the first key equal to `prop` ignoring case; `false` when there is none. */
  lemma {:induction false} FindCaseInsensitiveObjectSpec<T>(d: Dict<T>, prop: string)
    ensures FindCaseInsensitiveObject(d, prop).None? <==>
      forall j :: 0 <= j < |d| ==> !SameIgnoringCase(d[j].0, prop)
    ensures forall i ::
      0 <= i < |d| && SameIgnoringCase(d[i].0, prop) && (forall j :: 0 <= j < i ==> !SameIgnoringCase(d[j].0, prop)) ==>
        FindCaseInsensitiveObject(d, prop) == Some(d[i].1)
  {
    var truthy := (x: T) => true;
    FindCaseInsensitiveSpec(d, prop, truthy);
    var i := CaseInsensitiveIndex(d, prop);
    if i >= 0 {
      assert FirstTruthyMatch(d, prop, truthy, i);
    } else {
      assert NoTruthyMatch(d, prop, truthy);
      assert LastEntryMatch(d, prop).None?;
    }
    forall i' |
      0 <= i' < |d| && SameIgnoringCase(d[i'].0, prop) && (forall j :: 0 <= j < i' ==> !SameIgnoringCase(d[j].0, prop))
      ensures FindCaseInsensitiveObject(d, prop) == Some(d[i'].1)
    {
      assert FirstTruthyMatch(d, prop, truthy, i');
    }
  }

  // ---------------------------------------------------------------------
  // augmentObjIfNew: changes the dictionary it is given
  // ---------------------------------------------------------------------

  /** What `augmentObjIfNew(obj, item, key)` leaves in `obj`. */
  function AugmentedIfNew<V>(d: Dict<V>, item: V, key: string, truthy: V -> bool): Dict<V>
  {
    var cur := Get(d, key);
    if cur.Some? && truthy(cur.value) then d else Put(d, key, item)
  }

  lemma AugmentedIfNewSpec<V>(d: Dict<V>, item: V, key: string, truthy: V -> bool)
    ensures var r := AugmentedIfNew(d, item, key, truthy);
      && (Get(d, key).Some? && truthy(Get(d, key).value) ==> r == d)
      && (Get(d, key).None? || !truthy(Get(d, key).value) ==> Get(r, key) == Some(item))
      && (forall k :: k != key ==> Get(r, k) == Get(d, k))
  {
  }

  /** A JavaScript object whose own properties the library updates in place. */
  class MutableDict<V> {
    var entries: Dict<V>

    constructor (init: Dict<V>)
      ensures entries == init
    {
      entries := init;
    }

    /** `augmentObjIfNew(this, item, key)`: returns the same object. */
    method AugmentIfNew(item: V, key: string, truthy: V -> bool) returns (r: MutableDict<V>)
      modifies this
      ensures r == this
      ensures entries == AugmentedIfNew(old(entries), item, key, truthy)
    {
      var cur := Get(entries, key);
      if !(cur.Some? && truthy(cur.value)) {
        entries := Put(entries, key, item);
      }
      r := this;
    }
  }

  // ---------------------------------------------------------------- Array.prototype.filter

  /** `xs.filter(p)`. */
  function Filter<X>(p: X -> bool, xs: seq<X>): (r: seq<X>)
    ensures |r| <= |xs|
    ensures forall k :: 0 <= k < |r| ==> p(r[k])
    decreases |xs|
  {
    if |xs| == 0 then []
    else Filter(p, xs[..|xs| - 1]) + (if p(xs[|xs| - 1]) then [xs[|xs| - 1]] else [])
  }

  function Not<X>(p: X -> bool): X -> bool {
    x => !p(x)
  }

  lemma {:induction false} FilterMembers<X>(p: X -> bool, xs: seq<X>, x: X)
    ensures x in Filter(p, xs) <==> x in xs && p(x)
    decreases |xs|
  {
    if |xs| > 0 {
      var n := |xs| - 1;
      FilterMembers(p, xs[..n], x);
      assert xs == xs[..n] + [xs[n]];
    }
  }

  /** Filtering keeps the order: it distributes over concatenation. */
  lemma {:induction false} FilterAppend<X>(p: X -> bool, a: seq<X>, b: seq<X>)
    ensures Filter(p, a + b) == Filter(p, a) + Filter(p, b)
    decreases |b|
  {
    if |b| == 0 {
      assert a + b == a;
    } else {
      var n := |b| - 1;
      assert (a + b)[..|a + b| - 1] == a + b[..n];
      assert (a + b)[|a + b| - 1] == b[n];
      FilterAppend(p, a, b[..n]);
    }
  }

  /** A filter and its complement split the sequence. */
  lemma {:induction false} FilterPartition<X>(p: X -> bool, xs: seq<X>)
    ensures multiset(Filter(p, xs)) + multiset(Filter(Not(p), xs)) == multiset(xs)
    decreases |xs|
  {
    if |xs| > 0 {
      var n := |xs| - 1;
      FilterPartition(p, xs[..n]);
      assert xs == xs[..n] + [xs[n]];
    }
  }

  /** A filter that every element passes keeps the whole sequence. */
  lemma {:induction false} FilterKeeps<X>(p: X -> bool, xs: seq<X>)
    requires forall k :: 0 <= k < |xs| ==> p(xs[k])
    ensures Filter(p, xs) == xs
    decreases |xs|
  {
    if |xs| > 0 {
      FilterKeeps(p, xs[..|xs| - 1]);
      assert xs == xs[..|xs| - 1] + [xs[|xs| - 1]];
    }
  }

  /** `Boolean` as a filter callback on strings: only `''` is falsy. */
  predicate NonEmptyString(s: string) {
    s != ""
  }
}
