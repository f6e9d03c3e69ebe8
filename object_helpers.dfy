/**
 * The object helpers `extend` and `toObject`. A `for...in` loop visits the
 * own enumerable keys of its operand: a record's fields, an array's or a
 * string's indices, and nothing for `undefined`, `null`, booleans,
 * numbers or `Date`s.
 */
module ObjectHelpers {
  import opened JsValues

  /** The keys `"0"`, `"1"`, ... of an array-like value, each mapped to its element. */
  function IndexedProps(xs: seq<Value>): map<string, Value> {
    if xs == [] then map[]
    else
      var n := |xs| - 1;
      IndexedProps(xs[..n])[IntToString(n) := xs[n]]
  }

  /** Every key of an array-like value is the rendering of one of its indices. */
  lemma {:induction false} IndexedPropsKeys(xs: seq<Value>, k: string)
    requires k in IndexedProps(xs)
    ensures exists i :: 0 <= i < |xs| && k == IntToString(i)
  {
    var n := |xs| - 1;
    if k != IntToString(n) {
      IndexedPropsKeys(xs[..n], k);
    }
  }

  /** Index `i` of an array-like value is enumerated under the key `String(i)`. */
  lemma {:induction false} IndexedPropsValues(xs: seq<Value>, i: int)
    requires 0 <= i < |xs|
    ensures IntToString(i) in IndexedProps(xs) && IndexedProps(xs)[IntToString(i)] == xs[i]
  {
    var n := |xs| - 1;
    if i < n {
      IndexedPropsValues(xs[..n], i);
      if IntToString(i) == IntToString(n) {
        IntToStringInjective(i, n);
      }
    }
  }

  /** The properties `for (key in v)` visits, with the values `v[key]` reads. */
  function EnumerableProps(v: Value): map<string, Value> {
    match v
    case Obj(props) => props
    case Arr(xs) => IndexedProps(xs)
    case Str(s) => IndexedProps(seq(|s|, i requires 0 <= i < |s| => Str([s[i]])))
    case _ => map[]
  }

  /** A falsy value has no enumerable properties, so skipping it changes nothing. */
  lemma FalsyHasNoProps(v: Value)
    requires !Truthy(v)
    ensures EnumerableProps(v) == map[]
  {
  }

  /** A JavaScript object whose properties are written in place. */
  class JsObject {
    var props: map<string, Value>

    constructor (m: map<string, Value>)
      ensures props == m
    {
      props := m;
    }
  }

  /**
   * `extend(to, _from)`: copies every enumerable property of `_from` onto
   * `to`, overwriting keys it already has, and returns `to`.
   */
  method Extend(to: JsObject, from: Value) returns (r: JsObject)
    modifies to
    ensures r == to
    ensures to.props == old(to.props) + EnumerableProps(from)
  {
    var src := EnumerableProps(from);
    assert to.props == old(to.props) + map[];
    var keys := src.Keys;
    ghost var done: map<string, Value> := map[];
    while keys != {}
      invariant keys <= src.Keys
      invariant done.Keys == src.Keys - keys
      invariant forall k | k in done :: done[k] == src[k]
      invariant to.props == old(to.props) + done
      decreases keys
    {
      var key :| key in keys;
      to.props := to.props[key := src[key]];
      done := done[key := src[key]];
      keys := keys - {key};
    }
    assert done == src;
    r := to;
  }

  /** The properties of `toObject(arr)`: every truthy element merged in turn. */
  function MergeProps(arr: seq<Value>): map<string, Value> {
    if arr == [] then map[]
    else
      var last := arr[|arr| - 1];
      MergeProps(arr[..|arr| - 1]) + (if Truthy(last) then EnumerableProps(last) else map[])
  }

  /**
   * `toObject(arr)`: a fresh object into which each truthy element of
   * `arr` is `extend`ed, first to last.
   */
  method ToObject(arr: seq<Value>) returns (res: map<string, Value>)
    ensures res == MergeProps(arr)
  {
    var obj := new JsObject(map[]);
    var i := 0;
    while i < |arr|
      invariant 0 <= i <= |arr|
      invariant obj.props == MergeProps(arr[..i])
    {
      assert arr[..i + 1][..i] == arr[..i];
      if Truthy(arr[i]) {
        var _ := Extend(obj, arr[i]);
      }
      i := i + 1;
    }
    assert arr[..i] == arr;
    res := obj.props;
  }

  /** A key of the merged object is a key of some element. */
  lemma {:induction false} MergePropsKeys(arr: seq<Value>, k: string)
    ensures k in MergeProps(arr) <==> exists i :: 0 <= i < |arr| && k in EnumerableProps(arr[i])
  {
    if arr != [] {
      var n := |arr| - 1;
      MergePropsKeys(arr[..n], k);
      if !Truthy(arr[n]) {
        FalsyHasNoProps(arr[n]);
      }
      if k in MergeProps(arr[..n]) {
        var i :| 0 <= i < n && k in EnumerableProps(arr[..n][i]);
        assert arr[..n][i] == arr[i];
      }
      if exists i :: 0 <= i < |arr| && k in EnumerableProps(arr[i]) {
        var i :| 0 <= i < |arr| && k in EnumerableProps(arr[i]);
        if i < n {
          assert arr[..n][i] == arr[i];
        }
      }
    }
  }

  /** The last element that has a key decides its value in the merged object. */
  lemma {:induction false} MergePropsLastWins(arr: seq<Value>, k: string, i: int)
    requires 0 <= i < |arr| && k in EnumerableProps(arr[i])
    requires forall j :: i < j < |arr| ==> k !in EnumerableProps(arr[j])
    ensures k in MergeProps(arr) && MergeProps(arr)[k] == EnumerableProps(arr[i])[k]
  {
    var n := |arr| - 1;
    if !Truthy(arr[n]) {
      FalsyHasNoProps(arr[n]);
    }
    if i < n {
      assert arr[..n][i] == arr[i];
      MergePropsLastWins(arr[..n], k, i);
    }
  }

  /** The documented example: `[{a: 1}, {b: 2}]` merges into `{a: 1, b: 2}`; falsy elements are skipped. */
  lemma ToObjectExample()
    ensures MergeProps([Obj(map["a" := Int(1)]), Null, Obj(map["b" := Int(2)])])
         == map["a" := Int(1), "b" := Int(2)]
  {
    var arr := [Obj(map["a" := Int(1)]), Null, Obj(map["b" := Int(2)])];
    assert arr[..2][..1] == arr[..1] && arr[..1][..0] == [];
    assert MergeProps(arr[..1]) == map["a" := Int(1)];
    assert MergeProps(arr[..2]) == map["a" := Int(1)];
    assert MergeProps(arr) == map["a" := Int(1)] + map["b" := Int(2)];
  }

  /** An array is enumerated under its index keys, a string under its characters' indices. */
  lemma EnumerableExamples()
    ensures EnumerableProps(Arr([Bool(true), Null])) == map["0" := Bool(true), "1" := Null]
    ensures EnumerableProps(Str("hi")) == map["0" := Str("h"), "1" := Str("i")]
    ensures EnumerableProps(Date(0)) == map[]
  {
    assert IntToString(0) == "0" && IntToString(1) == "1";
    var xs := [Bool(true), Null];
    assert xs[..1][..0] == [];
    assert IndexedProps(xs[..1]) == map["0" := Bool(true)];
    var cs := seq(2, i requires 0 <= i < 2 => Str(["hi"[i]]));
    assert cs == [Str("h"), Str("i")];
    assert cs[..1][..0] == [];
    assert IndexedProps(cs[..1]) == map["0" := Str("h")];
  }
}
