/**
 * `looseEqual` and `looseIndexOf`: structural comparison with string
 * coercion for primitives, and the first-match scan built on it.
 */
module LooseEquality {
  import opened JsValues

  /** Property read `m[k]`: a missing key reads as `undefined`. */
  function Get(m: map<string, Value>, k: string): Value {
    if k in m then m[k] else Undef
  }

  /**
   * `looseEqual(a, b)`. The `a === b` shortcut is kept for primitives;
   * for containers reference identity is replaced by `LooseEqualReflexive`.
   * Record keys are walked on `a` only; a `Date` has no own keys, so the
   * walk over its keys is vacuous.
   */
  function LooseEqual(a: Value, b: Value): (r: bool)
    ensures IsObject(a) != IsObject(b) ==> !r
    decreases a
  {
    if !IsObject(a) && a == b then true
    else if IsObject(a) && IsObject(b) then
      if a.Arr? && b.Arr? then
        |a.elems| == |b.elems| &&
        forall i | 0 <= i < |a.elems| :: LooseEqual(a.elems[i], b.elems[i])
      else if a.Date? && b.Date? then
        a.time == b.time
      else if !a.Arr? && !b.Arr? then
        |OwnProps(a)| == |OwnProps(b)| &&
        (a.Obj? ==> forall k | k in a.props :: LooseEqual(a.props[k], Get(OwnProps(b), k)))
      else
        false
    else if !IsObject(a) && !IsObject(b) then
      StringOf(a) == StringOf(b)
    else
      false
  }

  /** Every value is loosely equal to itself, containers included. */
  lemma {:induction false} LooseEqualReflexive(v: Value)
    ensures LooseEqual(v, v)
  {
    match v
    case Arr(xs) =>
      forall i | 0 <= i < |xs| ensures LooseEqual(xs[i], xs[i]) {
        LooseEqualReflexive(xs[i]);
      }
    case Obj(m) =>
      forall k | k in m ensures LooseEqual(m[k], Get(m, k)) {
        LooseEqualReflexive(m[k]);
      }
    case _ =>
  }

  /** Two non-objects (`null` and `undefined` included) compare by `String(...)`. */
  lemma LooseEqualPrimitives(a: Value, b: Value)
    requires !IsObject(a) && !IsObject(b)
    ensures LooseEqual(a, b) <==> StringOf(a) == StringOf(b)
  {
  }

  /** An object never equals a non-object, in either order. */
  lemma LooseEqualObjectVsPrimitive(a: Value, b: Value)
    requires IsObject(a) != IsObject(b)
    ensures !LooseEqual(a, b) && !LooseEqual(b, a)
  {
  }

  /** Arrays: same length and pairwise loosely equal at each index. */
  lemma LooseEqualArrays(xs: seq<Value>, ys: seq<Value>)
    ensures LooseEqual(Arr(xs), Arr(ys)) <==>
      |xs| == |ys| && forall i :: 0 <= i < |xs| ==> LooseEqual(xs[i], ys[i])
  {
  }

  /** Dates: equal exactly when their timestamps are. */
  lemma LooseEqualDates(s: int, t: int)
    ensures LooseEqual(Date(s), Date(t)) <==> s == t
  {
  }

  /** An array never equals a non-array object, in either order. */
  lemma LooseEqualArrayVsNonArray(a: Value, b: Value)
    requires a.Arr? && IsObject(b) && !b.Arr?
    ensures !LooseEqual(a, b) && !LooseEqual(b, a)
  {
  }

  /**
   * Two non-array objects that are not both dates: same own-key count and
   * every key of `a` loosely equal to the same key of `b` (missing reads
   * `undefined`).
   */
  lemma LooseEqualRecords(a: Value, b: Value)
    requires IsObject(a) && IsObject(b) && !a.Arr? && !b.Arr? && !(a.Date? && b.Date?)
    ensures LooseEqual(a, b) <==>
      |OwnProps(a)| == |OwnProps(b)| &&
      forall k :: k in OwnProps(a) ==> LooseEqual(OwnProps(a)[k], Get(OwnProps(b), k))
  {
  }

  /** Two integers are loosely equal only when they are the same integer. */
  lemma LooseEqualIntegers(x: int, y: int)
    ensures LooseEqual(Int(x), Int(y)) <==> x == y
  {
    if LooseEqual(Int(x), Int(y)) {
      IntToStringInjective(x, y);
    }
  }

  /** Only the left operand's keys are walked, so the relation is not symmetric. */
  lemma LooseEqualNotSymmetric()
    ensures LooseEqual(Obj(map["x" := Undef]), Obj(map["y" := Int(1)]))
    ensures !LooseEqual(Obj(map["y" := Int(1)]), Obj(map["x" := Undef]))
    ensures LooseEqual(Obj(map["x" := Str("undefined")]), Obj(map["y" := Int(1)]))
  {
    var left, right := map["x" := Undef], map["y" := Int(1)];
    assert left.Keys == {"x"} && right.Keys == {"y"};
    assert "y" in right && !LooseEqual(right["y"], Get(left, "y"));
  }

  /** A field whose value reads like a missing key. */
  predicate UndefinedLike(v: Value) {
    !IsObject(v) && StringOf(v) == "undefined"
  }

  /** No record anywhere inside `v` has a field that reads like a missing key. */
  predicate NoUndefinedLikeField(v: Value)
    decreases v
  {
    match v
    case Arr(xs) => forall i | 0 <= i < |xs| :: NoUndefinedLikeField(xs[i])
    case Obj(m) => forall k | k in m :: !UndefinedLike(m[k]) && NoUndefinedLikeField(m[k])
    case _ => true
  }

  lemma {:induction false} SubsetNoLarger(s: set<string>, t: set<string>)
    requires s <= t
    ensures |s| <= |t|
  {
    if s != {} {
      var y :| y in s;
      SubsetNoLarger(s - {y}, t - {y});
    }
  }

  /** Equal-size key sets where one contains the other are the same set. */
  lemma SubsetSameSize(s: set<string>, t: set<string>)
    requires s <= t && |s| == |t|
    ensures s == t
  {
    if s != t {
      var x :| x in t && x !in s;
      SubsetNoLarger(s, t - {x});
      assert false;
    }
  }

  /**
   * Record halves of `LooseEqualSymmetric`: when no field of `a` reads
   * like `undefined`, a walk over `a`'s keys that succeeds forces `b` to
   * have exactly the same keys.
   */
  lemma SameKeysWhenEqual(pa: map<string, Value>, pb: map<string, Value>)
    requires |pa| == |pb|
    requires forall k | k in pa :: !UndefinedLike(pa[k])
    requires forall k | k in pa :: LooseEqual(pa[k], Get(pb, k))
    ensures pa.Keys == pb.Keys
  {
    forall k | k in pa ensures k in pb {
      if k !in pb {
        assert LooseEqual(pa[k], Undef);
        assert false;
      }
    }
    SubsetSameSize(pa.Keys, pb.Keys);
  }

  /**
   * Symmetry is lost only through keys missing on the right: on values
   * with no field reading like `undefined`, `looseEqual` is symmetric.
   */
  lemma {:induction false} LooseEqualSymmetric(a: Value, b: Value)
    requires NoUndefinedLikeField(a) && NoUndefinedLikeField(b)
    ensures LooseEqual(a, b) == LooseEqual(b, a)
    decreases a
  {
    if a.Arr? && b.Arr? {
      if |a.elems| == |b.elems| {
        forall i | 0 <= i < |a.elems|
          ensures LooseEqual(a.elems[i], b.elems[i]) == LooseEqual(b.elems[i], a.elems[i])
        {
          LooseEqualSymmetric(a.elems[i], b.elems[i]);
        }
      }
    } else if a.Obj? && b.Obj? {
      var pa, pb := a.props, b.props;
      if LooseEqual(a, b) {
        SameKeysWhenEqual(pa, pb);
        forall k | k in pb ensures LooseEqual(pb[k], Get(pa, k)) {
          LooseEqualSymmetric(pa[k], pb[k]);
        }
      } else if LooseEqual(b, a) {
        SameKeysWhenEqual(pb, pa);
        forall k | k in pa ensures LooseEqual(pa[k], Get(pb, k)) {
          LooseEqualSymmetric(pa[k], pb[k]);
        }
        assert false;
      }
    }
  }

  /** `looseIndexOf(arr, val)`: the first index holding a loosely equal value, or -1. */
  method LooseIndexOf(arr: seq<Value>, val: Value) returns (r: int)
    ensures -1 <= r < |arr|
    ensures r == -1 <==> forall i :: 0 <= i < |arr| ==> !LooseEqual(arr[i], val)
    ensures r != -1 ==> LooseEqual(arr[r], val)
    ensures r != -1 ==> forall j :: 0 <= j < r ==> !LooseEqual(arr[j], val)
  {
    var i := 0;
    while i < |arr|
      invariant 0 <= i <= |arr|
      invariant forall j :: 0 <= j < i ==> !LooseEqual(arr[j], val)
    {
      if LooseEqual(arr[i], val) {
        return i;
      }
      i := i + 1;
    }
    return -1;
  }

  /** The fixed cases of the string-coercion table. */
  lemma LooseEqualPrimitiveExamples()
    ensures LooseEqual(Null, Str("null")) && !LooseEqual(Null, Undef)
    ensures LooseEqual(Int(1), Str("1")) && !LooseEqual(Int(0), Str(""))
    ensures LooseEqual(Bool(false), Str("false"))
  {
    assert IntToString(1) == "1";
  }

  /** Fixed cases of the container branches. */
  lemma LooseEqualContainerExamples()
    ensures LooseEqual(Arr([Int(1), Int(2), Int(3)]), Arr([Int(1), Int(2), Int(3)]))
    ensures !LooseEqual(Arr([Int(1), Int(2)]), Arr([Int(1), Int(2), Int(3)]))
    ensures !LooseEqual(Arr([Int(1), Int(2)]), Arr([Int(2), Int(1)]))
    ensures LooseEqual(Obj(map["a" := Int(1), "b" := Int(2)]), Obj(map["b" := Int(2), "a" := Int(1)]))
    ensures !LooseEqual(Arr([Int(1)]), Obj(map["0" := Int(1)]))
    ensures LooseEqual(Date(0), Obj(map[]))
  {
    LooseEqualReflexive(Arr([Int(1), Int(2), Int(3)]));
    LooseEqualIntegers(1, 2);
    var l, r := [Int(1), Int(2)], [Int(2), Int(1)];
    assert !LooseEqual(l[0], r[0]);
    var m := map["a" := Int(1), "b" := Int(2)];
    assert map["b" := Int(2), "a" := Int(1)] == m;
    LooseEqualReflexive(Obj(m));
  }
}
