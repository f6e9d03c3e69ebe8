/**
 * The array helpers `remove` and `toArray`.
 */
module ArrayHelpers {
  import opened Wrappers
  import opened JsValues

  /** `Array.prototype.indexOf` under `===`: the first index holding `x`, or -1. */
  function IndexOf<T(==)>(s: seq<T>, x: T): (r: int)
    ensures -1 <= r < |s|
    ensures r == -1 <==> x !in s
    ensures r != -1 ==> s[r] == x && x !in s[..r]
  {
    if s == [] then -1
    else if s[0] == x then 0
    else
      var k := IndexOf(s[1..], x);
      assert s[1..][..if k == -1 then 0 else k] == s[1..if k == -1 then 1 else k + 1];
      if k == -1 then -1 else k + 1
  }

  /** `s` with its first occurrence of `x` spliced out; `s` itself when there is none. */
  function RemoveFirst<T(==)>(s: seq<T>, x: T): (r: seq<T>)
    ensures |r| == if x in s then |s| - 1 else |s|
  {
    var i := IndexOf(s, x);
    if i == -1 then s else s[..i] + s[i + 1..]
  }

  /** Removing an element present in `s` drops exactly one copy of it. */
  lemma RemoveFirstCount<T>(s: seq<T>, x: T)
    requires x in s
    ensures |RemoveFirst(s, x)| == |s| - 1
    ensures multiset(RemoveFirst(s, x)) == multiset(s) - multiset{x}
  {
    var i := IndexOf(s, x);
    assert s == s[..i] + ([x] + s[i + 1..]);
  }

  /** The copy removed is the first: the elements before it stay in place. */
  lemma RemoveFirstKeepsPrefix<T>(s: seq<T>, x: T, j: int)
    requires x in s && 0 <= j < IndexOf(s, x)
    ensures RemoveFirst(s, x)[j] == s[j] && s[j] != x
  {
    var i := IndexOf(s, x);
    assert s[j] == s[..i][j];
  }

  /** The elements after the removed copy shift down by one. */
  lemma RemoveFirstShiftsSuffix<T>(s: seq<T>, x: T, j: int)
    requires x in s && IndexOf(s, x) <= j < |s| - 1
    ensures RemoveFirst(s, x)[j] == s[j + 1]
  {
    var i := IndexOf(s, x);
    assert RemoveFirst(s, x)[j] == s[i + 1..][j - i];
  }

  /** Removing an element that is absent changes nothing. */
  lemma RemoveFirstAbsent<T>(s: seq<T>, x: T)
    requires x !in s
    ensures RemoveFirst(s, x) == s
  {
  }

  /** A JavaScript array, resized in place by `splice`. */
  class JsArray<T> {
    var items: seq<T>

    constructor (xs: seq<T>)
      ensures items == xs
    {
      items := xs;
    }
  }

  /**
   * `remove(arr, item)`: splices out the first `===` match and returns the
   * one-element array `splice` yields; leaves an empty array, or one
   * without `item`, alone and returns `undefined` (`None`).
   */
  method Remove<T(==)>(arr: JsArray<T>, item: T) returns (removed: Option<seq<T>>)
    modifies arr
    ensures arr.items == RemoveFirst(old(arr.items), item)
    ensures item in old(arr.items) ==> removed == Some([item])
    ensures item !in old(arr.items) ==> removed == None
  {
    removed := None;
    if |arr.items| != 0 {
      var index := IndexOf(arr.items, item);
      if index > -1 {
        assert arr.items[index..index + 1] == [item];
        removed := Some(arr.items[index..index + 1]);
        arr.items := arr.items[..index] + arr.items[index + 1..];
      }
    }
  }

  /** Reading index `j` of an array-like value: `undefined` outside its bounds. */
  function At(list: seq<Value>, j: int): Value {
    if 0 <= j < |list| then list[j] else Undef
  }

  /** `start || 0`: an absent start or a start of 0 both mean 0. */
  function StartOf(start: Option<int>): int {
    if start.Some? then start.value else 0
  }

  /** `new Array(n)` with a negative `n` throws a `RangeError`. */
  datatype RangeError = InvalidArrayLength(length: int)

  /**
   * `toArray(list, start)`: a new array of `list.length - start` slots
   * filled from the back, slot `i` taking `list[i + start]`.
   */
  method ToArray(list: seq<Value>, start: Option<int>) returns (r: Result<seq<Value>, RangeError>)
    ensures r.Failure? <==> |list| - StartOf(start) < 0
    ensures r.Failure? ==> r.error == InvalidArrayLength(|list| - StartOf(start))
    ensures r.Success? ==> |r.value| == |list| - StartOf(start)
    ensures r.Success? ==> forall j :: 0 <= j < |r.value| ==> r.value[j] == At(list, j + StartOf(start))
    ensures 0 <= StartOf(start) <= |list| ==> r == Success(list[StartOf(start)..])
    ensures StartOf(start) < 0 ==> r == Success(seq(-StartOf(start), _ => Undef) + list)
  {
    var s := StartOf(start);
    var i := |list| - s;
    if i < 0 {
      return Failure(InvalidArrayLength(i));
    }
    var ret := new Value[i](_ => Undef);
    while i > 0
      invariant 0 <= i <= ret.Length
      invariant forall j :: i <= j < ret.Length ==> ret[j] == At(list, j + s)
    {
      i := i - 1;
      ret[i] := At(list, i + s);
    }
    r := Success(ret[..]);
    if 0 <= s {
      assert r.value == list[s..];
    } else {
      assert r.value == seq(-s, _ => Undef) + list;
    }
  }
}
