/**
 * `cached(fn)`: a pure `string -> string` function behind a private
 * dictionary that is written on every miss. The lookup is
 * `hit || (cache[str] = fn(str))`, so an empty result is falsy and is
 * computed and written again on every call.
 */
module Memo {

  class Cached {
    /** The wrapped pure function. */
    const fn: string -> string
    /** The closure-owned `cache` dictionary. */
    var cache: map<string, string>
    /** How many times `fn` has been invoked. */
    var calls: nat

    /** Every cached entry is the wrapped function's result for its key. */
    ghost predicate Valid()
      reads this
    {
      forall k | k in cache :: cache[k] == fn(k)
    }

    /** Whether a lookup of `s` finds a truthy (non-empty) entry. */
    predicate Hit(s: string)
      reads this
    {
      s in cache && cache[s] != ""
    }

    constructor (f: string -> string)
      ensures fn == f && cache == map[] && calls == 0
      ensures Valid()
    {
      fn := f;
      cache := map[];
      calls := 0;
    }

    /** The returned `cachedFn(str)`. */
    method Call(s: string) returns (r: string)
      requires Valid()
      modifies this
      ensures Valid()
      ensures r == fn(s)
      ensures old(Hit(s)) ==> cache == old(cache) && calls == old(calls)
      ensures !old(Hit(s)) ==> cache == old(cache)[s := fn(s)] && calls == old(calls) + 1
    {
      var hit := if s in cache then cache[s] else "";
      if hit != "" {
        r := hit;
      } else {
        r := fn(s);
        cache := cache[s := r];
        calls := calls + 1;
      }
    }
  }

  /**
   * Two calls with the same argument through a fresh cache: both return
   * `f(s)`; `f` runs once, or twice when its result is the empty string.
   */
  method CallTwice(f: string -> string, s: string) returns (first: string, second: string, invocations: nat)
    ensures first == f(s) && second == f(s)
    ensures invocations == if f(s) == "" then 2 else 1
  {
    var c := new Cached(f);
    first := c.Call(s);
    second := c.Call(s);
    invocations := c.calls;
  }

  /**
   * Calls through one fresh cache for every argument in turn: each result
   * is `f` of its argument, and afterwards the cache holds exactly the
   * arguments seen, no other key.
   */
  method CallAll(f: string -> string, args: seq<string>) returns (results: seq<string>, keys: set<string>)
    ensures |results| == |args|
    ensures forall i :: 0 <= i < |args| ==> results[i] == f(args[i])
    ensures keys == set i | 0 <= i < |args| :: args[i]
  {
    var c := new Cached(f);
    results := [];
    var i := 0;
    while i < |args|
      invariant 0 <= i <= |args|
      invariant c.fn == f && c.Valid()
      invariant |results| == i
      invariant forall j :: 0 <= j < i ==> results[j] == f(args[j])
      invariant c.cache.Keys == set j | 0 <= j < i :: args[j]
    {
      var r := c.Call(args[i]);
      results := results + [r];
      i := i + 1;
    }
    keys := c.cache.Keys;
  }
}
