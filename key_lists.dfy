/**
 * Comma-separated key lists: `makeMap`, which turns one into a
 * membership test, and `genStaticKeys`, which builds one from the
 * compiler modules' `staticKeys`.
 */
module KeyLists {
  import opened Wrappers
  import StringCase

  lemma JoinPrepend(c: string, parts: seq<string>, sep: char)
    requires |parts| >= 1
    ensures StringCase.Join([c + parts[0]] + parts[1..], sep) == c + StringCase.Join(parts, sep)
  {
    var ps := [c + parts[0]] + parts[1..];
    assert ps[0] == c + parts[0] && ps[1..] == parts[1..];
  }

  /**
   * `s.split(sep)` for a one-character separator: the pieces between
   * separators, with an empty piece wherever two separators meet or one
   * ends the string; the empty string splits into one empty piece.
   */
  function Split(s: string, sep: char): (parts: seq<string>)
    ensures |parts| >= 1
    decreases |s|
  {
    if s == [] then [[]]
    else if s[0] == sep then [[]] + Split(s[1..], sep)
    else
      var rest := Split(s[1..], sep);
      [[s[0]] + rest[0]] + rest[1..]
  }

  /** No piece contains the separator, and joining the pieces restores the string. */
  lemma {:induction false} JoinSplit(s: string, sep: char)
    ensures forall i :: 0 <= i < |Split(s, sep)| ==> sep !in Split(s, sep)[i]
    ensures StringCase.Join(Split(s, sep), sep) == s
    decreases |s|
  {
    if s != [] {
      var rest := Split(s[1..], sep);
      JoinSplit(s[1..], sep);
      if s[0] == sep {
        assert ([[]] + rest)[1..] == rest;
        assert s == [] + [sep] + s[1..];
      } else {
        JoinPrepend([s[0]], rest, sep);
        assert s == [s[0]] + s[1..];
        var parts := Split(s, sep);
        assert parts[0] == [s[0]] + rest[0] && parts[1..] == rest[1..];
        forall i | 0 <= i < |parts|
          ensures sep !in parts[i]
        {
          if i > 0 {
            assert parts[i] == rest[i];
          }
        }
      }
    }
  }

  /** A separator-free prefix is glued to the first piece of what follows it. */
  lemma {:induction false} SplitPlainPrefix(w: string, t: string, sep: char)
    requires sep !in w
    ensures Split(w + t, sep) == [w + Split(t, sep)[0]] + Split(t, sep)[1..]
    decreases |w|
  {
    var r := Split(t, sep);
    if w == [] {
      assert w + t == t && w + r[0] == r[0];
      assert [r[0]] + r[1..] == r;
    } else {
      SplitPlainPrefix(w[1..], t, sep);
      assert (w + t)[0] == w[0] && (w + t)[1..] == w[1..] + t;
      var rest := Split(w[1..] + t, sep);
      assert rest == [w[1..] + r[0]] + r[1..];
      assert rest[0] == w[1..] + r[0] && rest[1..] == r[1..];
      assert Split(w + t, sep) == [[w[0]] + rest[0]] + rest[1..];
      assert [w[0]] + (w[1..] + r[0]) == w + r[0];
    }
  }

  /** Splitting undoes joining, when no piece contains the separator. */
  lemma {:induction false} SplitJoin(parts: seq<string>, sep: char)
    requires |parts| >= 1
    requires forall i :: 0 <= i < |parts| ==> sep !in parts[i]
    ensures Split(StringCase.Join(parts, sep), sep) == parts
    decreases |parts|
  {
    var w := parts[0];
    if |parts| == 1 {
      SplitPlainPrefix(w, [], sep);
      assert w + [] == w;
    } else {
      var t := StringCase.Join(parts[1..], sep);
      SplitJoin(parts[1..], sep);
      var u := [sep] + t;
      assert u[0] == sep && u[1..] == t;
      assert Split(u, sep) == [[]] + parts[1..];
      assert StringCase.Join(parts, sep) == w + u;
      SplitPlainPrefix(w, u, sep);
      assert w + [] == w;
      assert parts == [w] + parts[1..];
    }
  }

  /**
   * `makeMap(str, expectsLowerCase)`: records every piece of
   * `str.split(',')` and returns a test for membership of its argument,
   * lower-cased first when `expectsLowerCase` is set.
   */
  method MakeMap(str: string, expectsLowerCase: bool) returns (isMember: string -> bool)
    ensures forall key :: isMember(key) <==>
      (if expectsLowerCase then StringCase.LowerCase(key) else key) in Split(str, ',')
  {
    var list := Split(str, ',');
    var keys: set<string> := {};
    for i := 0 to |list|
      invariant keys == set j | 0 <= j < i :: list[j]
    {
      keys := keys + {list[i]};
    }
    assert forall k :: k in keys <==> k in list;
    if expectsLowerCase {
      isMember := val => StringCase.LowerCase(val) in keys;
    } else {
      isMember := val => val in keys;
    }
  }

  /** A compiler module's options; only `staticKeys` matters here, and it may be absent. */
  datatype ModuleOptions = ModuleOptions(staticKeys: Option<seq<string>>)

  /** `m.staticKeys || []`. */
  function StaticKeysOf(m: ModuleOptions): seq<string> {
    if m.staticKeys.Some? then m.staticKeys.value else []
  }

  /** `modules.reduce((keys, m) => keys.concat(m.staticKeys || []), [])`. */
  function ConcatStaticKeys(modules: seq<ModuleOptions>): seq<string> {
    if modules == [] then []
    else
      var n := |modules| - 1;
      ConcatStaticKeys(modules[..n]) + StaticKeysOf(modules[n])
  }

  /** `genStaticKeys(modules)`. */
  function GenStaticKeys(modules: seq<ModuleOptions>): string {
    StringCase.Join(ConcatStaticKeys(modules), ',')
  }

  /** The concatenation lists every module's keys, module by module, in order. */
  lemma {:induction false} ConcatStaticKeysAppend(ms: seq<ModuleOptions>, ns: seq<ModuleOptions>)
    ensures ConcatStaticKeys(ms + ns) == ConcatStaticKeys(ms) + ConcatStaticKeys(ns)
    decreases |ns|
  {
    if ns == [] {
      assert ms + ns == ms;
    } else {
      var n := |ns| - 1;
      assert (ms + ns)[..|ms + ns| - 1] == ms + ns[..n];
      ConcatStaticKeysAppend(ms, ns[..n]);
    }
  }

  /** A key is listed exactly when some module declares it. */
  lemma {:induction false} ConcatStaticKeysMembers(ms: seq<ModuleOptions>, k: string)
    ensures k in ConcatStaticKeys(ms) <==> exists i :: 0 <= i < |ms| && k in StaticKeysOf(ms[i])
  {
    if ms != [] {
      var n := |ms| - 1;
      ConcatStaticKeysMembers(ms[..n], k);
      if k in ConcatStaticKeys(ms[..n]) {
        var i :| 0 <= i < n && k in StaticKeysOf(ms[..n][i]);
        assert ms[..n][i] == ms[i];
      }
      if exists i :: 0 <= i < |ms| && k in StaticKeysOf(ms[i]) {
        var i :| 0 <= i < |ms| && k in StaticKeysOf(ms[i]);
        if i < n {
          assert ms[..n][i] == ms[i];
        }
      }
    }
  }

  /**
   * Splitting the generated string on `,` gives back the key list, as long
   * as there is a key and none contains a comma; with no key at all the
   * string is empty.
   */
  lemma GenStaticKeysSplit(ms: seq<ModuleOptions>)
    requires forall k | k in ConcatStaticKeys(ms) :: ',' !in k
    ensures ConcatStaticKeys(ms) == [] ==> GenStaticKeys(ms) == ""
    ensures ConcatStaticKeys(ms) != [] ==> Split(GenStaticKeys(ms), ',') == ConcatStaticKeys(ms)
  {
    var keys := ConcatStaticKeys(ms);
    if keys != [] {
      SplitJoin(keys, ',');
    }
  }

  /** The module list sketched beside `genStaticKeys`: two modules with keys and one without. */
  lemma GenStaticKeysExample()
    ensures GenStaticKeys([ModuleOptions(Some(["staticClass"])), ModuleOptions(Some(["staticStyle"])), ModuleOptions(None)])
         == "staticClass,staticStyle"
  {
    var ms := [ModuleOptions(Some(["staticClass"])), ModuleOptions(Some(["staticStyle"])), ModuleOptions(None)];
    assert ms[..2][..1] == ms[..1] && ms[..1][..0] == [];
    assert ConcatStaticKeys(ms[..1]) == ["staticClass"];
    assert ConcatStaticKeys(ms) == ["staticClass", "staticStyle"];
  }

  /** The tag list of `isBuiltInTag` splits into its two tags. */
  lemma BuiltInTagList()
    ensures Split("slot,component", ',') == ["slot", "component"]
  {
    var parts := ["slot", "component"];
    assert StringCase.Join(parts, ',') == "slot,component";
    SplitJoin(parts, ',');
  }

  lemma TagQueries()
    ensures StringCase.LowerCase("sLot") == "slot" && StringCase.LowerCase("div") == "div"
  {
    assert StringCase.LowerCase("sLot") == "slot";
  }

  /** `isBuiltInTag = makeMap('slot,component', true)` accepts tags in any case. */
  method BuiltInTagExample() returns (slot: bool, div: bool)
    ensures slot && !div
  {
    BuiltInTagList();
    TagQueries();
    var isBuiltInTag := MakeMap("slot,component", true);
    slot := isBuiltInTag("sLot");
    div := isBuiltInTag("div");
  }
}
