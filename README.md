# vue shared utilities, modelled in Dafny

This project models the core of `src/shared/util.js`, the utility module that Vue's
compiler and runtime share. It covers four groups of helpers:

- **Structural loose equality.** `looseEqual` compares two JavaScript values:
  - arrays element by element;
  - `Date`s by timestamp;
  - other objects by key count, then by the values under the left operand's keys;
  - everything else by its `String(...)` form.

  `looseIndexOf` is the first-match scan built on `looseEqual`.
- **Memoisation.** `cached` wraps a pure `string -> string` function behind a private
  dictionary. The three string transformers are built on it:
  - `camelize` turns `a-b` into `aB`;
  - `capitalize` upper-cases the first character;
  - `hyphenate` turns `aB` into `a-b`.
- **Array and object helpers.**
  - `remove` splices out the first occurrence of an item.
  - `toArray` copies an array-like value from a start index.
  - `extend` copies properties onto a target.
  - `toObject` merges a list of objects.
- **Key lists and latches.**
  - `makeMap` builds a membership test from a comma-separated list.
  - `genStaticKeys` joins the compiler modules' `staticKeys`.
  - `once` runs a function on the first call only.

The value predicates `isUndef`, `isDef` and `isObject` are modelled too.

JavaScript values are a datatype, `JsValues.Value`, with these constructors:
`Undef | Null | Bool | Int | Str | Arr | Obj | Date`.

Some helpers change state in place. Each of these is a class with a `modifies` clause:
- the closure state of `cached` and `once`;
- the array that `remove` splices;
- the object that `extend` writes into.

The loops of `toArray`, `makeMap`, `extend`, `toObject` and `looseIndexOf` are `while`/`for` loops with invariants.

The regular-expression replacements in `camelize` and `hyphenate` are left-to-right character scans:
- `camelize` replaces `/-(\w)/g`;
- `hyphenate` replaces `/\B([A-Z])/g` and then lower-cases the whole string.

`camelize` and `hyphenate` are proved against an independent description of camelCase and kebab-case words. `camelize` and `hyphenate` undo each other on camelCase and kebab-case strings. On lists of words they map a `-`-joined form to its camelCase form and back.

Files:
- `wrappers.dfy`: `Option` and `Result`.
- `values.dfy`: the value domain, `String(v)` for primitives, and the `isUndef`/`isDef`/`isObject` predicates.
- `loose_equal.dfy`: `looseEqual` and `looseIndexOf`.
- `string_case.dfy`: `camelize`, `capitalize` and `hyphenate`.
- `memo.dfy`: `cached`.
- `once.dfy`: `once`.
- `array_helpers.dfy`: `remove` and `toArray`.
- `object_helpers.dfy`: `extend` and `toObject`.
- `key_lists.dfy`: `makeMap`, `genStaticKeys`, and `String.prototype.split` for a one-character separator (`Array.prototype.join` is `StringCase.Join`).

## Model

| member | source | states |
|---|---|---|
| JsValues.IsUndef | src/shared/util.js:8-10 | Definition, no contract of its own: `undefined` or `null`. `ValueKinds` states its properties. |
| JsValues.IsDef | src/shared/util.js:12-14 | Definition, no contract of its own: neither `undefined` nor `null`. |
| JsValues.IsObject | src/shared/util.js:43-45 | Definition, no contract of its own: arrays, plain objects and `Date`s, the non-`null` values whose `typeof` is `'object'`. |
| JsValues.Truthy | src/shared/util.js:283 | Definition, no contract of its own: `undefined`, `null`, `false`, `0` and `''` are falsy, and every other modelled value is truthy. |
| JsValues.StringOf | src/shared/util.js:382 | Definition, no contract of its own: `String(v)` for a non-object, giving `'undefined'`, `'null'`, `'true'`/`'false'`, the decimal digits of an integer, or the string itself. It requires a non-object, since line 382 is reached only when neither side is an object. |
| JsValues.ValueKinds | src/shared/util.js:8-45 | `isDef` is exactly the negation of `isUndef`. Every object is defined and truthy. `undefined` and `null` are not objects and are falsy. |
| LooseEquality.LooseEqual | src/shared/util.js:347-386 | An object and a non-object are never loosely equal. The definition follows the branches of the code; the lemmas below state each branch as an iff. |
| LooseEquality.LooseEqualReflexive | src/shared/util.js:347-348 | Every value is loosely equal to itself, containers included. This stands in for the `a === b` shortcut on references. |
| LooseEquality.LooseEqualPrimitives | src/shared/util.js:381-382 | Two non-objects, `null` and `undefined` included, are loosely equal iff `String(a) === String(b)`. |
| LooseEquality.LooseEqualObjectVsPrimitive | src/shared/util.js:347-385 | An object and a non-object are never loosely equal, in either order. |
| LooseEquality.LooseEqualArrays | src/shared/util.js:353-361 | Two arrays are loosely equal iff they have the same length and are loosely equal index by index, so order matters. |
| LooseEquality.LooseEqualDates | src/shared/util.js:362-363 | Two `Date`s are loosely equal iff their timestamps are equal. |
| LooseEquality.LooseEqualArrayVsNonArray | src/shared/util.js:373-375 | An array is never loosely equal to a non-array object, in either order. |
| LooseEquality.LooseEqualRecords | src/shared/util.js:364-372 | Two non-array objects that are not both `Date`s are loosely equal iff their own-key counts match and each key of `a` is loosely equal to the same key of `b`. A key missing from `b` reads as `undefined`. |
| LooseEquality.LooseEqualIntegers | src/shared/util.js:381-382 | Two numbers are loosely equal iff they are the same integer, because `String` is injective on integers. |
| LooseEquality.LooseEqualNotSymmetric | src/shared/util.js:364-372 | Only `a`'s keys are walked. So `{x: undefined}` equals `{y: 1}`, but not the reverse, and `{x: 'undefined'}` equals `{y: 1}` too. |
| LooseEquality.LooseEqualSymmetric | src/shared/util.js:347-386 | On values where no field reads as `'undefined'`, `looseEqual(a, b) == looseEqual(b, a)`. |
| LooseEquality.LooseEqualPrimitiveExamples | src/shared/util.js:381-382 | These hold: `null == 'null'`, `null != undefined`, `1 == '1'`, `0 != ''` and `false == 'false'`. |
| LooseEquality.LooseEqualContainerExamples | src/shared/util.js:353-372 | Concrete cases: equal arrays, a length mismatch, a different order, key order ignored, array vs record, and a `Date` vs `{}`. |
| LooseEquality.LooseIndexOf | src/shared/util.js:396-401 | Returns -1 or an index in range. It returns -1 iff no element is loosely equal to `val`; otherwise the element at the result is loosely equal and no earlier one is. |
| Memo.Cached.constructor | src/shared/util.js:174-175 | A new wrapper has an empty cache and has not called `fn`. |
| Memo.Cached.Call | src/shared/util.js:176-179 | The call always returns `fn(s)`. On a truthy hit, the cache and the call count are unchanged. Otherwise only key `s` is (re)written with `fn(s)` and `fn` runs once. The cache stays consistent with `fn`. |
| Memo.CallTwice | src/shared/util.js:174-180 | Two calls through a fresh cache both return `f(s)`. `f` runs once, or twice when `f(s)` is the empty string. |
| Memo.CallAll | src/shared/util.js:174-180 | Calls through one cache return `f` of each argument. Afterwards the cache keys are exactly the arguments. |
| StringCase.LowerCase | src/shared/util.js:214 | `toLowerCase` on the ASCII letters keeps the length. `LowerCasePointwise` states the character mapping. |
| StringCase.Camelize | src/shared/util.js:188-193 | `str.replace(/-(\w)/g, ...)` never lengthens the string, since each match drops its `-`. |
| StringCase.Capitalize | src/shared/util.js:202 | `charAt(0).toUpperCase() + slice(1)` keeps the length. `CapitalizeShape` states the rest. |
| StringCase.MarkCapitals | src/shared/util.js:211-214 | `replace(/\B([A-Z])/g, '-$1')` never shortens the string: it inserts `-` before each capital that follows a word character. |
| StringCase.Hyphenate | src/shared/util.js:211-216 | The result is at least as long as the input and contains no upper-case letter. |
| StringCase.Join | src/shared/util.js:338 | Definition, no contract of its own: `parts.join(sep)`, with `''` for an empty list. `JoinSplit` and `SplitJoin` relate it to `split`. |
| StringCase.CamelizeNoMatch | src/shared/util.js:188-193 | `camelize` leaves a string with no `-` followed by a word character unchanged. |
| StringCase.CamelizePlain | src/shared/util.js:188-193 | A prefix without `-` passes through `camelize` untouched. |
| StringCase.CamelizeDashJoin | src/shared/util.js:185-193 | `camelize` of dash-free words joined by `-` is the first word followed by the others capitalized, provided each later word starts with a word character. |
| StringCase.CamelizeHyphenateRoundTrip | src/shared/util.js:188-216 | `camelize(hyphenate(s)) == s` for every camelCase string. |
| StringCase.HyphenateCamelizeRoundTrip | src/shared/util.js:188-216 | `hyphenate(camelize(s)) == s` for every kebab-case string. |
| StringCase.HyphenateCamelJoin | src/shared/util.js:209-216 | `hyphenate` of lower-case words in camelCase is the words joined by `-`. |
| StringCase.HyphenateIdempotent | src/shared/util.js:211-216 | `hyphenate` is idempotent. |
| StringCase.CapitalizeShape | src/shared/util.js:200-204 | `capitalize` keeps the length, upper-cases the first character, keeps the rest, and maps `''` to `''`. |
| StringCase.CapitalizeIdempotent | src/shared/util.js:200-204 | `capitalize` is idempotent. |
| StringCase.CamelizeDocumentedExample | src/shared/util.js:185 | `camelize('hhh-aaa-ddd-fff') == 'hhhAaaDddFff'`. |
| StringCase.CamelizeNameExample | src/shared/util.js:188-193 | `camelize('my-el-name') == 'myElName'`. |
| StringCase.CamelizeEdgeExamples | src/shared/util.js:188-193 | A leading `-x` is camelized to `X`, and a trailing `-` stays. |
| StringCase.CapitalizeExamples | src/shared/util.js:198-204 | `capitalize('sdfhsdlfjiufsd') == 'Sdfhsdlfjiufsd'` and `capitalize('') == ''`. |
| StringCase.HyphenateDocumentedExample | src/shared/util.js:209 | `hyphenate('aBaaCaaDaa') == 'a-baa-caa-daa'`. |
| StringCase.HyphenateNameExample | src/shared/util.js:211-216 | `hyphenate('myElName') == 'my-el-name'`. |
| StringCase.LowerCasePointwise | src/shared/util.js:214 | `toLowerCase` maps every character independently. |
| ArrayHelpers.IndexOf | src/shared/util.js:154 | `indexOf` returns -1 iff the item is absent. Otherwise the result holds the item and no earlier index does. |
| ArrayHelpers.RemoveFirst | src/shared/util.js:153-157 | `splice(indexOf(item), 1)` on a value: the length drops by one exactly when the item is present. |
| ArrayHelpers.RemoveFirstCount | src/shared/util.js:152-159 | Removing a present item drops exactly one copy of it: the length falls by one and the multiset loses one occurrence. |
| ArrayHelpers.RemoveFirstKeepsPrefix | src/shared/util.js:154-156 | The copy removed is the first occurrence, and the elements before it stay in place. |
| ArrayHelpers.RemoveFirstShiftsSuffix | src/shared/util.js:155-156 | The elements after the removed copy shift down by one. |
| ArrayHelpers.RemoveFirstAbsent | src/shared/util.js:152-159 | Removing an absent item changes nothing. |
| ArrayHelpers.Remove | src/shared/util.js:152-159 | The array becomes `RemoveFirst` of its old contents. The result is `[item]` when the item was present and `undefined` otherwise, including for an empty array. |
| ArrayHelpers.ToArray | src/shared/util.js:254-262 | A negative length `list.length - start` is a `RangeError`. Otherwise slot `j` holds `list[j + start]`, or `undefined` when out of bounds. The result is `list.slice(start)` for `0 <= start <= length`, and is `-start` `undefined`s followed by `list` for a negative start. |
| ObjectHelpers.EnumerableProps | src/shared/util.js:269-270 | Definition, no contract of its own: what `for (key in _from)` visits, namely a record's own fields, an array's or string's indices, and nothing for a `Date` or a primitive. |
| ObjectHelpers.MergeProps | src/shared/util.js:280-288 | Definition, no contract of its own: each truthy element's properties laid over the previous ones, left to right. `MergePropsKeys` and `MergePropsLastWins` state its properties. |
| ObjectHelpers.IndexedPropsKeys | src/shared/util.js:269 | Every key that `for...in` visits on an array or string is `String(i)` for one of its indices. |
| ObjectHelpers.IndexedPropsValues | src/shared/util.js:269-270 | Index `i` is visited under the key `String(i)` with its element as the value. |
| ObjectHelpers.FalsyHasNoProps | src/shared/util.js:283 | A falsy value has no enumerable properties, so the `if (arr[i])` test never changes the merge result. |
| ObjectHelpers.Extend | src/shared/util.js:268-273 | `to` becomes its old properties overwritten by those of `_from`, and `to` is returned. |
| ObjectHelpers.ToObject | src/shared/util.js:280-288 | The result is the left-to-right merge of the truthy elements' properties. |
| ObjectHelpers.MergePropsKeys | src/shared/util.js:280-288 | A key is in the merge iff some element has it. |
| ObjectHelpers.MergePropsLastWins | src/shared/util.js:280-288 | For each key, the last element that has it decides its value. |
| ObjectHelpers.ToObjectExample | src/shared/util.js:276-279 | `[{a: 1}, null, {b: 2}]` merges into `{a: 1, b: 2}`. |
| ObjectHelpers.EnumerableExamples | src/shared/util.js:268-273 | An array is visited under `'0'`, `'1'`, and so on. A string is visited under its character indices. A `Date` has no enumerable keys. |
| KeyLists.Split | src/shared/util.js:129 | `str.split(sep)` yields at least one piece, even for `''`. |
| KeyLists.ConcatStaticKeys | src/shared/util.js:334-337 | Definition, no contract of its own: the `reduce` that concatenates each module's `staticKeys || []`. |
| KeyLists.GenStaticKeys | src/shared/util.js:333-339 | Definition, no contract of its own: the concatenated keys joined with `,`. |
| KeyLists.JoinSplit | src/shared/util.js:129 | No piece of `str.split(',')` contains a comma, and joining the pieces restores `str`. |
| KeyLists.SplitJoin | src/shared/util.js:333-339 | Splitting a non-empty, comma-free list of keys after joining it returns the list. |
| KeyLists.MakeMap | src/shared/util.js:124-134 | The returned test accepts a key iff it is one of the pieces of `str.split(',')`. When `expectsLowerCase` is set, the key is lower-cased first. |
| KeyLists.BuiltInTagExample | src/shared/util.js:140 | `isBuiltInTag` accepts `'sLot'` and rejects `'div'`. |
| KeyLists.ConcatStaticKeysAppend | src/shared/util.js:333-338 | The key list is the concatenation of every module's keys, module by module, in order. |
| KeyLists.ConcatStaticKeysMembers | src/shared/util.js:333-338 | A key is listed iff some module declares it. A module without `staticKeys` contributes nothing. |
| KeyLists.GenStaticKeysSplit | src/shared/util.js:333-339 | The generated string splits on `,` back into the key list, or is `''` when there are no keys. |
| KeyLists.GenStaticKeysExample | src/shared/util.js:318-339 | The sketched module list gives `'staticClass,staticStyle'`. |
| OnceLatch.Once.constructor | src/shared/util.js:407-408 | The latch starts unset, and the wrapped function has not run. |
| OnceLatch.Once.Call | src/shared/util.js:409-414 | The wrapped function runs iff the latch was unset. Afterwards the latch is set. |
| OnceLatch.CallMany | src/shared/util.js:407-415 | Calling the wrapper `n` times runs the wrapped function once, or never when `n` is 0. |

## Left out

- The `try`/`catch` in `looseEqual`: it only guards exotic objects whose introspection throws, and the value datatype cannot throw.
- Reference identity (`===` on objects):
  - Containers are values here, so `LooseEqualReflexive` replaces the identity shortcut.
  - `remove`'s `indexOf` uses the element type's equality.
  - `extend` reads `_from` as a value, so `extend(o, o)` aliasing is not modelled.
- Functions, symbols and non-integral numbers (`NaN`, floats, `-0`) as values: their string forms are floating-point territory.
- JsValues.Value: strings are sequences of Unicode scalar values, not of UTF-16 code units. A character outside the Basic Multilingual Plane is one element here but two code units in JavaScript, so `for (key in '😀')` in `extend` visits `'0'` and `'1'` there and only `'0'` here (`EnumerableProps`, `extend`, `toObject`). Lone surrogates cannot be written at all.
- JsValues.Value: arrays have no holes. `every` in `looseEqual` and `for...in` in `extend` skip holes, so `looseEqual([,], [1])` is true in JavaScript; sparse arrays are not modelled.
- JsValues.Value: numbers (`Int`) and `Date` timestamps are unbounded integers, not doubles. Not modelled: `String(n)`'s exponent form for |n| >= 10^21 (`looseEqual(1e21, '1e+21')` is true in JavaScript and false here); integers beyond 2^53, which JavaScript rounds (so `9007199254740993` and `9007199254740992` are equal there and distinct here); timestamps outside +-8.64e15; invalid `Date`s, whose `NaN` time makes two of them never loosely equal.
- Inherited enumerable properties:
  - `for...in` in `extend` also visits inherited keys; only own keys are modelled.
  - `looseEqual`'s `b[key]` can read inherited values; a missing key reads as `undefined`.
- The `for...in` visiting order is not modelled. Each key is written once, so the final object does not depend on it.
- `makeMap` returns `true` or `undefined`; the model returns a boolean. Lookups on `Object.create(null)` are plain dictionary lookups.
- `toArray`:
  - a `start` of `NaN` or another falsy non-zero value is not modelled; `start || 0` is modelled for `undefined` and `0`;
  - `new Array` lengths of `2^32` and above (another `RangeError`) are not modelled.
- `genStaticKeys`: a `staticKeys` that is a string instead of an array (`concat` would append it whole) is not modelled.
- `once`: `fn.apply(this, arguments)` is modelled as a count of invocations. The wrapped function's own effects and its `this` binding are not modelled.
- Case mapping is ASCII only. `toUpperCase`/`toLowerCase` leave every other character unchanged here, whereas JavaScript's Unicode mappings can change them, and even their length.
- `cached`: the cached functions `camelize`, `capitalize` and `hyphenate` are `Cached` instances over `StringCase.Camelize`, `Capitalize` and `Hyphenate`. Only the generic wrapper is modelled.
- `cached` follows the code, not the documentation:
  - The doc comment at src/shared/util.js:171 promises "a cached version of a pure function", which suggests every computed result is served from the cache.
  - The code returns `hit || (cache[str] = fn(str))`, so a cached empty string is falsy and is recomputed and rewritten on every call.
  - `Memo.Cached.Call` and `Memo.CallTwice` state the code's behaviour.
- Other exports of the file are outside this model:
  - `isTrue`, `isFalse`, `isPrimitive` and `hasOwn`;
  - `toRawType`, `isPlainObject`, `isRegExp` and `isPromise`, which depend on runtime type tags;
  - `isValidArrayIndex` and `toNumber`, which parse floats;
  - `toString`, which calls `JSON.stringify`;
  - `bind` and its polyfill;
  - `noop`, `no`, `identity` and `emptyObject`.
