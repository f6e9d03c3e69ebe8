/**
 * The string transformers `camelize`, `capitalize` and `hyphenate`,
 * each written as a left-to-right character scan in place of the regular
 * expression replacement. Case mapping is ASCII case mapping.
 */
module StringCase {

  predicate IsUpper(c: char) { 'A' <= c <= 'Z' }

  predicate IsLower(c: char) { 'a' <= c <= 'z' }

  predicate IsDigit(c: char) { '0' <= c <= '9' }

  /** The regular-expression class `\w`: `[A-Za-z0-9_]`. */
  predicate IsWordChar(c: char) {
    IsUpper(c) || IsLower(c) || IsDigit(c) || c == '_'
  }

  function UpperChar(c: char): (r: char)
    ensures IsLower(c) ==> IsUpper(r)
    ensures !IsLower(c) ==> r == c
  {
    if IsLower(c) then (c as int - 32) as char else c
  }

  function LowerChar(c: char): (r: char)
    ensures IsUpper(c) ==> IsLower(r) && UpperChar(r) == c
    ensures !IsUpper(c) ==> r == c
  {
    if IsUpper(c) then (c as int + 32) as char else c
  }

  /** `toLowerCase()` over ASCII letters. */
  function LowerCase(s: string): (r: string)
    ensures |r| == |s|
  {
    if s == [] then [] else [LowerChar(s[0])] + LowerCase(s[1..])
  }

  /** Lower-casing maps every character on its own. */
  lemma {:induction false} LowerCasePointwise(s: string)
    ensures forall i :: 0 <= i < |s| ==> LowerCase(s)[i] == LowerChar(s[i])
  {
    if s != [] {
      LowerCasePointwise(s[1..]);
      assert forall i :: 1 <= i < |s| ==> LowerCase(s)[i] == LowerCase(s[1..])[i - 1];
    }
  }

  /** Lower-casing leaves a string without capitals unchanged. */
  lemma LowerCaseNoUpper(s: string)
    requires forall i :: 0 <= i < |s| ==> !IsUpper(s[i])
    ensures LowerCase(s) == s
  {
    LowerCasePointwise(s);
  }

  /** Whether `s` opens with a match of `-(\w)`. */
  predicate StartsWithMatch(s: string) {
    |s| >= 2 && s[0] == '-' && IsWordChar(s[1])
  }

  /** `str.replace(/-(\w)/g, (_, c) => c.toUpperCase())`: matches are non-overlapping, left to right. */
  function Camelize(s: string): (r: string)
    ensures |r| <= |s|
    decreases |s|
  {
    if s == [] then []
    else
      var n := if StartsWithMatch(s) then 2 else 1;
      var out := if StartsWithMatch(s) then [UpperChar(s[1])] else [s[0]];
      out + Camelize(s[n..])
  }

  /** `str.charAt(0).toUpperCase() + str.slice(1)`. */
  function Capitalize(s: string): (r: string)
    ensures |r| == |s|
  {
    if s == [] then [] else [UpperChar(s[0])] + s[1..]
  }

  /**
   * `str.replace(/\B([A-Z])/g, '-$1')`: a `-` before every capital whose
   * predecessor in the input is a word character (`\B` before a word
   * character holds exactly there). `prevIsWord` says whether the character
   * before `s` is a word character.
   */
  function MarkCapitals(s: string, prevIsWord: bool): (r: string)
    ensures |r| >= |s|
  {
    if s == [] then []
    else
      var head := if prevIsWord && IsUpper(s[0]) then ['-', s[0]] else [s[0]];
      head + MarkCapitals(s[1..], IsWordChar(s[0]))
  }

  /** `hyphenate`: mark the inner capitals, then lower-case the whole string. */
  function Hyphenate(s: string): (r: string)
    ensures |r| >= |s|
    ensures forall i :: 0 <= i < |r| ==> !IsUpper(r[i])
  {
    LowerCasePointwise(MarkCapitals(s, false));
    LowerCase(MarkCapitals(s, false))
  }

  lemma {:induction false} LowerCaseAppend(a: string, b: string)
    ensures LowerCase(a + b) == LowerCase(a) + LowerCase(b)
  {
    if a == [] {
      assert a + b == b;
    } else {
      LowerCaseAppend(a[1..], b);
      assert (a + b)[1..] == a[1..] + b;
    }
  }

  lemma CamelizeCons(c: char, t: string)
    requires !(c == '-' && t != [] && IsWordChar(t[0]))
    ensures Camelize([c] + t) == [c] + Camelize(t)
  {
    assert ([c] + t)[1..] == t;
  }

  lemma CamelizeDash(u: char, t: string)
    requires IsWordChar(u)
    ensures Camelize(['-', u] + t) == [UpperChar(u)] + Camelize(t)
  {
    assert (['-', u] + t)[2..] == t;
  }

  lemma MarkCapitalsCons(c: char, t: string, prevIsWord: bool)
    ensures MarkCapitals([c] + t, prevIsWord)
      == (if prevIsWord && IsUpper(c) then ['-', c] else [c]) + MarkCapitals(t, IsWordChar(c))
  {
    assert ([c] + t)[1..] == t;
  }

  /** A string with no `-` followed by a word character is left unchanged by `camelize`. */
  lemma {:induction false} CamelizeNoMatch(s: string)
    requires forall i :: 0 <= i < |s| - 1 ==> !(s[i] == '-' && IsWordChar(s[i + 1]))
    ensures Camelize(s) == s
    decreases |s|
  {
    if s != [] {
      CamelizeNoMatch(s[1..]);
      assert s == [s[0]] + s[1..];
    }
  }

  /** A prefix without `-` passes through `camelize` untouched. */
  lemma {:induction false} CamelizePlain(w: string, t: string)
    requires forall i :: 0 <= i < |w| ==> w[i] != '-'
    ensures Camelize(w + t) == w + Camelize(t)
  {
    if w == [] {
      assert w + t == t;
    } else {
      CamelizePlain(w[1..], t);
      CamelizePlainStep(w[0], w[1..], t);
      assert w == [w[0]] + w[1..];
    }
  }

  lemma CamelizePlainStep(c: char, w: string, t: string)
    requires c != '-'
    requires Camelize(w + t) == w + Camelize(t)
    ensures Camelize([c] + w + t) == [c] + w + Camelize(t)
  {
    CamelizeCons(c, w + t);
    assert [c] + w + t == [c] + (w + t);
    assert [c] + (w + Camelize(t)) == [c] + w + Camelize(t);
  }

  /** With no capitals, marking inserts nothing. */
  lemma {:induction false} MarkCapitalsNoUpper(s: string, prevIsWord: bool)
    requires forall i :: 0 <= i < |s| ==> !IsUpper(s[i])
    ensures MarkCapitals(s, prevIsWord) == s
  {
    if s != [] {
      MarkCapitalsNoUpper(s[1..], IsWordChar(s[0]));
      assert s == [s[0]] + s[1..];
    }
  }

  /** `hyphenate` is idempotent: its output has no capitals left to mark. */
  lemma HyphenateIdempotent(s: string)
    ensures Hyphenate(Hyphenate(s)) == Hyphenate(s)
  {
    var h := Hyphenate(s);
    MarkCapitalsNoUpper(h, false);
    LowerCaseNoUpper(h);
  }

  /** `capitalize` keeps the length, upper-cases the first character only and maps `""` to `""`. */
  lemma CapitalizeShape(s: string)
    ensures |Capitalize(s)| == |s|
    ensures s == [] ==> Capitalize(s) == []
    ensures s != [] ==> Capitalize(s)[0] == UpperChar(s[0]) && Capitalize(s)[1..] == s[1..]
  {
  }

  /** `capitalize` is idempotent. */
  lemma CapitalizeIdempotent(s: string)
    ensures Capitalize(Capitalize(s)) == Capitalize(s)
  {
  }

  /** camelCase: ASCII letters and digits only, not starting with a capital. */
  predicate IsCamelCase(s: string) {
    (forall i :: 0 <= i < |s| ==> IsUpper(s[i]) || IsLower(s[i]) || IsDigit(s[i]))
    && (s != [] ==> !IsUpper(s[0]))
  }

  lemma {:induction false} CamelizeUndoesMarks(s: string)
    requires forall i :: 0 <= i < |s| ==> IsUpper(s[i]) || IsLower(s[i]) || IsDigit(s[i])
    ensures Camelize(LowerCase(MarkCapitals(s, true))) == s
  {
    if s != [] {
      var c, t := s[0], s[1..];
      var tail := LowerCase(MarkCapitals(t, true));
      CamelizeUndoesMarks(t);
      assert s == [c] + t;
      MarkCapitalsCons(c, t, true);
      if IsUpper(c) {
        LowerCaseAppend(['-', c], MarkCapitals(t, true));
        assert LowerCase(['-', c]) == ['-', LowerChar(c)];
        CamelizeDash(LowerChar(c), tail);
      } else {
        LowerCaseAppend([c], MarkCapitals(t, true));
        assert LowerCase([c]) == [c];
        CamelizeCons(c, tail);
      }
    }
  }

  /** `camelize(hyphenate(s)) == s` for every camelCase string, e.g. `myElName`. */
  lemma CamelizeHyphenateRoundTrip(s: string)
    requires IsCamelCase(s)
    ensures Camelize(Hyphenate(s)) == s
  {
    if s != [] {
      var c, t := s[0], s[1..];
      var tail := LowerCase(MarkCapitals(t, true));
      CamelizeUndoesMarks(t);
      assert s == [c] + t;
      MarkCapitalsCons(c, t, false);
      LowerCaseAppend([c], MarkCapitals(t, true));
      assert LowerCase([c]) == [c];
      CamelizeCons(c, tail);
    }
  }

  /**
   * kebab-case relative to the character before it: lower-case letters,
   * digits and `-`, where every `-` follows a word character (or, at the
   * start, `prevIsWord`) and precedes a lower-case letter.
   */
  predicate IsKebabAfter(s: string, prevIsWord: bool) {
    && (forall i :: 0 <= i < |s| ==> IsLower(s[i]) || IsDigit(s[i]) || s[i] == '-')
    && (forall i :: 0 <= i < |s| && s[i] == '-' ==> i + 1 < |s| && IsLower(s[i + 1]))
    && (forall i :: 0 < i < |s| && s[i] == '-' ==> s[i - 1] != '-')
    && (s != [] && s[0] == '-' ==> prevIsWord)
  }

  /** kebab-case, e.g. `my-el-name`: no leading `-`, no `--`, a letter after each `-`. */
  predicate IsKebabCase(s: string) {
    IsKebabAfter(s, false)
  }

  lemma KebabDrop(s: string, prevIsWord: bool, n: nat)
    requires IsKebabAfter(s, prevIsWord)
    requires 1 <= n <= |s| && s[n - 1] != '-'
    ensures IsKebabAfter(s[n..], true)
  {
    var rest := s[n..];
    forall i | 0 <= i < |rest| && rest[i] == '-'
      ensures i + 1 < |rest| && IsLower(rest[i + 1])
    {
      assert s[i + n] == '-';
    }
    forall i | 0 < i < |rest| && rest[i] == '-'
      ensures rest[i - 1] != '-'
    {
      assert s[i + n] == '-';
    }
  }

  lemma MarksUndoCamelizeDash(u: char, rest: string, prevIsWord: bool)
    requires prevIsWord && IsLower(u)
    requires LowerCase(MarkCapitals(Camelize(rest), true)) == rest
    ensures LowerCase(MarkCapitals(Camelize(['-', u] + rest), prevIsWord)) == ['-', u] + rest
  {
    var cam := Camelize(rest);
    CamelizeDash(u, rest);
    MarkCapitalsCons(UpperChar(u), cam, prevIsWord);
    LowerCaseAppend(['-', UpperChar(u)], MarkCapitals(cam, true));
    assert LowerCase(['-', UpperChar(u)]) == ['-', u];
  }

  lemma MarksUndoCamelizeChar(c: char, rest: string, prevIsWord: bool)
    requires IsLower(c) || IsDigit(c)
    requires LowerCase(MarkCapitals(Camelize(rest), true)) == rest
    ensures LowerCase(MarkCapitals(Camelize([c] + rest), prevIsWord)) == [c] + rest
  {
    var cam := Camelize(rest);
    CamelizeCons(c, rest);
    MarkCapitalsCons(c, cam, prevIsWord);
    LowerCaseAppend([c], MarkCapitals(cam, true));
    assert LowerCase([c]) == [c];
  }

  lemma {:induction false} MarksUndoCamelize(s: string, prevIsWord: bool)
    requires IsKebabAfter(s, prevIsWord)
    ensures LowerCase(MarkCapitals(Camelize(s), prevIsWord)) == s
    decreases |s|
  {
    if s != [] && s[0] == '-' {
      assert s[1] != '-';
      KebabDrop(s, prevIsWord, 2);
      MarksUndoCamelize(s[2..], true);
      MarksUndoCamelizeDash(s[1], s[2..], prevIsWord);
      assert s == ['-', s[1]] + s[2..];
    } else if s != [] {
      KebabDrop(s, prevIsWord, 1);
      MarksUndoCamelize(s[1..], true);
      MarksUndoCamelizeChar(s[0], s[1..], prevIsWord);
      assert s == [s[0]] + s[1..];
    }
  }

  /** `hyphenate(camelize(s)) == s` for every kebab-case string, e.g. `my-el-name`. */
  lemma HyphenateCamelizeRoundTrip(s: string)
    requires IsKebabCase(s)
    ensures Hyphenate(Camelize(s)) == s
  {
    MarksUndoCamelize(s, false);
  }

  /** `parts.join(sep)`, used with `-` for kebab-case words; an empty list joins to the empty string. */
  function Join(parts: seq<string>, sep: char): string {
    if parts == [] then []
    else if |parts| == 1 then parts[0]
    else parts[0] + [sep] + Join(parts[1..], sep)
  }

  /** The first word, then every later word capitalized. */
  function CamelJoin(ws: seq<string>): string {
    if ws == [] then [] else ws[0] + CapitalizedWords(ws[1..])
  }

  function CapitalizedWords(ws: seq<string>): string {
    if ws == [] then [] else Capitalize(ws[0]) + CapitalizedWords(ws[1..])
  }

  predicate NoDash(w: string) {
    forall i :: 0 <= i < |w| ==> w[i] != '-'
  }

  lemma DashJoinCons(w: string, r: string, rest: seq<string>)
    requires r != []
    ensures Join([w, r] + rest, '-') == w + (['-', r[0]] + Join([r[1..]] + rest, '-'))
  {
    var ws, ws' := [w, r] + rest, [r[1..]] + rest;
    assert ws[1..] == [r] + rest && ws'[1..] == rest && ws[1..][1..] == rest;
    if rest == [] {
      assert Join([r] + rest, '-') == r == [r[0]] + Join(ws', '-');
    } else {
      assert r == [r[0]] + r[1..];
      assert Join([r] + rest, '-') == [r[0]] + Join(ws', '-');
    }
  }

  lemma CamelizeDashJoinStep(w: string, r: string, rest: seq<string>)
    requires NoDash(w) && r != [] && IsWordChar(r[0])
    requires Camelize(Join([r[1..]] + rest, '-')) == r[1..] + CapitalizedWords(rest)
    ensures Camelize(Join([w, r] + rest, '-')) == w + CapitalizedWords([r] + rest)
  {
    var tail := Join([r[1..]] + rest, '-');
    var words := CapitalizedWords(rest);
    DashJoinCons(w, r, rest);
    CamelizePlain(w, ['-', r[0]] + tail);
    CamelizeDash(r[0], tail);
    assert ([r] + rest)[1..] == rest;
    calc {
      Camelize(Join([w, r] + rest, '-'));
      w + Camelize(['-', r[0]] + tail);
      w + ([UpperChar(r[0])] + (r[1..] + words));
      { assert [UpperChar(r[0])] + (r[1..] + words) == ([UpperChar(r[0])] + r[1..]) + words; }
      w + (Capitalize(r) + words);
      w + CapitalizedWords([r] + rest);
    }
  }

  /** `camelize` drops each `-` between words and capitalizes every word after the first. */
  lemma {:induction false} CamelizeDashJoin(ws: seq<string>)
    requires forall j :: 0 <= j < |ws| ==> NoDash(ws[j])
    requires forall j :: 1 <= j < |ws| ==> ws[j] != [] && IsWordChar(ws[j][0])
    ensures Camelize(Join(ws, '-')) == CamelJoin(ws)
    decreases |ws|
  {
    if |ws| == 1 {
      CamelizeNoMatch(ws[0]);
      assert ws[0] + [] == ws[0];
    } else if |ws| > 1 {
      var w, r, rest := ws[0], ws[1], ws[2..];
      CamelizeDashJoin([r[1..]] + rest);
      assert ws == [w, r] + rest && ([r[1..]] + rest)[1..] == rest;
      CamelizeDashJoinStep(w, r, rest);
    }
  }

  /** The documented example of `camelize`. */
  lemma DashJoinLiteral3(a: string, b: string, c: string)
    ensures Join([a, b, c], '-') == a + ['-'] + (b + ['-'] + c)
  {
    assert [a, b, c][1..] == [b, c] && [b, c][1..] == [c];
    assert Join([b, c], '-') == b + ['-'] + c;
  }

  lemma DashJoinLiteral4(a: string, b: string, c: string, d: string)
    ensures Join([a, b, c, d], '-') == a + ['-'] + (b + ['-'] + (c + ['-'] + d))
  {
    assert [a, b, c, d][1..] == [b, c, d];
    DashJoinLiteral3(b, c, d);
  }

  lemma CamelJoinLiteral3(a: string, b: string, c: string)
    ensures CamelJoin([a, b, c]) == a + (Capitalize(b) + Capitalize(c))
  {
    assert [a, b, c][1..] == [b, c] && [b, c][1..] == [c] && [c][1..] == [];
    assert CapitalizedWords([c]) == Capitalize(c) + [] == Capitalize(c);
    assert CapitalizedWords([b, c]) == Capitalize(b) + Capitalize(c);
  }

  lemma CamelJoinLiteral4(a: string, b: string, c: string, d: string)
    ensures CamelJoin([a, b, c, d]) == a + (Capitalize(b) + (Capitalize(c) + Capitalize(d)))
  {
    assert [a, b, c, d][1..] == [b, c, d] && [b, c, d][1..] == [c, d];
    assert [c, d][1..] == [d] && [d][1..] == [];
    assert CapitalizedWords([d]) == Capitalize(d) + [] == Capitalize(d);
    assert CapitalizedWords([c, d]) == Capitalize(c) + Capitalize(d);
    assert CapitalizedWords([b, c, d]) == Capitalize(b) + (Capitalize(c) + Capitalize(d));
  }

  lemma DocumentedDashed()
    ensures Join(["hhh", "aaa", "ddd", "fff"], '-') == "hhh-aaa-ddd-fff"
  {
    DashJoinLiteral4("hhh", "aaa", "ddd", "fff");
  }

  lemma DocumentedCamel()
    ensures CamelJoin(["hhh", "aaa", "ddd", "fff"]) == "hhhAaaDddFff"
  {
    CamelJoinLiteral4("hhh", "aaa", "ddd", "fff");
    assert Capitalize("aaa") == "Aaa" && Capitalize("ddd") == "Ddd" && Capitalize("fff") == "Fff";
  }

  lemma CamelizeDocumentedExample()
    ensures Camelize("hhh-aaa-ddd-fff") == "hhhAaaDddFff"
  {
    DocumentedDashed();
    DocumentedCamel();
    CamelizeDashJoin(["hhh", "aaa", "ddd", "fff"]);
  }

  lemma NameDashed()
    ensures Join(["my", "el", "name"], '-') == "my-el-name"
  {
    DashJoinLiteral3("my", "el", "name");
  }

  lemma NameCamel()
    ensures CamelJoin(["my", "el", "name"]) == "myElName"
  {
    CamelJoinLiteral3("my", "el", "name");
    assert Capitalize("el") == "El" && Capitalize("name") == "Name";
  }

  lemma CamelizeNameExample()
    ensures Camelize("my-el-name") == "myElName"
  {
    NameDashed();
    NameCamel();
    CamelizeDashJoin(["my", "el", "name"]);
  }

  lemma CamelizeEdgeExamples()
    ensures Camelize("-el") == "El"
    ensures Camelize("a-") == "a-"
  {
    CamelizeDash('e', "l");
    assert "-el" == ['-', 'e'] + "l";
  }

  lemma CapitalizeExamples()
    ensures Capitalize("sdfhsdlfjiufsd") == "Sdfhsdlfjiufsd"
    ensures Capitalize("") == ""
  {
  }

  /** All lower-case ASCII letters. */
  predicate LowerWord(w: string) {
    forall i :: 0 <= i < |w| ==> IsLower(w[i])
  }

  lemma {:induction false} MarkCapitalsLower(w: string, t: string, prevIsWord: bool)
    requires LowerWord(w) && (w == [] ==> prevIsWord)
    ensures MarkCapitals(w + t, prevIsWord) == w + MarkCapitals(t, true)
    decreases |w|
  {
    if w == [] {
      assert w + t == t;
    } else {
      MarkCapitalsLower(w[1..], t, true);
      MarkCapitalsLowerStep(w[0], w[1..], t, prevIsWord);
      assert w == [w[0]] + w[1..];
    }
  }

  lemma MarkCapitalsLowerStep(c: char, w: string, t: string, prevIsWord: bool)
    requires IsLower(c)
    requires MarkCapitals(w + t, true) == w + MarkCapitals(t, true)
    ensures MarkCapitals([c] + w + t, prevIsWord) == [c] + w + MarkCapitals(t, true)
  {
    MarkCapitalsCons(c, w + t, prevIsWord);
    assert [c] + w + t == [c] + (w + t);
    assert [c] + (w + MarkCapitals(t, true)) == [c] + w + MarkCapitals(t, true);
  }

  lemma CapitalizedWordsCons(r: string, rest: seq<string>)
    ensures CapitalizedWords([r] + rest) == Capitalize(r) + CapitalizedWords(rest)
  {
    assert ([r] + rest)[0] == r && ([r] + rest)[1..] == rest;
  }

  lemma CamelJoinHead(w: string, rest: seq<string>)
    ensures CamelJoin([w] + rest) == w + CapitalizedWords(rest)
  {
    assert ([w] + rest)[0] == w && ([w] + rest)[1..] == rest;
  }

  lemma CamelJoinTwo(w: string, r: string, rest: seq<string>)
    ensures CamelJoin([w, r] + rest) == w + (Capitalize(r) + CapitalizedWords(rest))
  {
    assert [w, r] + rest == [w] + ([r] + rest);
    CamelJoinHead(w, [r] + rest);
    CapitalizedWordsCons(r, rest);
  }

  lemma CapitalizeThenWords(r: string, rest: seq<string>)
    requires r != []
    ensures Capitalize(r) + CapitalizedWords(rest) == [UpperChar(r[0])] + CamelJoin([r[1..]] + rest)
  {
    var words := CapitalizedWords(rest);
    CamelJoinHead(r[1..], rest);
    assert ([UpperChar(r[0])] + r[1..]) + words == [UpperChar(r[0])] + (r[1..] + words);
  }

  lemma CamelJoinCons(w: string, r: string, rest: seq<string>)
    requires r != []
    ensures CamelJoin([w, r] + rest) == w + ([UpperChar(r[0])] + CamelJoin([r[1..]] + rest))
  {
    CamelJoinTwo(w, r, rest);
    CapitalizeThenWords(r, rest);
  }

  lemma HyphenateCamelJoinStep(w: string, r: string, rest: seq<string>, prevIsWord: bool)
    requires LowerWord(w) && (w == [] ==> prevIsWord) && r != [] && IsLower(r[0])
    requires LowerCase(MarkCapitals(CamelJoin([r[1..]] + rest), true)) == Join([r[1..]] + rest, '-')
    ensures LowerCase(MarkCapitals(CamelJoin([w, r] + rest), prevIsWord)) == Join([w, r] + rest, '-')
  {
    var u := UpperChar(r[0]);
    var y := CamelJoin([r[1..]] + rest);
    CamelJoinCons(w, r, rest);
    DashJoinCons(w, r, rest);
    MarkCapitalsLower(w, [u] + y, prevIsWord);
    MarkCapitalsCons(u, y, true);
    LowerCaseAppend(w, ['-', u] + MarkCapitals(y, true));
    LowerCaseAppend(['-', u], MarkCapitals(y, true));
    LowerCaseNoUpper(w);
    assert LowerCase(['-', u]) == ['-', r[0]];
  }

  lemma {:induction false} HyphenateCamelJoinFrom(ws: seq<string>, prevIsWord: bool)
    requires |ws| >= 1 && LowerWord(ws[0]) && (ws[0] == [] ==> prevIsWord)
    requires forall j :: 1 <= j < |ws| ==> ws[j] != [] && LowerWord(ws[j])
    ensures LowerCase(MarkCapitals(CamelJoin(ws), prevIsWord)) == Join(ws, '-')
    decreases |ws|
  {
    if |ws| == 1 {
      assert CamelJoin(ws) == ws[0] + [] == ws[0];
      MarkCapitalsNoUpper(ws[0], prevIsWord);
      LowerCaseNoUpper(ws[0]);
    } else {
      var w, r, rest := ws[0], ws[1], ws[2..];
      var ws' := [r[1..]] + rest;
      assert ws'[1..] == rest && ws == [w, r] + rest;
      HyphenateCamelJoinFrom(ws', true);
      HyphenateCamelJoinStep(w, r, rest, prevIsWord);
    }
  }

  /** `hyphenate` splits a camelCase run of lower-case words back into `-`-joined words. */
  lemma HyphenateCamelJoin(ws: seq<string>)
    requires forall j :: 0 <= j < |ws| ==> ws[j] != [] && LowerWord(ws[j])
    ensures Hyphenate(CamelJoin(ws)) == Join(ws, '-')
  {
    if ws != [] {
      HyphenateCamelJoinFrom(ws, false);
    }
  }

  /** The documented example of `hyphenate`. */
  lemma HyphenateDashed()
    ensures Join(["a", "baa", "caa", "daa"], '-') == "a-baa-caa-daa"
  {
    DashJoinLiteral4("a", "baa", "caa", "daa");
  }

  lemma HyphenateCamel()
    ensures CamelJoin(["a", "baa", "caa", "daa"]) == "aBaaCaaDaa"
  {
    CamelJoinLiteral4("a", "baa", "caa", "daa");
    assert Capitalize("baa") == "Baa" && Capitalize("caa") == "Caa" && Capitalize("daa") == "Daa";
  }

  /** The documented example of `hyphenate`. */
  lemma HyphenateDocumentedExample()
    ensures Hyphenate("aBaaCaaDaa") == "a-baa-caa-daa"
  {
    HyphenateDashed();
    HyphenateCamel();
    HyphenateCamelJoin(["a", "baa", "caa", "daa"]);
  }

  lemma HyphenateNameExample()
    ensures Hyphenate("myElName") == "my-el-name"
  {
    NameDashed();
    NameCamel();
    HyphenateCamelJoin(["my", "el", "name"]);
  }
}
