/**
 * The dynamically typed values that flow through the helpers of
 * src/shared/util.js, restricted to what the helpers can tell apart:
 * `undefined`, `null`, booleans, integral numbers, strings, arrays,
 * plain records and `Date` instants (milliseconds since the epoch).
 */
module JsValues {

  datatype Value =
    | Undef
    | Null
    | Bool(b: bool)
    | Int(n: int)
    | Str(s: string)
    | Arr(elems: seq<Value>)
    | Obj(props: map<string, Value>)
    | Date(time: int)

  /** `isObject`: `typeof v === 'object'` and not `null`. */
  predicate IsObject(v: Value) {
    v.Arr? || v.Obj? || v.Date?
  }

  /** `isUndef`: `undefined` or `null`. */
  predicate IsUndef(v: Value) {
    v.Undef? || v.Null?
  }

  /** `isDef`: neither `undefined` nor `null`. */
  predicate IsDef(v: Value) {
    !v.Undef? && !v.Null?
  }

  /**
   * `isDef` and `isUndef` split the values in two; every object is
   * defined, and `null`, although its `typeof` is `'object'`, is no object.
   */
  lemma ValueKinds(v: Value)
    ensures IsDef(v) <==> !IsUndef(v)
    ensures IsObject(v) ==> IsDef(v) && Truthy(v)
    ensures IsUndef(v) ==> !IsObject(v) && !Truthy(v)
  {
  }

  /** JavaScript truthiness; every object is truthy. */
  predicate Truthy(v: Value) {
    match v
    case Undef => false
    case Null => false
    case Bool(b) => b
    case Int(n) => n != 0
    case Str(s) => s != ""
    case _ => true
  }

  function Digit(d: nat): (c: char)
    requires d < 10
    ensures '0' <= c <= '9'
  {
    ('0' as int + d) as char
  }

  /** Decimal rendering of a natural number, without leading zeros. */
  function NatToString(n: nat): (r: string)
    ensures |r| >= 1
    ensures forall i :: 0 <= i < |r| ==> '0' <= r[i] <= '9'
    ensures n >= 10 ==> |r| >= 2
  {
    if n < 10 then [Digit(n)] else NatToString(n / 10) + [Digit(n % 10)]
  }

  /**
   * Decimal rendering of an integer, which is `String(n)` for a safe integer
   * below 10^21 in magnitude; larger numbers are not modelled faithfully.
   */
  function IntToString(n: int): (r: string)
    ensures |r| >= 1
    ensures (r[0] == '-') <==> n < 0
  {
    if n < 0 then "-" + NatToString(-n) else NatToString(n)
  }

  lemma {:induction false} NatToStringInjective(a: nat, b: nat)
    requires NatToString(a) == NatToString(b)
    ensures a == b
  {
    if a >= 10 && b >= 10 {
      var sa, sb := NatToString(a), NatToString(b);
      assert sa[|sa| - 1] == Digit(a % 10) && sb[|sb| - 1] == Digit(b % 10);
      assert sa[..|sa| - 1] == NatToString(a / 10);
      assert sb[..|sb| - 1] == NatToString(b / 10);
      NatToStringInjective(a / 10, b / 10);
    } else if a < 10 && b < 10 {
      assert NatToString(a)[0] == Digit(a);
    }
  }

  /** Distinct integers have distinct decimal renderings. */
  lemma IntToStringInjective(a: int, b: int)
    requires IntToString(a) == IntToString(b)
    ensures a == b
  {
    if a < 0 {
      assert IntToString(a)[1..] == NatToString(-a);
      assert IntToString(b)[1..] == NatToString(-b);
      NatToStringInjective(-a, -b);
    } else {
      NatToStringInjective(a, b);
    }
  }

  /** `String(v)` for a value that is not an object. */
  function StringOf(v: Value): string
    requires !IsObject(v)
  {
    match v
    case Undef => "undefined"
    case Null => "null"
    case Bool(b) => if b then "true" else "false"
    case Int(n) => IntToString(n)
    case Str(s) => s
  }

  /** The own enumerable keys of a non-array object: a record's fields; a `Date` has none. */
  function OwnProps(v: Value): map<string, Value> {
    if v.Obj? then v.props else map[]
  }
}
