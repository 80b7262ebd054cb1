/**
 * JavaScript values as the server sees them after `JSON.parse`, together with
 * the handful of language rules its code depends on: truthiness, `||`, `??`,
 * property reads, strict equality, `String(v)` and `Array.prototype.join`.
 */
module Json {
  import opened Text

  datatype Option<+T> = None | Some(value: T)

  /** A JavaScript value. Numbers are modelled as integers; `Obj` holds an
      object's own enumerable properties. */
  datatype Value =
    | Undefined
    | Null
    | Bool(b: bool)
    | Num(n: int)
    | Str(s: string)
    | Arr(items: seq<Value>)
    | Obj(fields: map<string, Value>)

  /** Every value except `undefined`, `null`, `false`, `0` and `''` is truthy. */
  predicate Truthy(v: Value) {
    match v
    case Undefined => false
    case Null => false
    case Bool(b) => b
    case Num(n) => n != 0
    case Str(s) => s != ""
    case Arr(_) => true
    case Obj(_) => true
  }

  predicate IsNullish(v: Value) {
    v.Undefined? || v.Null?
  }

  /** `a || b`: the left operand when it is truthy, the right one otherwise. */
  function Or(a: Value, b: Value): Value {
    if Truthy(a) then a else b
  }

  /** `a ?? b`: the left operand unless it is `null` or `undefined`. */
  function Coalesce(a: Value, b: Value): Value {
    if IsNullish(a) then b else a
  }

  /** `v[key]` for one of the record keys the server reads (none of them is a
      property that strings, arrays or the object prototype carry). Reading a
      property of `null` or `undefined` throws in JavaScript; callers only
      read properties of objects or of values that are never nullish. */
  function Get(v: Value, key: string): Value {
    if v.Obj? && key in v.fields then v.fields[key] else Undefined
  }

  /** `a === b`: primitives compare by value; two objects or arrays obtained
      from separate parses are never the same reference. */
  predicate StrictEquals(a: Value, b: Value) {
    a == b && !a.Arr? && !a.Obj?
  }

  /** Whether `String(v)` returns rather than throws. A parsed value cannot
      make a `toString` property callable, and `valueOf` of a plain object
      gives back the object itself, so `String` throws a `TypeError` for an
      object holding its own `toString` key. An array converts through
      `join`, which converts every element that is not nullish, so it throws
      when one of those does. */
  predicate Stringable(v: Value)
    decreases v
  {
    match v
    case Obj(fields) => "toString" !in fields
    case Arr(items) => forall i :: 0 <= i < |items| ==> Stringable(items[i])
    case _ => true
  }

  /** `String(v)`, where it returns: a string is itself, and every other
      object is written `[object Object]`. */
  function ToStr(v: Value): (r: string)
    requires Stringable(v)
    ensures v.Str? ==> r == v.s
    ensures v.Obj? ==> r == "[object Object]"
    decreases v
  {
    match v
    case Undefined => "undefined"
    case Null => "null"
    case Bool(b) => if b then "true" else "false"
    case Num(n) => DecimalString(n)
    case Str(s) => s
    case Arr(items) => JoinValues(items, ",")
    case Obj(_) => "[object Object]"
  }

  /** `items.join(sep)` of elements that convert: elements are converted
      with `String`, except that `null` and `undefined` become the empty
      string. */
  function JoinValues(items: seq<Value>, sep: string): string
    requires forall i :: 0 <= i < |items| ==> Stringable(items[i])
    decreases items
  {
    if |items| == 0 then ""
    else
      var head := if IsNullish(items[0]) then "" else ToStr(items[0]);
      if |items| == 1 then head else head + sep + JoinValues(items[1..], sep)
  }

  /** `hasText(value)` of server.js: a string that is not blank once trimmed. */
  predicate HasText(v: Value) {
    v.Str? && Trim(v.s) != ""
  }

  /** A value has text exactly when it is a string holding some character
      that is not white space. */
  lemma HasTextIff(v: Value)
    ensures HasText(v) <==> v.Str? && exists i :: 0 <= i < |v.s| && !IsWhite(v.s[i])
  {
    if v.Str? {
      TrimEmptyIff(v.s);
    }
  }
}
