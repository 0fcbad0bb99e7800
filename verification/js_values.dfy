/**
 * The JavaScript values that reach the client as request parameters and response bodies,
 * with the language's truthiness, string conversion and the library's notion of an
 * "empty" parameter value.
 */
module JsValues {
  import opened Strings

  /**
   * A JavaScript value. Numbers are integral; arrays hold strings; an object is its
   * own enumerable entries in `Object.entries` order.
   */
  datatype Value =
    | Undefined
    | Null
    | Bool(b: bool)
    | Int(i: int)
    | Str(s: string)
    | Arr(items: seq<string>)
    | Obj(entries: seq<(string, Value)>)

  /** JavaScript ToBoolean is false exactly for these values (NaN and -0 are not modelled). */
  predicate IsFalsy(v: Value)
  {
    v == Undefined || v == Null || v == Bool(false) || v == Int(0) || v == Str("")
  }

  /** `v instanceof Object`: arrays and objects, never a primitive. */
  predicate IsObject(v: Value)
  {
    v.Arr? || v.Obj?
  }

  /** `Object.keys(v).length` for an array or object. */
  function KeyCount(v: Value): nat
    requires IsObject(v)
  {
    if v.Arr? then |v.items| else |v.entries|
  }

  /** The characters matched by the regular-expression class `\s`: WhiteSpace and LineTerminator. */
  predicate IsJsWhitespace(c: char)
  {
    var n := c as int;
    n == 0x09 || n == 0x0A || n == 0x0B || n == 0x0C || n == 0x0D || n == 0x20
    || n == 0xA0 || n == 0x1680 || (0x2000 <= n <= 0x200A) || n == 0x2028 || n == 0x2029
    || n == 0x202F || n == 0x205F || n == 0x3000 || n == 0xFEFF
  }

  /** `/^\s+$/.test(s)`: one or more characters, all whitespace. */
  predicate WhitespaceOnly(s: string)
  {
    |s| >= 1 && forall i :: 0 <= i < |s| ==> IsJsWhitespace(s[i])
  }

  /**
   * `isEmptyValue`, written as the same four alternatives: falsy but neither `false`
   * nor `0`; a whitespace-only string; an object without keys; an array without elements.
   */
  predicate IsEmptyValue(v: Value)
    ensures v.Undefined? || v.Null? ==> IsEmptyValue(v)
    ensures v.Bool? || v.Int? ==> !IsEmptyValue(v)
    ensures v.Str? ==> (IsEmptyValue(v) <==> forall i :: 0 <= i < |v.s| ==> IsJsWhitespace(v.s[i]))
    ensures v.Arr? ==> (IsEmptyValue(v) <==> |v.items| == 0)
    ensures v.Obj? ==> (IsEmptyValue(v) <==> |v.entries| == 0)
  {
    || (IsFalsy(v) && v != Bool(false) && v != Int(0))
    || (v.Str? && WhitespaceOnly(v.s))
    || (IsObject(v) && KeyCount(v) == 0)
    || (v.Arr? && |v.items| == 0)
  }

  /** Whitespace-only strings are empty, `false` and `0` are not, an array is empty only without elements. */
  lemma IsEmptyValueExamples()
    ensures IsEmptyValue(Str(""))
    ensures IsEmptyValue(Str(" \t\n"))
    ensures !IsEmptyValue(Str(" x "))
    ensures !IsEmptyValue(Bool(false)) && !IsEmptyValue(Int(0))
    ensures IsEmptyValue(Arr([])) && !IsEmptyValue(Arr([""]))
  {
    assert IsJsWhitespace(" \t\n"[0]) && IsJsWhitespace(" \t\n"[1]) && IsJsWhitespace(" \t\n"[2]);
    assert !IsJsWhitespace(" x "[1]);
  }

  /**
   * JavaScript `String(v)`: the text a value becomes inside a template literal or when
   * passed to `encodeURIComponent`.
   */
  function ToString(v: Value): string
  {
    match v
    case Undefined => "undefined"
    case Null => "null"
    case Bool(b) => if b then "true" else "false"
    case Int(i) => IntToString(i)
    case Str(s) => s
    case Arr(items) => Join(items, ",")
    case Obj(_) => "[object Object]"
  }
}
