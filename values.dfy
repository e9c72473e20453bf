/**
  The values the form library handles, as the JavaScript runtime shows them to it. Numbers are
  integers; an object is a map from property names to values.
 */
module Values {
  import opened Strings

  /** A JavaScript value. `Opaque` is a function or a symbol, carrying the text `String()` gives it. */
  datatype Value =
    | Undefined
    | Null
    | Bool(b: bool)
    | Num(n: int)
    | Str(s: string)
    | List(items: seq<Value>)
    | Compound(fields: map<string, Value>)
    | Opaque(text: string)

  /** An element of a keys list or a path segment: a string or a number. */
  type Key = v: Value | v.Str? || v.Num? witness Str("")

  /** A location inside a nested form value. */
  type Path = seq<Key>

  /** `v == null`: JavaScript's loose comparison with null holds for null and undefined. */
  predicate IsNullish(v: Value) {
    v.Undefined? || v.Null?
  }

  /** `!!v`: false, 0, the empty string, null and undefined are falsy; everything else is truthy. */
  predicate Truthy(v: Value) {
    match v
    case Undefined => false
    case Null => false
    case Bool(b) => b
    case Num(n) => n != 0
    case Str(s) => s != ""
    case _ => true
  }

  /** A form value: scalars, arrays and plain objects, with no function or symbol inside. */
  predicate IsFormValue(v: Value) {
    match v
    case Opaque(_) => false
    case List(items) => forall i :: 0 <= i < |items| ==> IsFormValue(items[i])
    case Compound(fields) => forall k :: k in fields ==> IsFormValue(fields[k])
    case _ => true
  }

  /** `String(k)` for a key. */
  function KeyString(k: Key): string {
    if k.Str? then k.s else IntToString(k.n)
  }

  /** `String(v)`: arrays join their elements with commas (null and undefined as empty text). */
  function ToJsString(v: Value): string {
    match v
    case Undefined => "undefined"
    case Null => "null"
    case Bool(b) => if b then "true" else "false"
    case Num(n) => IntToString(n)
    case Str(s) => s
    case List(items) =>
      Join(seq(|items|, i requires 0 <= i < |items| =>
        if IsNullish(items[i]) then "" else ToJsString(items[i])), ',')
    case Compound(_) => "[object Object]"
    case Opaque(text) => text
  }
}
