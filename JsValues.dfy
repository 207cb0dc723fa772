/**
 * Dynamically typed JavaScript values, for the places where the application
 * inspects data of unknown shape (legacy pros/cons, JSON-LD payloads,
 * translation trees). Numbers are integers: NaN, infinities and fractions
 * do not occur in the data these functions see.
 */
module JsValues {
  import opened Wrappers
  import opened Records
  import JsStrings

  datatype Value =
    | Undefined
    | Null
    | Bool(b: bool)
    | Num(n: int)
    | Str(s: string)
    | Array(items: seq<Value>)
    | Object(fields: Record<Value>)

  /** JavaScript truthiness: `undefined`, `null`, `false`, `0` and `''` are falsy. */
  predicate Truthy(v: Value) {
    match v
    case Undefined => false
    case Null => false
    case Bool(b) => b
    case Num(n) => n != 0
    case Str(s) => s != ""
    case Array(_) => true
    case Object(_) => true
  }

  /** `a || b`: the first operand when it is truthy, else the second. */
  function Or(a: Value, b: Value): Value {
    if Truthy(a) then a else b
  }

  /** Property read `v[k]` on an object; `undefined` when the key is missing or `v` is not an object. */
  function Get(v: Value, k: string): Value {
    match v
    case Object(fields) => Lookup(fields, k).GetOr(Undefined)
    case _ => Undefined
  }

  /** `String(v)`: arrays join their elements with ',' (null and undefined elements as ''). */
  function ToStr(v: Value): string {
    match v
    case Undefined => "undefined"
    case Null => "null"
    case Bool(b) => if b then "true" else "false"
    case Num(n) => JsStrings.IntToString(n)
    case Str(s) => s
    case Array(items) =>
      JsStrings.Join(seq(|items|, i requires 0 <= i < |items| =>
        if items[i].Null? || items[i].Undefined? then "" else ToStr(items[i])), ",")
    case Object(_) => "[object Object]"
  }

  /**
   * `Number(v)` as far as its sign, as a relational comparison with a number
   * converts `v`: null is 0 and undefined NaN, a boolean is 1 or 0, and an
   * array or object is first turned into its string (`'[object Object]'` for
   * a plain object) and read as a numeric literal, like a string.
   */
  function NumberSign(v: Value): (r: Option<int>)
    ensures r.Some? ==> -1 <= r.value <= 1
  {
    match v
    case Undefined => None
    case Null => Some(0)
    case Bool(b) => Some(if b then 1 else 0)
    case Num(n) => Some(if n > 0 then 1 else if n < 0 then -1 else 0)
    case _ => JsStrings.StringNumberSign(ToStr(v))
  }

  /** `v > 0`. */
  predicate GreaterThanZero(v: Value) {
    NumberSign(v) == Some(1)
  }

  /** A number compares with 0 the same way when it is written as a string or wrapped in a one-element array. */
  lemma NumberSignThroughString(n: int)
    ensures NumberSign(Str(ToStr(Num(n)))) == NumberSign(Num(n))
    ensures NumberSign(Array([Num(n)])) == NumberSign(Num(n))
  {
    JsStrings.IntegerStringSign(n);
    var parts := seq(1, i requires 0 <= i < 1 => ToStr(Num(n)));
    assert parts == [ToStr(Num(n))];
    assert ToStr(Array([Num(n)])) == ToStr(Num(n));
  }

  /** A plain object reads as NaN, so it is neither above nor below 0. */
  lemma ObjectIsNaN(fields: Record<Value>)
    ensures NumberSign(Object(fields)) == None
  {
    var t := "[object Object]";
    assert t[0] == '[' && t[|t| - 1] == ']';
    JsStrings.NoLiteralStartIsNaN(t);
  }

  /**
   * `Object.entries(v)` for a value that is not null or undefined: an object's
   * own fields, the indexed elements of an array or the characters of a string;
   * a number or boolean has no entries.
   */
  function Entries(v: Value): (r: Record<Value>)
    requires !v.Null? && !v.Undefined?
    ensures v.Object? ==> r == v.fields
    ensures v.Array? ==> |r| == |v.items|
    ensures v.Str? ==> |r| == |v.s|
  {
    match v
    case Object(fields) => fields
    case Array(items) => IndexedItems(items)
    case Str(s) => IndexedChars(s)
    case _ => []
  }

  /** The entries of an array: each element keyed by its index written in decimal. */
  function IndexedItems(items: seq<Value>): (r: Record<Value>)
    ensures |r| == |items|
    ensures forall i :: 0 <= i < |items| ==> r[i] == (JsStrings.IntToString(i), items[i])
  {
    seq(|items|, i requires 0 <= i < |items| => (JsStrings.IntToString(i), items[i]))
  }

  /** The entries of a string: each character, as a one-character string, keyed by its index. */
  function IndexedChars(s: string): (r: Record<Value>)
    ensures |r| == |s|
    ensures forall i :: 0 <= i < |s| ==> r[i] == (JsStrings.IntToString(i), Str([s[i]]))
  {
    seq(|s|, i requires 0 <= i < |s| => (JsStrings.IntToString(i), Str([s[i]])))
  }
}
