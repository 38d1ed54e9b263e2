/** The values a deck entry's fields hold once its JSON is parsed, and the
    JavaScript conversions the reader applies to them. */
module JsValues {
  import opened Text

  datatype Option<T> = None | Some(value: T)

  /** A field of a deck entry: absent (`undefined`), a string, or an array of
      strings (the shape the answer check accepts as alternatives). */
  datatype Value = Missing | Str(s: string) | Strs(items: seq<string>)

  /** JavaScript truthiness: `undefined` and `""` are falsy, every array is truthy. */
  predicate Truthy(v: Value) {
    match v
    case Missing => false
    case Str(s) => s != ""
    case Strs(_) => true
  }

  /** `v || fallback`: one of the two operands, truthy exactly when either
      operand is; `v` itself whenever `v` is truthy, and `fallback` otherwise. */
  function Or(v: Value, fallback: Value): (r: Value)
    ensures r == v || r == fallback
    ensures Truthy(r) <==> Truthy(v) || Truthy(fallback)
    ensures Truthy(v) ==> r == v
    ensures !Truthy(v) ==> r == fallback
  {
    if Truthy(v) then v else fallback
  }

  /** `String(v)`, which is also what `"..." + v` and a template literal
      `${v}` produce: `undefined` prints as "undefined", an array as its items
      joined by commas. */
  function ToText(v: Value): string {
    match v
    case Missing => "undefined"
    case Str(s) => s
    case Strs(items) => Join(items, ",")
  }

  /** How `Array.prototype.join` renders one element: as `String(v)`, except
      that `undefined` becomes the empty string. */
  function JoinElement(v: Value): string {
    if v.Missing? then "" else ToText(v)
  }
}
