/**
 * The JavaScript values the trace dashboard reads out of decoded records,
 * reduced to what its logic can distinguish: which field is missing, which
 * primitive it holds, and whether it is truthy.
 */
module JsValues {

  /** A decoded JSON value. `Undefined` is a field that is absent from the
      record; `Composite` stands for an object or an array, identified by an
      opaque tag (its content is never inspected by the core). Numbers are
      integers: the core only ever tests them for truthiness. */
  datatype Value =
    | Undefined
    | Null
    | Bool(b: bool)
    | Num(n: int)
    | Str(s: string)
    | Composite(tag: string)

  /** JavaScript truthiness: `undefined`, `null`, `false`, `0` and `""` are
      falsy; every other value, every object and array included, is truthy. */
  predicate Truthy(v: Value)
  {
    match v
    case Undefined => false
    case Null => false
    case Bool(b) => b
    case Num(n) => n != 0
    case Str(s) => s != ""
    case Composite(_) => true
  }

  /** `===` between two values taken from independently decoded records:
      primitives compare by value, while two objects or arrays are never
      the same object. */
  predicate StrictEquals(a: Value, b: Value)
  {
    a == b && !a.Composite?
  }
}
