/** The few JavaScript value semantics the worker relies on: nullish values,
    truthiness, relational `<` with `undefined`, and `Array.prototype.includes`. */
module Js {

  /** A value that may be `null`/`undefined`/`NaN` (None) or present (Some). */
  datatype Option<+T> = None | Some(value: T)

  /** Truthiness of a string that may be nullish: `""`, `null` and `undefined` are falsy. */
  predicate StringTruthy(s: Option<string>)
  {
    match s
    case None => false
    case Some(v) => |v| > 0
  }

  /** Truthiness of a `parseInt` result: `NaN` (None) and `0` are falsy. */
  predicate NumberTruthy(n: Option<int>)
  {
    match n
    case None => false
    case Some(v) => v != 0
  }

  /** Relational `a < b` on numbers that may be `undefined`: `undefined` converts
      to `NaN`, and every comparison with `NaN` is false. */
  predicate Less(a: Option<int>, b: Option<int>)
  {
    match (a, b)
    case (Some(x), Some(y)) => x < y
    case _ => false
  }

  /** `xs.includes(v)` for a string array and a possibly-null argument; `null`
      is never an element of a string array. */
  predicate Includes(xs: seq<string>, v: Option<string>)
  {
    match v
    case None => false
    case Some(s) => exists i :: 0 <= i < |xs| && xs[i] == s
  }
}
