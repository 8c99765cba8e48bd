/** JavaScript runtime values that the core relies on: optional values
    (`undefined`/`null`), settled promises, the `number` results of
    `Number.parseInt`/`Math.max`, and string truthiness. */
module Js {

  /** A value that may be `null` or `undefined`. */
  datatype Option<+T> = None | Some(value: T)

  /** How a promise settled: fulfilled with a value or rejected with a reason. */
  datatype Settled<+T> = Fulfilled(value: T) | Rejected(reason: string)

  /** A JavaScript `number` as far as the core uses it: an integer or NaN. */
  datatype JsNumber = Num(n: int) | NaN

  /** `Math.max(a, b)`: NaN as soon as either argument is NaN. */
  function MathMax(a: JsNumber, b: JsNumber): (r: JsNumber)
    ensures r.NaN? <==> a.NaN? || b.NaN?
    ensures r.Num? ==> r.n >= a.n && r.n >= b.n && (r.n == a.n || r.n == b.n)
  {
    if a.NaN? || b.NaN? then NaN
    else if a.n >= b.n then a else b
  }

  /** `i < x` for an integer loop counter `i`: every comparison with NaN is false. */
  predicate LessThan(i: int, x: JsNumber)
  {
    x.Num? && i < x.n
  }

  /** Truthiness of a `string | undefined` (or `| null`): defined and not `""`. */
  predicate Truthy(s: Option<string>)
  {
    s.Some? && s.value != ""
  }
}
