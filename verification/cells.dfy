/** Raw table cells and the two coercions the visual applies to them,
    `Number(v)` (ToNumber, section 7.1.4 of ECMA-262) and `String(v)`
    (ToString, section 7.1.17). The cells modelled are strings, numbers,
    booleans, `null` and `undefined`; Power BI's `Date` cells are not. */
module Cells {
  import JsNumber

  datatype Cell = Null | Undefined | Bool(b: bool) | Num(n: JsNumber.Number) | Text(s: string)

  /** `Number(c)`: null is 0, undefined is NaN, booleans are 1 and 0. */
  function ToNumber(c: Cell): (r: JsNumber.Number)
    ensures r.NaN? ==> c.Undefined? || c.Text? || (c.Num? && c.n.NaN?)
  {
    match c
    case Null => JsNumber.Finite(0, 0)
    case Undefined => JsNumber.NaN
    case Bool(b) => JsNumber.Finite(if b then 1 else 0, 0)
    case Num(n) => n
    case Text(s) => JsNumber.StringToNumber(s)
  }

  /** `String(c)`: only the empty string has the empty string form. */
  function ToJsString(c: Cell): (r: string)
    ensures r == [] <==> c == Text("")
  {
    match c
    case Null => "null"
    case Undefined => "undefined"
    case Bool(b) => if b then "true" else "false"
    case Num(n) => JsNumber.NumberToString(n)
    case Text(s) => s
  }

  /** `null`, `undefined` and the empty string: the values a rule treats
      as absent. Whitespace, 0 and false are present. */
  predicate IsMissing(c: Cell) {
    c.Null? || c.Undefined? || c == Text("")
  }
}
