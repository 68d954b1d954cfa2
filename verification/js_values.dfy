/** The few JavaScript values the component inspects, and the truthiness
    rule that `!x` and `x &&` apply to them. */
module JsValues {

  /** A JavaScript value as it can appear in a reply field (`isLocked`) or in
      `message?.status`. Numbers are integers; NaN is not represented. */
  datatype JsValue = Undefined | Null | Bool(b: bool) | Num(n: int) | Str(s: string)

  /** ToBoolean: the test behind `!v` and `v && ...`. */
  predicate Truthy(v: JsValue)
  {
    match v
    case Undefined => false
    case Null => false
    case Bool(b) => b
    case Num(n) => n != 0
    case Str(s) => s != ""
  }

  /** A string prop (`fileContent`, `fileNo`) is truthy exactly when it is not
      empty; every falsy prop value is represented by the empty string. */
  predicate Present(s: string)
  {
    s != ""
  }
}
