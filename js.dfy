/**
 * The few JavaScript value semantics the client code leans on: truthiness, `||`, `??`,
 * optional-chained property reads, `String(v)` and `===`.
 */
module Js {
  import Numbers

  /** A JavaScript value; objects are plain records of their own properties. */
  datatype JsValue =
    | Undefined
    | Null
    | Bool(b: bool)
    | Num(n: int)
    | Str(s: string)
    | Obj(props: map<string, JsValue>)

  /** `!!v`. */
  predicate Truthy(v: JsValue) {
    match v
    case Undefined => false
    case Null => false
    case Bool(b) => b
    case Num(n) => n != 0
    case Str(s) => s != ""
    case Obj(_) => true
  }

  /** `v === undefined || v === null`. */
  predicate Nullish(v: JsValue) {
    v.Undefined? || v.Null?
  }

  /** `v?.[k]`: an own property of an object, otherwise `undefined`. */
  function Prop(v: JsValue, k: string): JsValue {
    if v.Obj? && k in v.props then v.props[k] else Undefined
  }

  /** `a || b`. */
  function Or(a: JsValue, b: JsValue): JsValue {
    if Truthy(a) then a else b
  }

  /** `a ?? b`. */
  function Coalesce(a: JsValue, b: JsValue): JsValue {
    if Nullish(a) then b else a
  }

  /** `String(v)`. */
  function ToStr(v: JsValue): string {
    match v
    case Undefined => "undefined"
    case Null => "null"
    case Bool(b) => if b then "true" else "false"
    case Num(n) => Numbers.IntToString(n)
    case Str(s) => s
    case Obj(_) => "[object Object]"
  }

  /**
   * `a === b`. Two object values are taken to be distinct objects: every object compared in
   * the client comes from a separate server response.
   */
  predicate StrictEquals(a: JsValue, b: JsValue) {
    !a.Obj? && !b.Obj? && a == b
  }
}
