/** The handful of JavaScript value shapes that reach the core through parsed
    JSON, with JavaScript truthiness and string conversion. */
module JsValues {
  import Strings

  /** `Num` covers integral numbers only; `Obj` stands for any object or array. */
  datatype JsValue = Undefined | Null | Bool(b: bool) | Num(n: int) | Str(s: string) | Obj

  /** JavaScript truthiness: `undefined`, `null`, `false`, `0` and `""` are falsy. */
  predicate Truthy(v: JsValue)
  {
    match v
    case Undefined => false
    case Null => false
    case Bool(b) => b
    case Num(n) => n != 0
    case Str(s) => s != ""
    case Obj => true
  }

  /** What `"" + v` produces (plain objects only for `Obj`). */
  function ToJsString(v: JsValue): string
  {
    match v
    case Undefined => "undefined"
    case Null => "null"
    case Bool(b) => if b then "true" else "false"
    case Num(n) => if n < 0 then "-" + Strings.NatToString(-n) else Strings.NatToString(n)
    case Str(s) => s
    case Obj => "[object Object]"
  }
}
