/**
 * The JavaScript values that can reach the package's entry point, as far as
 * the entry point and `typeOf` look at them.
 */
module JsValues {

  datatype JsValue =
    | Undefined
    | Null
    | Bool(b: bool)
    | Number(n: int)
    | Str(s: string)
    | Array(items: seq<JsValue>)
    | RegExp(source: string)
    | Function
    | Object(fields: map<string, JsValue>)

  /** JavaScript truthiness: `undefined`, `null`, `false`, `0` and `''` are falsy. */
  predicate Truthy(v: JsValue) {
    match v
    case Undefined => false
    case Null => false
    case Bool(b) => b
    case Number(n) => n != 0
    case Str(s) => s != ""
    case _ => true
  }

  /** Reading a property of a plain object; a missing property is `undefined`. */
  function Field(fields: map<string, JsValue>, key: string): JsValue {
    if key in fields then fields[key] else Undefined
  }
}
