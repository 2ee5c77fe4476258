/** A JSON value as JavaScript sees it once parsed, with JavaScript's
    truthiness. A missing property (`undefined`) is the absence of a key or
    `None`, never a value of this type. */
module JsValues {

  datatype JsValue =
    | JsNull
    | JsBool(b: bool)
    | JsNumber(n: real)
    | JsString(s: string)
    | JsArray(items: seq<JsValue>)
    | JsObject(properties: map<string, JsValue>)

  /** `null`, `false`, `0` and `""` are falsy; arrays and objects, even
      empty, are truthy. */
  predicate JsTruthy(v: JsValue) {
    match v
    case JsNull => false
    case JsBool(b) => b
    case JsNumber(n) => n != 0.0
    case JsString(s) => s != ""
    case JsArray(_) => true
    case JsObject(_) => true
  }
}
