/** JSON values as the route handlers and the client stores see them, with the
    JavaScript notion of truthiness that the handlers' `!field` checks use, and
    the shape of an HTTP reply. */
module JsValues {

  datatype Option<+T> = None | Some(value: T)

  /** A JSON value, plus `undefined` for a key that a request body does not carry.
      Numbers are modelled as integers. */
  datatype JsVal =
    | JUndefined
    | JNull
    | JBool(b: bool)
    | JNum(n: int)
    | JStr(s: string)
    | JArr(items: seq<JsVal>)
    | JObj(fields: map<string, JsVal>)

  /** A parsed JSON request body: an object from keys to values. */
  type Body = map<string, JsVal>

  /** Destructuring `const { k } = body`: a key the body lacks reads as `undefined`. */
  function Get(body: Body, key: string): (v: JsVal)
    ensures key !in body ==> v == JUndefined
    ensures key in body ==> v == body[key]
  {
    if key in body then body[key] else JUndefined
  }

  /** The text of a string field, and `""` for any other value. */
  function StrField(body: Body, key: string): (r: string)
    ensures Get(body, key).JStr? ==> r == Get(body, key).s
  {
    var v := Get(body, key);
    if v.JStr? then v.s else ""
  }

  /** JavaScript's falsy values: `undefined`, `null`, `false`, `0` and `""`. */
  predicate Falsy(v: JsVal)
  {
    match v
    case JUndefined => true
    case JNull => true
    case JBool(b) => !b
    case JNum(n) => n == 0
    case JStr(s) => s == ""
    case JArr(_) => false
    case JObj(_) => false
  }

  /** `typeof v === "string"`. */
  predicate IsString(v: JsVal)
  {
    v.JStr?
  }

  /** A value written to a nullable text column: `undefined` and `null` store
      NULL, a string stores itself, anything else the store rejects. */
  function NullableText(v: JsVal): (r: Option<Option<string>>)
    ensures r == None <==> !(v.JUndefined? || v.JNull? || v.JStr?)
    ensures v.JStr? ==> r == Some(Some(v.s))
    ensures v.JUndefined? || v.JNull? ==> r == Some(None)
  {
    match v
    case JUndefined => Some(None)
    case JNull => Some(None)
    case JStr(s) => Some(Some(s))
    case _ => None
  }

  /** The reply a route handler sends: a JSON body with a status code, or an
      error with its message. */
  datatype Reply<+T> =
    | Json(code: nat, body: T)
    | Error(code: nat, message: string)
  {
    function Code(): nat
    {
      match this
      case Json(c, _) => c
      case Error(c, _) => c
    }
  }
}
