/** The JSON records the WordPress REST API returns, as the Python and JavaScript scripts see
    them after decoding, with Python's `dict.get`, `str()` and truthiness and JavaScript's
    `||`. */
module Json {
  import opened Text
  import opened Options

  datatype Value =
    | Null
    | Bool(b: bool)
    | Num(n: int)
    | Str(s: String)
    | List(items: seq<Value>)
    | Object(fields: map<String, Value>)

  /** `record.get(key, default)` on a decoded object. */
  function Get(record: map<String, Value>, key: String, default: Value): (r: Value)
    ensures key in record ==> r == record[key]
    ensures key !in record ==> r == default
  {
    if key in record then record[key] else default
  }

  /** Python truthiness: `None`, `False`, `0`, and empty strings, lists and dicts are false. */
  predicate PyTruthy(v: Value) {
    match v
    case Null => false
    case Bool(b) => b
    case Num(n) => n != 0
    case Str(s) => s != []
    case List(items) => items != []
    case Object(fields) => fields != map[]
  }

  /** Python `str(v)`: a string is itself; other values go through `repr`, which the caller
      supplies. */
  function PyStr(v: Value, repr: Value -> String): (r: String)
    ensures v.Str? ==> r == v.s
  {
    if v.Str? then v.s else repr(v)
  }

  /** JavaScript truthiness of a property read; `None` is `undefined`. Arrays and objects,
      even empty ones, are true. */
  predicate JsTruthy(v: Option<Value>) {
    match v
    case None => false
    case Some(Null) => false
    case Some(Bool(b)) => b
    case Some(Num(n)) => n != 0
    case Some(Str(s)) => s != []
    case Some(List(_)) => true
    case Some(Object(_)) => true
  }

  /** `a || b` in JavaScript. */
  function JsOr(a: Option<Value>, b: Value): (r: Value)
    ensures JsTruthy(a) ==> Some(r) == a
    ensures !JsTruthy(a) ==> r == b
  {
    if JsTruthy(a) then a.value else b
  }
}
