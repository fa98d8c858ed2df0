/**
 * JSON values as the Flask handlers receive them from `request.get_json()`,
 * and the two Python operations the handlers apply to them: `dict.get`
 * and truthiness (`not x`).
 */
module Json {

  /** A decoded JSON value. JSON numbers are modelled as integers only. */
  datatype Value =
    | Null
    | Bool(b: bool)
    | Number(n: int)
    | Str(s: string)
    | Array(items: seq<Value>)
    | Object(fields: map<string, Value>)

  /** `obj.get(key)`: a missing key and a JSON `null` both read as `None`. */
  function Get(obj: map<string, Value>, key: string): (v: Value)
    ensures key !in obj ==> v == Null
    ensures key in obj ==> v == obj[key]
  {
    if key in obj then obj[key] else Null
  }

  /** Python truthiness: `None`, `False`, `0`, `""`, `[]` and `{}` are false. */
  predicate Truthy(v: Value)
  {
    match v
    case Null => false
    case Bool(b) => b
    case Number(n) => n != 0
    case Str(s) => s != ""
    case Array(items) => items != []
    case Object(fields) => fields != map[]
  }
}
