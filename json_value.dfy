/**
 * A decoded JSON webhook body as Python sees it after `json.loads`: the
 * value shapes, Python's truth value, and the three lookups the WhatsApp
 * helpers use (`d.get(k)`, `v[k]`, `v[0]`) together with the exceptions
 * they raise.
 */
module PyJson {
  import opened Wrappers

  /**
   * JSON numbers are integers, kept exactly. A number's value reaches the
   * reply only as a numeric `wa_id`; elsewhere only its truth value is used.
   * Floats are not modelled.
   */
  datatype Json =
    | JNull
    | JBool(b: bool)
    | JNumber(n: int)
    | JString(s: string)
    | JArray(items: seq<Json>)
    | JObject(fields: map<string, Json>)

  /** The exceptions the lookups below can raise. */
  datatype PyError = KeyError | IndexError | TypeError | AttributeError

  /** Python's truth value: `None`, `False`, `0` and empty containers are falsy. */
  predicate Truthy(v: Json) {
    match v
    case JNull => false
    case JBool(b) => b
    case JNumber(n) => n != 0
    case JString(s) => s != []
    case JArray(items) => items != []
    case JObject(fields) => fields != map[]
  }

  /** The truth value of what `.get` returned; a missing key gives the falsy `None`. */
  predicate TruthyOpt(o: Option<Json>) {
    o.Some? && Truthy(o.value)
  }

  /** `d.get(key)` on a dict. */
  function DictGet(d: map<string, Json>, key: string): Option<Json> {
    if key in d then Some(d[key]) else None
  }

  /** `v.get(key)`: only dicts have `.get`. */
  function Get(v: Json, key: string): Result<Option<Json>, PyError> {
    if v.JObject? then Ok(DictGet(v.fields, key)) else Err(AttributeError)
  }

  /** `v[key]` with a string key: a dict looks it up; lists and strings want integer indices. */
  function Item(v: Json, key: string): Result<Json, PyError> {
    match v
    case JObject(fields) => if key in fields then Ok(fields[key]) else Err(KeyError)
    case _ => Err(TypeError)
  }

  /** `v[0]`: a list's first element, a string's first character, a `KeyError` on a dict. */
  function First(v: Json): Result<Json, PyError> {
    match v
    case JArray(items) => if items == [] then Err(IndexError) else Ok(items[0])
    case JString(s) => if s == [] then Err(IndexError) else Ok(JString([s[0]]))
    case JObject(_) => Err(KeyError)
    case _ => Err(TypeError)
  }

  /** `v` is a list whose first element, if any, is a dict. */
  predicate DictList(v: Json) {
    v.JArray? && (v.items != [] ==> v.items[0].JObject?)
  }

  /** `v` is a dict that holds `key`. */
  predicate HasField(v: Json, key: string) {
    v.JObject? && key in v.fields
  }

  /** `v` is a non-empty list whose first element is a dict. */
  predicate StartsWithDict(v: Json) {
    v.JArray? && v.items != [] && v.items[0].JObject?
  }
}
