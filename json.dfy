/**
 * The Python values `json.loads` hands to the chat handler, reduced to what the
 * handler inspects, with Python's and JavaScript's notions of truth on them.
 */
module Json {
  import opened Wrappers
  import Text

  datatype Value =
    | Str(s: string)
    | Null
    | List(items: seq<Value>)
    | Dict(fields: map<string, Value>)
      /** A number or boolean: only its Python type name and its truth value matter here. */
    | Other(typeName: string, truthy: bool)

  /** A JSON object as a Python dict, and a ledger entry. */
  type Object = map<string, Value>

  /** Python truthiness, as used by `if v:` and `v or default`. */
  predicate PyTruthy(v: Value) {
    match v
    case Str(s) => s != ""
    case Null => false
    case List(items) => items != []
    case Dict(fields) => fields != map[]
    case Other(_, t) => t
  }

  /** JavaScript truthiness: arrays and objects are truthy even when empty. */
  predicate JsTruthy(v: Value) {
    match v
    case Str(s) => s != ""
    case Null => false
    case List(_) => true
    case Dict(_) => true
    case Other(_, t) => t
  }

  /** Python `a or b`. */
  function PyOr(a: Value, b: Value): Value {
    if PyTruthy(a) then a else b
  }

  /** JavaScript `a || b`. */
  function JsOr(a: Value, b: Value): Value {
    if JsTruthy(a) then a else b
  }

  /** Python `d.get(key, default)`. */
  function Get(d: Object, key: string, default: Value): Value {
    if key in d then d[key] else default
  }

  /** Python `type(v).__name__`. */
  function PyTypeName(v: Value): string {
    match v
    case Str(_) => "str"
    case Null => "NoneType"
    case List(_) => "list"
    case Dict(_) => "dict"
    case Other(t, _) => t
  }

  /**
   * Python `needle in v` for a str needle: a substring test on a str, element
   * membership on a list, key membership on a dict; any other operand raises
   * TypeError, given here as None.
   */
  function PyIn(needle: string, v: Value): Option<bool> {
    match v
    case Str(s) => Some(Text.Contains(s, needle))
    case List(items) => Some(Str(needle) in items)
    case Dict(fields) => Some(needle in fields)
    case _ => None
  }
}
