/**
 * The loosely-typed values an alert payload carries: what Python's json
 * module yields (None, bool, int, float, str, list, dict), with floats taken
 * as exact reals.
 */
module PyValue {
  import opened Wrappers

  datatype Value =
    | Null
    | Bool(b: bool)
    | Int(i: int)
    | Float(f: real)
    | Str(s: string)
    | List(items: seq<Value>)
    | Dict(entries: map<string, Value>)

  /** A JSON object with string keys: a payload or a flattened row. */
  type Row = map<string, Value>

  /** dict.get(key): the entry, or None when the key is absent. */
  function Get(d: Row, key: string): (v: Value)
    ensures key !in d ==> v == Null
  {
    if key in d then d[key] else Null
  }

  /**
   * Python truthiness: None, False, 0, 0.0 and empty containers are false.
   * A number is true exactly when it does not equal zero.
   */
  predicate Truthy(v: Value)
    ensures v.Null? ==> !Truthy(v)
    ensures v.Bool? || v.Int? || v.Float? ==> (Truthy(v) <==> HashKey(v) != Some(NumKey(0.0)))
    ensures v.Str? ==> (Truthy(v) <==> |v.s| > 0)
    ensures v.List? ==> (Truthy(v) <==> |v.items| > 0)
    ensures v.Dict? ==> (Truthy(v) <==> |v.entries| > 0)
  {
    match v
    case Null => false
    case Bool(b) => b
    case Int(i) => i != 0
    case Float(f) => f != 0.0
    case Str(s) => s != []
    case List(items) => items != []
    case Dict(entries) => entries != map[]
  }

  /**
   * A dictionary key up to Python equality: True == 1 == 1.0 and
   * False == 0 == 0.0 share one hash bucket.
   */
  datatype Key = NoneKey | NumKey(x: real) | StrKey(s: string)

  /** The key a value files under in a dict or Counter; lists and dicts are unhashable. */
  function HashKey(v: Value): (k: Option<Key>)
    ensures k.None? <==> v.List? || v.Dict?
  {
    match v
    case Null => Some(NoneKey)
    case Bool(b) => Some(NumKey(if b then 1.0 else 0.0))
    case Int(i) => Some(NumKey(i as real))
    case Float(f) => Some(NumKey(f))
    case Str(s) => Some(StrKey(s))
    case List(_) => None
    case Dict(_) => None
  }
}
