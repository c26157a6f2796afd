/** Loosely typed dictionary values, as the pipeline passes metadata around in Python dicts. */
module Values {
  import opened Text

  datatype Value = Null | Bool(b: bool) | Int(i: int) | Str(s: String) | List(items: seq<Value>)

  type Dict = map<String, Value>

  /** Python truthiness: None, False, 0, "" and [] are falsy. */
  predicate Truthy(v: Value) {
    match v
    case Null => false
    case Bool(b) => b
    case Int(i) => i != 0
    case Str(s) => s != []
    case List(xs) => xs != []
  }

  /** `d.get(key, default)`. */
  function Get(d: Dict, key: String, default: Value): Value {
    if key in d then d[key] else default
  }

  /**
    `str(v)`, as an f-string renders a value. Strings inside a list are shown
    between single quotes, without Python's escaping of quotes and backslashes.
  */
  function Display(v: Value): String
    decreases v, 0
  {
    match v
    case Null => "None"
    case Bool(b) => if b then "True" else "False"
    case Int(i) => IntToString(i)
    case Str(s) => s
    case List(xs) => "[" + Join(", ", seq(|xs|, k requires 0 <= k < |xs| => Repr(xs[k]))) + "]"
  }

  /** `repr(v)`, as a list renders its items. */
  function Repr(v: Value): String
    decreases v, 1
  {
    if v.Str? then "'" + v.s + "'" else Display(v)
  }
}
