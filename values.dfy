/**
 * Dynamic values as they flow through Flask sessions, JSON payloads and SQL
 * parameters, with Python's notion of truthiness and of `==`.
 */
module Values {

  /** An unsigned 8-bit byte. */
  type Byte = x: int | 0 <= x < 256

  datatype Value =
    | VNone
    | VBool(b: bool)
    | VInt(i: int)
    | VStr(s: string)
    | VBytes(bytes: seq<Byte>)

  /** Python's `bool(v)`. */
  predicate Truthy(v: Value) {
    match v
    case VNone => false
    case VBool(b) => b
    case VInt(i) => i != 0
    case VStr(s) => s != ""
    case VBytes(bs) => bs != []
  }

  /** Python's `a == b`; `True == 1` and `False == 0` hold across bool and int. */
  predicate PyEq(a: Value, b: Value) {
    match (a, b)
    case (VBool(x), VInt(i)) => (if x then 1 else 0) == i
    case (VInt(i), VBool(x)) => (if x then 1 else 0) == i
    case _ => a == b
  }

  /** The string inside a value, or the empty string for a value of another kind. */
  function StrOr(v: Value): string {
    if v.VStr? then v.s else ""
  }
}
