/**
 * JSON-like values as the Python code sees them after decoding: gateway
 * responses, submission dicts, database rows and request bodies. Python's
 * `None` is `JNull`; a missing key read with `dict.get` is also `JNull`.
 * Decoded JSON is a tree (no object is shared or cyclic), so structural
 * recursion replaces the identity checks the Python code keeps.
 */
module Json {
  import opened PyText

  datatype Json =
    | JNull
    | JBool(b: bool)
    | JInt(i: int)
    | JFloat(f: real)
    | JStr(s: string)
    | JArr(items: seq<Json>)
    | JObj(fields: map<string, Json>)

  /** A Python dict, the shape of a row or a submission. */
  type Dict = map<string, Json>

  /** `d.get(key)`: the value, or `None` when the key is missing. */
  function Get(d: Dict, key: string): (v: Json)
    ensures key !in d ==> v == JNull
    ensures key in d ==> v == d[key]
  {
    if key in d then d[key] else JNull
  }

  /** Python truthiness: `None`, `False`, zero, and empty strings, lists and
      dicts are falsy. */
  predicate Truthy(v: Json) {
    match v
    case JNull => false
    case JBool(b) => b
    case JInt(i) => i != 0
    case JFloat(f) => f != 0.0
    case JStr(s) => s != []
    case JArr(items) => items != []
    case JObj(fields) => fields != map[]
  }

  /** Python's `a or b`: `a` when it is truthy, else `b`. */
  function Or(a: Json, b: Json): (r: Json)
    ensures Truthy(a) ==> r == a
    ensures !Truthy(a) ==> r == b
  {
    if Truthy(a) then a else b
  }

  /** `int(r)` for a float: truncation toward zero. */
  function Trunc(r: real): (n: int)
    ensures r >= 0.0 ==> n as real <= r < n as real + 1.0
    ensures r < 0.0 ==> n as real - 1.0 < r <= n as real
  {
    if r >= 0.0 then r.Floor else -((-r).Floor)
  }

  /** `float(v)`; `None` stands for the `TypeError` or `ValueError` Python
      raises. */
  function PyFloat(v: Json): (r: Option<real>)
    ensures r.None? <==> v.JNull? || v.JArr? || v.JObj? || (v.JStr? && ParseFloat(v.s).None?)
    ensures v.JBool? ==> r == Some(if v.b then 1.0 else 0.0)
    ensures v.JInt? ==> r == Some(v.i as real)
    ensures v.JFloat? ==> r == Some(v.f)
    ensures v.JStr? ==> r == ParseFloat(v.s)
  {
    match v
    case JBool(b) => Some(if b then 1.0 else 0.0)
    case JInt(i) => Some(i as real)
    case JFloat(f) => Some(f)
    case JStr(s) => ParseFloat(s)
    case _ => None
  }

  /** `int(v)`; `None` stands for the `TypeError` or `ValueError` Python
      raises. */
  function PyInt(v: Json): (r: Option<int>)
    ensures r.None? <==> v.JNull? || v.JArr? || v.JObj? || (v.JStr? && ParseInt(v.s).None?)
    ensures v.JBool? ==> r == Some(if v.b then 1 else 0)
    ensures v.JInt? ==> r == Some(v.i)
    ensures v.JFloat? ==> r == Some(Trunc(v.f))
    ensures v.JStr? ==> r == ParseInt(v.s)
  {
    match v
    case JBool(b) => Some(if b then 1 else 0)
    case JInt(i) => Some(i)
    case JFloat(f) => Some(Trunc(f))
    case JStr(s) => ParseInt(s)
    case _ => None
  }

  /** `float(v)`, or `0.0` when Python would raise. */
  function AsFloat(v: Json): (r: real)
    ensures PyFloat(v).Some? ==> r == PyFloat(v).value
    ensures PyFloat(v).None? ==> r == 0.0
  {
    match PyFloat(v)
    case Some(x) => x
    case None => 0.0
  }

  /** `int(v)`, or `0` when Python would raise. */
  function AsInt(v: Json): (r: int)
    ensures PyInt(v).Some? ==> r == PyInt(v).value
    ensures PyInt(v).None? ==> r == 0
  {
    match PyInt(v)
    case Some(x) => x
    case None => 0
  }

  /** Whatever `int(v)` accepts, `float(v)` accepts too, and the integer is
      the float truncated toward zero. */
  lemma PyIntIsTruncatedFloat(v: Json)
    requires PyInt(v).Some?
    ensures PyFloat(v).Some? && PyInt(v).value == Trunc(PyFloat(v).value)
  {
    match v
    case JStr(s) =>
      ParseIntAgreesWithFloat(s);
      TruncOfInt(ParseInt(s).value);
    case JInt(i) =>
      TruncOfInt(i);
    case JBool(b) =>
      TruncOfInt(if b then 1 else 0);
    case JFloat(f) =>
  }

  lemma TruncOfInt(i: int)
    ensures Trunc(i as real) == i
  {
  }

  /** `str(v)` for scalars. Python's rendering of floats and containers is
      not reproduced here; callers that need it take it as a parameter. */
  function ScalarStr(v: Json): Option<string> {
    match v
    case JNull => Some("None")
    case JBool(b) => Some(if b then "True" else "False")
    case JInt(i) => Some(ShowInt(i))
    case JStr(s) => Some(s)
    case _ => None
  }
}
