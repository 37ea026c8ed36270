/** A decoded JSON value as Python's json module hands it over (None, bool,
    number, str, list, dict), with the Python operations the geocoding code
    applies to it: truthiness, dict.get, the `or` operator and str(). */
module Json {

  datatype Json =
    | JNull
    | JBool(b: bool)
    | JInt(n: int)
    | JStr(s: string)
    | JList(items: seq<Json>)
    | JDict(fields: map<string, Json>)

  /** Python truthiness: None, False, 0, "", [] and {} are false. */
  predicate Truthy(v: Json) {
    match v
    case JNull => false
    case JBool(b) => b
    case JInt(n) => n != 0
    case JStr(s) => s != ""
    case JList(xs) => xs != []
    case JDict(m) => m != map[]
  }

  /** d.get(k, default) on a dict. */
  function GetOr(d: map<string, Json>, k: string, default: Json): (r: Json)
    ensures k in d ==> r == d[k]
    ensures k !in d ==> r == default
  {
    if k in d then d[k] else default
  }

  /** d.get(k): None when the key is absent. */
  function Get(d: map<string, Json>, k: string): Json {
    GetOr(d, k, JNull)
  }

  /** Python's `a or b`: a when a is truthy, otherwise b. */
  function Or(a: Json, b: Json): (r: Json)
    ensures Truthy(a) ==> r == a
    ensures !Truthy(a) ==> r == b
  {
    if Truthy(a) then a else b
  }

  /** Decimal digits of a natural number. */
  function NatDigits(n: nat): (r: string)
    ensures r != ""
    decreases n
  {
    if n < 10 then [('0' as int + n) as char]
    else NatDigits(n / 10) + [('0' as int + n % 10) as char]
  }

  /** Python's str(v); lists and dicts are rendered as a placeholder. */
  function Str(v: Json): (r: string)
    ensures Truthy(v) ==> r != ""
    ensures v.JStr? ==> r == v.s
  {
    match v
    case JNull => "None"
    case JBool(b) => if b then "True" else "False"
    case JInt(n) => if n < 0 then "-" + NatDigits(-n) else NatDigits(n)
    case JStr(s) => s
    case JList(_) => "[...]"
    case JDict(_) => "{...}"
  }
}
