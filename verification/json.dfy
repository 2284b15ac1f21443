/** Values `JSON.parse` produces, and the JavaScript property-access,
    truthiness, `||` and `??` rules the handlers apply to them. */
module Json {
  import opened Wrappers

  /** A parsed JSON value. Member order of objects is not modelled; a
      repeated member keeps its last value, as in `JSON.parse`. */
  datatype Json =
    | JNull
    | JBool(b: bool)
    | JNum(n: real)
    | JStr(str: string)
    | JArr(items: seq<Json>)
    | JObj(fields: map<string, Json>)

  /** `v.key` on a value that is not null or undefined: `undefined` (None)
      unless `v` is an object holding `key`. */
  function Get(v: Json, key: string): (r: Option<Json>)
    ensures r.Some? <==> v.JObj? && key in v.fields
  {
    if v.JObj? && key in v.fields then Some(v.fields[key]) else None
  }

  /** `v?.key`: undefined and null short-circuit to undefined. */
  function GetOpt(v: Option<Json>, key: string): (r: Option<Json>)
    ensures r.Some? ==> v.Some? && v.value.JObj?
  {
    if v.Some? then Get(v.value, key) else None
  }

  /** The value is null or undefined. */
  predicate Nullish(v: Option<Json>) {
    v.None? || v.value.JNull?
  }

  /** JavaScript truthiness of a possibly undefined value. */
  predicate Truthy(v: Option<Json>) {
    match v
    case None => false
    case Some(JNull) => false
    case Some(JBool(b)) => b
    case Some(JNum(x)) => x != 0.0
    case Some(JStr(s)) => s != ""
    case Some(JArr(_)) => true
    case Some(JObj(_)) => true
  }

  /** `v || d`. */
  function Or(v: Option<Json>, d: Json): (r: Json)
    ensures Truthy(v) ==> r == v.value
    ensures !Truthy(v) ==> r == d
  {
    if Truthy(v) then v.value else d
  }

  /** `v ?? d`. */
  function Coalesce(v: Option<Json>, d: Json): (r: Json)
    ensures !Nullish(v) ==> r == v.value
    ensures Nullish(v) ==> r == d
  {
    if Nullish(v) then d else v.value
  }

  /** A JSON number read from an object member, or 0 when it is absent,
      falsy or not a number (`x.key || 0` restricted to numbers). */
  function NumberOrZero(v: Option<Json>): real {
    if v.Some? && v.value.JNum? then v.value.n else 0.0
  }
}
