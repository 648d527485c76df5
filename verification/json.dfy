/** Parsed JSON values as the build code sees them after `JSON.parse`, with
    the JavaScript accessors it applies to them (`?.`, `??`, truthiness). */
module JsonValues {
  import opened Wrappers

  datatype Json =
    | JNull
    | JBool(b: bool)
    | JNum(n: real)
    | JStr(s: string)
    | JArr(items: seq<Json>)
    | JObj(fields: map<string, Json>)

  /** JavaScript truthiness of a JSON value: `null`, `false`, `0` and `""` are
      falsy, everything else (including empty arrays and objects) is truthy. */
  predicate Truthy(j: Json) {
    match j
    case JNull => false
    case JBool(b) => b
    case JNum(n) => n != 0.0
    case JStr(s) => s != ""
    case JArr(_) => true
    case JObj(_) => true
  }

  /** Truthiness of a possibly missing value (`undefined` is falsy). */
  predicate TruthyOpt(j: Option<Json>) {
    j.Some? && Truthy(j.value)
  }

  /** `obj?.[key]` on an object map. */
  function Field(obj: map<string, Json>, key: string): (r: Option<Json>)
    ensures r.Some? <==> key in obj
    ensures r.Some? ==> r.value == obj[key]
  {
    if key in obj then Some(obj[key]) else None
  }

  /** `v?.[key]` on an arbitrary value: only objects have fields. */
  function Prop(v: Option<Json>, key: string): (r: Option<Json>)
    ensures r.Some? ==> v.Some? && v.value.JObj? && key in v.value.fields
  {
    match v
    case Some(JObj(m)) => Field(m, key)
    case _ => None
  }

  /** `v?.[i]` on an arbitrary value: only arrays have elements. */
  function Elem(v: Option<Json>, i: nat): (r: Option<Json>)
    ensures r.Some? <==> v.Some? && v.value.JArr? && i < |v.value.items|
  {
    match v
    case Some(JArr(items)) => if i < |items| then Some(items[i]) else None
    case _ => None
  }

  /** `v ?? d`: the value unless it is `null` or missing. */
  function Coalesce(v: Option<Json>, d: Json): (r: Json)
    ensures v.Some? && !v.value.JNull? ==> r == v.value
    ensures v.None? || v.value.JNull? ==> r == d
  {
    match v
    case Some(JNull) => d
    case Some(x) => x
    case None => d
  }
}
