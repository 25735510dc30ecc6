/** The values `JSON.parse` can produce, and JavaScript truthiness on them. */
module JsonValue {
  import opened Wrappers

  /** A parsed JSON value. Numbers are kept as reals: JSON text cannot
      denote NaN, so a number is falsy exactly when it is zero. An object is a
      map because `JSON.parse` keeps the last of duplicated keys. */
  datatype Json =
    | JNull
    | JBool(b: bool)
    | JNum(n: real)
    | JStr(s: string)
    | JArr(elems: seq<Json>)
    | JObj(fields: map<string, Json>)

  /** JavaScript's ToBoolean on a parsed value. */
  predicate Truthy(v: Json) {
    match v
    case JNull => false
    case JBool(b) => b
    case JNum(n) => n != 0.0
    case JStr(s) => s != ""
    case JArr(_) => true
    case JObj(_) => true
  }

  /** The property read `v.key` on a parsed value other than `null` (reading a
      property of `null` throws): the field of an object, and `undefined`
      (None) for a missing field and for every primitive and array, none of
      which has a property of the names read here. */
  function Member(v: Json, key: string): (r: Option<Json>)
    requires !v.JNull?
    ensures r.Some? <==> v.JObj? && key in v.fields
    ensures r.Some? ==> r.value == v.fields[key]
  {
    if v.JObj? && key in v.fields then Some(v.fields[key]) else None
  }

  /** The truthiness of a property that may be `undefined`. */
  predicate TruthyMember(m: Option<Json>) {
    m.Some? && Truthy(m.value)
  }
}
