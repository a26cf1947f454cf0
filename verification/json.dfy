/** JSON values as `JSON.parse` produces them, with the JavaScript type tests
    the schema check applies to them. */
module Json {
  import opened Wrappers

  /** A parsed JSON value. Numbers are finite reals: JSON text cannot spell
      NaN, and a literal too large for a double (which `JSON.parse` reads
      as an infinity) is outside this model. An object keeps the last value
      given for a key. */
  datatype Json =
    | JNull
    | JBool(b: bool)
    | JNumber(n: real)
    | JString(s: string)
    | JArray(items: seq<Json>)
    | JObject(fields: map<string, Json>)

  /** What `JSON.parse` does with a text: a value, or a SyntaxError. */
  datatype ParseOutcome = Parsed(value: Json) | SyntaxError

  /** `typeof v === 'object' && v !== null`: true of arrays as well. */
  predicate IsObject(v: Json) {
    v.JObject? || v.JArray?
  }

  /** Property access `v.key`: only a plain object has named properties
      here; on anything else the property is `undefined`. */
  function Field(v: Json, key: string): (r: Option<Json>)
    ensures r.Some? <==> v.JObject? && key in v.fields
    ensures r.Some? ==> r.value == v.fields[key]
  {
    if v.JObject? && key in v.fields then Some(v.fields[key]) else None
  }

  /** `typeof v.key === 'string'`. */
  predicate HasString(v: Json, key: string) {
    var f := Field(v, key);
    f.Some? && f.value.JString?
  }

  /** `typeof v.key === 'number'`. */
  predicate HasNumber(v: Json, key: string) {
    var f := Field(v, key);
    f.Some? && f.value.JNumber?
  }

  /** `Array.isArray(v.key)`. */
  predicate HasArray(v: Json, key: string) {
    var f := Field(v, key);
    f.Some? && f.value.JArray?
  }

  /** `typeof v.key === 'object' && v.key !== null`. */
  predicate HasObject(v: Json, key: string) {
    var f := Field(v, key);
    f.Some? && IsObject(f.value)
  }
}
