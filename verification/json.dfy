/** A decoded JSON value, as `JSON.parse` produces it and as the web code
    inspects it with `typeof`, `Array.isArray`, `in` and property reads. */
module Json {
  import opened Wrappers

  datatype Json =
    | JNull
    | JBool(b: bool)
    | JNum(n: real)
    | JStr(s: string)
    | JArr(items: seq<Json>)
    | JObj(fields: map<string, Json>)

  /** Property read `v.key` (also `v?.key`): only objects carry named
      members, so on every other value the read gives `undefined` (None). */
  function Get(v: Json, key: string): Option<Json> {
    if v.JObj? && key in v.fields then Some(v.fields[key]) else None
  }

  /** `key in v` for the non-index keys the code asks about. */
  predicate HasKey(v: Json, key: string) {
    v.JObj? && key in v.fields
  }

  /** JavaScript truthiness (`!!v`): `null`, `false`, `0` and `""` are falsy. */
  predicate Truthy(v: Json) {
    match v
    case JNull => false
    case JBool(b) => b
    case JNum(n) => n != 0.0
    case JStr(s) => |s| > 0
    case JArr(_) => true
    case JObj(_) => true
  }

  /** Truthiness of a value that may be `undefined` (None), which is falsy. */
  predicate TruthyOpt(v: Option<Json>) {
    v.Some? && Truthy(v.value)
  }

  /** `typeof v === "string"` for a possibly missing value. */
  predicate IsStr(v: Option<Json>) {
    v.Some? && v.value.JStr?
  }

  /** `typeof v === "number"`. */
  predicate IsNum(v: Option<Json>) {
    v.Some? && v.value.JNum?
  }

  /** `typeof v === "boolean"`. */
  predicate IsBool(v: Option<Json>) {
    v.Some? && v.value.JBool?
  }

  /** `Array.isArray(v)`. */
  predicate IsArr(v: Option<Json>) {
    v.Some? && v.value.JArr?
  }
}
