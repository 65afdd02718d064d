/** The JSON shapes the meta tables store in `meta_value`. */
module Json {

  /** A scalar JSON member value. */
  datatype JVal = JInt(i: int) | JStr(s: string) | JNull

  /**
   * A stored meta value, as the `IsJson` validator and `json_decode($v, true)`
   * see it: text that is not JSON at all; valid JSON that decodes to a scalar
   * (a string, number, boolean or `null`, which PHP does not hand back as an
   * array); a JSON list, which decodes to an array without string keys; or a
   * JSON object.
   */
  datatype Json = Invalid(raw: string) | Scalar(raw: string) | List(raw: string) | Object(fields: map<string, JVal>)

  /** `json_decode($v, true)` gives a PHP array: a list or an object. */
  predicate DecodesToArray(v: Json) {
    v.List? || v.Object?
  }

  /** PHP `isset($a[k])`: the key is present and not `null`. */
  predicate IsSet(fields: map<string, JVal>, k: string) {
    k in fields && fields[k] != JNull
  }

  /** PHP `Arr::get($a, k, default)` read as an integer; members of another type read as `default`. */
  function IntOr(fields: map<string, JVal>, k: string, default: int): (n: int)
    ensures k !in fields ==> n == default
    ensures k in fields && fields[k].JInt? ==> n == fields[k].i
  {
    if k in fields && fields[k].JInt? then fields[k].i else default
  }

  /** PHP `Arr::get($a, k, default)` read as a string; members of another type read as `default`. */
  function StrOr(fields: map<string, JVal>, k: string, default: string): (s: string)
    ensures k !in fields ==> s == default
    ensures k in fields && fields[k].JStr? ==> s == fields[k].s
  {
    if k in fields && fields[k].JStr? then fields[k].s else default
  }

  /** PHP truthiness of the raw column value: `""` (not JSON) and `"0"` (a JSON scalar) are falsy. */
  predicate Falsy(v: Json) {
    v == Invalid("") || v == Scalar("0")
  }
}
