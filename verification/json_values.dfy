/** The values `JSON.parse` can produce, and the three JavaScript property
    reads the reader route applies to one (`.sources`, `[0]`, `.images`),
    with JavaScript's truthiness. Parsing itself is not modelled: the reader
    takes it as a parameter. */
module JsonValues {
  import opened Wrappers

  /** A parsed JSON value. Numbers are kept as exact decimals; objects keep
      the last value given for a repeated key, as `JSON.parse` does. */
  datatype Json =
    | JNull
    | JBool(b: bool)
    | JNumber(n: real)
    | JString(s: string)
    | JArray(items: seq<Json>)
    | JObject(fields: map<string, Json>)

  /** JavaScript truthiness of a parsed value: `null`, `false`, `0` and `''`
      are falsy, every array and object is truthy. */
  predicate Truthy(v: Json) {
    match v
    case JNull => false
    case JBool(b) => b
    case JNumber(n) => n != 0.0
    case JString(s) => s != ""
    case JArray(_) => true
    case JObject(_) => true
  }

  /** Truthiness of a property read, where `None` is `undefined`. */
  predicate Present(v: Option<Json>) {
    v.Some? && Truthy(v.value)
  }

  /** `v.sources` or `v.images`: only a parsed object can hold such a
      property, and none of the prototypes of parsed values supplies one. */
  function Property(v: Json, name: string): (r: Option<Json>)
    ensures r.Some? <==> v.JObject? && name in v.fields
    ensures r.Some? ==> r.value == v.fields[name]
  {
    if v.JObject? && name in v.fields then Some(v.fields[name]) else None
  }

  /** `v[0]`: the first element of an array, the property `"0"` of an
      object, the first character of a non-empty string (only its
      truthiness matters here), `undefined` for everything else. */
  function First(v: Json): (r: Option<Json>)
    ensures v.JArray? ==> (r.Some? <==> |v.items| > 0)
    ensures v.JArray? && |v.items| > 0 ==> r == Some(v.items[0])
    ensures v.JObject? ==> (r.Some? <==> "0" in v.fields)
    ensures v.JObject? && "0" in v.fields ==> r == Some(v.fields["0"])
    ensures v.JString? && v.s != "" ==> Present(r)
    ensures v.JNull? || v.JBool? || v.JNumber? ==> r.None?
  {
    match v
    case JArray(items) => if |items| > 0 then Some(items[0]) else None
    case JObject(fields) => if "0" in fields then Some(fields["0"]) else None
    case JString(s) => if |s| > 0 then Some(JString(s[..1])) else None
    case _ => None
  }
}
