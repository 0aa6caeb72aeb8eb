/** JSON values as the paste API handles them: request bodies, the stored
    record `{"encrypted": ...}` and the envelope inside it. `JSON.stringify` and
    `JSON.parse` stay abstract: a `Codec` is any pair of functions, and
    `Lawful` is what the handlers rely on. */
module Json {
  import opened Common

  /** A parsed JSON value. Numbers are modelled as integers. */
  datatype Json =
    | JNull
    | JBool(b: bool)
    | JNumber(n: int)
    | JString(s: string)
    | JArray(items: seq<Json>)
    | JObject(fields: map<string, Json>)

  /** JavaScript truthiness of a parsed JSON value (`!v` is its negation):
      `null`, `false`, `0` and `""` are falsy; arrays and objects never are. */
  predicate Truthy(v: Json)
  {
    match v
    case JNull => false
    case JBool(b) => b
    case JNumber(n) => n != 0
    case JString(s) => s != ""
    case JArray(_) => true
    case JObject(_) => true
  }

  /** Reading property `name`; `None` is `undefined`. Only objects have
      properties a JSON document can set. Reading from `null` throws in
      JavaScript; callers handle `JNull` before calling this. */
  function Member(v: Json, name: string): (r: Option<Json>)
    ensures r.Some? <==> v.JObject? && name in v.fields
    ensures r.Some? ==> r.value == v.fields[name]
  {
    if v.JObject? && name in v.fields then Some(v.fields[name]) else None
  }

  /** `JSON.stringify` and `JSON.parse`; `parse` yields `None` where it throws. */
  datatype Codec = Codec(stringify: Json -> string, parse: string -> Option<Json>)

  /** Parsing gives back what was serialized, and serialized text is never
      empty (it always starts with the first character of a JSON value). */
  ghost predicate Lawful(c: Codec)
  {
    forall v :: c.parse(c.stringify(v)) == Some(v) && c.stringify(v) != ""
  }
}
