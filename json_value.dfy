/** The small part of a JSON document model that the collector's sidecar configuration
    (config.json) and the Luna payloads are read through: values, member lookup and the two
    scalar conversions the service uses. Parsing and stringifying JSON text is done by
    libraries outside this model; documents appear here already parsed. */
module JsonValue {

  datatype JValue =
    | JNull
    | JBool(b: bool)
    | JNumber(text: string)
    | JString(s: string)
    | JArray(items: seq<JValue>)
    | JObject(fields: map<string, JValue>)

  /** hasKey(k): only an object has members. */
  predicate HasKey(v: JValue, k: string)
  {
    v.JObject? && k in v.fields
  }

  /** v[k]: the member's value, or null when v is no object or lacks the member. */
  function Get(v: JValue, k: string): JValue
  {
    if HasKey(v, k) then v.fields[k] else JNull
  }

  /** asBool(): true only for the JSON literal true. */
  predicate AsBool(v: JValue)
  {
    v == JBool(true)
  }

  /** asString(): the text of a string, and the empty string for every other value. */
  function AsString(v: JValue): string
  {
    if v.JString? then v.s else ""
  }

  /** put(k, x): sets a member of an object; a value that is no object is left as it is. */
  function Put(v: JValue, k: string, x: JValue): JValue
  {
    if v.JObject? then JObject(v.fields[k := x]) else v
  }

  /** arraySize() and operator[] on a value that is no array: no elements. */
  function Items(v: JValue): seq<JValue>
  {
    if v.JArray? then v.items else []
  }

  /** asString() of each element, in order. */
  function AsStrings(vs: seq<JValue>): (r: seq<string>)
    ensures |r| == |vs|
    ensures forall i :: 0 <= i < |vs| ==> r[i] == AsString(vs[i])
  {
    if vs == [] then [] else AsStrings(vs[..|vs| - 1]) + [AsString(vs[|vs| - 1])]
  }
}
