/**
  The parsed `metadata.json` of a backup, and the two Python idioms the
  driver applies to it: `metadata.get(key, default)` and the truth value
  of what it returns.
 */
module Manifest {

  /** A JSON value as `json.load` returns it. */
  datatype Json =
    | JNull
    | JBool(b: bool)
    | JNumber(n: real)
    | JString(s: string)
    | JArray(items: seq<Json>)
    | JObject(members: map<string, Json>)

  /** The top-level manifest object. */
  type Metadata = map<string, Json>

  /** Python's `bool(v)`: `None`, `False`, zero and empty containers are false. */
  predicate Truthy(v: Json)
  {
    match v
    case JNull => false
    case JBool(b) => b
    case JNumber(n) => n != 0.0
    case JString(s) => |s| > 0
    case JArray(items) => |items| > 0
    case JObject(members) => |members| > 0
  }

  /** Python's truth table for the values `json.load` produces: `null`,
      `false`, a zero number, the empty string, the empty array and the
      empty object are false, and everything else is true. */
  lemma TruthTable(v: Json)
    ensures v == JNull ==> !Truthy(v)
    ensures v.JBool? ==> (Truthy(v) <==> v.b)
    ensures v.JNumber? ==> (Truthy(v) <==> v.n != 0.0)
    ensures v.JString? ==> (Truthy(v) <==> v.s != [])
    ensures v.JArray? ==> (Truthy(v) <==> v.items != [])
    ensures v.JObject? ==> (Truthy(v) <==> v.members != map[])
  {
  }

  /** Python's `metadata.get(key, default)`. */
  function Get(m: Metadata, key: string, default: Json): (v: Json)
    ensures key in m ==> v == m[key]
    ensures key !in m ==> v == default
  {
    if key in m then m[key] else default
  }
}
