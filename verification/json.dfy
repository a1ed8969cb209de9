/** JSON documents as the backend sees them after `json.loads`: objects are
    Python dicts (a later duplicate key replaces an earlier one, so a `map`),
    arrays are lists. */
module JsonValue {

  datatype Json =
    | JNull
    | JBool(b: bool)
    | JNumber(n: int)
    | JString(s: string)
    | JArray(items: seq<Json>)
    | JObject(fields: map<string, Json>)
}
