/** Parsed JSON documents. */
module Json {
  datatype Json =
    | JNull
    | JBool(flag: bool)
    | JInt(number: int)
    | JReal(digits: string)          // a number with a fraction or an exponent, as written
    | JText(text: string)
    | JList(items: seq<Json>)
    | JObject(fields: map<string, Json>)

  type JsonObject = map<string, Json>

  // `value.get(name)`, with JSON null and a missing field alike.
  function Get(o: JsonObject, name: string): Json {
    if name in o then o[name] else JNull
  }
}
