/** JSON values. Objects are mappings: the order in which keys were added is not part
    of the value. */
module Json {
  datatype Json =
    | JNull
    | JBool(flag: bool)
    | JInt(number: int)
    | JString(text: string)
    | JArray(items: seq<Json>)
    | JObject(fields: map<string, Json>)
}
