/** JSON values and the shape of a JSON-read result, shared by the JSON
    readers. Parsing itself is not modelled: a parser is a function from text
    to a value or an error message. */
module JsonValue {
  import opened Outcomes

  datatype Json =
    | JNull
    | JBool(b: bool)
    | JNumber(n: int)
    | JString(s: string)
    | JArray(items: seq<Json>)
    | JObject(fields: map<string, Json>)

  /** What `JSON.parse`/`JSON5.parse` does with a text: a value, or the
      message of the error it throws. */
  datatype Parsed = Parsed(value: Json) | ParseError(message: string)

  type Parser = string -> Parsed

  /** `{object, file_found, error?}`: `jsonObject` is the `object` field,
      absent where it is `undefined`, and `error` holds the error's message. */
  datatype ReadJson = ReadJson(jsonObject: Option<Json>, fileFound: bool, error: Option<string>)

  /** An optional uri as a template literal prints it. */
  function ShowUri(fileUri: Option<string>): (s: string)
    ensures fileUri.Some? ==> s == fileUri.value
    ensures fileUri.None? ==> s == "undefined"
  {
    if fileUri.Some? then fileUri.value else "undefined"
  }

  /** `!fileUri`: absent or empty. */
  predicate MissingUri(fileUri: Option<string>)
  {
    fileUri.None? || fileUri.value == ""
  }
}
