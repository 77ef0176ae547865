/** `readJsonFromFileSync`, `readJsonFromFile` and their helpers
    (src/file-helpers/readJsonFromFile.ts). The adapter's `read` is a
    function returning the text, `undefined`, or the message it throws; the
    asynchronous reader awaits the same `read`. */
module FileHelpersReadJson {
  import opened Outcomes
  import opened JsonValue

  /** The adapter's `read`: text, `undefined`, or a thrown message. */
  type Reader = string -> Completion<Option<string>>

  function MissingFileUriReadJson(fileUri: Option<string>, defaultObject: Option<Json>): (r: ReadJson)
    ensures r.jsonObject == defaultObject && !r.fileFound
    ensures r.error == Some("Failed to read json from " + ShowUri(fileUri) + ". No file uri.")
  {
    ReadJson(defaultObject, false, Some("Failed to read json from " + ShowUri(fileUri) + ". No file uri."))
  }

  /** Classifies what was read: text that parses gives its value and no
      error; text that does not parse is still a found file, with the
      default and an error; no text is a missing file. */
  function ProcessJson(fileUri: string, json: Option<string>, defaultObject: Option<Json>, parse: Parser): (r: ReadJson)
    ensures r.fileFound <==> json.Some?
    ensures r.error.None? <==> json.Some? && parse(json.value).Parsed?
    ensures r.error.None? ==> r.jsonObject == Some(parse(json.value).value)
    ensures r.error.Some? ==> r.jsonObject == defaultObject
  {
    if json.Some? then
      match parse(json.value)
      case Parsed(v) => ReadJson(Some(v), true, None)
      case ParseError(_) =>
        ReadJson(defaultObject, true, Some("Failed to read json from " + fileUri + ". Could not parse JSON: " + json.value))
    else
      ReadJson(defaultObject, false, Some("Failed to read json from " + fileUri + ". Bad file uri."))
  }

  function ReadJsonFromFileSync(fileUri: Option<string>, defaultObject: Option<Json>, read: Reader, parse: Parser): (r: Completion<ReadJson>)
    ensures MissingUri(fileUri) ==> r == Returned(MissingFileUriReadJson(fileUri, defaultObject))
    ensures !MissingUri(fileUri) && read(fileUri.value).Threw? ==> r == Threw(read(fileUri.value).message)
    ensures !MissingUri(fileUri) && read(fileUri.value).Returned? ==>
              r == Returned(ProcessJson(fileUri.value, read(fileUri.value).value, defaultObject, parse))
  {
    if MissingUri(fileUri) then Returned(MissingFileUriReadJson(fileUri, defaultObject))
    else
      match read(fileUri.value)
      case Threw(message) => Threw(message)
      case Returned(json) => Returned(ProcessJson(fileUri.value, json, defaultObject, parse))
  }

  /** The asynchronous reader; the promise's outcome is modelled as its value. */
  function ReadJsonFromFile(fileUri: Option<string>, defaultObject: Option<Json>, read: Reader, parse: Parser): (r: Completion<ReadJson>)
    ensures MissingUri(fileUri) ==> r == Returned(MissingFileUriReadJson(fileUri, defaultObject))
  {
    if MissingUri(fileUri) then Returned(MissingFileUriReadJson(fileUri, defaultObject))
    else
      match read(fileUri.value)
      case Threw(message) => Threw(message)
      case Returned(json) => Returned(ProcessJson(fileUri.value, json, defaultObject, parse))
  }

  /** A missing or empty uri is answered without reading: any two readers
      give the same result, the default with `file_found` false. */
  lemma MissingUriReadsNothing(fileUri: Option<string>, defaultObject: Option<Json>, read1: Reader, read2: Reader, parse: Parser)
    requires MissingUri(fileUri)
    ensures ReadJsonFromFileSync(fileUri, defaultObject, read1, parse) == ReadJsonFromFileSync(fileUri, defaultObject, read2, parse)
    ensures ReadJsonFromFile(fileUri, defaultObject, read1, parse) == ReadJsonFromFile(fileUri, defaultObject, read2, parse)
    ensures var r := ReadJsonFromFileSync(fileUri, defaultObject, read1, parse);
            r.Returned? && r.value.jsonObject == defaultObject && !r.value.fileFound && r.value.error.Some?
  {
  }

  /** Text that parses is returned as the object, found, without error. */
  lemma ParsedText(fileUri: string, defaultObject: Option<Json>, read: Reader, parse: Parser, text: string)
    requires fileUri != "" && read(fileUri) == Returned(Some(text)) && parse(text).Parsed?
    ensures ReadJsonFromFileSync(Some(fileUri), defaultObject, read, parse) ==
            Returned(ReadJson(Some(parse(text).value), true, None))
  {
  }

  /** Text that fails to parse is a found file with the default object and
      an error quoting the text. */
  lemma UnparsableText(fileUri: string, defaultObject: Option<Json>, read: Reader, parse: Parser, text: string)
    requires fileUri != "" && read(fileUri) == Returned(Some(text)) && parse(text).ParseError?
    ensures ReadJsonFromFileSync(Some(fileUri), defaultObject, read, parse) ==
            Returned(ReadJson(defaultObject, true, Some("Failed to read json from " + fileUri + ". Could not parse JSON: " + text)))
  {
  }

  /** A read that yields `undefined` is a missing file: the default object
      and a "Bad file uri." error. */
  lemma UndefinedRead(fileUri: string, defaultObject: Option<Json>, read: Reader, parse: Parser)
    requires fileUri != "" && read(fileUri) == Returned(None)
    ensures ReadJsonFromFileSync(Some(fileUri), defaultObject, read, parse) ==
            Returned(ReadJson(defaultObject, false, Some("Failed to read json from " + fileUri + ". Bad file uri.")))
  {
  }

  /** The synchronous and asynchronous readers agree on every input. */
  lemma SyncAsyncAgree(fileUri: Option<string>, defaultObject: Option<Json>, read: Reader, parse: Parser)
    ensures ReadJsonFromFileSync(fileUri, defaultObject, read, parse) == ReadJsonFromFile(fileUri, defaultObject, read, parse)
  {
  }

  /** With a default object, a returned result always carries an object. */
  lemma DefaultMeansObject(fileUri: Option<string>, defaultObject: Json, read: Reader, parse: Parser)
    requires ReadJsonFromFileSync(fileUri, Some(defaultObject), read, parse).Returned?
    ensures ReadJsonFromFileSync(fileUri, Some(defaultObject), read, parse).value.jsonObject.Some?
  {
  }
}
