/** `readJsonFile` and its helpers
    (src/commands/file/read-json-file/readJsonFile.ts). `readFileSync` is a
    function giving the text or the message it throws; `JSON.parse` and
    `JSON5.parse` are the `strict` and `relaxed` parsers. */
module ReadJsonFile {
  import opened Outcomes
  import opened JsonValue
  import FileHelpersReadJson

  /** `readFileSync(uri, 'utf-8')`: the text, or the thrown message. */
  type FileReader = string -> Completion<string>

  datatype Options = Options(vanillaJson: bool)

  /** The same helper text as the file-helpers reader's. */
  function MissingFileUriReadJson(fileUri: Option<string>, defaultObject: Option<Json>): (r: ReadJson)
    ensures r.jsonObject == defaultObject && !r.fileFound
    ensures r.error == Some("Failed to read json from " + ShowUri(fileUri) + ". No file uri.")
  {
    FileHelpersReadJson.MissingFileUriReadJson(fileUri, defaultObject)
  }

  /** The parser the options select. */
  function ParserFor(useVanillaJson: bool, strict: Parser, relaxed: Parser): (p: Parser)
    ensures useVanillaJson ==> p == strict
    ensures !useVanillaJson ==> p == relaxed
  {
    if useVanillaJson then strict else relaxed
  }

  function ProcessJson(fileUri: string, json: Option<string>, defaultObject: Option<Json>, useVanillaJson: bool,
                       strict: Parser, relaxed: Parser): (r: ReadJson)
    ensures r.fileFound <==> json.Some?
    ensures r.error.None? <==> json.Some? && ParserFor(useVanillaJson, strict, relaxed)(json.value).Parsed?
    ensures r.error.None? ==> r.jsonObject == Some(ParserFor(useVanillaJson, strict, relaxed)(json.value).value)
    ensures r.error.Some? ==> r.jsonObject == defaultObject
  {
    if json.Some? then
      match ParserFor(useVanillaJson, strict, relaxed)(json.value)
      case Parsed(v) => ReadJson(Some(v), true, None)
      case ParseError(message) =>
        ReadJson(defaultObject, true,
                 Some("Failed to read json from " + fileUri + ". Could not parse JSON because: " + message + ". JSON: " + json.value))
    else
      ReadJson(defaultObject, false, Some("Failed to read json from " + fileUri + ". Bad file uri."))
  }

  /** Never throws: a failed read is reported like a missing file. */
  function ReadJsonFile(fileUri: Option<string>, defaultObject: Option<Json>, options: Options,
                        readFileSync: FileReader, strict: Parser, relaxed: Parser): (r: ReadJson)
    ensures MissingUri(fileUri) ==> r == MissingFileUriReadJson(fileUri, defaultObject)
    ensures r.error.Some? ==> r.jsonObject == defaultObject
    ensures r.error.None? ==> r.fileFound && r.jsonObject.Some?
  {
    if MissingUri(fileUri) then MissingFileUriReadJson(fileUri, defaultObject)
    else
      var json := match readFileSync(fileUri.value)
        case Returned(text) => Some(text)
        case Threw(_) => None;
      ProcessJson(fileUri.value, json, defaultObject, options.vanillaJson, strict, relaxed)
  }

  /** A read that throws is swallowed and reported as not found, "Bad file uri.". */
  lemma ReadFailureSwallowed(fileUri: string, defaultObject: Option<Json>, options: Options,
                             readFileSync: FileReader, strict: Parser, relaxed: Parser)
    requires fileUri != "" && readFileSync(fileUri).Threw?
    ensures ReadJsonFile(Some(fileUri), defaultObject, options, readFileSync, strict, relaxed) ==
            ReadJson(defaultObject, false, Some("Failed to read json from " + fileUri + ". Bad file uri."))
  {
  }

  /** `vanilla_json` reads with the strict parser as if it were the relaxed
      one; without it the strict parser is never consulted. */
  lemma VanillaSelectsStrict(fileUri: Option<string>, defaultObject: Option<Json>,
                             readFileSync: FileReader, strict: Parser, strict2: Parser, relaxed: Parser)
    ensures ReadJsonFile(fileUri, defaultObject, Options(true), readFileSync, strict, relaxed) ==
            ReadJsonFile(fileUri, defaultObject, Options(false), readFileSync, strict2, strict)
  {
  }

  /** Text that fails to parse is a found file with the default object and an
      error that says it could not be parsed and why. */
  lemma UnparsableText(fileUri: string, defaultObject: Option<Json>, options: Options,
                       readFileSync: FileReader, strict: Parser, relaxed: Parser, text: string)
    requires fileUri != "" && readFileSync(fileUri) == Returned(text)
    requires ParserFor(options.vanillaJson, strict, relaxed)(text).ParseError?
    ensures var message := ParserFor(options.vanillaJson, strict, relaxed)(text).message;
            ReadJsonFile(Some(fileUri), defaultObject, options, readFileSync, strict, relaxed) ==
            ReadJson(defaultObject, true,
                     Some("Failed to read json from " + fileUri + ". Could not parse JSON because: " + message + ". JSON: " + text))
  {
  }

  /** Text that parses is returned as the object, found, without error. */
  lemma ParsedText(fileUri: string, defaultObject: Option<Json>, options: Options,
                   readFileSync: FileReader, strict: Parser, relaxed: Parser, text: string)
    requires fileUri != "" && readFileSync(fileUri) == Returned(text)
    requires ParserFor(options.vanillaJson, strict, relaxed)(text).Parsed?
    ensures ReadJsonFile(Some(fileUri), defaultObject, options, readFileSync, strict, relaxed) ==
            ReadJson(Some(ParserFor(options.vanillaJson, strict, relaxed)(text).value), true, None)
  {
  }

  /** An empty file is found but, since neither parser accepts empty text,
      comes with an error. */
  lemma EmptyFile(fileUri: string, defaultObject: Option<Json>, options: Options,
                  readFileSync: FileReader, strict: Parser, relaxed: Parser)
    requires fileUri != "" && readFileSync(fileUri) == Returned("")
    requires strict("").ParseError? && relaxed("").ParseError?
    ensures var r := ReadJsonFile(Some(fileUri), defaultObject, options, readFileSync, strict, relaxed);
            r.fileFound && r.error.Some? && r.jsonObject == defaultObject
  {
  }
}
