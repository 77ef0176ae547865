/** `readJsonFromFileSync`, `readJsonFromFile` and their helpers
    (src/directory-helpers/readJsonFromFile.ts), a copy of the file-helpers
    reader that the package walk uses. The source file is the same text as
    the file-helpers one, so each function here is that reader's. */
module DirectoryHelpersReadJson {
  import opened Outcomes
  import opened JsonValue
  import FileHelpersReadJson

  type Reader = string -> Completion<Option<string>>

  function MissingFileUriReadJson(fileUri: Option<string>, defaultObject: Option<Json>): (r: ReadJson)
    ensures r.jsonObject == defaultObject && !r.fileFound
    ensures r.error == Some("Failed to read json from " + ShowUri(fileUri) + ". No file uri.")
  {
    FileHelpersReadJson.MissingFileUriReadJson(fileUri, defaultObject)
  }

  function ProcessJson(fileUri: string, json: Option<string>, defaultObject: Option<Json>, parse: Parser): (r: ReadJson)
    ensures r.fileFound <==> json.Some?
    ensures r.error.None? <==> json.Some? && parse(json.value).Parsed?
    ensures r.error.None? ==> r.jsonObject == Some(parse(json.value).value)
    ensures r.error.Some? ==> r.jsonObject == defaultObject
  {
    FileHelpersReadJson.ProcessJson(fileUri, json, defaultObject, parse)
  }

  function ReadJsonFromFileSync(fileUri: Option<string>, defaultObject: Option<Json>, read: Reader, parse: Parser): (r: Completion<ReadJson>)
    ensures MissingUri(fileUri) ==> r == Returned(MissingFileUriReadJson(fileUri, defaultObject))
    ensures !MissingUri(fileUri) && read(fileUri.value).Threw? ==> r == Threw(read(fileUri.value).message)
    ensures !MissingUri(fileUri) && read(fileUri.value).Returned? ==>
              r == Returned(ProcessJson(fileUri.value, read(fileUri.value).value, defaultObject, parse))
  {
    FileHelpersReadJson.ReadJsonFromFileSync(fileUri, defaultObject, read, parse)
  }

  function ReadJsonFromFile(fileUri: Option<string>, defaultObject: Option<Json>, read: Reader, parse: Parser): (r: Completion<ReadJson>)
    ensures MissingUri(fileUri) ==> r == Returned(MissingFileUriReadJson(fileUri, defaultObject))
  {
    FileHelpersReadJson.ReadJsonFromFile(fileUri, defaultObject, read, parse)
  }

  /** A missing uri gives the default, not found, with an error. */
  lemma MissingUriGivesDefault(fileUri: Option<string>, defaultObject: Option<Json>, read: Reader, parse: Parser)
    requires MissingUri(fileUri)
    ensures var r := ReadJsonFromFileSync(fileUri, defaultObject, read, parse);
            r.Returned? && r.value.jsonObject == defaultObject && !r.value.fileFound && r.value.error.Some?
  {
  }

  /** Text that parses is returned as the object, found, without error. */
  lemma ParsedText(fileUri: string, defaultObject: Option<Json>, read: Reader, parse: Parser, text: string)
    requires fileUri != "" && read(fileUri) == Returned(Some(text)) && parse(text).Parsed?
    ensures ReadJsonFromFileSync(Some(fileUri), defaultObject, read, parse) ==
            Returned(ReadJson(Some(parse(text).value), true, None))
  {
  }

  /** Text that fails to parse is a found file with the default object and
      an error. */
  lemma UnparsableText(fileUri: string, defaultObject: Option<Json>, read: Reader, parse: Parser, text: string)
    requires fileUri != "" && read(fileUri) == Returned(Some(text)) && parse(text).ParseError?
    ensures var r := ReadJsonFromFileSync(Some(fileUri), defaultObject, read, parse);
            r.Returned? && r.value.fileFound && r.value.jsonObject == defaultObject && r.value.error.Some?
  {
  }

  /** A read that yields `undefined` is not found, with "Bad file uri.". */
  lemma UndefinedRead(fileUri: string, defaultObject: Option<Json>, read: Reader, parse: Parser)
    requires fileUri != "" && read(fileUri) == Returned(None)
    ensures ReadJsonFromFileSync(Some(fileUri), defaultObject, read, parse) ==
            Returned(ReadJson(defaultObject, false, Some("Failed to read json from " + fileUri + ". Bad file uri.")))
  {
  }

  /** This copy behaves exactly like the file-helpers reader. */
  lemma SameAsFileHelpers(fileUri: Option<string>, defaultObject: Option<Json>, read: Reader, parse: Parser)
    ensures ReadJsonFromFileSync(fileUri, defaultObject, read, parse) ==
            FileHelpersReadJson.ReadJsonFromFileSync(fileUri, defaultObject, read, parse)
    ensures ReadJsonFromFile(fileUri, defaultObject, read, parse) ==
            FileHelpersReadJson.ReadJsonFromFile(fileUri, defaultObject, read, parse)
  {
  }
}
