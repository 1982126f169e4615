/** `VssParserFactory`: picks the parser for a definition file by its extension. */
module ParserFactory {
  import opened Results
  import opened Strings

  /** `VssFileExtension`: the supported formats and their extensions. */
  datatype VssFileExtension = Json | Yaml

  function FileExtensions(e: VssFileExtension): set<string> {
    match e
    case Json => {"json"}
    case Yaml => {"yaml", "yml"}
  }

  /** The parsers the factory can hand out. The YAML parser is created with its default
      element delimiter, the empty line. */
  datatype VssParser = JsonVssParser | YamlVssParser(elementDelimiter: string)

  const DefaultElementDelimiter: string := ""

  function UnsupportedExtension(extension: string): Error {
    IllegalState("Could not create VssDefinitionParser: File Extension '" + extension + "' not supported")
  }

  /** `create(extension)`: JSON is tested first, then YAML; anything else is an `IllegalStateException`. */
  function Create(extension: string): (r: Result<VssParser>)
    ensures r == Ok(JsonVssParser) <==> extension == "json"
    ensures r == Ok(YamlVssParser("")) <==> extension == "yaml" || extension == "yml"
    ensures r.Fail? <==> extension !in {"json", "yaml", "yml"}
    ensures r.Fail? ==> r.error == UnsupportedExtension(extension)
  {
    if extension in FileExtensions(Json) then Ok(JsonVssParser)
    else if extension in FileExtensions(Yaml) then Ok(YamlVssParser(DefaultElementDelimiter))
    else Fail(UnsupportedExtension(extension))
  }

  /** The text after the last `.` of a file name, or the whole name without one. */
  function ExtensionOf(fileName: string): (r: string)
    ensures '.' !in r
  {
    SubstringAfterLast(fileName, '.')
  }

  /** `create(file)`: dispatch on the file name's extension. */
  function CreateForFile(fileName: string): Result<VssParser> {
    Create(ExtensionOf(fileName))
  }

  /** The extension sets are disjoint, so testing JSON before YAML decides nothing. */
  lemma ExtensionSetsDisjoint()
    ensures FileExtensions(Json) * FileExtensions(Yaml) == {}
  {
  }

  /** Only the part after the last dot matters. */
  lemma CreateForFileUsesLastExtension(base: string, extension: string)
    requires '.' !in extension
    ensures CreateForFile(base + "." + extension) == Create(extension)
  {
    SplitAtLast(base, '.', extension);
  }

  /** A file name without a dot is dispatched on the whole name. */
  lemma CreateForFileWithoutDot(fileName: string)
    requires '.' !in fileName
    ensures CreateForFile(fileName) == Create(fileName)
  {
  }

  lemma MultipleDotsSelectJson()
    ensures CreateForFile("someVssFile.with-multiple-dots.json") == Ok(JsonVssParser)
  {
    var name := "someVssFile.with-multiple-dots.json";
    assert name == "someVssFile.with-multiple-dots" + "." + "json";
    CreateForFileUsesLastExtension("someVssFile.with-multiple-dots", "json");
  }
}
