# VSS model generation, modelled in Dafny

This project models the part of the Velocitas VSS processor plugin that turns Vehicle Signal
Specification (VSS) definition files into generated Kotlin model classes. It covers five pieces:

- **Parser factory** (`VssParserFactory`): picks the JSON or the YAML parser from the file extension.
- **YAML parser** (`YamlVssParser`): trims the lines and groups them into entries at delimiter lines.
  It then reads each attribute by searching the entry's `;`-joined text for `;key: `.
- **JSON parser** (`JsonVssParser`): flattens the `Vehicle` tree in pre-order through the
  `children` objects and builds dotted paths.
- **Property builder and properties** (`VssNodePropertiesBuilder` and both copies of
  `VssNodeProperty`): a map keyed by data key. Empty values change nothing; other values
  overwrite their own key. Equality looks only at the key and the runtime class.
- **Generator** (`VssModelGenerator`):
  - parses every file;
  - keeps the first node of each path;
  - works out which leaves are ambiguous;
  - writes one file per node whose leaf is not ambiguous;
  - computes the import each file gets for its nearest generated ancestor.

Modules, one per component:

| module | file | models |
|---|---|---|
| `Results` | results.dfy | the exceptions, a failure-compatible `Result`, and the first-failure-aborts map |
| `Strings` | strings.dfy | the Kotlin string functions the code uses: `trim`, `substringBefore/After(Last)`, `joinToString`, `prependIndent`, and `VssPath` parent and leaf |
| `Properties` | properties.dfy | `VssDataKey`, `VssNodeProperty` and `VssSignalProperty`, the builder, `VssNodeSpecModel` |
| `ParserFactory` | parser_factory.dfy | `VssParserFactory` |
| `YamlParser` | yaml_parser.dfy | `YamlVssParser` and its top-level `fetchValue` |
| `JsonParser` | json_parser.dfy | `JsonVssParser` over an abstract JSON tree |
| `ModelGenerator` | model_generator.dfy | `VssModelGenerator.generate`, `generateModelFiles`, `buildParentImport` |

Exceptions are values: every operation that can throw returns a `Result`. An exception the
code lets escape is returned unchanged; an exception the code catches and rethrows is returned
rewrapped.

Some collaborators' code is not part of this model. They become parameters:

- the datatype table `VssDataType.find(..).valueDataType` is a `TypeTable`;
- the class name `createClassSpec` produces is a `ClassNamer`, which may have no name;
- the vss-core `parentClassName` is a `ParentNamer`;
- a file's content is given as its lines, for YAML, and as an already-parsed JSON document, for JSON.

## Model

| member | source | states |
|---|---|---|
| Results.MapResult | vss-processor-plugin/src/main/java/org/eclipse/velocitas/vssprocessor/parser/yaml/YamlVssParser.kt:41-59 | the entries are parsed in order; the whole succeeds exactly when every entry does, and a failure is the error of the first failing entry |
| Properties.FindByKey | vss-processor-plugin/src/main/java/org/eclipse/velocitas/vssprocessor/parser/json/JsonVssParser.kt:76-78 | a found key is spelled exactly as the input; no key is spelled like an input that finds none |
| Properties.EqualsIgnoresValueAndType | vss-processor-plugin/src/main/java/org/eclipse/velocitas/vssprocessor/spec/VssNodeProperty.kt:27-34 | for the same runtime class, two properties are equal exactly when their keys are equal, whatever their value and type |
| Properties.NodeNeverEqualsSignal | vss-processor-plugin/src/main/java/org/eclipse/velocitas/vssprocessor/spec/VssNodeProperty.kt:29 | a `VssNodeProperty` and a `VssSignalProperty` are never equal, in either direction |
| Properties.NeverEqualsNull | vss-processor/src/main/kotlin/org/eclipse/kuksa/vssprocessor/spec/VssNodeProperty.kt:30-37 | no property equals `null` |
| Properties.EqualsIsEquivalence | vss-processor-plugin/src/main/java/org/eclipse/velocitas/vssprocessor/spec/VssNodeProperty.kt:27-34 | equality is reflexive, symmetric and transitive |
| Properties.HashDependsOnlyOnKey | vss-processor/src/main/kotlin/org/eclipse/kuksa/vssprocessor/spec/VssNodeProperty.kt:39-41 | properties with the same key have the same hash |
| Properties.EqualPropertiesHaveEqualHashes | vss-processor-plugin/src/main/java/org/eclipse/velocitas/vssprocessor/spec/VssNodeProperty.kt:36-38 | equal properties have equal hashes |
| Properties.NewBuilder | vss-processor-plugin/src/main/java/org/eclipse/velocitas/vssprocessor/spec/VssNodePropertiesBuilder.kt:36-42 | a fresh builder holds exactly `uuid` and `type`, with the given values, even when they are empty |
| Properties.Put | vss-processor-plugin/src/main/java/org/eclipse/velocitas/vssprocessor/spec/VssNodePropertiesBuilder.kt:47-48 | inserting a property sets its own key and leaves every other key as it was |
| Properties.WithDescription | vss-processor-plugin/src/main/java/org/eclipse/velocitas/vssprocessor/spec/VssNodePropertiesBuilder.kt:44-51 | an empty description changes nothing; otherwise only the description key is set, to a `String` property |
| Properties.WithComment | vss-processor-plugin/src/main/java/org/eclipse/velocitas/vssprocessor/spec/VssNodePropertiesBuilder.kt:53-60 | an empty comment changes nothing; otherwise only the comment key is set |
| Properties.WithDataType | vss-processor-plugin/src/main/java/org/eclipse/velocitas/vssprocessor/spec/VssNodePropertiesBuilder.kt:62-71 | an empty datatype changes nothing; otherwise only the datatype key is set, to a signal property whose value is the raw datatype string and whose type is the table's class |
| Properties.WithUnit | vss-processor-plugin/src/main/java/org/eclipse/velocitas/vssprocessor/spec/VssNodePropertiesBuilder.kt:73-80 | an empty unit changes nothing; otherwise only the unit key is set, to a `String` signal property |
| Properties.WithMinClass | vss-processor-plugin/src/main/java/org/eclipse/velocitas/vssprocessor/spec/VssNodePropertiesBuilder.kt:82-89 | an empty min changes nothing; otherwise only the min key is set, with the given class |
| Properties.WithMin | vss-processor-plugin/src/main/java/org/eclipse/velocitas/vssprocessor/spec/VssNodePropertiesBuilder.kt:91-97 | a no-op when min or the datatype is empty; otherwise only the min key is set, with the datatype's class |
| Properties.WithMaxClass | vss-processor-plugin/src/main/java/org/eclipse/velocitas/vssprocessor/spec/VssNodePropertiesBuilder.kt:99-106 | an empty max changes nothing; otherwise only the max key is set, with the given class |
| Properties.WithMax | vss-processor-plugin/src/main/java/org/eclipse/velocitas/vssprocessor/spec/VssNodePropertiesBuilder.kt:108-114 | a no-op when max or the datatype is empty; otherwise only the max key is set, with the datatype's class |
| Properties.Build | vss-processor-plugin/src/main/java/org/eclipse/velocitas/vssprocessor/spec/VssNodePropertiesBuilder.kt:121-123 | the built set holds exactly the map's properties, one per key, so between two and eight of them |
| Properties.BuildHasNoEqualPair | vss-processor-plugin/src/main/java/org/eclipse/velocitas/vssprocessor/spec/VssNodePropertiesBuilder.kt:121-123 | no two built properties are `equals`, so `toSet` drops none |
| Properties.ResolveEntry | vss-processor-plugin/src/main/java/org/eclipse/velocitas/vssprocessor/parser/yaml/YamlVssParser.kt:95-102 | the builder chain the parsers run records exactly the keys whose inputs are non-empty (min and max also need a datatype), each with its expected property |
| Properties.ResolveBoundsTypedLikeDataType | vss-processor-plugin/src/test/kotlin/org/eclipse/velocitas/vssprocessor/spec/VssNodeSpecModelTest.kt:78-89 | a recorded min or max has the same representation class as the datatype property |
| ParserFactory.Create | vss-processor-plugin/src/main/java/org/eclipse/velocitas/vssprocessor/parser/factory/VssParserFactory.kt:31-45 | `json` gives the JSON parser, `yaml` and `yml` give the YAML parser with the empty-line delimiter, and every other extension fails with the `IllegalStateException` naming it |
| ParserFactory.ExtensionOf | vss-processor-plugin/src/main/java/org/eclipse/velocitas/vssprocessor/parser/factory/VssParserFactory.kt:51-52 | the extension of a file name contains no dot |
| ParserFactory.ExtensionSetsDisjoint | vss-processor-plugin/src/main/java/org/eclipse/velocitas/vssprocessor/parser/factory/VssParserFactory.kt:32-44 | no extension is both a JSON and a YAML extension, so the order of the tests does not matter |
| ParserFactory.CreateForFileUsesLastExtension | vss-processor-plugin/src/main/java/org/eclipse/velocitas/vssprocessor/parser/factory/VssParserFactory.kt:50-55 | a file is dispatched on the text after its last dot |
| ParserFactory.CreateForFileWithoutDot | vss-processor-plugin/src/main/java/org/eclipse/velocitas/vssprocessor/parser/factory/VssParserFactory.kt:52 | a file name without a dot is dispatched on the whole name |
| ParserFactory.MultipleDotsSelectJson | vss-processor-plugin/src/test/kotlin/org/eclipse/velocitas/vssprocessor/parser/factory/VssParserFactoryTest.kt:57-63 | `someVssFile.with-multiple-dots.json` gets the JSON parser |
| Strings.Trim | vss-processor-plugin/src/main/java/org/eclipse/velocitas/vssprocessor/parser/yaml/YamlVssParser.kt:42 | the trimmed line has no leading or trailing whitespace and is a slice of the line with only whitespace cut off |
| Strings.SubstringBefore | vss-processor-plugin/src/main/java/org/eclipse/velocitas/vssprocessor/parser/yaml/YamlVssParser.kt:75 | the text before the first delimiter, or the whole string when there is none |
| Strings.SubstringAfterLast | vss-processor-plugin/src/main/java/org/eclipse/velocitas/vssprocessor/parser/factory/VssParserFactory.kt:52 | the text after the last delimiter, or the whole string when there is none |
| Strings.Find | vss-processor-plugin/src/main/java/org/eclipse/velocitas/vssprocessor/parser/yaml/YamlVssParser.kt:115 | the first position where the pattern occurs; no earlier position matches |
| Strings.SplitAtLast | vss-processor-plugin/src/main/java/org/eclipse/velocitas/vssprocessor/VssModelGenerator.kt:120 | cutting a string at its last delimiter gives back both parts |
| YamlParser.TrimAll | vss-processor-plugin/src/main/java/org/eclipse/velocitas/vssprocessor/parser/yaml/YamlVssParser.kt:41-42 | every line is trimmed to have no leading or trailing whitespace, and no line is dropped or moved |
| YamlParser.GroupsShape | vss-processor-plugin/src/main/java/org/eclipse/velocitas/vssprocessor/parser/yaml/YamlVssParser.kt:39-59 | there is one entry more than there are delimiter lines, no entry contains a delimiter line, and putting the delimiter lines back gives the lines |
| YamlParser.GroupsOfUnsplit | vss-processor-plugin/src/main/java/org/eclipse/velocitas/vssprocessor/parser/yaml/YamlVssParser.kt:43-53 | grouping entries joined by delimiter lines gives the same entries back |
| YamlParser.FetchWith | vss-processor-plugin/src/main/java/org/eclipse/velocitas/vssprocessor/parser/yaml/YamlVssParser.kt:113-116 | the value found never contains a `;` |
| YamlParser.FetchWithSlice | vss-processor-plugin/src/main/java/org/eclipse/velocitas/vssprocessor/parser/yaml/YamlVssParser.kt:113-116 | with a match, the value is the body's text right after the first match, up to the next `;` or the end of the body |
| YamlParser.FetchValue | vss-processor-plugin/src/main/java/org/eclipse/velocitas/vssprocessor/parser/yaml/YamlVssParser.kt:108-117 | `fetchValue` never returns a `;`; when `;key: ` occurs, the value is the body's text right after its first occurrence, up to the next `;` or the end of the body |
| YamlParser.FetchNoMatch | vss-processor-plugin/src/main/java/org/eclipse/velocitas/vssprocessor/parser/yaml/YamlVssParser.kt:113-116 | without a match, a body that is empty or starts with `;` yields the empty value |
| YamlParser.ParseYamlElement | vss-processor-plugin/src/main/java/org/eclipse/velocitas/vssprocessor/parser/yaml/YamlVssParser.kt:74-105 | an empty entry throws `NoSuchElementException`; the path is the first line up to its first `:`; the entry fails exactly when `type` is empty or absent, with the message naming the path; otherwise its properties are the builder's for the fetched fields |
| YamlParser.EntryBody | vss-processor-plugin/src/main/java/org/eclipse/velocitas/vssprocessor/parser/yaml/YamlVssParser.kt:77-80 | when every line of the entry is trimmed, as the parser makes them, the joined attribute body starts with `;` |
| YamlParser.TrimmedBodyStart | vss-processor-plugin/src/main/java/org/eclipse/velocitas/vssprocessor/parser/yaml/YamlVssParser.kt:77-80 | for trimmed lines, `prependIndent(";")` puts one `;` in front of the text after the first `;`, since that text is not blank |
| YamlParser.MultiLineBody | vss-processor-plugin/src/main/java/org/eclipse/velocitas/vssprocessor/parser/yaml/YamlVssParser.kt:77-80 | for an entry with attribute lines, the body is `;` and then the attribute lines joined by `;`, so the header line is not searched |
| YamlParser.SingleLineBody | vss-processor-plugin/src/main/java/org/eclipse/velocitas/vssprocessor/parser/yaml/YamlVssParser.kt:77-80 | a one-line entry keeps its header line in the body, because there is no `;` to cut at |
| YamlParser.FetchIsLookupOf | vss-processor-plugin/src/main/java/org/eclipse/velocitas/vssprocessor/parser/yaml/YamlVssParser.kt:108-117 | on a body of `;`-free lines, the search returns the rest of the first line that starts with the key, or empty when no line does |
| YamlParser.FetchIsLookup | vss-processor-plugin/src/main/java/org/eclipse/velocitas/vssprocessor/parser/yaml/YamlVssParser.kt:108-117 | `fetchValue(key)` is the rest of the first attribute line starting with `key: `, or empty |
| YamlParser.EntryAttribute | vss-processor-plugin/src/main/java/org/eclipse/velocitas/vssprocessor/parser/yaml/YamlVssParser.kt:82-93 | each attribute of a multi-line entry is read from the first matching attribute line |
| YamlParser.SingleLineEntryAttribute | vss-processor-plugin/src/main/java/org/eclipse/velocitas/vssprocessor/parser/yaml/YamlVssParser.kt:82-93 | each attribute of a one-line entry is read from its header line |
| YamlParser.TypeNotReadFromDatatype | vss-processor-plugin/src/main/java/org/eclipse/velocitas/vssprocessor/parser/yaml/YamlVssParser.kt:113-116 | a `datatype` line never supplies the `type` value |
| YamlParser.NodeCount | vss-processor-plugin/src/main/java/org/eclipse/velocitas/vssprocessor/parser/yaml/YamlVssParser.kt:43-59 | a parsed file yields one node per delimiter line plus one |
| YamlParser.ParseEntriesSucceeds | vss-processor-plugin/src/main/java/org/eclipse/velocitas/vssprocessor/parser/yaml/YamlVssParser.kt:43-59 | a file parses exactly when every entry is non-empty and has a non-empty `type` |
| YamlParser.ParseEntriesFailure | vss-processor-plugin/src/main/java/org/eclipse/velocitas/vssprocessor/parser/yaml/YamlVssParser.kt:43-59 | a failure is the error of the first rejected entry |
| YamlParser.RethrownEntryError | vss-processor-plugin/src/main/java/org/eclipse/velocitas/vssprocessor/parser/yaml/YamlVssParser.kt:61-63 | an empty entry's error escapes unchanged; a missing `type` becomes the `IOException` naming the file and the node path |
| YamlParser.ParseNodesFailure | vss-processor-plugin/src/main/java/org/eclipse/velocitas/vssprocessor/parser/yaml/YamlVssParser.kt:36-66 | a failing file reports the first rejected entry's error, rethrown as the catch block does |
| YamlParser.ParseNodes | vss-processor-plugin/src/main/java/org/eclipse/velocitas/vssprocessor/parser/yaml/YamlVssParser.kt:36-66 | a parsed file has one node per entry; a failing file reports either the `IOException` that rewraps a missing `type` or the `NoSuchElementException` of an empty entry, never the internal `FileParseException` |
| JsonParser.MemberIndex | vss-processor-plugin/src/main/java/org/eclipse/velocitas/vssprocessor/parser/json/JsonVssParser.kt:51 | the position of the first member with the key; no member has the key when there is none |
| JsonParser.UniqueMemberIndex | vss-processor-plugin/src/main/java/org/eclipse/velocitas/vssprocessor/parser/json/JsonVssParser.kt:51-52 | in an object with one member per key, `has`/`get` find the member with that key wherever it stands |
| JsonParser.VehicleUniqueKeys | vss-processor-plugin/src/main/java/org/eclipse/velocitas/vssprocessor/parser/json/JsonVssParser.kt:49-52 | the `Vehicle` tree of a document, like the whole document, holds one member per key in every object |
| JsonParser.FirstUnreadable | vss-processor-plugin/src/main/java/org/eclipse/velocitas/vssprocessor/parser/json/JsonVssParser.kt:95-104 | no attribute is reported exactly when every listed attribute is absent or a primitive |
| JsonParser.ReadFields | vss-processor-plugin/src/main/java/org/eclipse/velocitas/vssprocessor/parser/json/JsonVssParser.kt:95-104 | reading succeeds exactly when every attribute is absent or a primitive, gives the text or `""` for each, and otherwise fails with `UnsupportedOperationException` |
| JsonParser.ParseSpecModel | vss-processor-plugin/src/main/java/org/eclipse/velocitas/vssprocessor/parser/json/JsonVssParser.kt:91-116 | a missing `type` throws the `JsonParseException` naming the path; the node parses exactly when `type` is present and every attribute is readable; the record carries the given path and the builder's properties for the attributes, absent ones as `""` |
| JsonParser.FlattenNode | vss-processor-plugin/src/main/java/org/eclipse/velocitas/vssprocessor/parser/json/JsonVssParser.kt:64-89 | a flattened subtree starts with the node's own record, and every path in it starts with the node's path |
| JsonParser.FlattenChildren | vss-processor-plugin/src/main/java/org/eclipse/velocitas/vssprocessor/parser/json/JsonVssParser.kt:73-85 | a `children` value that is not an object throws `ClassCastException`; every path below it starts with the parent path and a dot |
| JsonParser.ParseNodes | vss-processor-plugin/src/main/java/org/eclipse/velocitas/vssprocessor/parser/json/JsonVssParser.kt:42-62 | a syntax error, a non-object root or a root without `Vehicle` gives the `IOException` naming the file; an empty file gives a `NullPointerException`; no `JsonParseException` escapes; the output starts with `Vehicle` |
| JsonParser.FlattenMembers | vss-processor-plugin/src/main/java/org/eclipse/velocitas/vssprocessor/parser/json/JsonVssParser.kt:76-85 | every record contributed by the child members starts with the parent path and a dot |
| JsonParser.NodeParentsBefore | vss-processor-plugin/src/main/java/org/eclipse/velocitas/vssprocessor/parser/json/JsonVssParser.kt:70-85 | with dot-free keys, every record after the first ends in a child key, and its parent path comes earlier |
| JsonParser.NodeCount | vss-processor-plugin/src/main/java/org/eclipse/velocitas/vssprocessor/parser/json/JsonVssParser.kt:64-88 | a flattened subtree has one record per node reachable through the filtered `children` edges |
| JsonParser.NodeLength | vss-processor-plugin/src/main/java/org/eclipse/velocitas/vssprocessor/parser/json/JsonVssParser.kt:64-88 | a flattened subtree has exactly one record per key sequence of the visiting order that `Reachable` defines independently of flattening |
| JsonParser.NodeRecordAt | vss-processor-plugin/src/main/java/org/eclipse/velocitas/vssprocessor/parser/json/JsonVssParser.kt:64-116 | the record at position `j` is what `parseSpecModel` makes of the object reached by the `j`-th key sequence of the visiting order, at the dotted path those keys spell |
| JsonParser.NodeRecordsAt | vss-processor-plugin/src/main/java/org/eclipse/velocitas/vssprocessor/parser/json/JsonVssParser.kt:64-116 | a flattened subtree holds, in visiting order, exactly one record per visited object, each the `parseSpecModel` record of the object its keys reach |
| JsonParser.ReachableDistinct | vss-processor-plugin/src/main/java/org/eclipse/velocitas/vssprocessor/parser/json/JsonVssParser.kt:73-85 | with one member per key, no object is visited twice |
| JsonParser.ReachableComplete | vss-processor-plugin/src/main/java/org/eclipse/velocitas/vssprocessor/parser/json/JsonVssParser.kt:73-85 | every object reachable from the node through `children` and child keys is visited |
| JsonParser.MembersInOrder | vss-processor-plugin/src/main/java/org/eclipse/velocitas/vssprocessor/parser/json/JsonVssParser.kt:80-85 | the nodes behind child member `a` of `children` are all visited before those behind a later child member `b` |
| JsonParser.ReachableInOrder | vss-processor-plugin/src/main/java/org/eclipse/velocitas/vssprocessor/parser/json/JsonVssParser.kt:64-89 | at any depth, the nodes behind an earlier child member are visited before those behind a later one, so sibling subtrees keep the order of the `children` object |
| JsonParser.PathOfInjective | vss-processor-plugin/src/main/java/org/eclipse/velocitas/vssprocessor/parser/json/JsonVssParser.kt:82 | for keys without a `.`, the dotted path determines the keys it was built from |
| JsonParser.NodePathsDistinct | vss-processor-plugin/src/main/java/org/eclipse/velocitas/vssprocessor/parser/json/JsonVssParser.kt:64-89 | with one member per key and no `.` in any key, no two records of a flattened subtree share a path |
| JsonParser.NodeSucceeds | vss-processor-plugin/src/main/java/org/eclipse/velocitas/vssprocessor/parser/json/JsonVssParser.kt:64-116 | flattening succeeds exactly when every reachable node is an object with a `type` and readable attributes, and every `children` value is an object |
| JsonParser.MembersSucceed | vss-processor-plugin/src/main/java/org/eclipse/velocitas/vssprocessor/parser/json/JsonVssParser.kt:76-85 | the children from a position on flatten exactly when each child-key subtree is accepted |
| JsonParser.ParseNodesSucceeds | vss-processor-plugin/src/main/java/org/eclipse/velocitas/vssprocessor/parser/json/JsonVssParser.kt:42-62 | a document parses exactly when it has a `Vehicle` tree and that tree is accepted |
| JsonParser.ParseNodesShape | vss-processor-plugin/src/main/java/org/eclipse/velocitas/vssprocessor/parser/json/JsonVssParser.kt:51-88 | the records of a parsed document: `Vehicle` first, one record per reachable node, all paths under `Vehicle`, and with dot-free keys every later record ends in a child key and has its parent earlier |
| JsonParser.ParseNodesRecords | vss-processor-plugin/src/main/java/org/eclipse/velocitas/vssprocessor/parser/json/JsonVssParser.kt:45-89 | the records of a parsed document are those of the objects reachable from `Vehicle`, one each in visiting order, with every reachable object present, and with distinct paths when no key contains a `.` |
| JsonParser.ParseNodesInOrder | vss-processor-plugin/src/main/java/org/eclipse/velocitas/vssprocessor/parser/json/JsonVssParser.kt:51-89 | in a parsed document, the records behind an earlier child member of any object come before the records behind a later one |
| JsonParser.TypelessVehicleFails | vss-processor-plugin/src/main/java/org/eclipse/velocitas/vssprocessor/parser/json/JsonVssParser.kt:57-58 | a `Vehicle` node without `type` fails the file with the `IOException` naming the file |
| JsonParser.ShapedAcceptedIffTyped | vss-processor-plugin/src/main/java/org/eclipse/velocitas/vssprocessor/parser/json/JsonVssParser.kt:64-96 | on a tree of objects with readable attributes and object `children`, a node is accepted exactly when every reachable node has a `type` |
| JsonParser.ShapedFailsOnType | vss-processor-plugin/src/main/java/org/eclipse/velocitas/vssprocessor/parser/json/JsonVssParser.kt:64-96 | on such a tree, the only exception flattening raises is the `JsonParseException` of a missing `type` |
| JsonParser.MissingTypeFailsFile | vss-processor-plugin/src/main/java/org/eclipse/velocitas/vssprocessor/parser/json/JsonVssParser.kt:45-96 | on such a `Vehicle` tree, the file fails exactly when some reachable node lacks `type`, and then always with the `IOException` naming the file |
| JsonParser.EmptyTypeAccepted | vss-processor-plugin/src/main/java/org/eclipse/velocitas/vssprocessor/parser/json/JsonVssParser.kt:95-96 | an empty `type` string is accepted |
| ModelGenerator.ParseFile | vss-processor-plugin/src/main/java/org/eclipse/velocitas/vssprocessor/VssModelGenerator.kt:53-54 | a `json` extension runs the JSON parser, `yaml` and `yml` run the YAML parser with the empty-line delimiter, and any other extension fails with the factory's `IllegalStateException` |
| ModelGenerator.ParseAll | vss-processor-plugin/src/main/java/org/eclipse/velocitas/vssprocessor/VssModelGenerator.kt:51-57 | the files parse exactly when each one does |
| ModelGenerator.ParseAllSingle | vss-processor-plugin/src/main/java/org/eclipse/velocitas/vssprocessor/VssModelGenerator.kt:51-57 | one file yields exactly its own parse result |
| ModelGenerator.ParseAllAppend | vss-processor-plugin/src/main/java/org/eclipse/velocitas/vssprocessor/VssModelGenerator.kt:51-57 | the nodes of two runs of files are the nodes of the first run followed by those of the second, so the result is every file's nodes concatenated in file order |
| ModelGenerator.ParseAllFailure | vss-processor-plugin/src/main/java/org/eclipse/velocitas/vssprocessor/VssModelGenerator.kt:51-57 | a failure is the error of the first file that does not parse, every earlier file having parsed |
| ModelGenerator.FirstIndex | vss-processor-plugin/src/main/java/org/eclipse/velocitas/vssprocessor/VssModelGenerator.kt:59-60 | the position of the first node with a path; no earlier node has that path |
| ModelGenerator.Dedup | vss-processor-plugin/src/main/java/org/eclipse/velocitas/vssprocessor/VssModelGenerator.kt:59-61 | the kept nodes cover exactly the input paths with no path twice |
| ModelGenerator.DedupKeepsFirstOccurrences | vss-processor-plugin/src/main/java/org/eclipse/velocitas/vssprocessor/VssModelGenerator.kt:59-61 | each kept node is the first node of the input with its path |
| ModelGenerator.DedupKeepsOrder | vss-processor-plugin/src/main/java/org/eclipse/velocitas/vssprocessor/VssModelGenerator.kt:59-61 | the kept nodes appear in the order of their paths' first occurrences |
| ModelGenerator.FirstIndexAppend | vss-processor-plugin/src/main/java/org/eclipse/velocitas/vssprocessor/VssModelGenerator.kt:59-60 | appending a node does not move the first occurrence of any path already present |
| ModelGenerator.GroupByLeafGroups | vss-processor-plugin/src/main/java/org/eclipse/velocitas/vssprocessor/VssModelGenerator.kt:67-68 | the grouping maps exactly the leaves that occur, each to the paths with that leaf in order |
| ModelGenerator.CollisionsExactly | vss-processor-plugin/src/main/java/org/eclipse/velocitas/vssprocessor/VssModelGenerator.kt:67-70 | a leaf is ambiguous exactly when two registry paths end in it |
| ModelGenerator.DottedPrefixStep | vss-processor-plugin/src/main/java/org/eclipse/velocitas/vssprocessor/VssModelGenerator.kt:119-120 | the proper dotted prefixes of a path are its parent and the parent's own dotted prefixes |
| ModelGenerator.FindParentPath | vss-processor-plugin/src/main/java/org/eclipse/velocitas/vssprocessor/VssModelGenerator.kt:119-124 | the walk finds the longest proper dotted prefix that already has a generated file, and finds nothing only when no such prefix has one |
| ModelGenerator.BuildParentImport | vss-processor-plugin/src/main/java/org/eclipse/velocitas/vssprocessor/VssModelGenerator.kt:110-138 | the import is empty when no ancestor has a generated file, and otherwise always ends in the node's parent class name |
| ModelGenerator.ParentImportNamesNearestAncestor | vss-processor-plugin/src/main/java/org/eclipse/velocitas/vssprocessor/VssModelGenerator.kt:126-137 | the import is empty without a generated ancestor; otherwise it is the nearest ancestor's class name, alone when it equals the parent class name and qualified by it otherwise |
| ModelGenerator.Eligible | vss-processor-plugin/src/main/java/org/eclipse/velocitas/vssprocessor/VssModelGenerator.kt:75-79 | the kept nodes are exactly the nodes whose leaf is not ambiguous |
| ModelGenerator.EmitTracks | vss-processor-plugin/src/main/java/org/eclipse/velocitas/vssprocessor/VssModelGenerator.kt:75-104 | the loop invariant: one file per eligible node up to the first one without a name, each with its class name and the import computed from earlier files, and the path map of exactly those files |
| ModelGenerator.GenerateModelFiles | vss-processor-plugin/src/main/java/org/eclipse/velocitas/vssprocessor/VssModelGenerator.kt:66-105 | one file per node whose leaf is not ambiguous, in registry order, up to the first node without a class name; each file carries that node's class name and the import computed from the files written before it, since the map is updated after the lookup; the map holds exactly those files |
| ModelGenerator.Generate | vss-processor-plugin/src/main/java/org/eclipse/velocitas/vssprocessor/VssModelGenerator.kt:48-64 | a parse error stops generation before any file is written, with that error; otherwise the files are those `generateModelFiles` writes for the first node of each path |
| ModelGenerator.NoFileForAmbiguousLeaf | vss-processor-plugin/src/main/java/org/eclipse/velocitas/vssprocessor/VssModelGenerator.kt:75-79 | no file is written for a node whose leaf is ambiguous |
| ModelGenerator.GenerationFailsIffUnnamed | vss-processor-plugin/src/main/java/org/eclipse/velocitas/vssprocessor/VssModelGenerator.kt:88 | generation stops with `NoSuchFieldException` exactly when some unambiguous node has no class name |
| ModelGenerator.GeneratedPathsAreUnambiguous | vss-processor-plugin/src/main/java/org/eclipse/velocitas/vssprocessor/VssModelGenerator.kt:75-103 | after a complete run, a registry path has an entry in the map exactly when its leaf is not ambiguous |
| ModelGenerator.GeneratedMapKeys | vss-processor-plugin/src/main/java/org/eclipse/velocitas/vssprocessor/VssModelGenerator.kt:103 | the map holds exactly the paths of the written files |
| ModelGenerator.GeneratedMapValues | vss-processor-plugin/src/main/java/org/eclipse/velocitas/vssprocessor/VssModelGenerator.kt:103 | with distinct paths, each written path maps to its file's class name |
| ModelGenerator.EligibleDistinct | vss-processor-plugin/src/main/java/org/eclipse/velocitas/vssprocessor/VssModelGenerator.kt:75-79 | skipping nodes keeps the paths distinct |
| ModelGenerator.GenerateWritesEachPathOnce | vss-processor-plugin/src/main/java/org/eclipse/velocitas/vssprocessor/VssModelGenerator.kt:48-104 | after parsing, no path gets two files, and the map sends each written path to its file's class name |

## Left out

- File reading, Gson's text parsing, logging, `mkdirs` and `writeText` are left out. A YAML file is given as its lines and a JSON file as a parsed tree; emitted files are records.
- JSON arrays and `null` are not modelled: a document is a tree of objects and primitives. In the source, `getAsString` on a `JsonNull` attribute throws `UnsupportedOperationException`, and on an array whose size is not one it throws `IllegalStateException`; so, for instance, `"type": null` fails the file there, which the model cannot express. The `JsonObject.get(VssDataKey)` extension the parser imports is not part of this model; it is taken to be Gson's `get` by the key's spelling.
- A JSON document holds only trees with one member per key in every object (`GsonJson`), because Gson's `JsonObject` is a map from key to element. How Gson settles a key repeated in the file's text is not modelled. The node-level functions (`FlattenNode`, `CountNodes`) also accept trees with a repeated key; on such a tree they flatten one subtree per member, which no document reaches.
- KotlinPoet's `createClassSpec`, `FileSpec` and the generated text are not modelled. The class name and `parentClassName` are function parameters.
- The `VssDataType` table is not part of this model. The builder takes it as the `TypeTable` parameter.
- `VssDataKey`, `VssPath`, `ROOT_KEY_VEHICLE` and `KEY_CHILDREN` are not part of this model. The model assumes the following:
  - the eight keys are spelled `uuid`, `type`, `description`, `comment`, `datatype`, `unit`, `min`, `max`;
  - `VssPath.leaf` is the text after the last dot;
  - the two constants are `Vehicle` and `children`.
- The input files are a `Set<File>`. The model takes them as a sequence, and the registry map keeps the resulting order.
- `ModelGenerator.NoNameError`: the message uses the node path, because the class spec's `toString` is not modelled.
- `hashCode` of a data key is a parameter. The order of the built property set is not modelled: it is a `set`.
- Two nodes whose generated class names coincide overwrite the same output file. The model keeps both records.
- `JsonParser.InvalidFile`: the rethrown `IOException` keeps its cause on the JVM; the model keeps only the message.
