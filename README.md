# AsyncAPI to Ballerina code generator: a verified model of its core

The code generator reads an AsyncAPI specification and writes four Ballerina source files into an output directory: data types, service types, a listener and a dispatcher. This project models four parts of it in Dafny and proves properties of the model:

- **Identifier normalisation** (`CodegenUtils`). `escapeIdentifier` turns a name taken from the document into a Ballerina identifier. `getValidName` derives type, field and function names from such a name.
- **Service types** (`ServiceTypesController`). It generates one service type definition per service type extracted from the document, then a union of their names. It appends these to the members of a template module and formats the module. A formatter failure is raised as an exception.
- **Data types** (`SchemaController`). It generates one record per schema of the document's components and splices the records into a template in the same way. A formatter failure is only logged.
- **Orchestration** (`CodeGenerator`). The path's ending selects how the specification is read. All four sources are computed before the first file is written, and the writes happen in a fixed order.

## Modelling choices

- Files and modules: `results.dfy` (exceptions and results), `codegen_utils.dfy`, `syntax_tree.dfy` (module members and the compiler libraries), `async_api.dfy` (the document and the use cases), `schema_controller.dfy`, `service_types_controller.dfy` and `code_generator.dfy`.
- **Escape pattern and reserved words.** The escape pattern and the reserved-word list are constants whose values are not part of this model. Each normaliser therefore takes them as parameters:
  - the set `separators` holds the characters the one-character pattern matches;
  - the set `keywords` holds the reserved words.
  - `replaceAll(pattern, "\\\\$1")` is `EscapeSpecials`, which puts a backslash before each separator.
  - `String.split` is `Split`. It keeps leading empty fields and drops trailing ones, and the empty text splits into one empty part.
  - Case mapping and `isBlank` are restricted to ASCII.
- **Crashes.** Two Java crashes become the error `StringIndexOutOfBounds` of a `Result`:
  - `charAt(length - 2)` on the escaped text "?". This happens when '?' is not a separator.
  - `substring(0, 1)` on an empty intermediate name.

  The normalisers are therefore not total, and the model says so.
- **External collaborators.** The use cases the controllers call, the JSON reader, the Ballerina parser, formatter and printer, YAML conversion, and the listener and dispatcher controllers are not part of this model. They are function-typed fields of the values `UseCases`, `SyntaxLibrary` and `Collaborators`:
  - the formatter returns `None` where it throws;
  - the listener and dispatcher controllers return a `Result`.
- **Unions.** The controller does no de-duplication. The union lists every extracted service type, repeats included.
- **Files and logging.**
  - File reads are parameters of `Generate`: the specification text and the two templates.
  - Writes are an ordered log in the `FileRepository` class.
  - A log4j call is a `LogEntry` value: its level and its message with the placeholder filled in.

## Model

| member | source | states |
|---|---|---|
| CodegenUtils.EscapeIdentifier | src/main/java/io/ballerina/asyncapi/codegenerator/usecase/utils/CodegenUtils.java:33-62 | Its result equals `EscapedIdentifier`. A bare identifier that is not reserved is returned unchanged. The name "error", when it is reserved, becomes exactly "_error". An escaped name that does not end in '?' is always returned quoted. |
| CodegenUtils.EscapedIdentifier | src/main/java/io/ballerina/asyncapi/codegenerator/usecase/utils/CodegenUtils.java:33-62 | escapeIdentifier as a value. Its only failure is an index error, and every name it returns is non-empty. |
| CodegenUtils.EscapedMarkerShape | src/main/java/io/ballerina/asyncapi/codegenerator/usecase/utils/CodegenUtils.java:41-43 | The escaped text ends in '?' exactly when the name does. It is then too short to look behind the marker exactly when the name is "?" and '?' is not a separator. |
| CodegenUtils.EscapedMarkedName | src/main/java/io/ballerina/asyncapi/codegenerator/usecase/utils/CodegenUtils.java:42-55 | With '?' as a separator, a name ending in '?' comes out as its escaped stem followed by an unescaped '?'. Only the one backslash before the marker is removed. The result is quoted exactly when the stem is reserved. |
| CodegenUtils.EscapedIdentifierFails | src/main/java/io/ballerina/asyncapi/codegenerator/usecase/utils/CodegenUtils.java:42-43 | escapeIdentifier fails only on the name "?" when '?' is not a separator. It then fails with an index error. |
| CodegenUtils.EscapedIdentifierReadsBack | src/main/java/io/ballerina/asyncapi/codegenerator/usecase/utils/CodegenUtils.java:33-61 | When the backslash, the quote and '?' are separators, every name other than "error" is escaped losslessly. Dropping the quote and resolving the escapes gives the name back. |
| CodegenUtils.EscapedIdentifierIsValid | src/main/java/io/ballerina/asyncapi/codegenerator/usecase/utils/CodegenUtils.java:33-61 | With '?' as a separator, the result is always a legal identifier: bare and not reserved, "_error", quoted, or an escaped stem that is not reserved followed by '?'. A reserved word never comes back bare. |
| CodegenUtils.EscapeSpecialsEnds | src/main/java/io/ballerina/asyncapi/codegenerator/usecase/utils/CodegenUtils.java:41 | Escaping keeps the last character last. It puts a backslash before that character when it is a separator, and the text starts with a backslash exactly when its first character is a separator. |
| CodegenUtils.EscapeSpecialsAppend | src/main/java/io/ballerina/asyncapi/codegenerator/usecase/utils/CodegenUtils.java:41 | Escaping works character by character, so it distributes over concatenation. |
| CodegenUtils.EscapeSpecials | src/main/java/io/ballerina/asyncapi/codegenerator/usecase/utils/CodegenUtils.java:41 | Escaping never shortens the text. |
| CodegenUtils.EscapeSpecialsLength | src/main/java/io/ballerina/asyncapi/codegenerator/usecase/utils/CodegenUtils.java:41 | Escaping adds exactly one character, the backslash, per separator character of the text. |
| CodegenUtils.EscapedIsWellEscaped | src/main/java/io/ballerina/asyncapi/codegenerator/usecase/utils/CodegenUtils.java:41 | In an escaped text, every separator character is preceded by a backslash. |
| CodegenUtils.UnescapeAfterEscape | src/main/java/io/ballerina/asyncapi/codegenerator/usecase/utils/CodegenUtils.java:41 | When the backslash is a separator, resolving the escapes of an escaped text gives the text back, whatever follows it. |
| CodegenUtils.MarkerEscape | src/main/java/io/ballerina/asyncapi/codegenerator/usecase/utils/CodegenUtils.java:41-42 | Escaping a name that ends in '?' escapes the stem and then the marker. |
| CodegenUtils.WithoutMarkerEscape | src/main/java/io/ballerina/asyncapi/codegenerator/usecase/utils/CodegenUtils.java:43-46 | Removing the backslash before the trailing '?' keeps the '?' and removes at most one character. |
| CodegenUtils.MarkerUnescaped | src/main/java/io/ballerina/asyncapi/codegenerator/usecase/utils/CodegenUtils.java:43-46 | Deleting the backslash of an escaped trailing '?' leaves the stem followed by a plain '?'. |
| CodegenUtils.MarkedNameValid | src/main/java/io/ballerina/asyncapi/codegenerator/usecase/utils/CodegenUtils.java:48-54 | An escaped stem followed by '?' is a quoted identifier once quoted. It is a marked name when the stem is not reserved. |
| CodegenUtils.MarkedNameReadBack | src/main/java/io/ballerina/asyncapi/codegenerator/usecase/utils/CodegenUtils.java:48-54 | An escaped stem followed by '?' reads back as the name, whether quoted or not. |
| CodegenUtils.QuotedBranch | src/main/java/io/ballerina/asyncapi/codegenerator/usecase/utils/CodegenUtils.java:41-57 | Without a trailing '?', the escaped text has none either. Its quoted form is a quoted identifier and reads back as the name. |
| CodegenUtils.GetValidName | src/main/java/io/ballerina/asyncapi/codegenerator/usecase/utils/CodegenUtils.java:70-92 | The loop over the split parts computes `ValidName`. The invariant is that the builder holds the joined pieces of the parts seen so far. |
| CodegenUtils.Fields | src/main/java/io/ballerina/asyncapi/codegenerator/usecase/utils/CodegenUtils.java:74 | Splitting with the field-keeping rule yields exactly one more field than the name has separator characters. |
| CodegenUtils.FieldsRejoin | src/main/java/io/ballerina/asyncapi/codegenerator/usecase/utils/CodegenUtils.java:74 | Rejoining the fields with the separator characters of the name, in their order, gives the name back. So each field is exactly the text between two consecutive separators. |
| CodegenUtils.FieldsSeparatorFree | src/main/java/io/ballerina/asyncapi/codegenerator/usecase/utils/CodegenUtils.java:74 | No field of a split holds a separator. |
| CodegenUtils.FieldsConcat | src/main/java/io/ballerina/asyncapi/codegenerator/usecase/utils/CodegenUtils.java:74 | Joined, the fields are the name with its separators removed. |
| CodegenUtils.FieldsOfPlain | src/main/java/io/ballerina/asyncapi/codegenerator/usecase/utils/CodegenUtils.java:74 | A name without separators splits into itself alone. |
| CodegenUtils.DropTrailingEmptyPrefix | src/main/java/io/ballerina/asyncapi/codegenerator/usecase/utils/CodegenUtils.java:74 | Split keeps a prefix of the fields. Every field it drops is empty. |
| CodegenUtils.DropTrailingEmpty | src/main/java/io/ballerina/asyncapi/codegenerator/usecase/utils/CodegenUtils.java:74 | Removing trailing empty fields never adds a field, and what is kept does not end in an empty field. |
| CodegenUtils.Split | src/main/java/io/ballerina/asyncapi/codegenerator/usecase/utils/CodegenUtils.java:74 | A name splits into at most one part more than it has separator characters. A non-empty name never splits into parts that end in an empty part. |
| CodegenUtils.SplitManyParts | src/main/java/io/ballerina/asyncapi/codegenerator/usecase/utils/CodegenUtils.java:74-78 | A name splits into more than one part, and so gets its parts title-cased, exactly when some separator comes before a character that is not a separator. |
| CodegenUtils.FieldsLaterNonEmpty | src/main/java/io/ballerina/asyncapi/codegenerator/usecase/utils/CodegenUtils.java:74 | Some field after the first is non-empty exactly when a separator comes before a character that is not a separator. |
| CodegenUtils.SplitParts | src/main/java/io/ballerina/asyncapi/codegenerator/usecase/utils/CodegenUtils.java:74 | The parts of a split hold no separator. Together they are the name with its separators removed. |
| CodegenUtils.SplitAllBlank | src/main/java/io/ballerina/asyncapi/codegenerator/usecase/utils/CodegenUtils.java:74-77 | Every part is blank exactly when the name holds only separators and white space. |
| CodegenUtils.TitleCase | src/main/java/io/ballerina/asyncapi/codegenerator/usecase/utils/CodegenUtils.java:79-80 | Title-casing keeps the length of a part. |
| CodegenUtils.CaseFirst | src/main/java/io/ballerina/asyncapi/codegenerator/usecase/utils/CodegenUtils.java:87-91 | Re-casing the first character keeps the length of the name. |
| CodegenUtils.PieceBlank | src/main/java/io/ballerina/asyncapi/codegenerator/usecase/utils/CodegenUtils.java:77-83 | A blank part contributes nothing. Any other part contributes a piece that is not blank, title-cased or not. |
| CodegenUtils.JoinPartsBlank | src/main/java/io/ballerina/asyncapi/codegenerator/usecase/utils/CodegenUtils.java:76-84 | The builder stays empty when every part is blank. Otherwise it ends up not blank. |
| CodegenUtils.JoinPartsLower | src/main/java/io/ballerina/asyncapi/codegenerator/usecase/utils/CodegenUtils.java:76-84 | Up to case, the builder holds the concatenated parts, provided blank parts are empty. |
| CodegenUtils.JoinPartsSeparatorFree | src/main/java/io/ballerina/asyncapi/codegenerator/usecase/utils/CodegenUtils.java:76-84 | Joining parts that hold no separator yields a name with no separator, when no letter or digit is a separator. |
| CodegenUtils.IntermediateNameBlank | src/main/java/io/ballerina/asyncapi/codegenerator/usecase/utils/CodegenUtils.java:73-86 | The name before re-casing is blank only when it is empty. |
| CodegenUtils.ValidNameFails | src/main/java/io/ballerina/asyncapi/codegenerator/usecase/utils/CodegenUtils.java:73-91 | getValidName fails exactly when the name is not all digits and holds only separators and white space. The empty name is such a name. The failure is an index error. |
| CodegenUtils.ValidName | src/main/java/io/ballerina/asyncapi/codegenerator/usecase/utils/CodegenUtils.java:70-92 | getValidName as a value. Its only failure is an index error. A result is non-empty and as long as the name before re-casing. |
| CodegenUtils.ValidNameStable | src/main/java/io/ballerina/asyncapi/codegenerator/usecase/utils/CodegenUtils.java:73-91 | A result with no separator comes back unchanged from a second call in the same context. It is one part, so it is not title-cased, and re-casing its first character is stable. |
| CodegenUtils.ValidNameSeparatorFree | src/main/java/io/ballerina/asyncapi/codegenerator/usecase/utils/CodegenUtils.java:73-91 | When no letter or digit is a separator, a result holds no separator. |
| CodegenUtils.ValidNameIdempotent | src/main/java/io/ballerina/asyncapi/codegenerator/usecase/utils/CodegenUtils.java:73-91 | When no letter or digit is a separator, getValidName is idempotent. |
| CodegenUtils.ValidNameKeepsCharacters | src/main/java/io/ballerina/asyncapi/codegenerator/usecase/utils/CodegenUtils.java:73-91 | With white space among the separators, a result equals the name without its separators, up to case. No other character is lost, added or reordered. |
| CodegenUtils.ValidNameOfSnakeCase | src/main/java/io/ballerina/asyncapi/codegenerator/usecase/utils/CodegenUtils.java:74-88 | "aB_c" in a type context gives "AbC": each of the several parts is title-cased. |
| CodegenUtils.ValidNameOfLeadingSeparator | src/main/java/io/ballerina/asyncapi/codegenerator/usecase/utils/CodegenUtils.java:74-90 | "_AB" in a field context gives "ab". The blank leading part counts towards "more than one part", so "AB" is title-cased before the first letter is lowered. |
| CodegenUtils.ValidNameOfTrailingSeparator | src/main/java/io/ballerina/asyncapi/codegenerator/usecase/utils/CodegenUtils.java:74-88 | "aB_" in a type context gives "AB". The trailing empty field is dropped, so the single part is not title-cased. |
| SyntaxTree.AddAll | src/main/java/io/ballerina/asyncapi/codegenerator/controller/ServiceTypesController.java:68 | The new member list keeps the existing members in place and in order, with the new ones after them in order. |
| ServiceTypesController.ServiceNodesShape | src/main/java/io/ballerina/asyncapi/codegenerator/controller/ServiceTypesController.java:51-63 | The controller generates one definition per service type, in extraction order, and then the union, last, named by the generic service type. The union's i-th member names the i-th definition, and the union has as many members as there are service types. |
| ServiceTypesController.ServiceDefinitions | src/main/java/io/ballerina/asyncapi/codegenerator/controller/ServiceTypesController.java:53-56 | One type definition per extracted service type. |
| ServiceTypesController.MemberReferences | src/main/java/io/ballerina/asyncapi/codegenerator/controller/ServiceTypesController.java:57-58 | One name reference per definition. |
| ServiceTypesController.DefinitionMembers | src/main/java/io/ballerina/asyncapi/codegenerator/controller/ServiceTypesController.java:59 | One module member per definition. |
| ServiceTypesController.ServiceNodes | src/main/java/io/ballerina/asyncapi/codegenerator/controller/ServiceTypesController.java:51-63 | The generated declarations number one per service type plus the union. |
| ServiceTypesController.ModuleMembers | src/main/java/io/ballerina/asyncapi/codegenerator/controller/ServiceTypesController.java:65-68 | The new module has the template's members plus one declaration per service type plus the union. |
| ServiceTypesController.ServiceTypesSource | src/main/java/io/ballerina/asyncapi/codegenerator/controller/ServiceTypesController.java:71-76 | The only failure is the formatting exception, with its exact message. |
| ServiceTypesController.ModuleKeepsTemplate | src/main/java/io/ballerina/asyncapi/codegenerator/controller/ServiceTypesController.java:65-69 | The new module is the template's members, unchanged, followed by the generated declarations. |
| ServiceTypesController.ServiceTypesSourceOutcome | src/main/java/io/ballerina/asyncapi/codegenerator/controller/ServiceTypesController.java:71-76 | On success the result is the formatter's text. Otherwise it is the formatting exception with its exact message, and no text. |
| ServiceTypesController.GenerateBalCode | src/main/java/io/ballerina/asyncapi/codegenerator/controller/ServiceTypesController.java:45-77 | The loop that fills the two lists and then appends the union computes `ServiceTypesSource`. The invariants tie each list to the prefix of the definitions. |
| SchemaController.ModuleMembersShape | src/main/java/io/ballerina/asyncapi/codegenerator/controller/SchemaController.java:47-57 | The controller generates one record per schema, in map order, as many as there are schemas. They follow the template's unchanged members. When the template parses to no members, the module is exactly the records. The model does not assume that the empty template used by the generator parses to no members. |
| SchemaController.RecordNodes | src/main/java/io/ballerina/asyncapi/codegenerator/controller/SchemaController.java:47-51 | One record per schema of the document's components. |
| SchemaController.ModuleMembers | src/main/java/io/ballerina/asyncapi/codegenerator/controller/SchemaController.java:53-56 | The new module has the template's members plus one record per schema. |
| SchemaController.SchemaLog | src/main/java/io/ballerina/asyncapi/codegenerator/controller/SchemaController.java:59-65 | The entry is logged at debug level exactly when the module could be formatted, and at error level otherwise. |
| SchemaController.DataTypesSource | src/main/java/io/ballerina/asyncapi/codegenerator/controller/SchemaController.java:59-64 | The data types text is the formatted module whenever the formatter succeeds. It is never a failure. |
| SchemaController.SchemaLogCarriesSource | src/main/java/io/ballerina/asyncapi/codegenerator/controller/SchemaController.java:59-65 | Exactly one message is logged. At debug level it carries the formatted text; when the formatter fails, it carries the unformatted text at error level. The failure is not raised. |
| SchemaController.GenerateBalCode | src/main/java/io/ballerina/asyncapi/codegenerator/controller/SchemaController.java:44-66 | As written, the method's only output is the log entry `SchemaLog`. The loop invariant ties the record list to the prefix of `RecordNodes`. |
| SchemaController.GenerateDataTypes | src/main/java/io/ballerina/asyncapi/codegenerator/controller/SchemaController.java:44-66 | The corrected method logs the same entry and returns the data types text. That text is formatted, or unformatted when the formatter fails, and the method never fails. |
| Application.OutputDirectory | src/main/java/io/ballerina/asyncapi/codegenerator/application/CodeGenerator.java:74-77 | The output path gets a trailing '/' only if it lacks one. The result always ends in '/' and extends the path by at most one character. |
| Application.OutputDirectoryIdempotent | src/main/java/io/ballerina/asyncapi/codegenerator/application/CodeGenerator.java:74-77 | Taking the output directory twice changes nothing. |
| Application.SpecAsJsonModes | src/main/java/io/ballerina/asyncapi/codegenerator/application/CodeGenerator.java:45-51 | A ".json" path is taken unchanged. Otherwise a "yaml" or "yml" ending is converted. Any other ending fails with "Unknown file type: " followed by the path. |
| Application.SpecAsJsonEndings | src/main/java/io/ballerina/asyncapi/codegenerator/application/CodeGenerator.java:45-51 | "specyaml" is converted because the check has no dot. "a.yaml.json" is taken as JSON because the JSON check comes first. "spec.txt" is rejected. |
| Application.SpecAsJson | src/main/java/io/ballerina/asyncapi/codegenerator/application/CodeGenerator.java:45-51 | A ".json" path gives the file content unchanged. Every failure is the exception "Unknown file type: " followed by the path. |
| Application.UnknownFileTypeRejected | src/main/java/io/ballerina/asyncapi/codegenerator/application/CodeGenerator.java:45-51 | An unknown file type is rejected before any source is generated. The outcome does not depend on any controller. |
| Application.ControllerFailureWritesNothing | src/main/java/io/ballerina/asyncapi/codegenerator/application/CodeGenerator.java:53-71 | A failing service types, listener or dispatcher controller ends the generation with an exception, so nothing is written. |
| Application.WritesInOrder | src/main/java/io/ballerina/asyncapi/codegenerator/application/CodeGenerator.java:53-71 | On success exactly four files are written. The order is data types, service types, listener, dispatcher. Each file is the output directory plus its configured name, and each holds its controller's source. |
| Application.GeneratedSources | src/main/java/io/ballerina/asyncapi/codegenerator/application/CodeGenerator.java:53-65 | On success there are four sources. The data types source never causes a failure: only the service types, listener or dispatcher controller can fail. |
| Application.GenerationResult | src/main/java/io/ballerina/asyncapi/codegenerator/application/CodeGenerator.java:41-72 | A specification that cannot be read as JSON ends the generation with that exception. On success there are exactly four writes. |
| Application.FileRepository.constructor | src/main/java/io/ballerina/asyncapi/codegenerator/application/CodeGenerator.java:42 | A new repository has written nothing. |
| Application.FileRepository.WriteToFile | src/main/java/io/ballerina/asyncapi/codegenerator/application/CodeGenerator.java:68-71 | Each write is recorded after the earlier ones. |
| Application.CodeGenerator.constructor | src/main/java/io/ballerina/asyncapi/codegenerator/application/CodeGenerator.java:35-38 | The generator keeps the specification path and the output path. |
| Application.CodeGenerator.Generate | src/main/java/io/ballerina/asyncapi/codegenerator/application/CodeGenerator.java:41-72 | On success, the files of `GenerationResult` are appended to the repository's writes, in order. On failure the outcome carries the exception and nothing is written. |

## Left out

- Reading the specification file and the listener and dispatcher templates from storage is not modelled. Their contents are parameters of `CodeGenerator.Generate`, and a read failure is not modelled.
- The repository is created inside `generate` in the source. Here it is passed in, and a write failure is not modelled.
- YAML to JSON conversion and JSON parsing are total functions in this model. Their failures, and a document without components, are not modelled.
- UseCases: the use cases are total functions here, so an exception raised by record, service type or union generation, or by service type extraction, is not modelled. As a result `SchemaController.DataTypesSource` never fails, and `Application.ControllerFailureWritesNothing` covers failures of the service types, listener and dispatcher controllers but not a failing schema controller. The use-case interface is not part of this model, and the schema controller declares no exception.
- SyntaxLibrary: parsing is uninterpreted, so the model does not assume that the empty template passed by `generate` parses to no members. `SchemaController.ModuleMembersShape` states the exact-records property only for a template that parses to no members.
- The use cases that generate records, service types and the union, and that extract service types, are uninterpreted functions. The rules they implement (type mapping, grouping of operations into services) are not part of this model, and neither are the listener and dispatcher controllers.
- The Ballerina parser, formatter and printer are uninterpreted functions over member lists.
- The values of the escape pattern, the reserved words, the generic service type name and the file names are parameters.
- Case mapping beyond ASCII (Locale.ENGLISH on other characters) is not modelled, nor is white space beyond ASCII for `isBlank`.
- A name that is `null` is not modelled.
- Logging is a returned `LogEntry` value rather than a side effect.

## Findings

| source | as written | input that shows it | evidently intended | confidence | as-written member | corrected member |
|---|---|---|---|---|---|---|
| src/main/java/io/ballerina/asyncapi/codegenerator/controller/SchemaController.java:44,59-61 | `generateBalCode` is declared `void`. The formatted data types text only goes into a debug log message, and a formatter failure only into an error log message. | Any specification. The call at src/main/java/io/ballerina/asyncapi/codegenerator/application/CodeGenerator.java:54 assigns the result to a `String`, but there is no result to assign. | Return the generated data types text so that the data types file gets it. The unformatted text is returned when formatting fails, since that failure is only logged. | not executed | SchemaController.GenerateBalCode (with SchemaController.SchemaLogCarriesSource: the text reaches only the log) | SchemaController.GenerateDataTypes (used by Application.CodeGenerator.Generate) |
