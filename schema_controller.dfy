/** SchemaController: one record declaration per schema of the document's components,
    appended to the members of a template module and formatted. The result only goes to
    the log: the formatted text at debug level, or, when the formatter fails, the
    unformatted text at error level; the failure is not raised. */
module SchemaController {
  import opened Results
  import opened SyntaxTree
  import opened AsyncApi

  const GeneratedMessage: string := "Generated the source code for the schemas: "
  const FormatFailureMessage: string :=
    "Could not format the generated code, may be syntax issue in the generated code. Generated code: "

  /** A log record: its level and its message with the placeholder filled in. */
  datatype LogEntry = Debug(message: string) | Error(message: string)

  /** The record declaration generated for each schema, in the order of the schema map. */
  function RecordNodes(useCases: UseCases, document: AsyncApiDocument): (r: seq<ModuleMember>)
    ensures |r| == |document.schemas|
  {
    seq(|document.schemas|, i requires 0 <= i < |document.schemas| =>
      useCases.generateRecordNode(document, document.schemas[i]))
  }

  /** The members of the new module: the template's, then the records. */
  function ModuleMembers(useCases: UseCases, syntax: SyntaxLibrary, spec: string, balTemplate: string)
    : (r: seq<ModuleMember>)
    ensures |r| == |syntax.parseMembers(balTemplate)| + |useCases.readDocument(spec).schemas|
  {
    AddAll(syntax.parseMembers(balTemplate), RecordNodes(useCases, useCases.readDocument(spec)))
  }

  /** What generateBalCode logs: at debug level exactly when the module could be formatted. */
  function SchemaLog(useCases: UseCases, syntax: SyntaxLibrary, spec: string, balTemplate: string): (r: LogEntry)
    ensures r.Debug? <==> syntax.format(ModuleMembers(useCases, syntax, spec, balTemplate)).Some?
  {
    var members := ModuleMembers(useCases, syntax, spec, balTemplate);
    match syntax.format(members)
    case Some(text) => Debug(GeneratedMessage + text)
    case None => Error(FormatFailureMessage + syntax.toSourceCode(members))
  }

  /** The data types source the caller needs: the formatted module, or the unformatted one
      when it cannot be formatted. */
  function DataTypesSource(useCases: UseCases, syntax: SyntaxLibrary, spec: string, balTemplate: string): (r: string)
    ensures var formatted := syntax.format(ModuleMembers(useCases, syntax, spec, balTemplate));
            formatted.Some? ==> r == formatted.value
  {
    var members := ModuleMembers(useCases, syntax, spec, balTemplate);
    match syntax.format(members)
    case Some(text) => text
    case None => syntax.toSourceCode(members)
  }

  /** One record per schema, in order, so as many records as schemas; the template's members
      come first and are kept as they are, and when the template parses to no members the
      module holds exactly the records. */
  lemma ModuleMembersShape(useCases: UseCases, syntax: SyntaxLibrary, spec: string, balTemplate: string)
    ensures var document := useCases.readDocument(spec);
            var template := syntax.parseMembers(balTemplate);
            var members := ModuleMembers(useCases, syntax, spec, balTemplate);
            && |members| == |template| + |document.schemas|
            && members[..|template|] == template
            && (forall i :: 0 <= i < |document.schemas| ==>
                  members[|template| + i] == useCases.generateRecordNode(document, document.schemas[i]))
            && (template == [] ==> members == RecordNodes(useCases, document))
  {
    var document := useCases.readDocument(spec);
    var template := syntax.parseMembers(balTemplate);
    var members := ModuleMembers(useCases, syntax, spec, balTemplate);
    forall i | 0 <= i < |document.schemas|
      ensures members[|template| + i] == useCases.generateRecordNode(document, document.schemas[i])
    {
      assert members[|template| + i] == members[|template|..][i];
    }
    if template == [] {
      assert members == [] + RecordNodes(useCases, document);
    }
  }

  /** The log always carries the generated text: the formatted one at debug level, or the
      unformatted one at error level when the formatter fails. */
  lemma SchemaLogCarriesSource(useCases: UseCases, syntax: SyntaxLibrary, spec: string, balTemplate: string)
    ensures var members := ModuleMembers(useCases, syntax, spec, balTemplate);
            var logged := SchemaLog(useCases, syntax, spec, balTemplate);
            var text := DataTypesSource(useCases, syntax, spec, balTemplate);
            && (logged.Debug? <==> syntax.format(members).Some?)
            && logged.message == (if logged.Debug? then GeneratedMessage else FormatFailureMessage) + text
  {
  }

  /** generateBalCode as written: collects the records one schema at a time, splices them
      into the template and formats the module; the outcome is only logged, a formatter
      failure included, and nothing is returned to the caller. */
  method GenerateBalCode(useCases: UseCases, syntax: SyntaxLibrary, spec: string, balTemplate: string)
    returns (logged: LogEntry)
    ensures logged == SchemaLog(useCases, syntax, spec, balTemplate)
  {
    var asyncApiSpec := useCases.readDocument(spec);
    var recordNodes: seq<ModuleMember> := [];
    for i := 0 to |asyncApiSpec.schemas|
      invariant recordNodes == RecordNodes(useCases, asyncApiSpec)[..i]
    {
      recordNodes := recordNodes + [useCases.generateRecordNode(asyncApiSpec, asyncApiSpec.schemas[i])];
    }
    assert recordNodes == RecordNodes(useCases, asyncApiSpec);

    var oldMembers := syntax.parseMembers(balTemplate);
    var newMembers := AddAll(oldMembers, recordNodes);
    var formatted := syntax.format(newMembers);
    if formatted.Some? {
      logged := Debug(GeneratedMessage + formatted.value);
    } else {
      logged := Error(FormatFailureMessage + syntax.toSourceCode(newMembers));
    }
  }

  /** generateBalCode as its caller uses it: the same steps and the same log, and the
      generated text returned. It never fails: a formatter failure yields the unformatted text. */
  method GenerateDataTypes(useCases: UseCases, syntax: SyntaxLibrary, spec: string, balTemplate: string)
    returns (text: string, logged: LogEntry)
    ensures text == DataTypesSource(useCases, syntax, spec, balTemplate)
    ensures logged == SchemaLog(useCases, syntax, spec, balTemplate)
  {
    var asyncApiSpec := useCases.readDocument(spec);
    var recordNodes: seq<ModuleMember> := [];
    for i := 0 to |asyncApiSpec.schemas|
      invariant recordNodes == RecordNodes(useCases, asyncApiSpec)[..i]
    {
      recordNodes := recordNodes + [useCases.generateRecordNode(asyncApiSpec, asyncApiSpec.schemas[i])];
    }
    assert recordNodes == RecordNodes(useCases, asyncApiSpec);

    var oldMembers := syntax.parseMembers(balTemplate);
    var newMembers := AddAll(oldMembers, recordNodes);
    var formatted := syntax.format(newMembers);
    if formatted.Some? {
      text := formatted.value;
      logged := Debug(GeneratedMessage + text);
    } else {
      text := syntax.toSourceCode(newMembers);
      logged := Error(FormatFailureMessage + text);
    }
  }
}
