/** ServiceTypesController: one service type declaration per service type extracted from
    the document, then a union of all of them, appended to the members of a template
    module and formatted. A formatter failure is raised as an exception. */
module ServiceTypesController {
  import opened Results
  import opened SyntaxTree
  import opened AsyncApi

  const FormatFailure: string := "Could not format the generated code, may be a syntax issue in the generated code"

  /** The type definition generated for each service type, in extraction order. */
  function ServiceDefinitions(useCases: UseCases, serviceTypes: seq<ServiceType>): (r: seq<TypeDefinition>)
    ensures |r| == |serviceTypes|
  {
    seq(|serviceTypes|, i requires 0 <= i < |serviceTypes| =>
      useCases.generateServiceTypeNode(serviceTypes[i].serviceTypeName, serviceTypes[i].remoteFunctions))
  }

  /** A name reference to each definition, in the same order. */
  function MemberReferences(definitions: seq<TypeDefinition>): (r: seq<TypeDescriptor>)
    ensures |r| == |definitions|
  {
    seq(|definitions|, i requires 0 <= i < |definitions| => SimpleNameReference(definitions[i].typeName))
  }

  /** The definitions as module members. */
  function DefinitionMembers(definitions: seq<TypeDefinition>): (r: seq<ModuleMember>)
    ensures |r| == |definitions|
  {
    seq(|definitions|, i requires 0 <= i < |definitions| => TypeDefinitionMember(definitions[i]))
  }

  /** The generated declarations: the service type definitions, then the union of their names. */
  function ServiceNodes(useCases: UseCases, serviceTypes: seq<ServiceType>, genericServiceType: string)
    : (r: seq<ModuleMember>)
    ensures |r| == |serviceTypes| + 1
  {
    var definitions := ServiceDefinitions(useCases, serviceTypes);
    DefinitionMembers(definitions)
      + [useCases.generateUnionDescriptorNode(MemberReferences(definitions), genericServiceType)]
  }

  /** The members of the new module: the template's, then the generated ones. */
  function ModuleMembers(useCases: UseCases, syntax: SyntaxLibrary, spec: string, balTemplate: string,
                         genericServiceType: string): (r: seq<ModuleMember>)
    ensures |r| == |syntax.parseMembers(balTemplate)| + |useCases.extractServiceTypes(useCases.readDocument(spec))| + 1
  {
    var serviceTypes := useCases.extractServiceTypes(useCases.readDocument(spec));
    AddAll(syntax.parseMembers(balTemplate), ServiceNodes(useCases, serviceTypes, genericServiceType))
  }

  /** The generated source: the formatted module, or the exception raised when it cannot be formatted. */
  function ServiceTypesSource(useCases: UseCases, syntax: SyntaxLibrary, spec: string, balTemplate: string,
                              genericServiceType: string): (r: Result<string>)
    ensures r.Err? ==> r.error == AsyncApiException(FormatFailure)
  {
    match syntax.format(ModuleMembers(useCases, syntax, spec, balTemplate, genericServiceType))
    case Some(text) => Ok(text)
    case None => Err(AsyncApiException(FormatFailure))
  }

  /** One definition per service type, in order; the union comes last, after all of them,
      named by the generic service type; its i-th member names the i-th definition, and it
      has exactly as many members as there are service types. */
  lemma ServiceNodesShape(useCases: UseCases, serviceTypes: seq<ServiceType>, genericServiceType: string)
    ensures var nodes := ServiceNodes(useCases, serviceTypes, genericServiceType);
      && |nodes| == |serviceTypes| + 1
      && (forall i :: 0 <= i < |serviceTypes| ==>
            nodes[i] == TypeDefinitionMember(useCases.generateServiceTypeNode(
                          serviceTypes[i].serviceTypeName, serviceTypes[i].remoteFunctions)))
      && exists references: seq<TypeDescriptor> ::
           && nodes[|serviceTypes|] == useCases.generateUnionDescriptorNode(references, genericServiceType)
           && |references| == |serviceTypes|
           && forall i :: 0 <= i < |serviceTypes| ==>
                references[i] == SimpleNameReference(nodes[i].definition.typeName)
  {
    var definitions := ServiceDefinitions(useCases, serviceTypes);
    var nodes := ServiceNodes(useCases, serviceTypes, genericServiceType);
    var references := MemberReferences(definitions);
    assert nodes[|serviceTypes|] == useCases.generateUnionDescriptorNode(references, genericServiceType);
  }

  /** The template's members are neither removed nor reordered: the new module is the
      template's members followed by the generated declarations. */
  lemma ModuleKeepsTemplate(useCases: UseCases, syntax: SyntaxLibrary, spec: string, balTemplate: string,
                            genericServiceType: string)
    ensures var template := syntax.parseMembers(balTemplate);
            var members := ModuleMembers(useCases, syntax, spec, balTemplate, genericServiceType);
            var serviceTypes := useCases.extractServiceTypes(useCases.readDocument(spec));
            && members[..|template|] == template
            && members[|template|..] == ServiceNodes(useCases, serviceTypes, genericServiceType)
  {
  }

  /** The source is the formatter's text when it succeeds; when it fails, the generation
      fails with the formatting exception and yields no text. */
  lemma ServiceTypesSourceOutcome(useCases: UseCases, syntax: SyntaxLibrary, spec: string, balTemplate: string,
                                  genericServiceType: string)
    ensures var members := ModuleMembers(useCases, syntax, spec, balTemplate, genericServiceType);
            var r := ServiceTypesSource(useCases, syntax, spec, balTemplate, genericServiceType);
            && (r.Ok? <==> syntax.format(members).Some?)
            && (r.Ok? ==> r.value == syntax.format(members).value)
            && (r.Err? ==> r.error == AsyncApiException(FormatFailure))
  {
  }

  /** generateBalCode: collects the definitions and the name references in two lists, one
      service type at a time, appends the union and formats the spliced module. */
  method GenerateBalCode(useCases: UseCases, syntax: SyntaxLibrary, spec: string, balTemplate: string,
                         genericServiceType: string) returns (r: Result<string>)
    ensures r == ServiceTypesSource(useCases, syntax, spec, balTemplate, genericServiceType)
  {
    var asyncApiSpec := useCases.readDocument(spec);
    var serviceTypes := useCases.extractServiceTypes(asyncApiSpec);
    ghost var definitions := ServiceDefinitions(useCases, serviceTypes);

    var serviceNodes: seq<ModuleMember> := [];
    var serviceTypeNodes: seq<TypeDescriptor> := [];
    for i := 0 to |serviceTypes|
      invariant serviceNodes == DefinitionMembers(definitions[..i])
      invariant serviceTypeNodes == MemberReferences(definitions[..i])
    {
      var service := serviceTypes[i];
      var typeDefinitionNode := useCases.generateServiceTypeNode(service.serviceTypeName, service.remoteFunctions);
      serviceTypeNodes := serviceTypeNodes + [SimpleNameReference(typeDefinitionNode.typeName)];
      serviceNodes := serviceNodes + [TypeDefinitionMember(typeDefinitionNode)];
    }
    assert definitions[..|serviceTypes|] == definitions;
    serviceNodes := serviceNodes + [useCases.generateUnionDescriptorNode(serviceTypeNodes, genericServiceType)];

    var oldMembers := syntax.parseMembers(balTemplate);
    var newMembers := AddAll(oldMembers, serviceNodes);
    var formatted := syntax.format(newMembers);
    if formatted.None? {
      return Err(AsyncApiException(FormatFailure));
    }
    return Ok(formatted.value);
  }
}
