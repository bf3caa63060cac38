/** The part of the Ballerina syntax tree the controllers touch: a module is a list of
    member declarations, some of which are type definitions. Parsing a template, formatting
    a module and printing it are done by the Ballerina compiler libraries; here they are
    the fields of a `SyntaxLibrary` value that the caller supplies. */
module SyntaxTree {
  import opened Results

  /** A type descriptor naming a declared type (a simple name reference). */
  datatype TypeDescriptor = SimpleNameReference(name: string)

  /** A type definition: the defined name and the text of its descriptor. */
  datatype TypeDefinition = TypeDefinition(typeName: string, descriptor: string)

  /** A module member declaration. Members the controllers do not inspect are kept as
      their source text. */
  datatype ModuleMember =
    | TypeDefinitionMember(definition: TypeDefinition)
    | OtherMember(source: string)

  /** The compiler libraries: the members of the module a text parses to, the formatted
      text of a module (None when the formatter throws), and its unformatted text. */
  datatype SyntaxLibrary = SyntaxLibrary(
    parseMembers: string -> seq<ModuleMember>,
    format: seq<ModuleMember> -> Option<string>,
    toSourceCode: seq<ModuleMember> -> string)

  /** members().addAll(nodes): a new member list that keeps every existing member, in
      place, and puts the new ones after them, in order. */
  function AddAll(members: seq<ModuleMember>, nodes: seq<ModuleMember>): (r: seq<ModuleMember>)
    ensures |r| == |members| + |nodes|
    ensures r[..|members|] == members
    ensures r[|members|..] == nodes
  {
    members + nodes
  }
}
