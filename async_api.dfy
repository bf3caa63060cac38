/** The AsyncAPI document and the use cases of the code generator that the controllers
    call. The use cases (record, service type and union generation, service type
    extraction) and the JSON reader are not part of this model; they are the fields of a
    `UseCases` value that the caller supplies. */
module AsyncApi {
  import opened SyntaxTree

  /** A schema of the document's components, kept as its JSON text. */
  datatype Schema = Schema(json: string)

  /** One entry of components.schemas: the schema's name and the schema. */
  datatype SchemaEntry = SchemaEntry(name: string, schema: Schema)

  /** The parsed document. The schemas are in the iteration order of the document's
      schema map; the rest of the document is kept as its JSON text. */
  datatype AsyncApiDocument = AsyncApiDocument(schemas: seq<SchemaEntry>, json: string)

  /** A remote function of a service type. */
  datatype RemoteFunction = RemoteFunction(name: string)

  /** A service type extracted from the document. */
  datatype ServiceType = ServiceType(serviceTypeName: string, remoteFunctions: seq<RemoteFunction>)

  /** The use cases and the document reader. */
  datatype UseCases = UseCases(
    readDocument: string -> AsyncApiDocument,
    generateRecordNode: (AsyncApiDocument, SchemaEntry) -> ModuleMember,
    extractServiceTypes: AsyncApiDocument -> seq<ServiceType>,
    generateServiceTypeNode: (string, seq<RemoteFunction>) -> TypeDefinition,
    generateUnionDescriptorNode: (seq<TypeDescriptor>, string) -> ModuleMember)
}
