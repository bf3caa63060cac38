/** CodeGenerator: reads the AsyncAPI specification (JSON as it is, YAML converted to
    JSON), computes the four generated Ballerina sources and only then writes them, in a
    fixed order, into the output directory. */
module Application {
  import opened Results
  import opened SyntaxTree
  import opened AsyncApi
  import SchemaController
  import ServiceTypesController

  const UnknownFileType: string := "Unknown file type: "

  /** The configured names: the union type of all service types, and the names of the four
      generated files. */
  datatype Constants = Constants(
    genericServiceType: string,
    dataTypesFile: string,
    serviceTypesFile: string,
    listenerFile: string,
    dispatcherFile: string)

  /** What the generator calls but this model does not define: the YAML to JSON
      conversion, the use cases and compiler libraries, and the listener and dispatcher
      controllers, which take the JSON specification and a template. */
  datatype Collaborators = Collaborators(
    convertYamlToJson: string -> string,
    useCases: UseCases,
    syntax: SyntaxLibrary,
    listenerController: (string, string) -> Result<string>,
    dispatcherController: (string, string) -> Result<string>)

  /** One file written: its path and its content. */
  datatype FileWrite = FileWrite(path: string, content: string)

  predicate EndsWith(s: string, suffix: string)
  {
    |suffix| <= |s| && s[|s| - |suffix|..] == suffix
  }

  /** getOutputDirectory: the output path with a trailing '/'. */
  function OutputDirectory(outputPath: string): (r: string)
    ensures EndsWith(r, "/")
    ensures |outputPath| <= |r| <= |outputPath| + 1 && r[..|outputPath|] == outputPath
    ensures EndsWith(outputPath, "/") ==> r == outputPath
  {
    if EndsWith(outputPath, "/") then outputPath else outputPath + "/"
  }

  /** Taking the output directory of an output directory changes nothing. */
  lemma OutputDirectoryIdempotent(outputPath: string)
    ensures OutputDirectory(OutputDirectory(outputPath)) == OutputDirectory(outputPath)
  {
  }

  /** The specification as JSON, chosen by the ending of its path: ".json" is taken as it
      is, checked first; an ending "yaml" or "yml", with or without a dot, is converted;
      anything else is rejected. */
  function SpecAsJson(specPath: string, content: string, convertYamlToJson: string -> string): (r: Result<string>)
    ensures EndsWith(specPath, ".json") ==> r == Ok(content)
    ensures r.Err? ==> r.error == AsyncApiException(UnknownFileType + specPath)
  {
    if EndsWith(specPath, ".json") then Ok(content)
    else if EndsWith(specPath, "yaml") || EndsWith(specPath, "yml") then Ok(convertYamlToJson(content))
    else Err(AsyncApiException(UnknownFileType + specPath))
  }

  /** The three modes of reading a specification, and the exact rejection message. */
  lemma SpecAsJsonModes(specPath: string, content: string, convertYamlToJson: string -> string)
    ensures var r := SpecAsJson(specPath, content, convertYamlToJson);
      && (EndsWith(specPath, ".json") ==> r == Ok(content))
      && (!EndsWith(specPath, ".json") && (EndsWith(specPath, "yaml") || EndsWith(specPath, "yml")) ==>
            r == Ok(convertYamlToJson(content)))
      && (r.Err? <==> !EndsWith(specPath, ".json") && !EndsWith(specPath, "yaml") && !EndsWith(specPath, "yml"))
      && (r.Err? ==> r.error == AsyncApiException("Unknown file type: " + specPath))
  {
  }

  /** The YAML check looks at the bare ending: a path without a dot before "yaml" is
      converted, and a ".yaml.json" path is taken as JSON. */
  lemma SpecAsJsonEndings(convertYamlToJson: string -> string)
    ensures SpecAsJson("specyaml", "x", convertYamlToJson) == Ok(convertYamlToJson("x"))
    ensures SpecAsJson("a.yaml.json", "x", convertYamlToJson) == Ok("x")
    ensures SpecAsJson("spec.txt", "x", convertYamlToJson).Err?
  {
    assert "specyaml"[4..] == "yaml";
    assert "a.yaml.json"[6..] == ".json";
    assert "spec.txt"[4..] != ".json";
    assert "spec.txt"[4..] != "yaml";
    assert "spec.txt"[5..] != "yml";
  }

  /** The four sources, computed before anything is written: data types, service types,
      listener and dispatcher, in that order; the first failure ends the generation. */
  function GeneratedSources(json: string, listenerTemplate: string, dispatcherTemplate: string,
                            consts: Constants, env: Collaborators): (r: Result<seq<string>>)
    ensures r.Ok? ==> |r.value| == 4
    ensures r.Err? ==>
              || ServiceTypesController.ServiceTypesSource(env.useCases, env.syntax, json, "",
                                                          consts.genericServiceType).Err?
              || env.listenerController(json, listenerTemplate).Err?
              || env.dispatcherController(json, dispatcherTemplate).Err?
  {
    var dataTypes := SchemaController.DataTypesSource(env.useCases, env.syntax, json, "");
    var serviceTypes :- ServiceTypesController.ServiceTypesSource(env.useCases, env.syntax, json, "",
                                                                  consts.genericServiceType);
    var listener :- env.listenerController(json, listenerTemplate);
    var dispatcher :- env.dispatcherController(json, dispatcherTemplate);
    Ok([dataTypes, serviceTypes, listener, dispatcher])
  }

  /** The files generate writes, or the exception that ends it before any write. */
  function GenerationResult(specPath: string, outputPath: string, specContent: string,
                            listenerTemplate: string, dispatcherTemplate: string,
                            consts: Constants, env: Collaborators): (r: Result<seq<FileWrite>>)
    ensures SpecAsJson(specPath, specContent, env.convertYamlToJson).Err? ==>
              r == Err(SpecAsJson(specPath, specContent, env.convertYamlToJson).error)
    ensures r.Ok? ==> |r.value| == 4
  {
    var json :- SpecAsJson(specPath, specContent, env.convertYamlToJson);
    var sources :- GeneratedSources(json, listenerTemplate, dispatcherTemplate, consts, env);
    var directory := OutputDirectory(outputPath);
    Ok([FileWrite(directory + consts.dataTypesFile, sources[0]),
        FileWrite(directory + consts.serviceTypesFile, sources[1]),
        FileWrite(directory + consts.listenerFile, sources[2]),
        FileWrite(directory + consts.dispatcherFile, sources[3])])
  }

  /** An unknown file type is rejected with its message before any source is generated:
      the outcome does not depend on the collaborators at all. */
  lemma UnknownFileTypeRejected(specPath: string, outputPath: string, specContent: string,
                                listenerTemplate: string, dispatcherTemplate: string,
                                consts: Constants, env: Collaborators)
    requires !EndsWith(specPath, ".json") && !EndsWith(specPath, "yaml") && !EndsWith(specPath, "yml")
    ensures GenerationResult(specPath, outputPath, specContent, listenerTemplate, dispatcherTemplate, consts, env)
            == Err(AsyncApiException(UnknownFileType + specPath))
  {
  }

  /** A failing controller ends the generation with its exception, so nothing is written. */
  lemma ControllerFailureWritesNothing(specPath: string, outputPath: string, specContent: string,
                                       listenerTemplate: string, dispatcherTemplate: string,
                                       consts: Constants, env: Collaborators)
    requires SpecAsJson(specPath, specContent, env.convertYamlToJson).Ok?
    ensures var json := SpecAsJson(specPath, specContent, env.convertYamlToJson).value;
            var r := GenerationResult(specPath, outputPath, specContent, listenerTemplate, dispatcherTemplate, consts, env);
            var serviceTypes := ServiceTypesController.ServiceTypesSource(env.useCases, env.syntax, json, "",
                                                                          consts.genericServiceType);
            && (serviceTypes.Err? ==> r == Err(serviceTypes.error))
            && (serviceTypes.Ok? && env.listenerController(json, listenerTemplate).Err? ==>
                  r == Err(env.listenerController(json, listenerTemplate).error))
            && (env.dispatcherController(json, dispatcherTemplate).Err? ==> r.Err?)
  {
  }

  /** On success exactly four files are written, in the order data types, service types,
      listener, dispatcher, each into the output directory under its configured name; the
      data types file holds what the schema controller generates, the service types file
      what the service types controller generates. */
  lemma WritesInOrder(specPath: string, outputPath: string, specContent: string,
                      listenerTemplate: string, dispatcherTemplate: string,
                      consts: Constants, env: Collaborators)
    requires GenerationResult(specPath, outputPath, specContent, listenerTemplate, dispatcherTemplate, consts, env).Ok?
    ensures var writes := GenerationResult(specPath, outputPath, specContent, listenerTemplate, dispatcherTemplate, consts, env).value;
            var directory := OutputDirectory(outputPath);
            var json := SpecAsJson(specPath, specContent, env.convertYamlToJson).value;
      && |writes| == 4
      && writes[0].path == directory + consts.dataTypesFile
      && writes[1].path == directory + consts.serviceTypesFile
      && writes[2].path == directory + consts.listenerFile
      && writes[3].path == directory + consts.dispatcherFile
      && writes[0].content == SchemaController.DataTypesSource(env.useCases, env.syntax, json, "")
      && writes[1].content == ServiceTypesController.ServiceTypesSource(env.useCases, env.syntax, json, "",
                                                                        consts.genericServiceType).value
      && writes[2].content == env.listenerController(json, listenerTemplate).value
      && writes[3].content == env.dispatcherController(json, dispatcherTemplate).value
  {
    var json := SpecAsJson(specPath, specContent, env.convertYamlToJson).value;
    var serviceTypes := ServiceTypesController.ServiceTypesSource(env.useCases, env.syntax, json, "",
                                                                  consts.genericServiceType);
    assert serviceTypes.Ok? && env.listenerController(json, listenerTemplate).Ok?
           && env.dispatcherController(json, dispatcherTemplate).Ok?;
  }

  /** The file repository, reduced to the files written through it, in order. */
  class FileRepository {
    var written: seq<FileWrite>

    constructor()
      ensures written == []
    {
      written := [];
    }

    /** writeToFile: records one more write after the earlier ones. */
    method WriteToFile(path: string, content: string)
      modifies this
      ensures written == old(written) + [FileWrite(path, content)]
    {
      written := written + [FileWrite(path, content)];
    }
  }

  class CodeGenerator {
    const specPath: string
    const outputPath: string

    constructor(specPath: string, outputPath: string)
      ensures this.specPath == specPath && this.outputPath == outputPath
    {
      this.specPath := specPath;
      this.outputPath := outputPath;
    }

    /** generate: converts the specification, runs the four controllers and then writes their
        sources; the specification text and the two templates are what the repository reads. */
    method Generate(repository: FileRepository, specContent: string, listenerTemplate: string,
                    dispatcherTemplate: string, consts: Constants, env: Collaborators)
      returns (outcome: Outcome)
      modifies repository
      ensures var r := GenerationResult(specPath, outputPath, specContent, listenerTemplate, dispatcherTemplate, consts, env);
        && (r.Ok? ==> outcome == Pass && repository.written == old(repository.written) + r.value)
        && (r.Err? ==> outcome == Fail(r.error) && repository.written == old(repository.written))
    {
      var asyncApiSpecJson: string;
      if EndsWith(specPath, ".json") {
        asyncApiSpecJson := specContent;
      } else if EndsWith(specPath, "yaml") || EndsWith(specPath, "yml") {
        asyncApiSpecJson := env.convertYamlToJson(specContent);
      } else {
        return Fail(AsyncApiException(UnknownFileType + specPath));
      }
      assert SpecAsJson(specPath, specContent, env.convertYamlToJson) == Ok(asyncApiSpecJson);

      var dataTypesBalContent, _ := SchemaController.GenerateDataTypes(env.useCases, env.syntax, asyncApiSpecJson, "");

      var serviceTypesBalContent := ServiceTypesController.GenerateBalCode(
        env.useCases, env.syntax, asyncApiSpecJson, "", consts.genericServiceType);
      if serviceTypesBalContent.Err? {
        return Fail(serviceTypesBalContent.error);
      }

      var listenerBalContent := env.listenerController(asyncApiSpecJson, listenerTemplate);
      if listenerBalContent.Err? {
        return Fail(listenerBalContent.error);
      }

      var dispatcherContent := env.dispatcherController(asyncApiSpecJson, dispatcherTemplate);
      if dispatcherContent.Err? {
        return Fail(dispatcherContent.error);
      }

      assert GeneratedSources(asyncApiSpecJson, listenerTemplate, dispatcherTemplate, consts, env)
          == Ok([dataTypesBalContent, serviceTypesBalContent.value, listenerBalContent.value, dispatcherContent.value]);
      var outputDirectory := OutputDirectory(outputPath);
      repository.WriteToFile(outputDirectory + consts.dataTypesFile, dataTypesBalContent);
      repository.WriteToFile(outputDirectory + consts.serviceTypesFile, serviceTypesBalContent.value);
      repository.WriteToFile(outputDirectory + consts.listenerFile, listenerBalContent.value);
      repository.WriteToFile(outputDirectory + consts.dispatcherFile, dispatcherContent.value);
      return Pass;
    }
  }
}
