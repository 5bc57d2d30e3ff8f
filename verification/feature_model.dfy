/** The feature model the reader fills in, and the collaborators it calls
but does not define.

`ArtifactId.parse`, `ArtifactId.toMvnId`, `Artifact.getStartOrder`,
`new URL(..)`, the configuration-property decoder of the configurator and
the attribute/directive unmarshallers of `ManifestUtils` are external code:
here they are function-valued fields of `Env`, so every property proved
holds for every behaviour they might have. The reserved feature keywords
and the name of the owning-artifact configuration property are constants of
classes that are not part of this model, so they are `Env` fields too.
 */
module FeatureModel {
  import opened Outcomes
  import opened JsonValues

  /** A parsed artifact coordinate. */
  datatype ArtifactId = ArtifactId(
    groupId: string,
    artifactId: string,
    version: string,
    classifier: Option<string>,
    packaging: string)

  /** An artifact with its string metadata (`start-order` among them). */
  datatype Artifact = Artifact(id: ArtifactId, metadata: map<string, string>)

  /** A configuration: a PID and its typed properties. */
  datatype Configuration = Configuration(pid: string, properties: map<string, Json>)

  /** One entry produced by the configuration-property decoder. */
  datatype DecodedConfig = DecodedConfig(pid: string, properties: map<string, Json>)

  /** The decoder's answer: its configurations plus its diagnostic report. */
  datatype ConfigReport = ConfigReport(configs: seq<DecodedConfig>, warnings: seq<string>, errors: seq<string>)

  datatype Url = Url(text: string)

  datatype ExtensionType = ARTIFACTS | JSON | TEXT

  /** The one payload an extension carries, matching its type. The JSON
      payload is kept as the rebuilt tree, before it is written as text. */
  datatype Payload = ArtifactList(artifacts: seq<Artifact>) | JsonTree(tree: Json) | Text(text: string)

  datatype Extension = Extension(kind: ExtensionType, name: string, optional: bool, payload: Payload)

  /** Where a prototype comes from: a coordinate or a location. */
  datatype PrototypeSource = FromId(id: ArtifactId) | FromLocation(url: Url)

  datatype Prototype = Prototype(
    source: PrototypeSource,
    bundleRemovals: seq<ArtifactId>,
    configurationRemovals: seq<string>,
    frameworkPropertiesRemovals: seq<string>,
    extensionRemovals: seq<string>,
    artifactExtensionRemovals: map<string, seq<ArtifactId>>)

  /** A requirement or a capability: namespace, attributes, directives. */
  datatype Declaration = Declaration(namespace: string, attributes: map<string, Json>, directives: map<string, string>)

  /** The collaborators and external constants. A partial parser answers
      `None` where the Java one throws. */
  datatype Env = Env(
    parseId: string -> Option<ArtifactId>,
    mvnId: ArtifactId -> string,
    startOrder: Artifact -> Option<int>,
    parseUrl: string -> Option<Url>,
    decodeConfigurations: Json -> ConfigReport,
    unmarshalAttribute: (string, Json) -> Result<(string, Json)>,
    unmarshalDirective: (string, Json) -> Result<(string, string)>,
    artifactIdProperty: string,
    featureKeywords: set<string>)

  /** `ArtifactId.parse`, whose `IllegalArgumentException` aborts the read. */
  function ParseId(text: string, env: Env): (r: Result<ArtifactId>)
    ensures r.Ok? <==> env.parseId(text).Some?
    ensures r.Ok? ==> r.value == env.parseId(text).value
    ensures r.Err? ==> r.error == MalformedArtifactId(text)
  {
    match env.parseId(text)
    case Some(id) => Ok(id)
    case None => Err(MalformedArtifactId(text))
  }

  /** `Artifact.equals`: two artifacts are the same when their ids are. */
  predicate SameArtifact(a: Artifact, b: Artifact) {
    a.id == b.id
  }
}
