/** Configurations (`addConfigurations`, `readConfigurations`): the raw
block is typed by the external decoder; any diagnostic aborts the read,
otherwise every decoded configuration is checked against the reserved
owning-artifact property, tagged with its owning artifact when it has one,
and appended unless an equal configuration is already present.
 */
module ConfigurationReader {
  import opened Outcomes
  import opened JsonValues
  import opened TypeGuard
  import opened FeatureModel

  const CONFIGURATIONS: string := "configurations"

  /** `getProperties().get(PROP_ARTIFACT_ID) != null`. */
  predicate DefinesOwner(props: map<string, Json>, env: Env) {
    env.artifactIdProperty in props && !props[env.artifactIdProperty].JNull?
  }

  /** The properties a configuration ends up with: the decoded ones, and,
      when there is an owner, its coordinate under the reserved property;
      nothing else changes. */
  function Owned(props: map<string, Json>, owner: Option<Artifact>, env: Env): (r: map<string, Json>)
    ensures forall k :: k != env.artifactIdProperty ==> (k in r <==> k in props)
    ensures forall k :: k in props && k != env.artifactIdProperty ==> r[k] == props[k]
    ensures owner.Some? ==> env.artifactIdProperty in r && r[env.artifactIdProperty] == JString(env.mvnId(owner.value.id))
    ensures owner.None? ==> r == props
  {
    match owner
    case Some(a) => props[env.artifactIdProperty := JString(env.mvnId(a.id))]
    case None => props
  }

  /** The configuration built from a decoded entry. */
  function Tagged(c: DecodedConfig, owner: Option<Artifact>, env: Env): Configuration {
    Configuration(c.pid, Owned(c.properties, owner, env))
  }

  function TagAll(cs: seq<DecodedConfig>, owner: Option<Artifact>, env: Env): (r: seq<Configuration>)
    ensures |r| == |cs|
    ensures forall i :: 0 <= i < |cs| ==> r[i] == Tagged(cs[i], owner, env)
    decreases |cs|
  {
    if cs == [] then [] else [Tagged(cs[0], owner, env)] + TagAll(cs[1..], owner, env)
  }

  /** No two configurations of a collection are equal. */
  predicate DistinctConfigurations(cs: seq<Configuration>) {
    forall i, j :: 0 <= i < j < |cs| ==> cs[i] != cs[j]
  }

  lemma DistinctSnoc(cs: seq<Configuration>, c: Configuration)
    requires DistinctConfigurations(cs) && c !in cs
    ensures DistinctConfigurations(cs + [c])
  {
  }

  /** The loop over the decoded configurations. */
  function AddDecoded(cs: seq<DecodedConfig>, owner: Option<Artifact>, container: seq<Configuration>, env: Env)
    : (r: Result<seq<Configuration>>)
    ensures r.Ok? ==> r.value == container + TagAll(cs, owner, env)
    ensures r.Ok? ==> forall i :: 0 <= i < |cs| ==> !DefinesOwner(cs[i].properties, env)
    ensures r.Err? ==> r.error.ReservedConfigurationProperty? || r.error.DuplicateConfiguration?
    decreases |cs|
  {
    if cs == [] then Ok(container)
    else
      var c := cs[0];
      if DefinesOwner(c.properties, env) then Err(ReservedConfigurationProperty(c.pid))
      else
        var config := Tagged(c, owner, env);
        if config in container then Err(DuplicateConfiguration(c.pid))
        else
          var r := AddDecoded(cs[1..], owner, container + [config], env);
          assert forall i :: 1 <= i < |cs| ==> cs[i] == cs[1..][i - 1];
          assert TagAll(cs, owner, env) == [config] + TagAll(cs[1..], owner, env);
          r
  }

  /** Adding never creates two equal configurations. */
  lemma {:induction false} AddDecodedDistinct(cs: seq<DecodedConfig>, owner: Option<Artifact>, container: seq<Configuration>, env: Env)
    requires DistinctConfigurations(container)
    requires AddDecoded(cs, owner, container, env).Ok?
    ensures DistinctConfigurations(AddDecoded(cs, owner, container, env).value)
    decreases |cs|
  {
    if cs != [] {
      var config := Tagged(cs[0], owner, env);
      DistinctSnoc(container, config);
      AddDecodedDistinct(cs[1..], owner, container + [config], env);
    }
  }

  /** `addConfigurations`: decode the `configurations` entry of `ms`, then add
      what was decoded. Warnings come before errors in the failure. */
  function AddConfigurations(ms: seq<Member>, owner: Option<Artifact>, container: seq<Configuration>, env: Env)
    : (r: Result<seq<Configuration>>)
    ensures var report := env.decodeConfigurations(Get(ms, CONFIGURATIONS));
            |report.warnings| + |report.errors| > 0 ==> r == Err(ConfigurationErrors(report.warnings + report.errors))
    ensures var report := env.decodeConfigurations(Get(ms, CONFIGURATIONS));
            |report.warnings| + |report.errors| == 0 ==> r == AddDecoded(report.configs, owner, container, env)
    ensures r.Ok? ==> r.value == container + TagAll(env.decodeConfigurations(Get(ms, CONFIGURATIONS)).configs, owner, env)
  {
    var report := env.decodeConfigurations(Get(ms, CONFIGURATIONS));
    if |report.warnings| > 0 || |report.errors| > 0 then
      Err(ConfigurationErrors(report.warnings + report.errors))
    else
      AddDecoded(report.configs, owner, container, env)
  }

  /** The configurations read for an owner depend on it only through its
      id: the id is all that is written into them. */
  lemma {:induction false} AddDecodedOwnerId(cs: seq<DecodedConfig>, a: Artifact, b: Artifact, container: seq<Configuration>, env: Env)
    requires a.id == b.id
    ensures AddDecoded(cs, Some(a), container, env) == AddDecoded(cs, Some(b), container, env)
    decreases |cs|
  {
    if cs != [] {
      assert Tagged(cs[0], Some(a), env) == Tagged(cs[0], Some(b), env);
      AddDecodedOwnerId(cs[1..], a, b, container + [Tagged(cs[0], Some(a), env)], env);
    }
  }

  lemma AddConfigurationsOwnerId(ms: seq<Member>, a: Artifact, b: Artifact, container: seq<Configuration>, env: Env)
    requires a.id == b.id
    ensures AddConfigurations(ms, Some(a), container, env) == AddConfigurations(ms, Some(b), container, env)
  {
    AddDecodedOwnerId(env.decodeConfigurations(Get(ms, CONFIGURATIONS)).configs, a, b, container, env);
  }

  /** `readConfigurations`: the top-level section, with no owning artifact. */
  function ReadConfigurations(doc: seq<Member>, container: seq<Configuration>, env: Env): (r: Result<seq<Configuration>>)
    ensures !Has(doc, CONFIGURATIONS) ==> r == Ok(container)
    ensures Has(doc, CONFIGURATIONS) && !Get(doc, CONFIGURATIONS).JObject? ==> r == Err(WrongType(CONFIGURATIONS))
    ensures Has(doc, CONFIGURATIONS) && Get(doc, CONFIGURATIONS).JObject? ==> r == AddConfigurations(doc, None, container, env)
  {
    if !Has(doc, CONFIGURATIONS) then Ok(container)
    else
      :- CheckType(CONFIGURATIONS, Get(doc, CONFIGURATIONS), [KMap]);
      AddConfigurations(doc, None, container, env)
  }

  /** Entry by entry: none defines the reserved property, and none equals a
      configuration already present or added before it. */
  predicate AllAccepted(cs: seq<DecodedConfig>, owner: Option<Artifact>, container: seq<Configuration>, env: Env) {
    var all := TagAll(cs, owner, env);
    forall i :: 0 <= i < |cs| ==> !DefinesOwner(cs[i].properties, env) && all[i] !in container + all[..i]
  }

  lemma AllAcceptedStep(cs: seq<DecodedConfig>, owner: Option<Artifact>, container: seq<Configuration>, env: Env)
    requires cs != []
    ensures AllAccepted(cs, owner, container, env) <==>
              !DefinesOwner(cs[0].properties, env) && Tagged(cs[0], owner, env) !in container
              && AllAccepted(cs[1..], owner, container + [Tagged(cs[0], owner, env)], env)
  {
    var all := TagAll(cs, owner, env);
    var tail := cs[1..];
    var c0 := Tagged(cs[0], owner, env);
    var rest := TagAll(tail, owner, env);
    assert all == [c0] + rest;
    forall i | 1 <= i < |cs|
      ensures container + all[..i] == (container + [c0]) + rest[..i - 1]
      ensures cs[i] == tail[i - 1] && all[i] == rest[i - 1]
    {
      assert all[..i] == [c0] + rest[..i - 1];
    }
    assert container + all[..0] == container;
    if AllAccepted(cs, owner, container, env) {
      forall i | 0 <= i < |tail|
        ensures !DefinesOwner(tail[i].properties, env) && rest[i] !in (container + [c0]) + rest[..i]
      {
        assert cs[i + 1] == tail[i];
      }
    }
    if !DefinesOwner(cs[0].properties, env) && c0 !in container && AllAccepted(tail, owner, container + [c0], env) {
      forall i | 0 <= i < |cs|
        ensures !DefinesOwner(cs[i].properties, env) && all[i] !in container + all[..i]
      {
        if i > 0 {
          assert cs[i] == tail[i - 1];
        }
      }
    }
  }

  /** The decoded configurations are accepted exactly when none defines the
      reserved property, whether or not they have an owner, and none equals
      a configuration already present or added before it. */
  lemma {:induction false} AddDecodedSucceeds(cs: seq<DecodedConfig>, owner: Option<Artifact>, container: seq<Configuration>, env: Env)
    ensures AddDecoded(cs, owner, container, env).Ok? <==> AllAccepted(cs, owner, container, env)
    decreases |cs|
  {
    if cs != [] {
      AllAcceptedStep(cs, owner, container, env);
      AddDecodedSucceeds(cs[1..], owner, container + [Tagged(cs[0], owner, env)], env);
    }
  }
}
