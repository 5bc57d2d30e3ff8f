/** Artifact lists and the bundles section (`readArtifacts`,
`readBundles`). A list element is a coordinate string or an object with an
`id` plus metadata; string elements starting with `#` are comments and are
skipped. An object may carry its own `configurations`, which are read with
the artifact as their owner.
 */
module ArtifactLists {
  import opened Outcomes
  import opened JsonValues
  import opened TypeGuard
  import opened Variables
  import opened FeatureModel
  import opened ConfigurationReader

  const BUNDLES: string := "bundles"
  const ID: string := "id"

  /** The object keys that are not metadata: the id and the owned configurations. */
  const KNOWN_ARTIFACT_PROPERTIES: set<string> := {ID, CONFIGURATIONS}

  /** What an artifact list read produces: the artifacts in list order and
      the configuration collection, grown by the artifacts' own configurations. */
  datatype ArtifactsRead = ArtifactsRead(artifacts: seq<Artifact>, configurations: seq<Configuration>)

  /** One element's contribution: an artifact, or nothing for a comment. */
  datatype EntryRead = EntryRead(artifact: Option<Artifact>, configurations: seq<Configuration>)

  /** A `#`-string element, skipped by the reader. */
  predicate IsCommentEntry(e: Json) {
    e.JString? && IsComment(e.s)
  }

  /** The elements that yield an artifact, in order. */
  function Kept(items: seq<Json>): (r: seq<Json>)
    ensures |r| <= |items|
    ensures forall i :: 0 <= i < |r| ==> !IsCommentEntry(r[i])
    ensures forall i :: 0 <= i < |r| ==> r[i] in items
    ensures forall i :: 0 <= i < |items| && !IsCommentEntry(items[i]) ==> items[i] in r
    decreases |items|
  {
    if items == [] then []
    else if IsCommentEntry(items[0]) then Kept(items[1..])
    else [items[0]] + Kept(items[1..])
  }

  /** The metadata loop: every key outside the known properties becomes a
      metadata entry holding the value's text; the value must be a string,
      number or boolean. A later entry overwrites an earlier one, as
      `Map.put` does. */
  function ReadMetadata(ms: seq<Member>, artifactType: string): (r: Result<map<string, string>>)
    ensures r.Ok? ==> forall i :: 0 <= i < |ms| && ms[i].key !in KNOWN_ARTIFACT_PROPERTIES ==> IsScalar(ms[i].value)
    ensures r.Ok? ==> forall k :: k in r.value <==> k !in KNOWN_ARTIFACT_PROPERTIES && Has(ms, k)
    ensures r.Err? ==> r.error.WrongType?
    decreases |ms|
  {
    if ms == [] then Ok(map[])
    else
      var m := ms[0];
      if m.key in KNOWN_ARTIFACT_PROPERTIES then
        var rest :- ReadMetadata(ms[1..], artifactType);
        assert forall i :: 1 <= i < |ms| ==> ms[i] == ms[1..][i - 1];
        assert forall k :: Has(ms[1..], k) ==> Has(ms, k);
        Ok(rest)
      else
        :- CheckType(artifactType + " metadata " + m.key, m.value, [KString, KNumber, KBoolean]);
        var rest :- ReadMetadata(ms[1..], artifactType);
        assert forall i :: 1 <= i < |ms| ==> ms[i] == ms[1..][i - 1];
        assert forall k :: Has(ms[1..], k) ==> Has(ms, k);
        Ok(map[m.key := ScalarText(m.value)] + rest)
  }

  /** The metadata loop accepts an object exactly when every entry outside
      the known properties is a string, number or boolean. */
  lemma {:induction false} ReadMetadataAccepts(ms: seq<Member>, artifactType: string)
    ensures ReadMetadata(ms, artifactType).Ok? <==>
              forall i :: 0 <= i < |ms| && ms[i].key !in KNOWN_ARTIFACT_PROPERTIES ==> IsScalar(ms[i].value)
    decreases |ms|
  {
    if ms != [] {
      var tail := ms[1..];
      assert forall i :: 1 <= i < |ms| ==> ms[i] == tail[i - 1];
      ReadMetadataAccepts(tail, artifactType);
      if ms[0].key !in KNOWN_ARTIFACT_PROPERTIES && IsScalar(ms[0].value) {
        var v := ms[0].value;
        assert IsInstance(v, [KString, KNumber, KBoolean][if v.JString? then 0 else if v.JBool? then 2 else 1]);
      }
    }
  }

  /** In a map with unique keys, each metadata entry holds the text of the
      value under its key. */
  lemma {:induction false} ReadMetadataValues(ms: seq<Member>, artifactType: string)
    requires ReadMetadata(ms, artifactType).Ok? && UniqueKeys(ms)
    ensures MetadataTexts(ms, ReadMetadata(ms, artifactType).value)
    decreases |ms|
  {
    if ms != [] {
      var tail := ms[1..];
      var m := ms[0];
      assert UniqueKeys(tail) && !Has(tail, m.key) by {
        assert forall i :: 1 <= i < |ms| ==> ms[i] == tail[i - 1];
      }
      ReadMetadataValues(tail, artifactType);
      var md := ReadMetadata(ms, artifactType).value;
      var rest := ReadMetadata(tail, artifactType).value;
      assert md == if m.key in KNOWN_ARTIFACT_PROPERTIES then rest else map[m.key := ScalarText(m.value)] + rest by {
        assert m.key !in KNOWN_ARTIFACT_PROPERTIES ==> IsScalar(m.value) by {
          assert ms[0].key !in KNOWN_ARTIFACT_PROPERTIES ==> IsScalar(ms[0].value);
        }
      }
      assert m.key !in KNOWN_ARTIFACT_PROPERTIES ==> IsScalar(m.value) by {
        assert ms[0].key !in KNOWN_ARTIFACT_PROPERTIES ==> IsScalar(ms[0].value);
      }
      assert m.key !in rest;
      MetadataTextsCons(ms, md, rest);
    }
  }

  /** One step of the metadata loop keeps every entry's text right. */
  lemma MetadataTextsCons(ms: seq<Member>, md: map<string, string>, rest: map<string, string>)
    requires ms != [] && MetadataTexts(ms[1..], rest) && ms[0].key !in rest
    requires ms[0].key !in KNOWN_ARTIFACT_PROPERTIES ==> IsScalar(ms[0].value)
    requires md == if ms[0].key in KNOWN_ARTIFACT_PROPERTIES then rest else map[ms[0].key := ScalarText(ms[0].value)] + rest
    ensures MetadataTexts(ms, md)
  {
    var m := ms[0];
    forall k | k in md
      ensures IsScalar(Get(ms, k)) && md[k] == ScalarText(Get(ms, k))
    {
      GetCons(ms, k);
      if k == m.key {
        assert md[k] == ScalarText(m.value);
      } else {
        assert k in rest && md[k] == rest[k];
      }
    }
  }

  /** The same, as a fact about any accepted object. */
  lemma MetadataTextsIfUnique(ms: seq<Member>, artifactType: string)
    requires ReadMetadata(ms, artifactType).Ok?
    ensures UniqueKeys(ms) ==> MetadataTexts(ms, ReadMetadata(ms, artifactType).value)
  {
    if UniqueKeys(ms) {
      ReadMetadataValues(ms, artifactType);
    }
  }

  /** Looking a key up in a map is looking at its first entry, then the rest. */
  lemma GetCons(ms: seq<Member>, k: string)
    requires ms != []
    ensures Get(ms, k) == if ms[0].key == k then ms[0].value else Get(ms[1..], k)
  {
  }

  /** The id text of an element: the string itself, or the object's `id`. */
  function IdText(e: Json): string
    requires e.JString? || (e.JObject? && Get(e.members, ID).JString?)
  {
    if e.JString? then e.s else Get(e.members, ID).s
  }

  /** What the reader promises about the artifact built from element `e`:
      its id is the parse of the substituted id text, a string element has
      no metadata, and an object element's metadata has exactly its
      non-reserved keys, each holding the Java text of its scalar value
      (for a decoded JSON object, whose keys are unique). */
  ghost predicate Produces(e: Json, a: Artifact, vars: seq<Binding>, env: Env) {
    && (e.JString? || (e.JObject? && Has(e.members, ID) && Get(e.members, ID).JString?))
    && Replace(IdText(e), vars).Ok?
    && env.parseId(Replace(IdText(e), vars).value) == Some(a.id)
    && (e.JString? ==> a.metadata == map[])
    && (e.JObject? ==> forall k :: k in a.metadata <==> k !in KNOWN_ARTIFACT_PROPERTIES && Has(e.members, k))
    && (e.JObject? && UniqueKeys(e.members) ==> MetadataTexts(e.members, a.metadata))
  }

  /** Every metadata entry holds the Java text of the scalar stored under
      its key. */
  ghost predicate MetadataTexts(ms: seq<Member>, metadata: map<string, string>) {
    forall k :: k in metadata ==> IsScalar(Get(ms, k)) && metadata[k] == ScalarText(Get(ms, k))
  }

  /** An object element with its own `configurations` block. */
  predicate CarriesConfigurations(e: Json) {
    e.JObject? && Has(e.members, CONFIGURATIONS)
  }

  /** The id text survives substitution and parses as a coordinate. */
  predicate IdParses(text: string, vars: seq<Binding>, env: Env) {
    Replace(text, vars).Ok? && env.parseId(Replace(text, vars).value).Some?
  }

  function ParsedId(text: string, vars: seq<Binding>, env: Env): ArtifactId
    requires IdParses(text, vars, env)
  {
    env.parseId(Replace(text, vars).value).value
  }

  /** An element the reader accepts whatever it has read before: a comment,
      a coordinate string, or an object with a string `id` whose other
      entries (owned configurations aside) are strings, numbers or
      booleans. */
  predicate WellFormedEntry(e: Json, vars: seq<Binding>, env: Env) {
    || (e.JString? && (IsComment(e.s) || IdParses(e.s, vars, env)))
    || (&& e.JObject?
        && Has(e.members, ID)
        && Get(e.members, ID).JString?
        && IdParses(Get(e.members, ID).s, vars, env)
        && forall i :: 0 <= i < |e.members| && e.members[i].key !in KNOWN_ARTIFACT_PROPERTIES ==>
             IsScalar(e.members[i].value))
  }

  /** An element the reader accepts given the configurations read so far:
      a well-formed element whose own `configurations` block, if any, is a
      map that can be added with the parsed artifact as its owner. */
  predicate EntryAccepted(e: Json, configs: seq<Configuration>, vars: seq<Binding>, env: Env) {
    && WellFormedEntry(e, vars, env)
    && (CarriesConfigurations(e) ==>
          && Get(e.members, CONFIGURATIONS).JObject?
          && AddConfigurations(e.members, Some(Artifact(ParsedId(Get(e.members, ID).s, vars, env), map[])), configs, env).Ok?)
  }

  /** One list element. */
  function ReadEntry(artifactType: string, e: Json, configs: seq<Configuration>, vars: seq<Binding>, env: Env)
    : (r: Result<EntryRead>)
    ensures r.Ok? ==> (r.value.artifact.None? <==> IsCommentEntry(e))
    ensures r.Ok? && r.value.artifact.Some? ==> Produces(e, r.value.artifact.value, vars, env)
    ensures r.Ok? ==> |configs| <= |r.value.configurations| && r.value.configurations[..|configs|] == configs
    ensures e.JObject? && !Has(e.members, ID) ==> r.Err?
    ensures r.Ok? && CarriesConfigurations(e) ==>
              && r.value.artifact.Some?
              && Get(e.members, CONFIGURATIONS).JObject?
              && AddConfigurations(e.members, r.value.artifact, configs, env) == Ok(r.value.configurations)
    ensures r.Ok? && !CarriesConfigurations(e) ==> r.value.configurations == configs
  {
    var allowed := [KMap, KString];
    :- CheckType(artifactType, e, allowed);
    if e.JString? then
      if IsComment(e.s) then Ok(EntryRead(None, configs))
      else
        var text :- Replace(e.s, vars);
        var id :- ParseId(text, env);
        Ok(EntryRead(Some(Artifact(id, map[])), configs))
    else
      var ms := e.members;
      if !Has(ms, ID) then Err(MissingField(artifactType + " id"))
      else
        :- CheckType(artifactType + " " + ID, Get(ms, ID), [KString]);
        var text :- Replace(Get(ms, ID).s, vars);
        var id :- ParseId(text, env);
        var metadata :- ReadMetadata(ms, artifactType);
        MetadataTextsIfUnique(ms, artifactType);
        var artifact := Artifact(id, metadata);
        if Has(ms, CONFIGURATIONS) then
          :- CheckType(artifactType + " configurations", Get(ms, CONFIGURATIONS), [KMap]);
          var configs' :- AddConfigurations(ms, Some(artifact), configs, env);
          Ok(EntryRead(Some(artifact), configs'))
        else
          Ok(EntryRead(Some(artifact), configs))
  }

  /** An element is read exactly when it is accepted. */
  lemma ReadEntryAccepts(artifactType: string, e: Json, configs: seq<Configuration>, vars: seq<Binding>, env: Env)
    ensures ReadEntry(artifactType, e, configs, vars, env).Ok? <==> EntryAccepted(e, configs, vars, env)
  {
    if e.JString? {
      assert IsInstance(e, [KMap, KString][1]);
    } else if e.JObject? {
      ReadObjectEntryAccepts(artifactType, e, configs, vars, env);
    }
  }

  lemma ReadObjectEntryAccepts(artifactType: string, e: Json, configs: seq<Configuration>, vars: seq<Binding>, env: Env)
    requires e.JObject?
    ensures ReadEntry(artifactType, e, configs, vars, env).Ok? <==> EntryAccepted(e, configs, vars, env)
  {
    assert IsInstance(e, [KMap, KString][0]);
    var ms := e.members;
    ReadMetadataAccepts(ms, artifactType);
    if Has(ms, ID) && Get(ms, ID).JString? {
      assert IsInstance(Get(ms, ID), [KString][0]);
      if IdParses(Get(ms, ID).s, vars, env) && ReadMetadata(ms, artifactType).Ok? {
        var id := ParsedId(Get(ms, ID).s, vars, env);
        var artifact := Artifact(id, ReadMetadata(ms, artifactType).value);
        OwnedConfigurationsAccepted(artifactType, e, artifact, configs, vars, env);
      }
    }
  }

  /** The last step of an object element that got as far as its metadata. */
  lemma OwnedConfigurationsAccepted(artifactType: string, e: Json, artifact: Artifact, configs: seq<Configuration>,
                                    vars: seq<Binding>, env: Env)
    requires e.JObject? && Has(e.members, ID) && Get(e.members, ID).JString?
    requires IdParses(Get(e.members, ID).s, vars, env) && ReadMetadata(e.members, artifactType).Ok?
    requires artifact == Artifact(ParsedId(Get(e.members, ID).s, vars, env), ReadMetadata(e.members, artifactType).value)
    ensures ReadEntry(artifactType, e, configs, vars, env) ==
              if !Has(e.members, CONFIGURATIONS) then Ok(EntryRead(Some(artifact), configs))
              else if !Get(e.members, CONFIGURATIONS).JObject? then Err(WrongType(artifactType + " configurations"))
              else match AddConfigurations(e.members, Some(artifact), configs, env)
                   case Ok(c) => Ok(EntryRead(Some(artifact), c))
                   case Err(err) => Err(err)
    ensures AddConfigurations(e.members, Some(artifact), configs, env) ==
              AddConfigurations(e.members, Some(Artifact(artifact.id, map[])), configs, env)
  {
    assert IsInstance(e, [KMap, KString][0]);
    assert IsInstance(Get(e.members, ID), [KString][0]);
    if Has(e.members, CONFIGURATIONS) && Get(e.members, CONFIGURATIONS).JObject? {
      assert IsInstance(Get(e.members, CONFIGURATIONS), [KMap][0]);
    }
    AddConfigurationsOwnerId(e.members, artifact, Artifact(artifact.id, map[]), configs, env);
  }

  /** The element loop of `readArtifacts`. */
  function ReadEntries(artifactType: string, items: seq<Json>, configs: seq<Configuration>, vars: seq<Binding>, env: Env)
    : (r: Result<ArtifactsRead>)
    ensures r.Ok? ==> |r.value.artifacts| == |Kept(items)|
    ensures r.Ok? ==> |configs| <= |r.value.configurations| && r.value.configurations[..|configs|] == configs
    decreases |items|
  {
    if items == [] then Ok(ArtifactsRead([], configs))
    else
      var first :- ReadEntry(artifactType, items[0], configs, vars, env);
      var rest :- ReadEntries(artifactType, items[1..], first.configurations, vars, env);
      assert forall i :: 1 <= i < |items| ==> items[i] == items[1..][i - 1];
      var own := match first.artifact case Some(a) => [a] case None => [];
      assert Kept(items) == (if IsCommentEntry(items[0]) then [] else [items[0]]) + Kept(items[1..]);
      assert rest.configurations[..|configs|] == rest.configurations[..|first.configurations|][..|configs|];
      Ok(ArtifactsRead(own + rest.artifacts, rest.configurations))
  }

  /** Each artifact of the list comes from the matching non-comment
      element. */
  lemma {:induction false} ReadEntriesProduces(artifactType: string, items: seq<Json>, configs: seq<Configuration>,
                                               vars: seq<Binding>, env: Env)
    requires ReadEntries(artifactType, items, configs, vars, env).Ok?
    ensures var arts := ReadEntries(artifactType, items, configs, vars, env).value.artifacts;
            forall i :: 0 <= i < |Kept(items)| ==> Produces(Kept(items)[i], arts[i], vars, env)
    decreases |items|
  {
    if items != [] {
      var first := ReadEntry(artifactType, items[0], configs, vars, env).value;
      var tail := items[1..];
      ReadEntriesProduces(artifactType, tail, first.configurations, vars, env);
      var rest := ReadEntries(artifactType, tail, first.configurations, vars, env).value;
      var arts := ReadEntries(artifactType, items, configs, vars, env).value.artifacts;
      if IsCommentEntry(items[0]) {
        assert Kept(items) == Kept(tail);
        assert arts == rest.artifacts;
      } else {
        var a := first.artifact.value;
        assert Kept(items) == [items[0]] + Kept(tail);
        assert arts == [a] + rest.artifacts;
        assert Produces(items[0], a, vars, env);
        ProducesCons(items[0], a, Kept(tail), rest.artifacts, vars, env);
      }
    }
  }

  /** The configurations element `e` owns, each tagged with `a`, the
      artifact it produced: its decoded `configurations` block, or nothing. */
  function OwnedBy(e: Json, a: Artifact, env: Env): seq<Configuration> {
    if CarriesConfigurations(e) then TagAll(env.decodeConfigurations(Get(e.members, CONFIGURATIONS)).configs, Some(a), env)
    else []
  }

  /** The configurations owned by a list of elements, element after element. */
  function OwnedAll(kept: seq<Json>, arts: seq<Artifact>, env: Env): seq<Configuration>
    requires |kept| == |arts|
    decreases |kept|
  {
    if kept == [] then [] else OwnedBy(kept[0], arts[0], env) + OwnedAll(kept[1..], arts[1..], env)
  }

  /** An element adds exactly the configurations it owns, tagged with the
      artifact it produced. */
  lemma ReadEntryOwned(artifactType: string, e: Json, configs: seq<Configuration>, vars: seq<Binding>, env: Env)
    requires ReadEntry(artifactType, e, configs, vars, env).Ok?
    ensures var one := ReadEntry(artifactType, e, configs, vars, env).value;
            one.configurations == configs + (if one.artifact.Some? then OwnedBy(e, one.artifact.value, env) else [])
  {
    var one := ReadEntry(artifactType, e, configs, vars, env).value;
    if !CarriesConfigurations(e) {
      assert configs + [] == configs;
    }
  }

  /** One turn of the element loop: the first element is read, then the
      rest against the configurations it left, and the first artifact, if
      any, goes in front. */
  lemma ReadEntriesStep(artifactType: string, items: seq<Json>, configs: seq<Configuration>, vars: seq<Binding>, env: Env)
    requires items != [] && ReadEntries(artifactType, items, configs, vars, env).Ok?
    ensures ReadEntry(artifactType, items[0], configs, vars, env).Ok?
    ensures var first := ReadEntry(artifactType, items[0], configs, vars, env).value;
            var rest := ReadEntries(artifactType, items[1..], first.configurations, vars, env);
            && rest.Ok?
            && ReadEntries(artifactType, items, configs, vars, env).value ==
                 ArtifactsRead((if first.artifact.Some? then [first.artifact.value] else []) + rest.value.artifacts,
                               rest.value.configurations)
  {
  }

  /** The configurations a list adds: after the ones read before it come
      those owned by each non-comment element, tagged with that element's
      artifact, in element order. */
  lemma {:induction false} ReadEntriesConfigurations(artifactType: string, items: seq<Json>, configs: seq<Configuration>,
                                                     vars: seq<Binding>, env: Env)
    requires ReadEntries(artifactType, items, configs, vars, env).Ok?
    ensures var r := ReadEntries(artifactType, items, configs, vars, env).value;
            r.configurations == configs + OwnedAll(Kept(items), r.artifacts, env)
    decreases |items|
  {
    if items != [] {
      ReadEntriesStep(artifactType, items, configs, vars, env);
      var first := ReadEntry(artifactType, items[0], configs, vars, env).value;
      var tail := items[1..];
      ReadEntryOwned(artifactType, items[0], configs, vars, env);
      ReadEntriesConfigurations(artifactType, tail, first.configurations, vars, env);
      var rest := ReadEntries(artifactType, tail, first.configurations, vars, env).value;
      var r := ReadEntries(artifactType, items, configs, vars, env).value;
      KeptCons(items);
      if first.artifact.Some? {
        var a := first.artifact.value;
        assert Kept(items) == [items[0]] + Kept(tail) && r.artifacts == [a] + rest.artifacts by {
          assert !IsCommentEntry(items[0]);
        }
        assert r.configurations == configs + OwnedAll([items[0]] + Kept(tail), [a] + rest.artifacts, env) by {
          OwnedAllAppend(configs, first.configurations, items[0], a, Kept(tail), rest.artifacts, rest.configurations, env);
        }
      } else {
        assert Kept(items) == Kept(tail) && r.artifacts == rest.artifacts;
      }
    }
  }

  /** The kept elements of a list are the first one, unless it is a
      comment, then the kept elements of the rest. */
  lemma KeptCons(items: seq<Json>)
    requires items != []
    ensures Kept(items) == (if IsCommentEntry(items[0]) then [] else [items[0]]) + Kept(items[1..])
  {
  }

  /** The configurations after one element and then the rest are those
      owned by the element followed by those owned by the rest. */
  lemma OwnedAllAppend(configs: seq<Configuration>, mid: seq<Configuration>, e: Json, a: Artifact,
                       kept: seq<Json>, arts: seq<Artifact>, after: seq<Configuration>, env: Env)
    requires |kept| == |arts|
    requires mid == configs + OwnedBy(e, a, env)
    requires after == mid + OwnedAll(kept, arts, env)
    ensures after == configs + OwnedAll([e] + kept, [a] + arts, env)
  {
    OwnedAllCons(e, a, kept, arts, env);
    Reassociate(configs, mid, OwnedBy(e, a, env), OwnedAll(kept, arts, env), after);
  }

  /** Appending in two steps is appending the two parts at once. */
  lemma Reassociate<T>(configs: seq<T>, mid: seq<T>, x: seq<T>, y: seq<T>, after: seq<T>)
    requires mid == configs + x && after == mid + y
    ensures after == configs + (x + y)
  {
  }

  /** Putting an element in front puts its owned configurations in front. */
  lemma OwnedAllCons(e: Json, a: Artifact, kept: seq<Json>, arts: seq<Artifact>, env: Env)
    requires |kept| == |arts|
    ensures OwnedAll([e] + kept, [a] + arts, env) == OwnedBy(e, a, env) + OwnedAll(kept, arts, env)
  {
    assert ([e] + kept)[1..] == kept && ([a] + arts)[1..] == arts;
  }

  /** Putting a produced artifact in front keeps the correspondence. */
  lemma ProducesCons(e: Json, a: Artifact, kept: seq<Json>, arts: seq<Artifact>, vars: seq<Binding>, env: Env)
    requires Produces(e, a, vars, env) && |arts| == |kept|
    requires forall i :: 0 <= i < |kept| ==> Produces(kept[i], arts[i], vars, env)
    ensures forall i :: 0 <= i < |kept| + 1 ==> Produces(([e] + kept)[i], ([a] + arts)[i], vars, env)
  {
    forall i | 0 <= i < |kept| + 1
      ensures Produces(([e] + kept)[i], ([a] + arts)[i], vars, env)
    {
      if i > 0 {
        assert ([e] + kept)[i] == kept[i - 1] && ([a] + arts)[i] == arts[i - 1];
      }
    }
  }

  /** Every element of an accepted list is a string or an object with an
      `id`. */
  lemma {:induction false} ReadEntriesShape(artifactType: string, items: seq<Json>, configs: seq<Configuration>,
                                            vars: seq<Binding>, env: Env)
    requires ReadEntries(artifactType, items, configs, vars, env).Ok?
    ensures forall i :: 0 <= i < |items| ==> items[i].JString? || (items[i].JObject? && Has(items[i].members, ID))
    decreases |items|
  {
    if items != [] {
      var first := ReadEntry(artifactType, items[0], configs, vars, env);
      assert first.Ok?;
      assert items[0].JString? || (items[0].JObject? && Has(items[0].members, ID)) by {
        if first.value.artifact.Some? {
          assert Produces(items[0], first.value.artifact.value, vars, env);
        }
      }
      var tail := items[1..];
      ReadEntriesShape(artifactType, tail, first.value.configurations, vars, env);
      assert forall i :: 1 <= i < |items| ==> items[i] == tail[i - 1];
    }
  }

  /** `readArtifacts`: the list must be a list; the artifact list starts empty. */
  function ReadArtifacts(section: string, artifactType: string, listObj: Json, configs: seq<Configuration>,
                         vars: seq<Binding>, env: Env): (r: Result<ArtifactsRead>)
    ensures !listObj.JArray? ==> r == Err(WrongType(section))
    ensures r.Ok? ==> listObj.JArray? && |r.value.artifacts| == |Kept(listObj.items)|
    ensures r.Ok? ==> forall i :: 0 <= i < |r.value.artifacts| ==>
                        Produces(Kept(listObj.items)[i], r.value.artifacts[i], vars, env)
    ensures r.Ok? ==> forall i :: 0 <= i < |r.value.artifacts| ==>
                        r.value.artifacts[i].metadata.Keys !! KNOWN_ARTIFACT_PROPERTIES
    ensures r.Ok? ==> forall i :: 0 <= i < |listObj.items| && listObj.items[i].JObject? ==> Has(listObj.items[i].members, ID)
    ensures r.Ok? ==> |configs| <= |r.value.configurations| && r.value.configurations[..|configs|] == configs
    ensures r.Ok? ==> r.value.configurations == configs + OwnedAll(Kept(listObj.items), r.value.artifacts, env)
  {
    var allowed := [KList];
    :- CheckType(section, listObj, allowed);
    var r := ReadEntries(artifactType, listObj.items, configs, vars, env);
    if r.Ok? then
      ReadEntriesProduces(artifactType, listObj.items, configs, vars, env);
      ReadEntriesShape(artifactType, listObj.items, configs, vars, env);
      ReadEntriesConfigurations(artifactType, listObj.items, configs, vars, env);
      r
    else r
  }

  /** A list whose objects carry no configurations of their own is read
      exactly when every element is well formed, and then the
      configuration collection is left as it was. */
  lemma {:induction false} ReadEntriesAccepts(artifactType: string, items: seq<Json>, configs: seq<Configuration>,
                                              vars: seq<Binding>, env: Env)
    requires forall i :: 0 <= i < |items| ==> !CarriesConfigurations(items[i])
    ensures ReadEntries(artifactType, items, configs, vars, env).Ok? <==>
              forall i :: 0 <= i < |items| ==> WellFormedEntry(items[i], vars, env)
    ensures ReadEntries(artifactType, items, configs, vars, env).Ok? ==>
              ReadEntries(artifactType, items, configs, vars, env).value.configurations == configs
    decreases |items|
  {
    if items != [] {
      var tail := items[1..];
      assert forall i :: 1 <= i < |items| ==> items[i] == tail[i - 1];
      ReadEntryAccepts(artifactType, items[0], configs, vars, env);
      ReadEntriesAccepts(artifactType, tail, configs, vars, env);
    }
  }

  /** `readArtifacts` on a list whose objects carry no configurations:
      read exactly when every element is well formed. */
  lemma ReadArtifactsAccepts(section: string, artifactType: string, listObj: Json, configs: seq<Configuration>,
                             vars: seq<Binding>, env: Env)
    requires listObj.JArray?
    requires forall i :: 0 <= i < |listObj.items| ==> !CarriesConfigurations(listObj.items[i])
    ensures ReadArtifacts(section, artifactType, listObj, configs, vars, env).Ok? <==>
              forall i :: 0 <= i < |listObj.items| ==> WellFormedEntry(listObj.items[i], vars, env)
  {
    assert IsInstance(listObj, [KList][0]);
    ReadEntriesAccepts(artifactType, listObj.items, configs, vars, env);
  }

  /** `containsExact`: an artifact with exactly this id is present. */
  predicate ContainsExact(bundles: seq<Artifact>, id: ArtifactId) {
    exists i :: 0 <= i < |bundles| && bundles[i].id == id
  }

  /** No two bundles share an id. */
  predicate DistinctIds(bundles: seq<Artifact>) {
    forall i, j :: 0 <= i < j < |bundles| ==> bundles[i].id != bundles[j].id
  }

  /** The loop of `readBundles` over the parsed list: reject an id already
      present, reject an illegal start order, then add. */
  function AddBundles(list: seq<Artifact>, container: seq<Artifact>, env: Env): (r: Result<seq<Artifact>>)
    ensures r.Ok? ==> r.value == container + list
    ensures r.Ok? ==> forall i :: 0 <= i < |list| ==> env.startOrder(list[i]).Some?
    ensures r.Ok? && DistinctIds(container) ==> DistinctIds(r.value)
    ensures r.Err? ==> r.error.DuplicateBundle? || r.error.IllegalStartOrder?
    decreases |list|
  {
    if list == [] then Ok(container)
    else
      var a := list[0];
      if ContainsExact(container, a.id) then Err(DuplicateBundle(env.mvnId(a.id)))
      else if env.startOrder(a).None? then Err(IllegalStartOrder(env.mvnId(a.id)))
      else
        var r := AddBundles(list[1..], container + [a], env);
        assert forall i :: 1 <= i < |list| ==> list[i] == list[1..][i - 1];
        assert container + list == (container + [a]) + list[1..];
        r
  }

  /** Bundles are added exactly when no id repeats one already present or
      added before it and every start order is legal. */
  lemma {:induction false} AddBundlesSucceeds(list: seq<Artifact>, container: seq<Artifact>, env: Env)
    ensures AddBundles(list, container, env).Ok? <==>
              forall i :: 0 <= i < |list| ==>
                !ContainsExact(container + list[..i], list[i].id) && env.startOrder(list[i]).Some?
    decreases |list|
  {
    if list != [] {
      var a := list[0];
      var tail := list[1..];
      AddBundlesSucceeds(tail, container + [a], env);
      forall i | 1 <= i < |list|
        ensures container + list[..i] == (container + [a]) + tail[..i - 1]
        ensures list[i] == tail[i - 1]
      {
        assert list[..i] == [a] + tail[..i - 1];
      }
      assert container + list[..0] == container;
    }
  }

  /** `readBundles`: without a bundles section nothing changes; otherwise the
      list is read with variable substitution and its artifacts are added in
      order. */
  function ReadBundles(doc: seq<Member>, container: seq<Artifact>, configs: seq<Configuration>,
                       vars: seq<Binding>, env: Env): (r: Result<ArtifactsRead>)
    ensures !Has(doc, BUNDLES) ==> r == Ok(ArtifactsRead(container, configs))
    ensures Has(doc, BUNDLES) && !Get(doc, BUNDLES).JArray? ==> r == Err(WrongType(BUNDLES))
    ensures r.Ok? && Has(doc, BUNDLES) ==>
              var read := ReadArtifacts(BUNDLES, "bundle", Get(doc, BUNDLES), configs, vars, env);
              read.Ok? && r.value == ArtifactsRead(container + read.value.artifacts, read.value.configurations)
    ensures r.Ok? && DistinctIds(container) ==> DistinctIds(r.value.artifacts)
  {
    if !Has(doc, BUNDLES) then Ok(ArtifactsRead(container, configs))
    else
      var bundlesObj := Get(doc, BUNDLES);
      :- CheckType(BUNDLES, bundlesObj, [KList]);
      var read :- ReadArtifacts(BUNDLES, "bundle", bundlesObj, configs, vars, env);
      var bundles :- AddBundles(read.artifacts, container, env);
      Ok(ArtifactsRead(bundles, read.configurations))
  }

  /** A bundles section is read exactly when its list is read and the
      bundles it yields can all be added. */
  lemma ReadBundlesAccepts(doc: seq<Member>, container: seq<Artifact>, configs: seq<Configuration>,
                           vars: seq<Binding>, env: Env)
    requires Has(doc, BUNDLES)
    ensures var read := ReadArtifacts(BUNDLES, "bundle", Get(doc, BUNDLES), configs, vars, env);
            ReadBundles(doc, container, configs, vars, env).Ok? <==>
              read.Ok? && AddBundles(read.value.artifacts, container, env).Ok?
  {
    if Get(doc, BUNDLES).JArray? {
      assert IsInstance(Get(doc, BUNDLES), [KList][0]);
    }
  }
}
