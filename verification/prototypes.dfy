/** The prototype of a feature (`readPrototype`): a coordinate string, or
an object naming its base feature by `id` or by `location` (the location
wins when both are present), with optional removal lists for bundles,
configurations, framework properties and extensions. An extension removal
is a name, which removes the whole extension, or an object whose
`artifacts` list names the artifacts to remove from that extension only.
 */
module Prototypes {
  import opened Outcomes
  import opened JsonValues
  import opened TypeGuard
  import opened FeatureModel
  import opened ArtifactLists
  import opened ConfigurationReader
  import opened FrameworkProperties

  const PROTOTYPE: string := "prototype"
  const LOCATION: string := "location"
  const REMOVALS: string := "removals"
  const EXTENSION_REMOVALS: string := "extensions"
  const NAME: string := "name"
  const ARTIFACT_LIST: string := "artifacts"
  const ARTIFACT_SECTION: string := "Prototype removal extension artifact"

  /** A prototype with nothing removed. */
  function Bare(source: PrototypeSource): Prototype {
    Prototype(source, [], [], [], [], map[])
  }

  /** The strings of a list that a removal list keeps: with `skipComments`,
      those not starting with `#`. */
  function Wanted(items: seq<Json>, skipComments: bool): (r: seq<string>)
    ensures |r| <= |items|
    decreases |items|
  {
    if items == [] then []
    else (if items[0].JString? && !(skipComments && IsComment(items[0].s)) then [items[0].s] else [])
         + Wanted(items[1..], skipComments)
  }

  /** A list of coordinates: every element must be a string; each wanted
      one is parsed, in order. The first element that is not a string or
      does not parse stops the loop. */
  function ParseIds(section: string, items: seq<Json>, skipComments: bool, env: Env): (r: Result<seq<ArtifactId>>)
    ensures r.Ok? ==> AllStrings(items)
    ensures r.Ok? ==> |r.value| == |Wanted(items, skipComments)|
    ensures r.Err? ==> r.error == WrongType(section) || r.error.MalformedArtifactId?
    decreases |items|
  {
    if items == [] then Ok([])
    else
      :- CheckType(section, items[0], [KString]);
      var tail := items[1..];
      assert forall i :: 1 <= i < |items| ==> items[i] == tail[i - 1];
      if skipComments && IsComment(items[0].s) then
        ParseIds(section, tail, skipComments, env)
      else
        var id :- ParseId(items[0].s, env);
        var rest :- ParseIds(section, tail, skipComments, env);
        Ok([id] + rest)
  }

  /** Each parsed coordinate is the parse of the wanted string at the same
      place. */
  lemma {:induction false} ParseIdsValues(section: string, items: seq<Json>, skipComments: bool, env: Env)
    requires ParseIds(section, items, skipComments, env).Ok?
    ensures var ids := ParseIds(section, items, skipComments, env).value;
            forall i :: 0 <= i < |ids| ==> env.parseId(Wanted(items, skipComments)[i]) == Some(ids[i])
    decreases |items|
  {
    if items != [] {
      var tail := items[1..];
      var ids := ParseIds(section, items, skipComments, env).value;
      var wanted := Wanted(items, skipComments);
      var rest := ParseIds(section, tail, skipComments, env);
      assert rest.Ok?;
      ParseIdsValues(section, tail, skipComments, env);
      if !(skipComments && IsComment(items[0].s)) {
        WantedHead(items, skipComments);
        assert ids == [env.parseId(items[0].s).value] + rest.value;
        forall i | 0 <= i < |ids|
          ensures env.parseId(wanted[i]) == Some(ids[i])
        {
          if i > 0 {
            assert ids[i] == rest.value[i - 1];
            assert wanted[i] == Wanted(tail, skipComments)[i - 1];
          }
        }
      } else {
        WantedSkip(items, skipComments);
      }
    }
  }

  /** A list of strings whose wanted ones all parse is accepted. */
  lemma {:induction false} ParseIdsAccepts(section: string, items: seq<Json>, skipComments: bool, env: Env)
    requires AllStrings(items)
    requires forall i :: 0 <= i < |Wanted(items, skipComments)| ==> env.parseId(Wanted(items, skipComments)[i]).Some?
    ensures ParseIds(section, items, skipComments, env).Ok?
    decreases |items|
  {
    if items != [] {
      var tail := items[1..];
      var wanted := Wanted(items, skipComments);
      assert AllStrings(tail) by {
        assert forall i :: 0 <= i < |tail| ==> tail[i] == items[i + 1];
      }
      assert IsInstance(items[0], [KString][0]);
      if !(skipComments && IsComment(items[0].s)) {
        WantedHead(items, skipComments);
        assert env.parseId(wanted[0]).Some?;
        forall j | 0 <= j < |Wanted(tail, skipComments)|
          ensures env.parseId(Wanted(tail, skipComments)[j]).Some?
        {
          assert Wanted(tail, skipComments)[j] == wanted[j + 1];
        }
      } else {
        WantedSkip(items, skipComments);
      }
      ParseIdsAccepts(section, tail, skipComments, env);
    }
  }

  /** A wanted first string heads the wanted list. */
  lemma WantedHead(items: seq<Json>, skipComments: bool)
    requires items != [] && items[0].JString? && !(skipComments && IsComment(items[0].s))
    ensures Wanted(items, skipComments) == [items[0].s] + Wanted(items[1..], skipComments)
  {
  }

  /** A skipped first element adds nothing to the wanted list. */
  lemma WantedSkip(items: seq<Json>, skipComments: bool)
    requires items != [] && !(items[0].JString? && !(skipComments && IsComment(items[0].s)))
    ensures Wanted(items, skipComments) == Wanted(items[1..], skipComments)
  {
  }

  /** A coordinate list the loop accepts: all strings, and every wanted one
      parses. */
  predicate IdsParse(items: seq<Json>, skipComments: bool, env: Env) {
    && AllStrings(items)
    && forall i :: 0 <= i < |Wanted(items, skipComments)| ==> env.parseId(Wanted(items, skipComments)[i]).Some?
  }

  /** The coordinate loop succeeds exactly on the lists `IdsParse` describes. */
  lemma ParseIdsIff(section: string, items: seq<Json>, skipComments: bool, env: Env)
    ensures ParseIds(section, items, skipComments, env).Ok? <==> IdsParse(items, skipComments, env)
  {
    if ParseIds(section, items, skipComments, env).Ok? {
      ParseIdsValues(section, items, skipComments, env);
    }
    if IdsParse(items, skipComments, env) {
      ParseIdsAccepts(section, items, skipComments, env);
    }
  }

  /** A list of names or PIDs, kept verbatim: every element must be a string. */
  function ReadStrings(section: string, items: seq<Json>): (r: Result<seq<string>>)
    ensures r.Ok? <==> AllStrings(items)
    ensures r.Ok? ==> r.value == StringsOf(items)
    ensures r.Err? ==> r.error == WrongType(section)
    decreases |items|
  {
    if items == [] then Ok([])
    else
      :- CheckType(section, items[0], [KString]);
      var rest :- ReadStrings(section, items[1..]);
      assert forall i :: 1 <= i < |items| ==> items[i] == items[1..][i - 1];
      Ok([items[0].s] + rest)
  }

  /** The elements of an optional list: absent reads as empty, present must
      be a list. */
  function OptionalList(ms: seq<Member>, key: string, section: string): (r: Result<seq<Json>>)
    ensures !Has(ms, key) ==> r == Ok([])
    ensures Has(ms, key) ==> (r.Ok? <==> Get(ms, key).JArray?)
    ensures Has(ms, key) && r.Ok? ==> r.value == Get(ms, key).items
    ensures r.Err? ==> r.error == WrongType(section)
  {
    if !Has(ms, key) then Ok([])
    else
      :- CheckType(section, Get(ms, key), [KList]);
      Ok(Get(ms, key).items)
  }

  /** The extension removals read so far. */
  datatype ExtensionRemovals = ExtensionRemovals(names: seq<string>, artifacts: map<string, seq<ArtifactId>>)

  /** An element that removes only some artifacts of an extension. */
  predicate IsArtifactRemoval(item: Json) {
    item.JObject? && Has(item.members, ARTIFACT_LIST)
  }

  /** An element that removes a whole extension: a name that is not a
      comment, or an object without an artifact list. */
  predicate IsWholeRemoval(item: Json) {
    (item.JString? && !IsComment(item.s)) || (item.JObject? && !Has(item.members, ARTIFACT_LIST))
  }

  /** The extension an element names. */
  function RemovalName(item: Json): string {
    if item.JString? then item.s
    else if item.JObject? && Get(item.members, NAME).JString? then Get(item.members, NAME).s
    else ""
  }

  /** The names of the whole-extension removals of a list, in order. */
  function WholeNames(items: seq<Json>): seq<string>
    decreases |items|
  {
    if items == [] then []
    else (if IsWholeRemoval(items[0]) then [RemovalName(items[0])] else []) + WholeNames(items[1..])
  }

  /** One element of the extension removal list. */
  function ReadExtensionRemoval(item: Json, acc: ExtensionRemovals, env: Env): (r: Result<ExtensionRemovals>)
    ensures r.Ok? ==> item.JString? || (item.JObject? && Get(item.members, NAME).JString?)
    ensures r.Ok? && !IsWholeRemoval(item) && !IsArtifactRemoval(item) ==> r.value == acc
    ensures r.Ok? && IsWholeRemoval(item) ==>
              r.value == acc.(names := acc.names + [RemovalName(item)])
    ensures r.Ok? && IsArtifactRemoval(item) ==>
              && r.value.names == acc.names
              && Get(item.members, ARTIFACT_LIST).JArray?
              && RemovalName(item) in r.value.artifacts
              && ParseIds(ARTIFACT_SECTION, Get(item.members, ARTIFACT_LIST).items, false, env)
                   == Ok(r.value.artifacts[RemovalName(item)])
              && r.value.artifacts == acc.artifacts[RemovalName(item) := r.value.artifacts[RemovalName(item)]]
  {
    var allowed := [KString, KMap];
    :- CheckType("Prototype removal extension", item, allowed);
    if item.JString? then
      if IsComment(item.s) then Ok(acc) else Ok(acc.(names := acc.names + [item.s]))
    else
      var ms := item.members;
      var nameObj := Get(ms, NAME);
      :- CheckType("Prototype removal extension", nameObj, [KString]);
      if Has(ms, ARTIFACT_LIST) then
        var list := Get(ms, ARTIFACT_LIST);
        :- CheckType("Prototype removal extension artifacts", list, [KList]);
        var ids :- ParseIds(ARTIFACT_SECTION, list.items, false, env);
        Ok(acc.(artifacts := acc.artifacts[nameObj.s := ids]))
      else
        Ok(acc.(names := acc.names + [nameObj.s]))
  }

  /** The extension removal loop. */
  function ReadExtensionRemovals(items: seq<Json>, acc: ExtensionRemovals, env: Env): (r: Result<ExtensionRemovals>)
    ensures r.Ok? ==> r.value.names == acc.names + WholeNames(items)
    ensures r.Ok? ==> forall k :: k in r.value.artifacts <==>
              k in acc.artifacts || exists i :: 0 <= i < |items| && IsArtifactRemoval(items[i]) && RemovalName(items[i]) == k
    decreases |items|
  {
    if items == [] then Ok(acc)
    else
      var acc' :- ReadExtensionRemoval(items[0], acc, env);
      var r :- ReadExtensionRemovals(items[1..], acc', env);
      assert forall i :: 1 <= i < |items| ==> items[i] == items[1..][i - 1];
      assert WholeNames(items) == (if IsWholeRemoval(items[0]) then [RemovalName(items[0])] else []) + WholeNames(items[1..]);
      Ok(r)
  }

  /** An element of the extension removal list that is accepted: a string,
      or a map with a string `name` whose `artifacts`, when present, is a
      list of coordinates that all parse. */
  predicate RemovalAccepted(item: Json, env: Env) {
    || item.JString?
    || (&& item.JObject?
        && Get(item.members, NAME).JString?
        && (Has(item.members, ARTIFACT_LIST) ==>
              Get(item.members, ARTIFACT_LIST).JArray? && IdsParse(Get(item.members, ARTIFACT_LIST).items, false, env)))
  }

  /** One element is accepted exactly when `RemovalAccepted` holds, whatever
      was read before it. */
  lemma ReadExtensionRemovalAccepts(item: Json, acc: ExtensionRemovals, env: Env)
    ensures ReadExtensionRemoval(item, acc, env).Ok? <==> RemovalAccepted(item, env)
  {
    if item.JString? {
      assert IsInstance(item, [KString, KMap][0]);
    } else if item.JObject? {
      assert IsInstance(item, [KString, KMap][1]);
      var ms := item.members;
      if Get(ms, NAME).JString? {
        assert IsInstance(Get(ms, NAME), [KString][0]);
        if Has(ms, ARTIFACT_LIST) && Get(ms, ARTIFACT_LIST).JArray? {
          assert IsInstance(Get(ms, ARTIFACT_LIST), [KList][0]);
          ParseIdsIff(ARTIFACT_SECTION, Get(ms, ARTIFACT_LIST).items, false, env);
        }
      }
    }
  }

  /** The list is accepted exactly when every element is. */
  lemma {:induction false} ReadExtensionRemovalsAccepts(items: seq<Json>, acc: ExtensionRemovals, env: Env)
    ensures ReadExtensionRemovals(items, acc, env).Ok? <==>
            forall i :: 0 <= i < |items| ==> RemovalAccepted(items[i], env)
    decreases |items|
  {
    if items != [] {
      var tail := items[1..];
      ReadExtensionRemovalAccepts(items[0], acc, env);
      var first := ReadExtensionRemoval(items[0], acc, env);
      if first.Ok? {
        ReadExtensionRemovalsAccepts(tail, first.value, env);
        if forall j :: 0 <= j < |tail| ==> RemovalAccepted(tail[j], env) {
          forall i | 0 <= i < |items| ensures RemovalAccepted(items[i], env) {
            if i > 0 { assert items[i] == tail[i - 1]; }
          }
        } else {
          var j :| 0 <= j < |tail| && !RemovalAccepted(tail[j], env);
          assert items[j + 1] == tail[j];
        }
      }
    }
  }

  /** The place of the last element with an artifact list for extension `k`,
      or -1 when there is none. */
  function LastArtifactRemoval(items: seq<Json>, k: string): (r: int)
    ensures -1 <= r < |items|
    ensures r >= 0 ==> IsArtifactRemoval(items[r]) && RemovalName(items[r]) == k
    ensures forall j :: r < j < |items| ==> !(IsArtifactRemoval(items[j]) && RemovalName(items[j]) == k)
    decreases |items|
  {
    if items == [] then -1
    else if IsArtifactRemoval(items[|items| - 1]) && RemovalName(items[|items| - 1]) == k then |items| - 1
    else LastArtifactRemoval(items[..|items| - 1], k)
  }

  /** The last such element of a list is the last one of its tail, shifted,
      or else the head when that one qualifies. */
  lemma LastArtifactRemovalCons(items: seq<Json>, k: string)
    requires items != []
    ensures var rest := LastArtifactRemoval(items[1..], k);
            LastArtifactRemoval(items, k) ==
              if rest >= 0 then rest + 1
              else if IsArtifactRemoval(items[0]) && RemovalName(items[0]) == k then 0
              else -1
  {
    var tail := items[1..];
    var rest := LastArtifactRemoval(tail, k);
    if rest >= 0 {
      assert items[rest + 1] == tail[rest];
    }
  }

  /** What one element does to the entry of extension `k` in the
      artifact-removal map. */
  lemma ReadExtensionRemovalEntry(item: Json, acc: ExtensionRemovals, env: Env, k: string)
    requires ReadExtensionRemoval(item, acc, env).Ok?
    ensures var next := ReadExtensionRemoval(item, acc, env).value;
            if IsArtifactRemoval(item) && RemovalName(item) == k then
              && k in next.artifacts
              && Get(item.members, ARTIFACT_LIST).JArray?
              && ParseIds(ARTIFACT_SECTION, Get(item.members, ARTIFACT_LIST).items, false, env) == Ok(next.artifacts[k])
            else
              && (k in next.artifacts <==> k in acc.artifacts)
              && (k in acc.artifacts ==> next.artifacts[k] == acc.artifacts[k])
  {
  }

  /** The entry `arts[k]` comes from the last element with an artifact list
      for `k`, or, when there is none, from `acc`. */
  predicate LastRemovalWins(items: seq<Json>, acc: ExtensionRemovals, arts: map<string, seq<ArtifactId>>, k: string, env: Env)
    requires k in arts
  {
    var j := LastArtifactRemoval(items, k);
    if j >= 0 then
      && Get(items[j].members, ARTIFACT_LIST).JArray?
      && ParseIds(ARTIFACT_SECTION, Get(items[j].members, ARTIFACT_LIST).items, false, env) == Ok(arts[k])
    else k in acc.artifacts && arts[k] == acc.artifacts[k]
  }

  /** Later elements win: each name of the artifact-removal map holds the
      ids of the last element with an artifact list for it, or, when there
      is none, what was there before the loop. */
  lemma {:induction false} ReadExtensionRemovalsValues(items: seq<Json>, acc: ExtensionRemovals, env: Env)
    requires ReadExtensionRemovals(items, acc, env).Ok?
    ensures var r := ReadExtensionRemovals(items, acc, env).value;
            forall k :: k in r.artifacts ==> LastRemovalWins(items, acc, r.artifacts, k, env)
    decreases |items|
  {
    if items != [] {
      var tail := items[1..];
      var acc' := ReadExtensionRemoval(items[0], acc, env).value;
      var r := ReadExtensionRemovals(items, acc, env).value;
      assert r == ReadExtensionRemovals(tail, acc', env).value;
      ReadExtensionRemovalsValues(tail, acc', env);
      forall k | k in r.artifacts
        ensures LastRemovalWins(items, acc, r.artifacts, k, env)
      {
        LastRemovalWinsCons(items, acc, acc', r.artifacts, k, env);
      }
    }
  }

  /** The step of `ReadExtensionRemovalsValues`: what holds after the head
      element holds before it. */
  lemma LastRemovalWinsCons(items: seq<Json>, acc: ExtensionRemovals, acc': ExtensionRemovals,
                            arts: map<string, seq<ArtifactId>>, k: string, env: Env)
    requires items != [] && ReadExtensionRemoval(items[0], acc, env) == Ok(acc')
    requires k in arts && LastRemovalWins(items[1..], acc', arts, k, env)
    ensures LastRemovalWins(items, acc, arts, k, env)
  {
    var tail := items[1..];
    LastArtifactRemovalCons(items, k);
    ReadExtensionRemovalEntry(items[0], acc, env, k);
    var rest := LastArtifactRemoval(tail, k);
    if rest >= 0 {
      assert items[rest + 1] == tail[rest];
    }
  }

  /** A `removals` map that is accepted: each list present has the right
      shape, the bundle coordinates parse, and every extension removal is
      accepted. */
  predicate RemovalsAccepted(ms: seq<Member>, env: Env) {
    && (Has(ms, BUNDLES) ==> Get(ms, BUNDLES).JArray? && IdsParse(Get(ms, BUNDLES).items, true, env))
    && (Has(ms, CONFIGURATIONS) ==> Get(ms, CONFIGURATIONS).JArray? && AllStrings(Get(ms, CONFIGURATIONS).items))
    && (Has(ms, FRAMEWORK_PROPERTIES) ==>
          Get(ms, FRAMEWORK_PROPERTIES).JArray? && AllStrings(Get(ms, FRAMEWORK_PROPERTIES).items))
    && (Has(ms, EXTENSION_REMOVALS) ==>
          && Get(ms, EXTENSION_REMOVALS).JArray?
          && forall i :: 0 <= i < |Get(ms, EXTENSION_REMOVALS).items| ==>
               RemovalAccepted(Get(ms, EXTENSION_REMOVALS).items[i], env))
  }

  /** The `removals` object. */
  function ReadRemovals(v: Json, source: PrototypeSource, env: Env): (r: Result<Prototype>)
    ensures !v.JObject? ==> r == Err(WrongType("Prototype removals"))
    ensures r.Ok? ==> r.value.source == source
    ensures r.Ok? ==> var ms := v.members;
            && (Has(ms, BUNDLES) ==> Get(ms, BUNDLES).JArray? && |r.value.bundleRemovals| == |Wanted(Get(ms, BUNDLES).items, true)|)
            && (!Has(ms, BUNDLES) ==> r.value.bundleRemovals == [])
            && (Has(ms, CONFIGURATIONS) ==>
                  (Get(ms, CONFIGURATIONS).JArray? && AllStrings(Get(ms, CONFIGURATIONS).items)
                   && r.value.configurationRemovals == StringsOf(Get(ms, CONFIGURATIONS).items)))
            && (!Has(ms, CONFIGURATIONS) ==> r.value.configurationRemovals == [])
            && (Has(ms, FRAMEWORK_PROPERTIES) ==>
                  (Get(ms, FRAMEWORK_PROPERTIES).JArray? && AllStrings(Get(ms, FRAMEWORK_PROPERTIES).items)
                   && r.value.frameworkPropertiesRemovals == StringsOf(Get(ms, FRAMEWORK_PROPERTIES).items)))
            && (!Has(ms, FRAMEWORK_PROPERTIES) ==> r.value.frameworkPropertiesRemovals == [])
            && (Has(ms, EXTENSION_REMOVALS) ==>
                  (Get(ms, EXTENSION_REMOVALS).JArray? && r.value.extensionRemovals == WholeNames(Get(ms, EXTENSION_REMOVALS).items)))
            && (!Has(ms, EXTENSION_REMOVALS) ==> r.value.extensionRemovals == [] && r.value.artifactExtensionRemovals == map[])
    ensures r.Ok? && Has(v.members, BUNDLES) ==>
              ParseIds("Prototype removal bundles", Get(v.members, BUNDLES).items, true, env) == Ok(r.value.bundleRemovals)
    ensures r.Ok? && Has(v.members, EXTENSION_REMOVALS) ==>
              ReadExtensionRemovals(Get(v.members, EXTENSION_REMOVALS).items, ExtensionRemovals([], map[]), env)
                == Ok(ExtensionRemovals(r.value.extensionRemovals, r.value.artifactExtensionRemovals))
  {
    var allowed := [KMap];
    :- CheckType("Prototype removals", v, allowed);
    var ms := v.members;
    var bundleList :- OptionalList(ms, BUNDLES, "Prototype removal bundles");
    var bundles :- ParseIds("Prototype removal bundles", bundleList, true, env);
    var configList :- OptionalList(ms, CONFIGURATIONS, "Prototype removal configuration");
    var configs :- ReadStrings("Prototype removal configuration", configList);
    var propList :- OptionalList(ms, FRAMEWORK_PROPERTIES, "Prototype removal framework properties");
    var props :- ReadStrings("Prototype removal framework properties", propList);
    var extList :- OptionalList(ms, EXTENSION_REMOVALS, "Prototype removal extensions");
    var exts :- ReadExtensionRemovals(extList, ExtensionRemovals([], map[]), env);
    assert [] + WholeNames(extList) == WholeNames(extList);
    Ok(Prototype(source, bundles, configs, props, exts.names, exts.artifacts))
  }

  /** A `removals` value is accepted exactly when it is a map that
      `RemovalsAccepted` describes. */
  lemma ReadRemovalsAccepts(v: Json, source: PrototypeSource, env: Env)
    ensures ReadRemovals(v, source, env).Ok? <==> v.JObject? && RemovalsAccepted(v.members, env)
  {
    if v.JObject? {
      var ms := v.members;
      assert IsInstance(v, [KMap][0]);
      var bundleList := OptionalList(ms, BUNDLES, "Prototype removal bundles");
      var extList := OptionalList(ms, EXTENSION_REMOVALS, "Prototype removal extensions");
      if bundleList.Ok? {
        ParseIdsIff("Prototype removal bundles", bundleList.value, true, env);
      }
      if extList.Ok? {
        ReadExtensionRemovalsAccepts(extList.value, ExtensionRemovals([], map[]), env);
      }
    }
  }

  /** What an accepted `removals` map holds, element by element: the `i`-th
      bundle removal is the parse of the `i`-th coordinate that is not a
      comment, and each extension named in the artifact-removal map holds
      the ids of the last element with an artifact list for it. */
  lemma ReadRemovalsContents(v: Json, source: PrototypeSource, env: Env)
    requires ReadRemovals(v, source, env).Ok?
    ensures var p := ReadRemovals(v, source, env).value;
            Has(v.members, BUNDLES) ==>
              forall i :: 0 <= i < |p.bundleRemovals| ==>
                env.parseId(Wanted(Get(v.members, BUNDLES).items, true)[i]) == Some(p.bundleRemovals[i])
    ensures var p := ReadRemovals(v, source, env).value;
            forall k :: k in p.artifactExtensionRemovals ==>
              && Has(v.members, EXTENSION_REMOVALS)
              && var items := Get(v.members, EXTENSION_REMOVALS).items;
              && 0 <= LastArtifactRemoval(items, k)
              && LastRemovalWins(items, ExtensionRemovals([], map[]), p.artifactExtensionRemovals, k, env)
  {
    var p := ReadRemovals(v, source, env).value;
    var ms := v.members;
    if Has(ms, BUNDLES) {
      ParseIdsValues("Prototype removal bundles", Get(ms, BUNDLES).items, true, env);
    }
    if Has(ms, EXTENSION_REMOVALS) {
      var items := Get(ms, EXTENSION_REMOVALS).items;
      ReadExtensionRemovalsValues(items, ExtensionRemovals([], map[]), env);
    }
  }

  /** Where the prototype object points: `location` when present, else `id`. */
  function ReadSource(obj: seq<Member>, env: Env): (r: Result<PrototypeSource>)
    ensures Has(obj, LOCATION) && r.Ok? ==>
              Get(obj, LOCATION).JString? && r.value.FromLocation? && env.parseUrl(Get(obj, LOCATION).s) == Some(r.value.url)
    ensures Has(obj, LOCATION) && Get(obj, LOCATION).JString? && env.parseUrl(Get(obj, LOCATION).s).None? ==>
              r == Err(MalformedLocation(Get(obj, LOCATION).s))
    ensures !Has(obj, LOCATION) && r.Ok? ==>
              Get(obj, ID).JString? && r.value.FromId? && env.parseId(Get(obj, ID).s) == Some(r.value.id)
    ensures !Has(obj, LOCATION) && !Has(obj, ID) ==> r.Err?
    ensures Has(obj, LOCATION) && Get(obj, LOCATION).JString? && env.parseUrl(Get(obj, LOCATION).s).Some? ==>
              r == Ok(FromLocation(env.parseUrl(Get(obj, LOCATION).s).value))
    ensures Has(obj, LOCATION) && !Get(obj, LOCATION).JString? ==> r == Err(WrongType("Prototype location"))
    ensures !Has(obj, LOCATION) && Get(obj, ID).JString? ==>
              r == (match env.parseId(Get(obj, ID).s)
                    case Some(id) => Ok(FromId(id))
                    case None => Err(MalformedArtifactId(Get(obj, ID).s)))
    ensures !Has(obj, LOCATION) && !Get(obj, ID).JString? ==> r == Err(WrongType("Prototype id"))
  {
    if Has(obj, LOCATION) then
      var loc := Get(obj, LOCATION);
      :- CheckType("Prototype " + LOCATION, loc, [KString]);
      match env.parseUrl(loc.s)
      case Some(url) => Ok(FromLocation(url))
      case None => Err(MalformedLocation(loc.s))
    else
      var idValue := Get(obj, ID);
      :- CheckType("Prototype " + ID, idValue, [KString]);
      var id :- ParseId(idValue.s, env);
      Ok(FromId(id))
  }

  /** `readPrototype`: no prototype key means no prototype. */
  function ReadPrototype(doc: seq<Member>, env: Env): (r: Result<Option<Prototype>>)
    ensures !Has(doc, PROTOTYPE) ==> r == Ok(None)
    ensures Has(doc, PROTOTYPE) && r.Ok? ==> r.value.Some?
    ensures Has(doc, PROTOTYPE) && !(Get(doc, PROTOTYPE).JString? || Get(doc, PROTOTYPE).JObject?) ==>
              r == Err(WrongType(PROTOTYPE))
    ensures Get(doc, PROTOTYPE).JString? ==>
              r == (match env.parseId(Get(doc, PROTOTYPE).s)
                    case Some(id) => Ok(Some(Bare(FromId(id))))
                    case None => Err(MalformedArtifactId(Get(doc, PROTOTYPE).s)))
    ensures var v := Get(doc, PROTOTYPE);
            v.JObject? && !Has(v.members, ID) && !Has(v.members, LOCATION) ==> r.Err? && r.error.MissingField?
    ensures var v := Get(doc, PROTOTYPE);
            v.JObject? && r.Ok? ==> ReadSource(v.members, env) == Ok(r.value.value.source)
    ensures var v := Get(doc, PROTOTYPE);
            v.JObject? && !Has(v.members, REMOVALS) && r.Ok? ==> r.value.value == Bare(r.value.value.source)
    ensures var v := Get(doc, PROTOTYPE);
            v.JObject? && Has(v.members, REMOVALS) && r.Ok? ==>
              ReadRemovals(Get(v.members, REMOVALS), r.value.value.source, env) == Ok(r.value.value)
    ensures var v := Get(doc, PROTOTYPE);
            v.JObject? && (Has(v.members, ID) || Has(v.members, LOCATION)) ==>
              (r.Ok? <==> && ReadSource(v.members, env).Ok?
                          && (Has(v.members, REMOVALS) ==>
                                ReadRemovals(Get(v.members, REMOVALS), ReadSource(v.members, env).value, env).Ok?))
    ensures var v := Get(doc, PROTOTYPE);
            v.JObject? && (Has(v.members, ID) || Has(v.members, LOCATION)) && ReadSource(v.members, env).Err? ==>
              r == Err(ReadSource(v.members, env).error)
  {
    if !Has(doc, PROTOTYPE) then Ok(None)
    else
      var v := Get(doc, PROTOTYPE);
      :- CheckType(PROTOTYPE, v, [KMap, KString]);
      if v.JString? then
        var id :- ParseId(v.s, env);
        Ok(Some(Bare(FromId(id))))
      else
        var obj := v.members;
        if !Has(obj, ID) && !Has(obj, LOCATION) then Err(MissingField("prototype id or location"))
        else
          var source :- ReadSource(obj, env);
          if !Has(obj, REMOVALS) then Ok(Some(Bare(source)))
          else
            var p :- ReadRemovals(Get(obj, REMOVALS), source, env);
            Ok(Some(p))
  }

  /** The bundle removal list of the documented example: the comment is
      skipped, the coordinate parsed. */
  lemma BundleRemovalsExample(env: Env, removed: ArtifactId)
    requires env.parseId("g:a:1.0") == Some(removed)
    ensures ParseIds("Prototype removal bundles", [JString("g:a:1.0"), JString("#comment")], true, env) == Ok([removed])
  {
    var items := [JString("g:a:1.0"), JString("#comment")];
    assert IsComment(items[1].s) && !IsComment(items[0].s);
    assert IsInstance(items[0], [KString][0]) && IsInstance(items[1], [KString][0]);
    assert items[1..][1..] == [];
    assert ParseIds("Prototype removal bundles", items[1..], true, env) == Ok([]);
    assert ParseId(items[0].s, env) == Ok(removed);
    assert [removed] + [] == [removed];
  }

  /** The removals object of the documented example. */
  lemma RemovalsExample(env: Env, source: PrototypeSource, removed: ArtifactId)
    requires env.parseId("g:a:1.0") == Some(removed)
    ensures var removals := JObject([Member(BUNDLES, JArray([JString("g:a:1.0"), JString("#comment")]))]);
            ReadRemovals(removals, source, env) == Ok(Prototype(source, [removed], [], [], [], map[]))
  {
    var bundles := JArray([JString("g:a:1.0"), JString("#comment")]);
    var removalMembers := [Member(BUNDLES, bundles)];
    BundleRemovalsExample(env, removed);
    assert Get(removalMembers, BUNDLES) == bundles;
    assert !Has(removalMembers, CONFIGURATIONS) && !Has(removalMembers, FRAMEWORK_PROPERTIES);
    assert !Has(removalMembers, EXTENSION_REMOVALS);
  }

  /** A prototype object with removals reads as the removals read against
      its source. */
  lemma ReadPrototypeWithRemovals(doc: seq<Member>, obj: seq<Member>, source: PrototypeSource, p: Prototype, env: Env)
    requires Has(doc, PROTOTYPE) && Get(doc, PROTOTYPE) == JObject(obj)
    requires (Has(obj, ID) || Has(obj, LOCATION)) && ReadSource(obj, env) == Ok(source)
    requires Has(obj, REMOVALS) && ReadRemovals(Get(obj, REMOVALS), source, env) == Ok(p)
    ensures ReadPrototype(doc, env) == Ok(Some(p))
  {
    assert IsInstance(JObject(obj), [KMap, KString][0]);
    assert CheckType(PROTOTYPE, JObject(obj), [KMap, KString]) == Pass;
  }

  /** The prototype object of the documented example, and what its source
      and removals lookups find. */
  lemma ExampleObjectLookups(env: Env, base: ArtifactId, obj: seq<Member>, removals: Json)
    requires env.parseId("g:p:1.0") == Some(base)
    requires obj == [Member(ID, JString("g:p:1.0")), Member(REMOVALS, removals)]
    ensures Has(obj, ID) && Has(obj, REMOVALS) && Get(obj, REMOVALS) == removals
    ensures ReadSource(obj, env) == Ok(FromId(base))
  {
    assert !Has(obj, LOCATION);
    assert Get(obj, ID) == JString("g:p:1.0");
    assert obj[1..] == [Member(REMOVALS, removals)];
    assert Find(obj[1..], REMOVALS) == Some(removals);
  }

  /** The documented example: a prototype by id whose bundle removals hold
      one coordinate and one comment. */
  lemma PrototypeExample(env: Env, base: ArtifactId, removed: ArtifactId)
    requires env.parseId("g:p:1.0") == Some(base) && env.parseId("g:a:1.0") == Some(removed)
    ensures var removals := JObject([Member(BUNDLES, JArray([JString("g:a:1.0"), JString("#comment")]))]);
            var doc := [Member(PROTOTYPE, JObject([Member(ID, JString("g:p:1.0")), Member(REMOVALS, removals)]))];
            ReadPrototype(doc, env) == Ok(Some(Prototype(FromId(base), [removed], [], [], [], map[])))
  {
    var removals := JObject([Member(BUNDLES, JArray([JString("g:a:1.0"), JString("#comment")]))]);
    var obj := [Member(ID, JString("g:p:1.0")), Member(REMOVALS, removals)];
    var doc := [Member(PROTOTYPE, JObject(obj))];
    assert Get(doc, PROTOTYPE) == JObject(obj);
    ExampleObjectLookups(env, base, obj, removals);
    RemovalsExample(env, FromId(base), removed);
    ReadPrototypeWithRemovals(doc, obj, FromId(base), Prototype(FromId(base), [removed], [], [], [], map[]), env);
  }
}
