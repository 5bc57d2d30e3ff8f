/** The extensions of a feature (`readExtensions`): every top-level key
that is not a reader keyword names an extension. The key declares its
name, type and optional flag; the name must be neither a reserved feature
property nor the name of an extension already present. The value is then
read according to the type: an artifact list, a JSON structure, or text.
 */
module Extensions {
  import opened Outcomes
  import opened JsonValues
  import opened TypeGuard
  import opened FeatureModel
  import opened ArtifactLists
  import opened JsonBuild
  import opened ExtensionKeys
  import opened Text

  /** What reading the extensions produces: the extensions in key order and
      the configuration collection, grown by configurations owned by
      extension artifacts. */
  datatype ExtensionsRead = ExtensionsRead(extensions: seq<Extension>, configurations: seq<Configuration>)

  /** What reading one extension produces. */
  datatype ExtensionRead = ExtensionRead(extension: Extension, configurations: seq<Configuration>)

  /** `container.getByName(name) != null`. */
  predicate HasExtension(container: seq<Extension>, name: string) {
    exists i :: 0 <= i < |container| && container[i].name == name
  }

  /** No two extensions share a name. */
  predicate DistinctNames(exts: seq<Extension>) {
    forall i, j :: 0 <= i < j < |exts| ==> exts[i].name != exts[j].name
  }

  /** The payload is the one the type calls for. */
  predicate PayloadMatches(e: Extension) {
    && (e.kind == ARTIFACTS <==> e.payload.ArtifactList?)
    && (e.kind == JSON <==> e.payload.JsonTree?)
    && (e.kind == TEXT <==> e.payload.Text?)
  }

  /** The list form of a TEXT payload: every element must be a string, and
      each is appended followed by a newline. */
  function TextLines(section: string, items: seq<Json>): (r: Result<string>)
    ensures r.Ok? <==> AllStrings(items)
    ensures r.Ok? ==> r.value == JoinLines(StringsOf(items))
    ensures r.Err? ==> r.error == WrongType(section)
    decreases |items|
  {
    if items == [] then Ok("")
    else
      :- CheckType(section, items[0], [KString]);
      var rest :- TextLines(section, items[1..]);
      assert forall i :: 1 <= i < |items| ==> items[i] == items[1..][i - 1];
      Ok(items[0].s + "\n" + rest)
  }

  /** A TEXT payload: a string is the text itself, a list of strings is its
      lines; anything else is a type failure. */
  function TextPayload(section: string, v: Json): (r: Result<string>)
    ensures r.Ok? <==> v.JString? || (v.JArray? && AllStrings(v.items))
    ensures r.Ok? && v.JString? ==> r.value == v.s
    ensures r.Ok? && v.JArray? ==> r.value == JoinLines(StringsOf(v.items))
    ensures r.Err? ==> r.error == WrongType(section)
  {
    var allowed := [KString, KList];
    :- CheckType(section, v, allowed);
    if v.JString? then Ok(v.s) else TextLines(section, v.items)
  }

  /** The lines of a list payload can be read back from its text, as long
      as no line holds a newline itself. */
  lemma TextPayloadLines(section: string, items: seq<Json>)
    requires AllStrings(items)
    requires forall i :: 0 <= i < |items| ==> '\n' !in items[i].s
    ensures TextPayload(section, JArray(items)).Ok?
    ensures SplitLines(TextPayload(section, JArray(items)).value) == StringsOf(items)
  {
    SplitJoinLines(StringsOf(items));
  }

  /** The documented example: two lines, each newline-terminated. */
  lemma TextPayloadExample()
    ensures TextPayload("t", JArray([JString("l1"), JString("l2")])) == Ok("l1\nl2\n")
  {
    var items := [JString("l1"), JString("l2")];
    assert items[1..] == [JString("l2")];
    assert items[1..][1..] == [];
    assert IsInstance(items[0], [KString][0]) && IsInstance(items[1], [KString][0]);
    assert TextLines("t", items[1..][1..]) == Ok("");
    assert TextLines("t", items[1..]) == Ok("l2" + "\n" + "");
    assert "l2" + "\n" + "" == "l2\n";
    assert TextLines("t", items) == Ok("l1" + "\n" + "l2\n");
    assert "l1" + "\n" + "l2\n" == "l1\nl2\n";
  }

  /** The ARTIFACTS payload loop: an artifact equal to one already in the
      extension is a duplicate. */
  function AddExtensionArtifacts(name: string, list: seq<Artifact>, acc: seq<Artifact>): (r: Result<seq<Artifact>>)
    ensures r.Ok? ==> r.value == acc + list
    ensures r.Err? ==> r.error == DuplicateExtensionArtifact(name)
    decreases |list|
  {
    if list == [] then Ok(acc)
    else if ContainsExact(acc, list[0].id) then Err(DuplicateExtensionArtifact(name))
    else
      var r := AddExtensionArtifacts(name, list[1..], acc + [list[0]]);
      assert acc + list == (acc + [list[0]]) + list[1..];
      r
  }

  /** The payload loop accepts a list exactly when no two of its artifacts
      (and none already there) share an id. */
  lemma {:induction false} AddExtensionArtifactsSucceeds(name: string, list: seq<Artifact>, acc: seq<Artifact>)
    requires DistinctIds(acc)
    ensures AddExtensionArtifacts(name, list, acc).Ok? <==> DistinctIds(acc + list)
    decreases |list|
  {
    if list != [] {
      var a := list[0];
      assert acc + list == (acc + [a]) + list[1..];
      if ContainsExact(acc, a.id) {
        var i :| 0 <= i < |acc| && acc[i].id == a.id;
        assert (acc + list)[i].id == (acc + list)[|acc|].id;
      } else {
        assert DistinctIds(acc + [a]);
        AddExtensionArtifactsSucceeds(name, list[1..], acc + [a]);
        if DistinctIds(acc + list) {
          assert DistinctIds(acc + [a]);
        }
      }
    }
  }

  /** The ARTIFACTS payload: the value is read as an artifact list without
      variables, and no artifact may appear twice in the extension. */
  function ArtifactsPayload(name: string, value: Json, configs: seq<Configuration>, env: Env)
    : (r: Result<(Payload, seq<Configuration>)>)
    ensures var read := ReadArtifacts("Extension " + name, "artifact", value, configs, [], env);
            r.Ok? <==> read.Ok? && DistinctIds(read.value.artifacts)
    ensures r.Err? ==> ReadArtifacts("Extension " + name, "artifact", value, configs, [], env).Err? || r.error == DuplicateExtensionArtifact(name)
    ensures r.Ok? ==> r.value.0.ArtifactList?
    ensures r.Ok? ==>
              ReadArtifacts("Extension " + name, "artifact", value, configs, [], env)
                == Ok(ArtifactsRead(r.value.0.artifacts, r.value.1))
  {
    var read := ReadArtifacts("Extension " + name, "artifact", value, configs, [], env);
    if read.Err? then Err(read.error)
    else
      var arts := read.value.artifacts;
      AddExtensionArtifactsFresh(name, arts);
      var list :- AddExtensionArtifacts(name, arts, []);
      Ok((ArtifactList(list), read.value.configurations))
  }

  /** Starting from an empty extension: the list is kept as it is, and
      accepted exactly when its ids are distinct. */
  lemma AddExtensionArtifactsFresh(name: string, arts: seq<Artifact>)
    ensures AddExtensionArtifacts(name, arts, []).Ok? <==> DistinctIds(arts)
    ensures AddExtensionArtifacts(name, arts, []).Ok? ==> AddExtensionArtifacts(name, arts, []).value == arts
  {
    AddExtensionArtifactsSucceeds(name, arts, []);
    assert [] + arts == arts;
  }

  /** The payload of one extension, by type. */
  function ReadPayload(kind: ExtensionType, name: string, value: Json, configs: seq<Configuration>, env: Env)
    : (r: Result<(Payload, seq<Configuration>)>)
    ensures r.Ok? ==> PayloadMatches(Extension(kind, name, false, r.value.0))
    ensures r.Ok? && kind == ARTIFACTS ==>
              value.JArray? && DistinctIds(r.value.0.artifacts) && |r.value.0.artifacts| == |Kept(value.items)|
    ensures r.Ok? && kind == ARTIFACTS ==>
              ReadArtifacts("Extension " + name, "artifact", value, configs, [], env)
                == Ok(ArtifactsRead(r.value.0.artifacts, r.value.1))
    ensures kind == ARTIFACTS ==>
              var read := ReadArtifacts("Extension " + name, "artifact", value, configs, [], env);
              (r.Ok? <==> read.Ok? && DistinctIds(read.value.artifacts))
    ensures r.Ok? && kind == JSON ==> IsStructure(value) && r.value.0.tree == Build(value) && NullFree(r.value.0.tree)
    ensures kind == JSON ==> (r.Ok? <==> IsStructure(value))
    ensures r.Ok? && kind == TEXT ==> Ok(r.value.0.text) == TextPayload("Text Extension " + name, value)
    ensures kind == TEXT ==> (r.Ok? <==> TextPayload("Text Extension " + name, value).Ok?)
    ensures r.Ok? ==> |configs| <= |r.value.1| && r.value.1[..|configs|] == configs
    ensures r.Ok? && kind != ARTIFACTS ==> r.value.1 == configs
  {
    match kind
    case ARTIFACTS =>
      ArtifactsPayload(name, value, configs, env)
    case JSON =>
      :- CheckType("JSON Extension " + name, value, [KMap, KList]);
      Ok((JsonTree(Build(value)), configs))
    case TEXT =>
      var text :- TextPayload("Text Extension " + name, value);
      Ok((Text(text), configs))
  }

  /** One extension key and its value: reserved name, then duplicate name,
      then the type, then the payload. */
  function ReadExtension(m: Member, container: seq<Extension>, configs: seq<Configuration>, env: Env)
    : (r: Result<ExtensionRead>)
    ensures var name := SplitKey(m.key).name;
            name in env.featureKeywords ==> r == Err(ReservedExtensionName(name))
    ensures var name := SplitKey(m.key).name;
            name !in env.featureKeywords && HasExtension(container, name) ==> r == Err(DuplicateExtension(name))
    ensures var p := SplitKey(m.key);
            p.name !in env.featureKeywords && !HasExtension(container, p.name) && KeyType(p).Err? ==> r == Err(KeyType(p).error)
    ensures r.Ok? ==> var p := SplitKey(m.key);
            && r.value.extension.name == p.name
            && p.name !in env.featureKeywords
            && !HasExtension(container, p.name)
            && KeyType(p) == Ok(r.value.extension.kind)
            && r.value.extension.optional == KeyOptional(p)
            && PayloadMatches(r.value.extension)
    ensures r.Ok? ==> ReadPayload(r.value.extension.kind, SplitKey(m.key).name, m.value, configs, env)
                        == Ok((r.value.extension.payload, r.value.configurations))
    ensures var p := SplitKey(m.key);
            p.name !in env.featureKeywords && !HasExtension(container, p.name) && KeyType(p).Ok? ==>
              var payload := ReadPayload(KeyType(p).value, p.name, m.value, configs, env);
              && (r.Ok? <==> payload.Ok?)
              && (r.Err? ==> r.error == payload.error)
    ensures r.Ok? ==> |configs| <= |r.value.configurations| && r.value.configurations[..|configs|] == configs
  {
    var p := SplitKey(m.key);
    var name := p.name;
    if name in env.featureKeywords then Err(ReservedExtensionName(name))
    else if HasExtension(container, name) then Err(DuplicateExtension(name))
    else
      var kind :- KeyType(p);
      var payload :- ReadPayload(kind, name, m.value, configs, env);
      Ok(ExtensionRead(Extension(kind, name, KeyOptional(p), payload.0), payload.1))
  }

  /** What a payload of each type holds, independent of the configurations
      read before it: the rebuilt structure, the text, or one artifact per
      non-comment element of the list, read without variables, with no id
      twice. */
  ghost predicate PayloadFrom(kind: ExtensionType, name: string, value: Json, payload: Payload, env: Env) {
    match kind
    case JSON => IsStructure(value) && payload == JsonTree(Build(value))
    case TEXT => payload.Text? && TextPayload("Text Extension " + name, value) == Ok(payload.text)
    case ARTIFACTS =>
      && payload.ArtifactList?
      && value.JArray?
      && |payload.artifacts| == |Kept(value.items)|
      && DistinctIds(payload.artifacts)
      && forall i :: 0 <= i < |payload.artifacts| ==> Produces(Kept(value.items)[i], payload.artifacts[i], [], env)
  }

  /** Extension `e` is what the reader makes of entry `m`: the key's name,
      type and flag, and the payload its type reads from the value. */
  ghost predicate ReadAs(e: Extension, m: Member, env: Env) {
    var p := SplitKey(m.key);
    && e.name == p.name
    && KeyType(p) == Ok(e.kind)
    && e.optional == KeyOptional(p)
    && PayloadFrom(e.kind, e.name, m.value, e.payload, env)
  }

  /** Every payload the reader builds is described by `PayloadFrom`. */
  lemma ReadPayloadFrom(kind: ExtensionType, name: string, value: Json, configs: seq<Configuration>, env: Env)
    requires ReadPayload(kind, name, value, configs, env).Ok?
    ensures PayloadFrom(kind, name, value, ReadPayload(kind, name, value, configs, env).value.0, env)
  {
    if kind == ARTIFACTS {
      var arts := ReadPayload(kind, name, value, configs, env).value.0.artifacts;
      var read := ReadArtifacts("Extension " + name, "artifact", value, configs, [], env);
      assert read.Ok? && read.value.artifacts == arts;
    }
  }

  /** A new extension as the reader accepts it: not under a reserved name,
      and carrying the payload its type calls for. */
  predicate Admissible(e: Extension, env: Env) {
    e.name !in env.featureKeywords && PayloadMatches(e)
  }

  /** The loop over the extension keys, adding each extension to the
      container before the next is read. */
  function AddExtensions(ms: seq<Member>, container: seq<Extension>, configs: seq<Configuration>, env: Env)
    : (r: Result<ExtensionsRead>)
    ensures r.Ok? ==> |r.value.extensions| == |container| + |ms| && container <= r.value.extensions
    ensures r.Ok? ==> configs <= r.value.configurations
    ensures ms == [] ==> r == Ok(ExtensionsRead(container, configs))
    decreases |ms|
  {
    if ms == [] then Ok(ExtensionsRead(container, configs))
    else
      var one :- ReadExtension(ms[0], container, configs, env);
      assert configs <= one.configurations;
      AddExtensions(ms[1..], container + [one.extension], one.configurations, env)
  }

  /** The names of a sequence of extensions, in order. */
  function Names(exts: seq<Extension>): (r: seq<string>)
    ensures |r| == |exts|
  {
    seq(|exts|, i requires 0 <= i < |exts| => exts[i].name)
  }

  lemma NamesSnoc(exts: seq<Extension>, e: Extension)
    ensures Names(exts + [e]) == Names(exts) + [e.name]
  {
    assert forall i :: 0 <= i < |exts| ==> Names(exts + [e])[i] == (Names(exts) + [e.name])[i];
  }

  /** The name part of each key, in order. */
  function KeyNames(ms: seq<Member>): (r: seq<string>)
    ensures |r| == |ms|
  {
    if ms == [] then [] else [SplitKey(ms[0].key).name] + KeyNames(ms[1..])
  }

  lemma {:induction false} KeyNamesAt(ms: seq<Member>, i: int)
    requires 0 <= i < |ms|
    ensures KeyNames(ms)[i] == SplitKey(ms[i].key).name
    decreases i
  {
    if i > 0 {
      KeyNamesAt(ms[1..], i - 1);
    }
  }

  lemma KeyNamesCons(ms: seq<Member>)
    requires ms != []
    ensures KeyNames(ms) == [SplitKey(ms[0].key).name] + KeyNames(ms[1..])
  {
  }

  /** One turn of the loop when the first key is read successfully. */
  lemma AddExtensionsStep(ms: seq<Member>, container: seq<Extension>, configs: seq<Configuration>, env: Env)
    requires ms != [] && ReadExtension(ms[0], container, configs, env).Ok?
    ensures var one := ReadExtension(ms[0], container, configs, env).value;
            AddExtensions(ms, container, configs, env) ==
              AddExtensions(ms[1..], container + [one.extension], one.configurations, env)
  {
  }

  /** The first turn of a successful loop: an admissible extension carrying
      the first key's name, then the loop over the other keys. */
  lemma AddExtensionsHead(ms: seq<Member>, container: seq<Extension>, configs: seq<Configuration>, env: Env)
    returns (e: Extension, configs': seq<Configuration>)
    requires ms != [] && AddExtensions(ms, container, configs, env).Ok?
    ensures e.name == SplitKey(ms[0].key).name && Admissible(e, env)
    ensures ReadAs(e, ms[0], env)
    ensures AddExtensions(ms, container, configs, env) == AddExtensions(ms[1..], container + [e], configs', env)
  {
    var one := ReadExtension(ms[0], container, configs, env).value;
    ReadExtensionReadAs(ms[0], container, configs, env);
    AddExtensionsStep(ms, container, configs, env);
    e, configs' := one.extension, one.configurations;
  }

  /** The loop names the new extensions after the keys, in key order. */
  lemma {:induction false} AddExtensionsNames(ms: seq<Member>, container: seq<Extension>, configs: seq<Configuration>, env: Env)
    requires AddExtensions(ms, container, configs, env).Ok?
    ensures Names(AddExtensions(ms, container, configs, env).value.extensions) == Names(container) + KeyNames(ms)
    decreases |ms|
  {
    if ms != [] {
      var e, configs' := AddExtensionsHead(ms, container, configs, env);
      AddExtensionsNames(ms[1..], container + [e], configs', env);
      NamesSnoc(container, e);
      KeyNamesCons(ms);
    }
  }

  /** Every extension the loop adds is admissible. */
  lemma {:induction false} AddExtensionsAdmissible(ms: seq<Member>, container: seq<Extension>, configs: seq<Configuration>, env: Env)
    requires AddExtensions(ms, container, configs, env).Ok?
    ensures var exts := AddExtensions(ms, container, configs, env).value.extensions;
            forall j {:trigger exts[j]} :: |container| <= j < |exts| ==> Admissible(exts[j], env)
    decreases |ms|
  {
    if ms != [] {
      var e, configs' := AddExtensionsHead(ms, container, configs, env);
      var container' := container + [e];
      AddExtensionsAdmissible(ms[1..], container', configs', env);
      var exts := AddExtensions(ms[1..], container', configs', env).value.extensions;
      assert container' <= exts && exts[|container|] == container'[|container|] == e;
      forall j | |container| <= j < |exts|
        ensures Admissible(exts[j], env)
      {
      }
    }
  }

  /** An extension read from one entry is read as that entry says. */
  lemma ReadExtensionReadAs(m: Member, container: seq<Extension>, configs: seq<Configuration>, env: Env)
    requires ReadExtension(m, container, configs, env).Ok?
    ensures ReadAs(ReadExtension(m, container, configs, env).value.extension, m, env)
  {
    var e := ReadExtension(m, container, configs, env).value.extension;
    ReadPayloadFrom(e.kind, e.name, m.value, configs, env);
  }

  /** Each extension the loop adds is read from its own key and value. */
  lemma {:induction false} AddExtensionsReadAs(ms: seq<Member>, container: seq<Extension>, configs: seq<Configuration>, env: Env)
    requires AddExtensions(ms, container, configs, env).Ok?
    ensures var exts := AddExtensions(ms, container, configs, env).value.extensions;
            forall i :: 0 <= i < |ms| ==> ReadAs(exts[|container| + i], ms[i], env)
    decreases |ms|
  {
    if ms != [] {
      var e, configs' := AddExtensionsHead(ms, container, configs, env);
      var container' := container + [e];
      AddExtensionsReadAs(ms[1..], container', configs', env);
      var exts := AddExtensions(ms[1..], container', configs', env).value.extensions;
      assert exts[|container|] == container'[|container|];
      forall i | 0 <= i < |ms|
        ensures ReadAs(exts[|container| + i], ms[i], env)
      {
        if i > 0 {
          var tail := ms[1..];
          assert ReadAs(exts[|container'| + (i - 1)], tail[i - 1], env);
          assert exts[|container| + i] == exts[|container'| + (i - 1)] && ms[i] == tail[i - 1];
        }
      }
    }
  }

  /** The loop never adds a name twice, nor one already present. */
  lemma {:induction false} AddExtensionsDistinct(ms: seq<Member>, container: seq<Extension>, configs: seq<Configuration>, env: Env)
    requires AddExtensions(ms, container, configs, env).Ok?
    requires DistinctNames(container)
    ensures DistinctNames(AddExtensions(ms, container, configs, env).value.extensions)
    decreases |ms|
  {
    if ms != [] {
      var one := ReadExtension(ms[0], container, configs, env).value;
      var container' := container + [one.extension];
      AddExtensionsStep(ms, container, configs, env);
      forall i | 0 <= i < |container|
        ensures container'[i].name != one.extension.name
      {
        assert container'[i] == container[i];
      }
      AddExtensionsDistinct(ms[1..], container', one.configurations, env);
    }
  }

  /** The names of the keys are admissible: none is reserved, none is
      already in the container, and no name comes twice. */
  predicate KeysAdmissible(ms: seq<Member>, container: seq<Extension>, env: Env) {
    forall i :: 0 <= i < |ms| ==>
      && KeyNames(ms)[i] !in env.featureKeywords
      && !HasExtension(container, KeyNames(ms)[i])
      && forall j :: 0 <= j < i ==> KeyNames(ms)[j] != KeyNames(ms)[i]
  }

  /** Every key has a known type and its payload reads, each given the
      configurations the payloads before it added. The container plays no
      part in this. */
  predicate PayloadsRead(ms: seq<Member>, configs: seq<Configuration>, env: Env)
    decreases |ms|
  {
    || ms == []
    || (var p := SplitKey(ms[0].key);
        && KeyType(p).Ok?
        && var payload := ReadPayload(KeyType(p).value, p.name, ms[0].value, configs, env);
        && payload.Ok?
        && PayloadsRead(ms[1..], payload.value.1, env))
  }

  /** The container after one more extension holds a name iff the container
      did or the extension carries it. */
  lemma HasExtensionSnoc(container: seq<Extension>, e: Extension, name: string)
    ensures HasExtension(container + [e], name) <==> HasExtension(container, name) || e.name == name
  {
    if HasExtension(container, name) {
      var i :| 0 <= i < |container| && container[i].name == name;
      assert (container + [e])[i] == container[i];
    }
    if e.name == name {
      assert (container + [e])[|container|] == e;
    }
  }

  /** Admissibility of a list of keys is admissibility of the first key and
      of the rest once the first extension is in the container. */
  lemma KeysAdmissibleCons(ms: seq<Member>, container: seq<Extension>, e: Extension, env: Env)
    requires ms != [] && e.name == SplitKey(ms[0].key).name
    ensures KeysAdmissible(ms, container, env) <==>
            && e.name !in env.featureKeywords
            && !HasExtension(container, e.name)
            && KeysAdmissible(ms[1..], container + [e], env)
  {
    var tail := ms[1..];
    var names := KeyNames(ms);
    KeyNamesCons(ms);
    assert names[0] == e.name;
    assert forall i :: 0 <= i < |tail| ==> KeyNames(tail)[i] == names[i + 1];
    forall n
      ensures HasExtension(container + [e], n) <==> HasExtension(container, n) || e.name == n
    {
      HasExtensionSnoc(container, e, n);
    }
    if KeysAdmissible(ms, container, env) {
      forall i | 0 <= i < |tail|
        ensures !HasExtension(container + [e], KeyNames(tail)[i])
        ensures forall j :: 0 <= j < i ==> KeyNames(tail)[j] != KeyNames(tail)[i]
      {
        assert forall j :: 0 <= j < i + 1 ==> names[j] != names[i + 1];
        assert forall j :: 0 <= j < i ==> KeyNames(tail)[j] == names[j + 1];
      }
    }
    if && e.name !in env.featureKeywords
       && !HasExtension(container, e.name)
       && KeysAdmissible(tail, container + [e], env)
    {
      forall i | 0 < i < |ms|
        ensures names[i] !in env.featureKeywords && !HasExtension(container, names[i])
        ensures forall j :: 0 <= j < i ==> names[j] != names[i]
      {
        assert names[i] == KeyNames(tail)[i - 1];
        forall j | 0 <= j < i
          ensures names[j] != names[i]
        {
          if j > 0 {
            assert names[j] == KeyNames(tail)[j - 1];
          }
        }
      }
    }
  }

  /** The loop accepts its keys exactly when their names are admissible and
      their payloads read, each in turn. */
  lemma {:induction false} AddExtensionsAccepts(ms: seq<Member>, container: seq<Extension>, configs: seq<Configuration>, env: Env)
    ensures AddExtensions(ms, container, configs, env).Ok? <==>
            KeysAdmissible(ms, container, env) && PayloadsRead(ms, configs, env)
    decreases |ms|
  {
    if ms != [] {
      var p := SplitKey(ms[0].key);
      var one := ReadExtension(ms[0], container, configs, env);
      KeyNamesAt(ms, 0);
      if one.Ok? {
        var e := one.value.extension;
        KeysAdmissibleCons(ms, container, e, env);
        AddExtensionsStep(ms, container, configs, env);
        AddExtensionsAccepts(ms[1..], container + [e], one.value.configurations, env);
      }
    }
  }

  /** The keys that name extensions: every top-level key except the reader's
      keywords, in document order. */
  function ExtensionEntries(doc: seq<Member>, keywords: set<string>): (r: seq<Member>)
    ensures forall i :: 0 <= i < |r| ==> r[i].key !in keywords && r[i] in doc
    ensures forall i :: 0 <= i < |doc| && doc[i].key !in keywords ==> doc[i] in r
    decreases |doc|
  {
    if doc == [] then []
    else if doc[0].key in keywords then ExtensionEntries(doc[1..], keywords)
    else [doc[0]] + ExtensionEntries(doc[1..], keywords)
  }

  /** `readExtensions`: every key that is not a keyword becomes one
      extension, in key order. */
  function ReadExtensions(doc: seq<Member>, keywords: set<string>, container: seq<Extension>,
                          configs: seq<Configuration>, env: Env): (r: Result<ExtensionsRead>)
    ensures r.Ok? ==> |r.value.extensions| == |container| + |ExtensionEntries(doc, keywords)|
    ensures r.Ok? ==> container <= r.value.extensions && configs <= r.value.configurations
  {
    AddExtensions(ExtensionEntries(doc, keywords), container, configs, env)
  }

  /** A document's extensions are accepted exactly when the names of its
      extension keys are admissible and their payloads read in key order. */
  lemma ReadExtensionsAccepts(doc: seq<Member>, keywords: set<string>, container: seq<Extension>,
                              configs: seq<Configuration>, env: Env)
    ensures var ms := ExtensionEntries(doc, keywords);
            ReadExtensions(doc, keywords, container, configs, env).Ok? <==>
              KeysAdmissible(ms, container, env) && PayloadsRead(ms, configs, env)
  {
    AddExtensionsAccepts(ExtensionEntries(doc, keywords), container, configs, env);
  }

  /** On success the new extensions carry the name parts of the extension
      keys in key order, every one is admissible, and names stay distinct. */
  lemma ReadExtensionsSound(doc: seq<Member>, keywords: set<string>, container: seq<Extension>,
                            configs: seq<Configuration>, env: Env)
    requires ReadExtensions(doc, keywords, container, configs, env).Ok?
    ensures var exts := ReadExtensions(doc, keywords, container, configs, env).value.extensions;
            Names(exts) == Names(container) + KeyNames(ExtensionEntries(doc, keywords))
    ensures var exts := ReadExtensions(doc, keywords, container, configs, env).value.extensions;
            forall i {:trigger exts[i]} :: |container| <= i < |exts| ==> Admissible(exts[i], env)
    ensures DistinctNames(container) ==> DistinctNames(ReadExtensions(doc, keywords, container, configs, env).value.extensions)
    ensures var exts := ReadExtensions(doc, keywords, container, configs, env).value.extensions;
            var ms := ExtensionEntries(doc, keywords);
            forall i :: 0 <= i < |ms| ==> ReadAs(exts[|container| + i], ms[i], env)
  {
    var ms := ExtensionEntries(doc, keywords);
    AddExtensionsReadAs(ms, container, configs, env);
    AddExtensionsNames(ms, container, configs, env);
    AddExtensionsAdmissible(ms, container, configs, env);
    if DistinctNames(container) {
      AddExtensionsDistinct(ms, container, configs, env);
    }
  }
}
