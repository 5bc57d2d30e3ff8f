/** Requirements and capabilities (`readRequirements`, `readCapabilities`):
two lists of the same record shape, read by the same steps. Each element
is a map with a required string `namespace`, and optional `attributes` and
`directives` maps whose entries are decoded by the external unmarshallers;
a failure of an unmarshaller is passed on unchanged.
 */
module Declarations {
  import opened Outcomes
  import opened JsonValues
  import opened TypeGuard
  import opened FeatureModel

  const REQUIREMENTS: string := "requirements"
  const CAPABILITIES: string := "capabilities"
  const NAMESPACE: string := "namespace"
  const ATTRIBUTES: string := "attributes"
  const DIRECTIVES: string := "directives"

  /** The `forEach` over a map with an unmarshaller that `put`s each decoded
      entry: the first failure stops the walk and is passed on as it is. */
  function Unmarshal<V>(ms: seq<Member>, acc: map<string, V>, decode: (string, Json) -> Result<(string, V)>)
    : (r: Result<map<string, V>>)
    ensures r.Ok? <==> forall i :: 0 <= i < |ms| ==> decode(ms[i].key, ms[i].value).Ok?
    ensures r.Ok? ==> acc.Keys <= r.value.Keys
    ensures r.Ok? ==> forall i :: 0 <= i < |ms| ==> decode(ms[i].key, ms[i].value).value.0 in r.value
    ensures r.Ok? ==> forall k :: k in r.value ==>
              k in acc || exists i :: 0 <= i < |ms| && decode(ms[i].key, ms[i].value).value.0 == k
    decreases |ms|
  {
    if ms == [] then Ok(acc)
    else
      var entry :- decode(ms[0].key, ms[0].value);
      var tail := ms[1..];
      assert forall i :: 1 <= i < |ms| ==> ms[i] == tail[i - 1];
      Unmarshal(tail, acc[entry.0 := entry.1], decode)
  }

  /** The values `put` by the walk: each entry's decoded value sits under its
      decoded key unless a later entry decodes to the same key, and a key of
      `acc` that no entry decodes to keeps its value. */
  lemma {:induction false} UnmarshalValues<V>(ms: seq<Member>, acc: map<string, V>, decode: (string, Json) -> Result<(string, V)>)
    requires Unmarshal(ms, acc, decode).Ok?
    ensures var r := Unmarshal(ms, acc, decode).value;
            forall i :: 0 <= i < |ms| &&
                        (forall j :: i < j < |ms| ==> decode(ms[j].key, ms[j].value).value.0 != decode(ms[i].key, ms[i].value).value.0) ==>
              r[decode(ms[i].key, ms[i].value).value.0] == decode(ms[i].key, ms[i].value).value.1
    ensures var r := Unmarshal(ms, acc, decode).value;
            forall k :: k in acc && (forall i :: 0 <= i < |ms| ==> decode(ms[i].key, ms[i].value).value.0 != k) ==>
              r[k] == acc[k]
    decreases |ms|
  {
    if ms != [] {
      var entry := decode(ms[0].key, ms[0].value).value;
      var tail := ms[1..];
      var acc' := acc[entry.0 := entry.1];
      assert Unmarshal(ms, acc, decode) == Unmarshal(tail, acc', decode);
      UnmarshalValues(tail, acc', decode);
      var r := Unmarshal(ms, acc, decode).value;
      assert forall i :: 1 <= i < |ms| ==> ms[i] == tail[i - 1];
      forall i | 0 <= i < |ms| &&
                 (forall j :: i < j < |ms| ==> decode(ms[j].key, ms[j].value).value.0 != decode(ms[i].key, ms[i].value).value.0)
        ensures r[decode(ms[i].key, ms[i].value).value.0] == decode(ms[i].key, ms[i].value).value.1
      {
        if i == 0 {
          assert forall j :: 0 <= j < |tail| ==> decode(tail[j].key, tail[j].value).value.0 != entry.0 by {
            forall j | 0 <= j < |tail| ensures decode(tail[j].key, tail[j].value).value.0 != entry.0 {
              assert tail[j] == ms[j + 1];
            }
          }
        } else {
          assert ms[i] == tail[i - 1];
          forall j | i - 1 < j < |tail|
            ensures decode(tail[j].key, tail[j].value).value.0 != decode(tail[i - 1].key, tail[i - 1].value).value.0
          {
            assert tail[j] == ms[j + 1];
          }
        }
      }
      forall k | k in acc && (forall i :: 0 <= i < |ms| ==> decode(ms[i].key, ms[i].value).value.0 != k)
        ensures r[k] == acc[k]
      {
        assert decode(ms[0].key, ms[0].value).value.0 != k;
        forall j | 0 <= j < |tail| ensures decode(tail[j].key, tail[j].value).value.0 != k {
          assert tail[j] == ms[j + 1];
        }
      }
    }
  }

  /** A failed walk fails with the error of the first entry the unmarshaller
      refuses, unchanged. */
  lemma {:induction false} UnmarshalError<V>(ms: seq<Member>, acc: map<string, V>, decode: (string, Json) -> Result<(string, V)>)
    requires Unmarshal(ms, acc, decode).Err?
    ensures exists i :: 0 <= i < |ms| && decode(ms[i].key, ms[i].value) == Err(Unmarshal(ms, acc, decode).error)
                        && forall j :: 0 <= j < i ==> decode(ms[j].key, ms[j].value).Ok?
    decreases |ms|
  {
    var err := Unmarshal(ms, acc, decode).error;
    if decode(ms[0].key, ms[0].value).Ok? {
      var entry := decode(ms[0].key, ms[0].value).value;
      var tail := ms[1..];
      UnmarshalError(tail, acc[entry.0 := entry.1], decode);
      var i :| 0 <= i < |tail| && decode(tail[i].key, tail[i].value) == Err(err)
               && forall j :: 0 <= j < i ==> decode(tail[j].key, tail[j].value).Ok?;
      assert ms[i + 1] == tail[i];
      assert forall j :: 1 <= j < i + 1 ==> ms[j] == tail[j - 1];
    }
  }

  /** An optional map of a record, decoded entry by entry; absent reads as
      empty. */
  function ReadDecoded<V>(obj: seq<Member>, key: string, section: string, decode: (string, Json) -> Result<(string, V)>)
    : (r: Result<map<string, V>>)
    ensures !Has(obj, key) ==> r == Ok(map[])
    ensures Has(obj, key) && !Get(obj, key).JObject? ==> r == Err(WrongType(section))
    ensures Has(obj, key) && Get(obj, key).JObject? ==> r == Unmarshal(Get(obj, key).members, map[], decode)
  {
    if !Has(obj, key) then Ok(map[])
    else
      :- CheckType(section, Get(obj, key), [KMap]);
      Unmarshal(Get(obj, key).members, map[], decode)
  }

  /** One record; `kind` is "Requirement" or "Capability". */
  function ReadDeclaration(kind: string, item: Json, env: Env): (r: Result<Declaration>)
    ensures !item.JObject? ==> r == Err(WrongType(kind))
    ensures item.JObject? && !Has(item.members, NAMESPACE) ==> r == Err(MissingField(kind + " namespace"))
    ensures r.Ok? <==> && item.JObject? && Has(item.members, NAMESPACE) && Get(item.members, NAMESPACE).JString?
                       && ReadDecoded(item.members, ATTRIBUTES, kind + " attributes", env.unmarshalAttribute).Ok?
                       && ReadDecoded(item.members, DIRECTIVES, kind + " directives", env.unmarshalDirective).Ok?
    ensures r.Ok? ==> item.JObject? && Get(item.members, NAMESPACE) == JString(r.value.namespace)
    ensures r.Ok? ==> ReadDecoded(item.members, ATTRIBUTES, kind + " attributes", env.unmarshalAttribute) == Ok(r.value.attributes)
    ensures r.Ok? ==> ReadDecoded(item.members, DIRECTIVES, kind + " directives", env.unmarshalDirective) == Ok(r.value.directives)
  {
    var allowed := [KMap];
    :- CheckType(kind, item, allowed);
    var obj := item.members;
    if !Has(obj, NAMESPACE) then Err(MissingField(kind + " namespace"))
    else
      var ns := Get(obj, NAMESPACE);
      :- CheckType(kind + " namespace", ns, [KString]);
      var attributes :- ReadDecoded(obj, ATTRIBUTES, kind + " attributes", env.unmarshalAttribute);
      var directives :- ReadDecoded(obj, DIRECTIVES, kind + " directives", env.unmarshalDirective);
      Ok(Declaration(ns.s, attributes, directives))
  }

  /** The attributes and directives of a record hold the unmarshalled
      values: each entry's value under its decoded key, unless a later entry
      of the same map decodes to that key. */
  lemma ReadDeclarationValues(kind: string, item: Json, env: Env)
    requires ReadDeclaration(kind, item, env).Ok?
    ensures var d := ReadDeclaration(kind, item, env).value;
            Has(item.members, ATTRIBUTES) ==>
              var ms := Get(item.members, ATTRIBUTES).members;
              forall i :: 0 <= i < |ms| &&
                          (forall j :: i < j < |ms| ==>
                             env.unmarshalAttribute(ms[j].key, ms[j].value).value.0 != env.unmarshalAttribute(ms[i].key, ms[i].value).value.0) ==>
                d.attributes[env.unmarshalAttribute(ms[i].key, ms[i].value).value.0] == env.unmarshalAttribute(ms[i].key, ms[i].value).value.1
    ensures var d := ReadDeclaration(kind, item, env).value;
            Has(item.members, DIRECTIVES) ==>
              var ms := Get(item.members, DIRECTIVES).members;
              forall i :: 0 <= i < |ms| &&
                          (forall j :: i < j < |ms| ==>
                             env.unmarshalDirective(ms[j].key, ms[j].value).value.0 != env.unmarshalDirective(ms[i].key, ms[i].value).value.0) ==>
                d.directives[env.unmarshalDirective(ms[i].key, ms[i].value).value.0] == env.unmarshalDirective(ms[i].key, ms[i].value).value.1
  {
    var obj := item.members;
    if Has(obj, ATTRIBUTES) {
      UnmarshalValues(Get(obj, ATTRIBUTES).members, map[], env.unmarshalAttribute);
    }
    if Has(obj, DIRECTIVES) {
      UnmarshalValues(Get(obj, DIRECTIVES).members, map[], env.unmarshalDirective);
    }
  }

  /** The element loop: one record per element, appended in order, with no
      duplicate check; `read` is the reading of one element. */
  function ReadEach<T>(items: seq<Json>, container: seq<T>, read: Json -> Result<T>): (r: Result<seq<T>>)
    ensures r.Ok? ==> |r.value| == |container| + |items| && container <= r.value
    ensures r.Ok? ==> forall i :: 0 <= i < |items| ==> read(items[i]) == Ok(r.value[|container| + i])
    ensures (forall i :: 0 <= i < |items| ==> read(items[i]).Ok?) ==> r.Ok?
    decreases |items|
  {
    if items == [] then Ok(container)
    else
      var d :- read(items[0]);
      var tail := items[1..];
      assert forall i :: 1 <= i < |items| ==> items[i] == tail[i - 1];
      var r := ReadEach(tail, container + [d], read);
      assert r.Ok? ==> r.value[|container|] == (container + [d])[|container|];
      assert |container + [d]| == |container| + 1;
      r
  }

  /** A failed list fails with the error of its first bad element. */
  lemma {:induction false} ReadEachError<T>(items: seq<Json>, container: seq<T>, read: Json -> Result<T>)
    requires ReadEach(items, container, read).Err?
    ensures exists i :: 0 <= i < |items| && read(items[i]) == Err(ReadEach(items, container, read).error)
                        && forall j :: 0 <= j < i ==> read(items[j]).Ok?
    decreases |items|
  {
    var err := ReadEach(items, container, read).error;
    if read(items[0]).Ok? {
      var d := read(items[0]).value;
      var tail := items[1..];
      ReadEachError(tail, container + [d], read);
      var i :| 0 <= i < |tail| && read(tail[i]) == Err(err)
               && forall j :: 0 <= j < i ==> read(tail[j]).Ok?;
      assert items[i + 1] == tail[i];
      assert forall j :: 1 <= j < i + 1 ==> items[j] == tail[j - 1];
    }
  }

  /** A requirements or capabilities section: absent leaves the container
      as it was, present must be a list. */
  function ReadDeclarations(doc: seq<Member>, key: string, kind: string, container: seq<Declaration>, env: Env)
    : (r: Result<seq<Declaration>>)
    ensures !Has(doc, key) ==> r == Ok(container)
    ensures Has(doc, key) && !Get(doc, key).JArray? ==> r == Err(WrongType(key))
    ensures Has(doc, key) && Get(doc, key).JArray? ==>
              r == ReadEach(Get(doc, key).items, container, item => ReadDeclaration(kind, item, env))
  {
    if !Has(doc, key) then Ok(container)
    else
      :- CheckType(key, Get(doc, key), [KList]);
      ReadEach(Get(doc, key).items, container, item => ReadDeclaration(kind, item, env))
  }

  /** `readRequirements`. */
  function ReadRequirements(doc: seq<Member>, container: seq<Declaration>, env: Env): (r: Result<seq<Declaration>>)
    ensures !Has(doc, REQUIREMENTS) ==> r == Ok(container)
    ensures Has(doc, REQUIREMENTS) && !Get(doc, REQUIREMENTS).JArray? ==> r == Err(WrongType(REQUIREMENTS))
    ensures r.Ok? && Has(doc, REQUIREMENTS) ==>
              var items := Get(doc, REQUIREMENTS).items;
              && |r.value| == |container| + |items| && container <= r.value
              && forall i :: 0 <= i < |items| ==> ReadDeclaration("Requirement", items[i], env) == Ok(r.value[|container| + i])
  {
    ReadDeclarations(doc, REQUIREMENTS, "Requirement", container, env)
  }

  /** `readCapabilities`. */
  function ReadCapabilities(doc: seq<Member>, container: seq<Declaration>, env: Env): (r: Result<seq<Declaration>>)
    ensures !Has(doc, CAPABILITIES) ==> r == Ok(container)
    ensures Has(doc, CAPABILITIES) && !Get(doc, CAPABILITIES).JArray? ==> r == Err(WrongType(CAPABILITIES))
    ensures r.Ok? && Has(doc, CAPABILITIES) ==>
              var items := Get(doc, CAPABILITIES).items;
              && |r.value| == |container| + |items| && container <= r.value
              && forall i :: 0 <= i < |items| ==> ReadDeclaration("Capability", items[i], env) == Ok(r.value[|container| + i])
  {
    ReadDeclarations(doc, CAPABILITIES, "Capability", container, env)
  }

  /** A record without attributes or directives keeps just its namespace. */
  lemma PlainDeclaration(kind: string, ns: string, env: Env)
    ensures ReadDeclaration(kind, JObject([Member(NAMESPACE, JString(ns))]), env) == Ok(Declaration(ns, map[], map[]))
  {
    var obj := [Member(NAMESPACE, JString(ns))];
    assert Get(obj, NAMESPACE) == JString(ns);
    assert !Has(obj, ATTRIBUTES) && !Has(obj, DIRECTIVES);
  }
}
