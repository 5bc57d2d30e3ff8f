/** The framework-properties section (`readFrameworkProperties`): a flat map
of string, boolean or number values, stored as text, where a key already
present is a duplicate.
 */
module FrameworkProperties {
  import opened Outcomes
  import opened JsonValues
  import opened TypeGuard

  const FRAMEWORK_PROPERTIES: string := "framework-properties"

  /** The entry loop. `container.get(key) != null` is key presence, since
      the container only ever holds text. */
  function AddFrameworkProperties(ms: seq<Member>, container: map<string, string>): (r: Result<map<string, string>>)
    ensures r.Ok? ==> forall i :: 0 <= i < |ms| ==> IsScalar(ms[i].value) && ms[i].key in r.value
    ensures r.Ok? ==> forall k :: k in container ==> k in r.value && r.value[k] == container[k]
    ensures r.Ok? ==> forall k :: k in r.value ==> k in container || Has(ms, k)
    ensures r.Err? ==> r.error.WrongType? || r.error.DuplicateFrameworkProperty?
    decreases |ms|
  {
    if ms == [] then Ok(container)
    else
      var m := ms[0];
      :- CheckType("framework property value", m.value, [KString, KBoolean, KNumber]);
      if m.key in container then Err(DuplicateFrameworkProperty(m.key))
      else
        var r := AddFrameworkProperties(ms[1..], container[m.key := ScalarText(m.value)]);
        assert forall i :: 1 <= i < |ms| ==> ms[i] == ms[1..][i - 1];
        assert forall k :: Has(ms[1..], k) ==> Has(ms, k);
        r
  }

  /** `readFrameworkProperties`: no section leaves the container as it was. */
  function ReadFrameworkProperties(doc: seq<Member>, container: map<string, string>): (r: Result<map<string, string>>)
    ensures !Has(doc, FRAMEWORK_PROPERTIES) ==> r == Ok(container)
    ensures Has(doc, FRAMEWORK_PROPERTIES) && !Get(doc, FRAMEWORK_PROPERTIES).JObject? ==> r == Err(WrongType(FRAMEWORK_PROPERTIES))
    ensures Has(doc, FRAMEWORK_PROPERTIES) && Get(doc, FRAMEWORK_PROPERTIES).JObject? ==>
              r == AddFrameworkProperties(Get(doc, FRAMEWORK_PROPERTIES).members, container)
  {
    if !Has(doc, FRAMEWORK_PROPERTIES) then Ok(container)
    else
      var props := Get(doc, FRAMEWORK_PROPERTIES);
      :- CheckType(FRAMEWORK_PROPERTIES, props, [KMap]);
      AddFrameworkProperties(props.members, container)
  }

  /** One step of the loop when the first entry is accepted. */
  lemma AddFrameworkPropertiesStep(ms: seq<Member>, container: map<string, string>)
    requires ms != [] && IsScalar(ms[0].value) && ms[0].key !in container
    ensures AddFrameworkProperties(ms, container) ==
              AddFrameworkProperties(ms[1..], container[ms[0].key := ScalarText(ms[0].value)])
  {
    var v := ms[0].value;
    var allowed := [KString, KBoolean, KNumber];
    assert IsInstance(v, allowed[if v.JString? then 0 else if v.JBool? then 1 else 2]);
  }

  /** With distinct keys, the section is accepted exactly when every value
      is a string, boolean or number and no key is already present; then
      every key holds its value's text. */
  lemma {:induction false} AddFrameworkPropertiesSpec(ms: seq<Member>, container: map<string, string>)
    requires UniqueKeys(ms)
    ensures AddFrameworkProperties(ms, container).Ok? <==>
              forall i :: 0 <= i < |ms| ==> IsScalar(ms[i].value) && ms[i].key !in container
    ensures AddFrameworkProperties(ms, container).Ok? ==>
              forall i :: 0 <= i < |ms| ==> AddFrameworkProperties(ms, container).value[ms[i].key] == ScalarText(ms[i].value)
    decreases |ms|
  {
    if ms != [] {
      var tail := ms[1..];
      assert forall i :: 1 <= i < |ms| ==> ms[i] == tail[i - 1];
      if IsScalar(ms[0].value) && ms[0].key !in container {
        var c' := container[ms[0].key := ScalarText(ms[0].value)];
        AddFrameworkPropertiesStep(ms, container);
        AddFrameworkPropertiesSpec(tail, c');
        assert forall i :: 0 <= i < |tail| ==> tail[i].key != ms[0].key;
      }
    }
  }
}
