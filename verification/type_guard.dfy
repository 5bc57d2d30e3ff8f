/** The type guard every reader calls before it casts a value
(`checkType`), and the string-property accessor built on it (`getProperty`).
 */
module TypeGuard {
  import opened Outcomes
  import opened JsonValues

  /** The loop of `checkType`: does some allowed type accept `v`? */
  function Matches(v: Json, allowed: seq<Kind>): (b: bool)
    ensures b <==> exists i :: 0 <= i < |allowed| && IsInstance(v, allowed[i])
    decreases |allowed|
  {
    if allowed == [] then false
    else if IsInstance(v, allowed[0]) then true
    else
      var rest := Matches(v, allowed[1..]);
      assert rest ==> IsInstance(v, allowed[1..][0]) || exists i :: 0 <= i < |allowed[1..]| && IsInstance(v, allowed[1..][i]);
      assert (exists i :: 0 <= i < |allowed| && IsInstance(v, allowed[i])) ==>
               exists i :: 0 <= i < |allowed[1..]| && IsInstance(v, allowed[1..][i]);
      rest
  }

  /** `checkType` as the reader should behave: pass exactly when `v` is an
      instance of an allowed type (`null` only through `KNull`), otherwise
      fail with an `IOException` naming the key. */
  function CheckType(key: string, v: Json, allowed: seq<Kind>): (r: Outcome)
    ensures r.Pass? <==> exists i :: 0 <= i < |allowed| && IsInstance(v, allowed[i])
    ensures r.Fail? ==> r.error == WrongType(key) && r.error.IsIOException()
  {
    if Matches(v, allowed) then Pass else Fail(WrongType(key))
  }

  /** `checkType` as written: the failure message is built with
      `val.getClass()`, which dereferences `null` before the `IOException`
      exists, so a `null` that is not allowed escapes as a
      `NullPointerException`. */
  function CheckTypeAsWritten(key: string, v: Json, allowed: seq<Kind>): (r: Outcome)
    ensures r.Pass? <==> CheckType(key, v, allowed).Pass?
    ensures r.Fail? && !v.JNull? ==> r == CheckType(key, v, allowed)
  {
    if Matches(v, allowed) then Pass
    else if v.JNull? then Fail(NullPointer)
    else Fail(WrongType(key))
  }

  /** The discrepancy: a `null` value in a slot that does not allow `null`
      (`{"bundles": null}` is one) aborts the written code with an unchecked
      `NullPointerException`, where the documented failure is an
      `IOException`. */
  lemma CheckTypeNullDiscrepancy(key: string, allowed: seq<Kind>)
    requires KNull !in allowed
    ensures CheckTypeAsWritten(key, JNull, allowed) == Fail(NullPointer)
    ensures !CheckTypeAsWritten(key, JNull, allowed).error.IsIOException()
    ensures CheckType(key, JNull, allowed).error.IsIOException()
  {
    assert !Matches(JNull, allowed);
  }

  /** `getProperty`: an absent or `null` key reads as no value, a string
      reads as itself, anything else is a type failure. */
  function GetProperty(ms: seq<Member>, key: string): (r: Result<Option<string>>)
    ensures r.Ok? <==> Get(ms, key).JNull? || Get(ms, key).JString?
    ensures r.Ok? && r.value.Some? ==> Find(ms, key) == Some(JString(r.value.value))
    ensures r.Ok? && r.value.None? ==> !Has(ms, key) || Find(ms, key) == Some(JNull)
    ensures r.Err? ==> r.error == WrongType(key)
  {
    var v := Get(ms, key);
    if v.JNull? then Ok(None)
    else
      :- CheckType(key, v, [KString]);
      Ok(Some(v.s))
  }
}
