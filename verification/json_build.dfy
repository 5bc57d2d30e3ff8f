/** The rebuilding of a JSON extension payload (`build`): the decoded map
or list is copied into a fresh JSON structure, element by element. Strings,
numbers and booleans are copied, maps and lists are rebuilt, and `null`
values, which match none of the copied types, are silently dropped, from
lists and maps alike. Any other top-level value builds to `null`.
 */
module JsonBuild {
  import opened Outcomes
  import opened JsonValues

  /** No `null` anywhere inside a list or map. */
  predicate NullFree(j: Json)
    decreases j
  {
    match j
    case JNull => false
    case JArray(xs) => ItemsNullFree(xs)
    case JObject(ms) => MembersNullFree(ms)
    case _ => true
  }

  predicate ItemsNullFree(xs: seq<Json>)
    decreases xs
  {
    forall i :: 0 <= i < |xs| ==> NullFree(xs[i])
  }

  predicate MembersNullFree(ms: seq<Member>)
    decreases ms
  {
    forall i :: 0 <= i < |ms| ==> NullFree(ms[i].value)
  }

  /** A list or a map: what `build` accepts. */
  predicate IsStructure(j: Json) {
    j.JArray? || j.JObject?
  }

  /** `build`: a list or map comes back as a null-free structure of the same
      kind; anything else comes back as `null`. */
  function Build(j: Json): (r: Json)
    ensures IsStructure(j) ==> NullFree(r)
    ensures j.JArray? <==> r.JArray?
    ensures j.JObject? <==> r.JObject?
    ensures !IsStructure(j) ==> r.JNull?
    decreases j
  {
    match j
    case JArray(xs) => JArray(BuildItems(xs))
    case JObject(ms) => JObject(BuildMembers(ms))
    case _ => JNull
  }

  /** The list loop: `null` elements are dropped, the rest kept in order. */
  function BuildItems(xs: seq<Json>): (r: seq<Json>)
    ensures ItemsNullFree(r)
    ensures |r| <= |xs|
    decreases xs
  {
    if xs == [] then []
    else if xs[0].JNull? then BuildItems(xs[1..])
    else [if IsStructure(xs[0]) then Build(xs[0]) else xs[0]] + BuildItems(xs[1..])
  }

  /** The map loop: entries with a `null` value are dropped. */
  function BuildMembers(ms: seq<Member>): (r: seq<Member>)
    ensures MembersNullFree(r)
    ensures |r| <= |ms|
    decreases ms
  {
    if ms == [] then []
    else if ms[0].value.JNull? then BuildMembers(ms[1..])
    else [Member(ms[0].key, if IsStructure(ms[0].value) then Build(ms[0].value) else ms[0].value)] + BuildMembers(ms[1..])
  }

  /** A structure without `null`s is rebuilt exactly as it was. */
  lemma {:induction false} BuildIdentity(j: Json)
    requires IsStructure(j) && NullFree(j)
    ensures Build(j) == j
    decreases j
  {
    match j
    case JArray(xs) => BuildItemsIdentity(xs);
    case JObject(ms) => BuildMembersIdentity(ms);
  }

  lemma {:induction false} BuildItemsIdentity(xs: seq<Json>)
    requires ItemsNullFree(xs)
    ensures BuildItems(xs) == xs
    decreases xs
  {
    if xs != [] {
      var head := xs[0];
      var tail := xs[1..];
      assert NullFree(head) && !head.JNull?;
      if IsStructure(head) {
        BuildIdentity(head);
      }
      assert ItemsNullFree(tail) by {
        forall i | 0 <= i < |tail|
          ensures NullFree(tail[i])
        {
          assert tail[i] == xs[i + 1];
        }
      }
      BuildItemsIdentity(tail);
      assert BuildItems(xs) == [head] + tail;
      assert xs == [head] + tail;
    }
  }

  lemma {:induction false} BuildMembersIdentity(ms: seq<Member>)
    requires MembersNullFree(ms)
    ensures BuildMembers(ms) == ms
    decreases ms
  {
    if ms != [] {
      var head := ms[0];
      var tail := ms[1..];
      assert NullFree(head.value) && !head.value.JNull?;
      if IsStructure(head.value) {
        BuildIdentity(head.value);
      }
      assert MembersNullFree(tail) by {
        forall i | 0 <= i < |tail|
          ensures NullFree(tail[i].value)
        {
          assert tail[i] == ms[i + 1];
        }
      }
      BuildMembersIdentity(tail);
      assert BuildMembers(ms) == [Member(head.key, head.value)] + tail;
      assert ms == [head] + tail;
    }
  }

  /** Rebuilding a rebuilt structure changes nothing: the written payload,
      read back and rebuilt, is the same tree. */
  lemma BuildIdempotent(j: Json)
    requires IsStructure(j)
    ensures Build(Build(j)) == Build(j)
  {
    BuildIdentity(Build(j));
  }

  /** Looking a key up after rebuilding: a `null` entry is gone, any other
      entry finds its original value, itself rebuilt when it is a
      structure. */
  lemma {:induction false} BuildMembersFind(ms: seq<Member>, k: string)
    requires UniqueKeys(ms)
    ensures Find(BuildMembers(ms), k) ==
              match Find(ms, k)
              case None => None
              case Some(v) => if v.JNull? then None else Some(if IsStructure(v) then Build(v) else v)
    decreases ms
  {
    if ms != [] {
      var tail := ms[1..];
      assert forall i :: 1 <= i < |ms| ==> ms[i] == tail[i - 1];
      BuildMembersFind(tail, k);
      if ms[0].key == k {
        assert !Has(tail, k);
      }
    }
  }

  /** Only `null` elements are lost from a list. */
  lemma {:induction false} BuildItemsCount(xs: seq<Json>)
    ensures |BuildItems(xs)| == |xs| - NullCount(xs)
    decreases xs
  {
    if xs != [] {
      BuildItemsCount(xs[1..]);
    }
  }

  /** The number of `null` elements of a list. */
  function NullCount(xs: seq<Json>): nat {
    if xs == [] then 0 else (if xs[0].JNull? then 1 else 0) + NullCount(xs[1..])
  }
}
