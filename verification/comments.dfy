/** Comment stripping: `getJsonMap` hands the decoded document to
`removeComments`, which deletes every map entry whose key starts with `#`,
at every depth, also inside maps held by lists. A list has no keys, so a
`#`-string inside a list stays; the artifact and removal readers skip those
themselves.
 */
module Comments {
  import opened Outcomes
  import opened JsonValues

  /** No map anywhere in `j` has a key starting with `#`. */
  predicate CommentFree(j: Json)
    decreases j
  {
    match j
    case JArray(xs) => ItemsCommentFree(xs)
    case JObject(ms) => MembersCommentFree(ms)
    case _ => true
  }

  predicate ItemsCommentFree(xs: seq<Json>)
    decreases xs
  {
    forall i :: 0 <= i < |xs| ==> CommentFree(xs[i])
  }

  predicate MembersCommentFree(ms: seq<Member>)
    decreases ms
  {
    forall i :: 0 <= i < |ms| ==> !IsComment(ms[i].key) && CommentFree(ms[i].value)
  }

  /** `removeComments`, applied to any value: maps lose their comment
      entries, lists are walked element by element, scalars are untouched. */
  function RemoveComments(j: Json): (r: Json)
    ensures CommentFree(r)
    ensures j.JObject? <==> r.JObject?
    ensures j.JArray? <==> r.JArray?
    ensures j.JArray? ==> |r.items| == |j.items|
    decreases j
  {
    match j
    case JArray(xs) => JArray(StripItems(xs))
    case JObject(ms) => JObject(StripMembers(ms))
    case _ => j
  }

  function StripItems(xs: seq<Json>): (r: seq<Json>)
    ensures |r| == |xs|
    ensures forall i :: 0 <= i < |xs| ==> r[i] == RemoveComments(xs[i])
    ensures ItemsCommentFree(r)
    decreases xs
  {
    if xs == [] then [] else [RemoveComments(xs[0])] + StripItems(xs[1..])
  }

  function StripMembers(ms: seq<Member>): (r: seq<Member>)
    ensures MembersCommentFree(r)
    ensures |r| <= |ms|
    decreases ms
  {
    if ms == [] then []
    else if IsComment(ms[0].key) then StripMembers(ms[1..])
    else [Member(ms[0].key, RemoveComments(ms[0].value))] + StripMembers(ms[1..])
  }

  /** Looking a key up after stripping: a comment key is gone, any other key
      finds its original value, itself stripped. */
  lemma {:induction false} StripMembersFind(ms: seq<Member>, k: string)
    ensures Find(StripMembers(ms), k) ==
              if IsComment(k) || Find(ms, k).None? then None
              else Some(RemoveComments(Find(ms, k).value))
    decreases ms
  {
    if ms != [] {
      StripMembersFind(ms[1..], k);
    }
  }

  /** Stripping keeps the surviving entries in their original order and
      drops nothing but comment entries. */
  lemma {:induction false} StripMembersKeys(ms: seq<Member>)
    ensures forall i :: 0 <= i < |ms| && !IsComment(ms[i].key) ==> Has(StripMembers(ms), ms[i].key)
    ensures forall i :: 0 <= i < |StripMembers(ms)| ==> Has(ms, StripMembers(ms)[i].key)
    decreases ms
  {
    if ms != [] {
      StripMembersKeys(ms[1..]);
      var r := StripMembers(ms);
      var t := StripMembers(ms[1..]);
      forall i | 0 <= i < |ms| && !IsComment(ms[i].key)
        ensures Has(r, ms[i].key)
      {
        if i == 0 {
          assert r[0].key == ms[0].key;
        } else {
          assert ms[i].key == ms[1..][i - 1].key;
          var j :| 0 <= j < |t| && t[j].key == ms[i].key;
          assert r[|r| - |t| + j] == t[j];
        }
      }
      forall i | 0 <= i < |r|
        ensures Has(ms, r[i].key)
      {
        if IsComment(ms[0].key) || i > 0 {
          var i' := if IsComment(ms[0].key) then i else i - 1;
          assert r[i] == t[i'];
          var j :| 0 <= j < |ms[1..]| && ms[1..][j].key == t[i'].key;
          assert ms[j + 1].key == r[i].key;
        } else {
          assert r[0].key == ms[0].key;
        }
      }
    }
  }

  /** A tree without comment keys is left exactly as it was. */
  lemma {:induction false} RemoveCommentsIdentity(j: Json)
    requires CommentFree(j)
    ensures RemoveComments(j) == j
    decreases j
  {
    match j
    case JArray(xs) => StripItemsIdentity(xs);
    case JObject(ms) => StripMembersIdentity(ms);
    case _ =>
  }

  lemma {:induction false} StripItemsIdentity(xs: seq<Json>)
    requires ItemsCommentFree(xs)
    ensures StripItems(xs) == xs
    decreases xs
  {
    forall i | 0 <= i < |xs|
      ensures RemoveComments(xs[i]) == xs[i]
    {
      RemoveCommentsIdentity(xs[i]);
    }
  }

  lemma {:induction false} StripMembersIdentity(ms: seq<Member>)
    requires MembersCommentFree(ms)
    ensures StripMembers(ms) == ms
    decreases ms
  {
    if ms != [] {
      RemoveCommentsIdentity(ms[0].value);
      StripMembersIdentity(ms[1..]);
    }
  }

  /** Stripping twice is stripping once. */
  lemma RemoveCommentsIdempotent(j: Json)
    ensures RemoveComments(RemoveComments(j)) == RemoveComments(j)
  {
    RemoveCommentsIdentity(RemoveComments(j));
  }

  /** Inside a list, strings (comment markers included) and other scalars
      are kept in place; only maps nested in the list are stripped. */
  lemma ListScalarsKept(xs: seq<Json>, i: nat)
    requires i < |xs|
    requires !xs[i].JArray? && !xs[i].JObject?
    ensures RemoveComments(JArray(xs)).items[i] == xs[i]
  {
  }
}
