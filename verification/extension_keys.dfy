/** The grammar of an extension key, `name[:TYPE][|optional]`, as the
extension reader splits it: the first `:` ends the name; the first `|`
after it (or in the whole key when there is no `:`) ends the type. A
missing type means ARTIFACTS and a missing flag means not optional.
 */
module ExtensionKeys {
  import opened Outcomes
  import opened FeatureModel
  import opened Text

  /** The pieces of a key, before any defaulting or parsing. */
  datatype KeyParts = KeyParts(name: string, typeText: Option<string>, flagText: Option<string>)

  /** The key a split came from. */
  function ComposeKey(p: KeyParts): string {
    match (p.typeText, p.flagText)
    case (None, None) => p.name
    case (None, Some(f)) => p.name + "|" + f
    case (Some(t), None) => p.name + ":" + t
    case (Some(t), Some(f)) => p.name + ":" + t + "|" + f
  }

  /** The parts a split can produce: the name has no `:`; with no type it
      has no `|` either and the flag has no `:`; the type has no `|`. */
  predicate Splittable(p: KeyParts) {
    && ':' !in p.name
    && (p.typeText.None? ==> '|' !in p.name && (p.flagText.Some? ==> ':' !in p.flagText.value))
    && (p.typeText.Some? ==> '|' !in p.typeText.value)
  }

  /** The split of a key into name, type text and flag text: the parts are
      splittable and compose back to the key, so nothing of the key is lost
      or invented. */
  function SplitKey(key: string): (r: KeyParts)
    ensures Splittable(r)
    ensures ComposeKey(r) == key
  {
    var pos := IndexOf(key, ':');
    IndexOfSpec(key, ':');
    if pos == -1 then
      var sep := IndexOf(key, '|');
      IndexOfSpec(key, '|');
      if sep == -1 then KeyParts(key, None, None)
      else
        NotInSlice(key, ':', sep + 1, |key|);
        SplitAtSound(key, sep, '|');
        KeyParts(key[..sep], None, Some(key[sep + 1..]))
    else
      var postfix := key[pos + 1..];
      var sep := IndexOf(postfix, '|');
      IndexOfSpec(postfix, '|');
      SplitAtSound(key, pos, ':');
      if sep == -1 then KeyParts(key[..pos], Some(postfix), None)
      else
        SplitAtSound(postfix, sep, '|');
        Rejoin(key, key[..pos], postfix, postfix[..sep], postfix[sep + 1..]);
        KeyParts(key[..pos], Some(postfix[..sep]), Some(postfix[sep + 1..]))
  }

  /** A character absent from a string is absent from each of its slices. */
  lemma NotInSlice(s: string, c: char, a: int, b: int)
    requires c !in s && 0 <= a <= b <= |s|
    ensures c !in s[a..b]
  {
  }

  lemma Rejoin(key: string, name: string, postfix: string, t: string, f: string)
    requires key == name + ":" + postfix && postfix == t + "|" + f
    ensures key == name + ":" + t + "|" + f
  {
  }

  /** Cutting a string at a separator and joining it back. */
  lemma SplitAtSound(s: string, i: int, d: char)
    requires 0 <= i < |s| && s[i] == d
    ensures s[..i] + [d] + s[i + 1..] == s
  {
  }

  /** A character in none of the pieces is not in the joined string. */
  lemma NotInJoin(a: string, d: char, b: string, c: char)
    requires c !in a && c != d && c !in b
    ensures c !in a + [d] + b
  {
  }

  /** `a + [d] + b` sliced around the separator. */
  lemma SliceAround(a: string, d: char, b: string)
    ensures (a + [d] + b)[..|a|] == a
    ensures (a + [d] + b)[|a| + 1..] == b
  {
  }

  lemma SplitComposeFlagOnly(name: string, f: string)
    requires ':' !in name && '|' !in name && ':' !in f
    ensures SplitKey(name + "|" + f) == KeyParts(name, None, Some(f))
  {
    NotInJoin(name, '|', f, ':');
    IndexOfSpec(name + "|" + f, ':');
    IndexOfAfter(name, '|', f);
    SliceAround(name, '|', f);
  }

  lemma SplitComposeTypeOnly(name: string, t: string)
    requires ':' !in name && '|' !in t
    ensures SplitKey(name + ":" + t) == KeyParts(name, Some(t), None)
  {
    IndexOfAfter(name, ':', t);
    SliceAround(name, ':', t);
    IndexOfSpec(t, '|');
  }

  lemma SplitComposeTypeAndFlag(name: string, t: string, f: string)
    requires ':' !in name && '|' !in t
    ensures SplitKey(name + ":" + (t + "|" + f)) == KeyParts(name, Some(t), Some(f))
  {
    IndexOfAfter(name, ':', t + "|" + f);
    SliceAround(name, ':', t + "|" + f);
    IndexOfAfter(t, '|', f);
    SliceAround(t, '|', f);
  }

  /** Splitting is the inverse of composing on the parts a split can
      produce; with the contract of `SplitKey` the two are a bijection between keys
      and splittable parts. */
  lemma SplitComposeKey(p: KeyParts)
    requires Splittable(p)
    ensures SplitKey(ComposeKey(p)) == p
  {
    match p.typeText {
      case None =>
        match p.flagText {
          case None =>
            IndexOfSpec(p.name, ':');
            IndexOfSpec(p.name, '|');
          case Some(f) =>
            SplitComposeFlagOnly(p.name, f);
        }
      case Some(t) =>
        match p.flagText {
          case None =>
            SplitComposeTypeOnly(p.name, t);
          case Some(f) =>
            assert ComposeKey(p) == p.name + ":" + (t + "|" + f);
            SplitComposeTypeAndFlag(p.name, t, f);
        }
    }
  }

  /** `ExtensionType.valueOf`: the exact constant name, case and all. */
  function ParseExtensionType(text: string): (r: Result<ExtensionType>)
    ensures r.Ok? <==> text in {"ARTIFACTS", "JSON", "TEXT"}
    ensures r.Err? ==> r.error == UnknownExtensionType(text) && !r.error.IsIOException()
  {
    if text == "ARTIFACTS" then Ok(ARTIFACTS)
    else if text == "JSON" then Ok(JSON)
    else if text == "TEXT" then Ok(TEXT)
    else Err(UnknownExtensionType(text))
  }

  /** The spelling `ParseExtensionType` accepts for each type. */
  function TypeName(t: ExtensionType): string {
    match t
    case ARTIFACTS => "ARTIFACTS"
    case JSON => "JSON"
    case TEXT => "TEXT"
  }

  lemma ParseTypeName(t: ExtensionType)
    ensures ParseExtensionType(TypeName(t)) == Ok(t)
  {
  }

  /** The extension type a key declares; no type means ARTIFACTS. */
  function KeyType(p: KeyParts): (r: Result<ExtensionType>)
    ensures p.typeText.None? ==> r == Ok(ARTIFACTS)
    ensures p.typeText.Some? ==> r == ParseExtensionType(p.typeText.value)
  {
    ParseExtensionType(if p.typeText.Some? then p.typeText.value else TypeName(ARTIFACTS))
  }

  /** Whether a key declares its extension optional; no flag means false. */
  function KeyOptional(p: KeyParts): (b: bool)
    ensures p.flagText.None? ==> !b
    ensures p.flagText.Some? ==> b == BooleanValueOf(p.flagText.value)
  {
    BooleanValueOf(if p.flagText.Some? then p.flagText.value else "false")
  }

  /** Splitting a key written as `ComposeKey(p)` gives back `p`. */
  lemma SplitsAs(key: string, p: KeyParts)
    requires Splittable(p) && ComposeKey(p) == key
    ensures SplitKey(key) == p
  {
    SplitComposeKey(p);
  }

  /** The four documented key forms split as documented. */
  lemma PlainKeyExample()
    ensures SplitKey("foo") == KeyParts("foo", None, None)
  {
    SplitsAs("foo", KeyParts("foo", None, None));
  }

  lemma FlaggedKeyExample()
    ensures SplitKey("foo|true") == KeyParts("foo", None, Some("true"))
  {
    SplitsAs("foo|true", KeyParts("foo", None, Some("true")));
  }

  lemma TypedKeyExample()
    ensures SplitKey("foo:TEXT") == KeyParts("foo", Some("TEXT"), None)
  {
    SplitsAs("foo:TEXT", KeyParts("foo", Some("TEXT"), None));
  }

  lemma TypedFlaggedKeyExample()
    ensures SplitKey("foo:TEXT|true") == KeyParts("foo", Some("TEXT"), Some("true"))
  {
    SplitsAs("foo:TEXT|true", KeyParts("foo", Some("TEXT"), Some("true")));
  }

  /** What the four documented forms declare: a plain name is a mandatory
      ARTIFACTS extension, `|true` makes it optional, `:TEXT` makes it a
      TEXT extension. */
  lemma KeyExampleMeanings()
    ensures KeyType(KeyParts("foo", None, None)) == Ok(ARTIFACTS) && !KeyOptional(KeyParts("foo", None, None))
    ensures KeyType(KeyParts("foo", None, Some("true"))) == Ok(ARTIFACTS) && KeyOptional(KeyParts("foo", None, Some("true")))
    ensures KeyType(KeyParts("foo", Some("TEXT"), None)) == Ok(TEXT) && !KeyOptional(KeyParts("foo", Some("TEXT"), None))
    ensures KeyType(KeyParts("foo", Some("TEXT"), Some("true"))) == Ok(TEXT) && KeyOptional(KeyParts("foo", Some("TEXT"), Some("true")))
  {
  }

  lemma LowerCaseTypeKeyExample()
    ensures SplitKey("foo:text") == KeyParts("foo", Some("text"), None)
  {
    SplitsAs("foo:text", KeyParts("foo", Some("text"), None));
  }

  /** A lower-case type is not a type: `foo:text` is refused, unlike the
      flag, where any spelling of "true" counts. */
  lemma KeyTypeIsCaseSensitive()
    ensures KeyType(KeyParts("foo", Some("text"), None)) == Err(UnknownExtensionType("text"))
    ensures KeyOptional(KeyParts("foo", Some("TEXT"), Some("TRUE")))
  {
  }
}
