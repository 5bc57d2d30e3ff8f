/** The generic JSON tree the reader walks, and the few Java conversions it
relies on.

A JSON object is decoded into a `Map<String, Object>`; here it is the
sequence of its members in iteration order, so that every reader walks the
entries in one fixed order. Numbers arrive either as a `Long` or as a
`Double`; a double is an opaque scalar that carries only its Java text
rendering, because nothing in the reader looks inside it.
 */
module JsonValues {
  import opened Outcomes

  datatype Json =
    | JNull
    | JBool(b: bool)
    | JLong(n: int)
    | JDouble(text: string)
    | JString(s: string)
    | JArray(items: seq<Json>)
    | JObject(members: seq<Member>)

  datatype Member = Member(key: string, value: Json)

  /** The Java types `checkType` is asked about. `KNumber` stands for
      `Number.class`, which both a `Long` and a `Double` are instances of;
      `KNull` is the `null` entry of the allowed-type list. */
  datatype Kind = KString | KBoolean | KNumber | KMap | KList | KNull

  /** `c.isInstance(v)`, plus the `null` sentinel matching only `null`. */
  predicate IsInstance(v: Json, k: Kind) {
    match k
    case KString => v.JString?
    case KBoolean => v.JBool?
    case KNumber => v.JLong? || v.JDouble?
    case KMap => v.JObject?
    case KList => v.JArray?
    case KNull => v.JNull?
  }

  /** A Java map never holds two entries under one key. */
  predicate UniqueKeys(ms: seq<Member>) {
    forall i, j :: 0 <= i < j < |ms| ==> ms[i].key != ms[j].key
  }

  /** `map.containsKey(k)`. */
  predicate Has(ms: seq<Member>, k: string) {
    exists i :: 0 <= i < |ms| && ms[i].key == k
  }

  /** The value stored under `k`, if any. */
  function Find(ms: seq<Member>, k: string): (r: Option<Json>)
    ensures r.None? <==> !Has(ms, k)
    ensures r.Some? ==> exists i :: 0 <= i < |ms| && ms[i] == Member(k, r.value)
  {
    if ms == [] then None
    else if ms[0].key == k then Some(ms[0].value)
    else
      var r := Find(ms[1..], k);
      assert r.Some? ==> exists i :: 0 <= i < |ms[1..]| && ms[1..][i] == Member(k, r.value);
      r
  }

  /** `map.get(k)`: Java answers `null` both for an absent key and for a
      key bound to `null`. */
  function Get(ms: seq<Member>, k: string): Json {
    match Find(ms, k)
    case Some(v) => v
    case None => JNull
  }

  /** `s.startsWith("#")`: the comment marker of the feature format. */
  predicate IsComment(s: string) {
    |s| > 0 && s[0] == '#'
  }

  /** The values `toString()` is applied to after a type check. */
  predicate IsScalar(v: Json) {
    v.JString? || v.JBool? || v.JLong? || v.JDouble?
  }

  function DigitChar(d: nat): char
    requires d < 10
  {
    "0123456789"[d]
  }

  function Digits(n: nat): (r: string)
    ensures |r| > 0
    ensures forall i :: 0 <= i < |r| ==> '0' <= r[i] <= '9'
    decreases n
  {
    if n < 10 then [DigitChar(n)] else Digits(n / 10) + [DigitChar(n % 10)]
  }

  /** `Long.toString`: optional minus sign, then decimal digits. */
  function LongText(n: int): (r: string)
    ensures |r| > 0
    ensures (r[0] == '-') <==> n < 0
  {
    if n < 0 then "-" + Digits(-n) else Digits(n)
  }

  /** `toString()` of a String, Boolean, Long or Double. */
  function ScalarText(v: Json): string
    requires IsScalar(v)
  {
    match v
    case JString(s) => s
    case JBool(b) => if b then "true" else "false"
    case JLong(n) => LongText(n)
    case JDouble(t) => t
  }

  /** Every element of a list is a string. */
  predicate AllStrings(items: seq<Json>) {
    forall i :: 0 <= i < |items| ==> items[i].JString?
  }

  /** The strings of such a list, in order. */
  function StringsOf(items: seq<Json>): (r: seq<string>)
    requires AllStrings(items)
    ensures |r| == |items|
    ensures forall i :: 0 <= i < |items| ==> r[i] == items[i].s
    decreases |items|
  {
    if items == [] then [] else [items[0].s] + StringsOf(items[1..])
  }
}
