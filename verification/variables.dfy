/** The variables section and literal `${name}` substitution
(`readVariables`, `replace`).
 */
module Variables {
  import opened Outcomes
  import opened JsonValues
  import opened TypeGuard

  const VARIABLES: string := "variables"

  /** One variable as the reader hands it on: its name and its text, where a
      JSON `null` stays `null`. */
  datatype Binding = Binding(name: string, value: Option<string>)

  /** The two views `readVariables` produces: the caller's key/value map after
      the write-through, and this document's own variables in reading order. */
  datatype VariablesRead = VariablesRead(kv: map<string, Option<string>>, variables: seq<Binding>)

  /** The values the variables section accepts: string, boolean, number or `null`. */
  predicate VariableValue(v: Json) {
    IsScalar(v) || v.JNull?
  }

  function VariableText(v: Json): Option<string>
    requires VariableValue(v)
  {
    if v.JNull? then None else Some(ScalarText(v))
  }

  /** `kvMap.get(key) != null`: the name is bound, and not to `null`. */
  predicate BoundNonNull(kv: map<string, Option<string>>, k: string) {
    k in kv && kv[k].Some?
  }

  /** The entry loop of `readVariables`: type check, duplicate check, then
      write the entry to both maps. */
  function AddVariables(ms: seq<Member>, kv: map<string, Option<string>>): (r: Result<VariablesRead>)
    ensures r.Ok? ==> forall i :: 0 <= i < |ms| ==> VariableValue(ms[i].value)
    ensures r.Ok? ==> |r.value.variables| == |ms|
    ensures r.Ok? ==> forall i :: 0 <= i < |ms| ==>
                        r.value.variables[i] == Binding(ms[i].key, VariableText(ms[i].value))
    ensures r.Ok? ==> forall i :: 0 <= i < |ms| ==> ms[i].key in r.value.kv
    ensures r.Ok? ==> forall k :: k in kv ==> k in r.value.kv
    ensures r.Err? ==> r.error.WrongType? || r.error.DuplicateVariable?
    decreases |ms|
  {
    if ms == [] then Ok(VariablesRead(kv, []))
    else
      var m := ms[0];
      :- CheckType("variable value", m.value, [KString, KBoolean, KNumber, KNull]);
      if BoundNonNull(kv, m.key) then Err(DuplicateVariable(m.key))
      else
        var v := VariableText(m.value);
        var rest :- AddVariables(ms[1..], kv[m.key := v]);
        assert forall i :: 1 <= i < |ms| ==> ms[i] == ms[1..][i - 1];
        Ok(VariablesRead(rest.kv, [Binding(m.key, v)] + rest.variables))
  }

  /** `readVariables`: without a variables section nothing is read and the
      caller's map is untouched; a section that is not a map is a type
      failure. */
  function ReadVariables(doc: seq<Member>, kv: map<string, Option<string>>): (r: Result<VariablesRead>)
    ensures !Has(doc, VARIABLES) ==> r == Ok(VariablesRead(kv, []))
    ensures Has(doc, VARIABLES) && !Get(doc, VARIABLES).JObject? ==> r == Err(WrongType(VARIABLES))
    ensures Has(doc, VARIABLES) && Get(doc, VARIABLES).JObject? ==> r == AddVariables(Get(doc, VARIABLES).members, kv)
  {
    if !Has(doc, VARIABLES) then Ok(VariablesRead(kv, []))
    else
      var v := Get(doc, VARIABLES);
      :- CheckType(VARIABLES, v, [KMap]);
      AddVariables(v.members, kv)
  }

  /** One step of the entry loop when the first entry is accepted. */
  lemma AddVariablesStep(ms: seq<Member>, kv: map<string, Option<string>>)
    requires ms != [] && VariableValue(ms[0].value) && !BoundNonNull(kv, ms[0].key)
    ensures AddVariables(ms, kv) ==
              match AddVariables(ms[1..], kv[ms[0].key := VariableText(ms[0].value)])
              case Ok(rest) => Ok(VariablesRead(rest.kv, [Binding(ms[0].key, VariableText(ms[0].value))] + rest.variables))
              case Err(e) => Err(e)
  {
    assert CheckType("variable value", ms[0].value, [KString, KBoolean, KNumber, KNull]).Pass? by {
      assert IsInstance(ms[0].value, [KString, KBoolean, KNumber, KNull][if ms[0].value.JNull? then 3 else if ms[0].value.JString? then 0 else if ms[0].value.JBool? then 1 else 2]);
    }
  }

  /** With distinct names (a JSON object's keys), reading succeeds exactly
      when every value is a string, boolean, number or `null` and no name is
      already bound to a non-null value in the caller's map; a name bound to
      `null` may be bound again. */
  lemma {:induction false} AddVariablesSucceeds(ms: seq<Member>, kv: map<string, Option<string>>)
    requires UniqueKeys(ms)
    ensures AddVariables(ms, kv).Ok? <==>
              forall i :: 0 <= i < |ms| ==> VariableValue(ms[i].value) && !BoundNonNull(kv, ms[i].key)
    decreases |ms|
  {
    if ms != [] {
      var tail := ms[1..];
      assert forall i :: 1 <= i < |ms| ==> ms[i] == tail[i - 1];
      if VariableValue(ms[0].value) && !BoundNonNull(kv, ms[0].key) {
        var kv' := kv[ms[0].key := VariableText(ms[0].value)];
        AddVariablesStep(ms, kv);
        AddVariablesSucceeds(tail, kv');
        assert forall i :: 0 <= i < |tail| ==> (BoundNonNull(kv', tail[i].key) <==> BoundNonNull(kv, tail[i].key));
      }
    }
  }

  /** With distinct names, a "Duplicate variable" failure names an entry
      whose name the caller's map already binds to a non-null value. */
  lemma {:induction false} AddVariablesDuplicate(ms: seq<Member>, kv: map<string, Option<string>>)
    requires UniqueKeys(ms)
    requires AddVariables(ms, kv).Err? && AddVariables(ms, kv).error.DuplicateVariable?
    ensures exists i :: 0 <= i < |ms| && ms[i].key == AddVariables(ms, kv).error.name && BoundNonNull(kv, ms[i].key)
    decreases |ms|
  {
    var tail := ms[1..];
    assert forall i :: 1 <= i < |ms| ==> ms[i] == tail[i - 1];
    if VariableValue(ms[0].value) && !BoundNonNull(kv, ms[0].key) {
      var kv' := kv[ms[0].key := VariableText(ms[0].value)];
      AddVariablesStep(ms, kv);
      AddVariablesDuplicate(tail, kv');
      var i :| 0 <= i < |tail| && tail[i].key == AddVariables(ms, kv).error.name && BoundNonNull(kv', tail[i].key);
      assert tail[i].key != ms[0].key;
      assert ms[i + 1] == tail[i];
    } else if VariableValue(ms[0].value) {
      assert ms[0].key == AddVariables(ms, kv).error.name;
    }
  }

  /** On success, with distinct names, every entry lands in the caller's map
      with its text (`null` kept as `null`) and no other binding changes. */
  lemma {:induction false} AddVariablesWrites(ms: seq<Member>, kv: map<string, Option<string>>)
    requires UniqueKeys(ms)
    requires AddVariables(ms, kv).Ok?
    ensures forall i :: 0 <= i < |ms| ==> AddVariables(ms, kv).value.kv[ms[i].key] == VariableText(ms[i].value)
    ensures forall k :: k in kv && !Has(ms, k) ==> AddVariables(ms, kv).value.kv[k] == kv[k]
    decreases |ms|
  {
    if ms != [] {
      var tail := ms[1..];
      assert forall i :: 1 <= i < |ms| ==> ms[i] == tail[i - 1];
      var kv' := kv[ms[0].key := VariableText(ms[0].value)];
      AddVariablesStep(ms, kv);
      AddVariablesWrites(tail, kv');
      var out := AddVariables(ms, kv).value.kv;
      assert out == AddVariables(tail, kv').value.kv;
      assert !Has(tail, ms[0].key);
      forall k | k in kv && !Has(ms, k)
        ensures out[k] == kv[k]
      {
        assert k != ms[0].key;
      }
    }
  }

  /** `"${" + name + "}"`: the text a variable replaces. */
  function Placeholder(name: string): (t: string)
    ensures |t| == |name| + 3
  {
    "${" + name + "}"
  }

  /** `t` occurs in `s` starting at index `i`. */
  predicate MatchAt(s: string, t: string, i: int) {
    0 <= i && i + |t| <= |s| && s[i..i + |t|] == t
  }

  predicate Occurs(s: string, t: string) {
    exists i :: 0 <= i <= |s| && MatchAt(s, t, i)
  }

  /** Java's `String.replace(target, replacement)` for a non-empty target:
      scan left to right and replace every non-overlapping occurrence. */
  function ReplaceAll(s: string, t: string, r: string): (out: string)
    requires |t| > 0
    ensures r == t ==> out == s
    ensures |r| == |t| ==> |out| == |s|
    decreases |s|
  {
    if |s| < |t| then s
    else if s[..|t|] == t then
      var rest := ReplaceAll(s[|t|..], t, r);
      assert r == t ==> r + rest == s by {
        if r == t { assert s == s[..|t|] + s[|t|..]; }
      }
      r + rest
    else
      var rest := ReplaceAll(s[1..], t, r);
      assert r == t ==> [s[0]] + rest == s by {
        if r == t { assert s == [s[0]] + s[1..]; }
      }
      [s[0]] + rest
  }

  /** Dropping the first character cannot create an occurrence. */
  lemma NotOccursTail(u: string, t: string)
    requires |u| > 0
    requires !Occurs(u, t)
    ensures !Occurs(u[1..], t)
  {
    forall i | 0 <= i <= |u[1..]|
      ensures !MatchAt(u[1..], t, i)
    {
      assert !MatchAt(u, t, i + 1);
      if i + |t| <= |u[1..]| {
        assert u[1..][i..i + |t|] == u[i + 1..i + 1 + |t|];
      }
    }
  }

  /** A string without the target is returned unchanged. */
  lemma {:induction false} ReplaceAllAbsent(s: string, t: string, r: string)
    requires |t| > 0
    requires !Occurs(s, t)
    ensures ReplaceAll(s, t, r) == s
    decreases |s|
  {
    if |s| >= |t| {
      assert !MatchAt(s, t, 0);
      NotOccursTail(s, t);
      ReplaceAllAbsent(s[1..], t, r);
    }
  }

  /** The leftmost occurrence is replaced, the text before it is kept, and
      scanning resumes right after it. Together with `ReplaceAllAbsent`
      this determines `ReplaceAll` on every input. */
  lemma {:induction false} ReplaceAllFirst(p: string, t: string, q: string, r: string)
    requires |t| > 0
    requires !Occurs(p + t[..|t| - 1], t)
    ensures ReplaceAll(p + t + q, t, r) == p + r + ReplaceAll(q, t, r)
    decreases |p|
  {
    var s := p + t + q;
    if p == [] {
      assert s[..|t|] == t;
      assert s[|t|..] == q;
    } else {
      var u := p + t[..|t| - 1];
      assert s[..|t|] != t by {
        assert s[..|t|] == u[..|t|];
        assert !MatchAt(u, t, 0);
      }
      assert !Occurs(p[1..] + t[..|t| - 1], t) by {
        NotOccursTail(u, t);
        DropFirst(p, t[..|t| - 1]);
      }
      ReplaceAllFirst(p[1..], t, q, r);
      DropFirst(p + t, q);
      DropFirst(p, t);
      assert ReplaceAll(s, t, r) == [s[0]] + ReplaceAll(s[1..], t, r);
      ConsBack(p, r, ReplaceAll(q, t, r));
    }
  }

  /** Putting the first character back in front of the rest. */
  lemma ConsBack(p: string, r: string, x: string)
    requires |p| > 0
    ensures [p[0]] + (p[1..] + r + x) == p + r + x
  {
  }

  /** Dropping the first character of a concatenation. */
  lemma DropFirst(p: string, w: string)
    requires |p| > 0
    ensures (p + w)[1..] == p[1..] + w
  {
  }

  /** `replace`: one `String.replace` pass per variable, in reading order.
      A variable bound to `null` makes `String.replace` throw a
      `NullPointerException`, whatever the text. */
  function Replace(s: string, vars: seq<Binding>): (r: Result<string>)
    ensures r.Err? <==> exists i :: 0 <= i < |vars| && vars[i].value.None?
    ensures r.Err? ==> r.error == NullPointer
    decreases |vars|
  {
    if vars == [] then Ok(s)
    else match vars[0].value
      case None => Err(NullPointer)
      case Some(v) =>
        var r := Replace(ReplaceAll(s, Placeholder(vars[0].name), v), vars[1..]);
        assert forall i :: 1 <= i < |vars| ==> vars[i] == vars[1..][i - 1];
        r
  }

  /** A string that mentions no bound variable comes back unchanged. */
  lemma {:induction false} ReplaceUnchanged(s: string, vars: seq<Binding>)
    requires forall i :: 0 <= i < |vars| ==> vars[i].value.Some?
    requires forall i :: 0 <= i < |vars| ==> !Occurs(s, Placeholder(vars[i].name))
    ensures Replace(s, vars) == Ok(s)
    decreases |vars|
  {
    if vars != [] {
      ReplaceAllAbsent(s, Placeholder(vars[0].name), vars[0].value.value);
      assert forall i :: 1 <= i < |vars| ==> vars[i] == vars[1..][i - 1];
      ReplaceUnchanged(s, vars[1..]);
    }
  }

  /** A coordinate with one placeholder gets the variable's value. */
  lemma ReplaceExample()
    ensures Replace("g:a:${v}", [Binding("v", Some("1.0"))]) == Ok("g:a:1.0")
  {
    ReplaceAllExample();
    var vars := [Binding("v", Some("1.0"))];
    assert Replace("g:a:${v}", vars) == Replace("g:a:1.0", vars[1..]);
  }

  /** The placeholder is found after text that has no `$`. */
  lemma ReplaceAllExample()
    ensures ReplaceAll("g:a:${v}", Placeholder("v"), "1.0") == "g:a:1.0"
  {
    var t := Placeholder("v");
    assert t[0] == '$';
    FirstCharAbsent("g:a:", t);
    ReplaceAllFirst("g:a:", t, "", "1.0");
    assert "g:a:" + t + "" == "g:a:${v}";
  }

  /** One placeholder after a `$`-free prefix is replaced. */
  lemma ReplaceAllOne(p: string, name: string, r: string)
    requires '$' !in p
    ensures ReplaceAll(p + Placeholder(name), Placeholder(name), r) == p + r
  {
    var t := Placeholder(name);
    assert t[0] == '$';
    FirstCharAbsent(p, t);
    ReplaceAllFirst(p, t, "", r);
    assert p + t + "" == p + t;
    assert p + r + "" == p + r;
  }

  /** The result depends on the order of the variables when one value holds
      another variable's placeholder. */
  lemma ReplaceOrderMatters()
    ensures Replace("g:${a}", [Binding("a", Some("${b}")), Binding("b", Some("x"))]) == Ok("g:x")
    ensures Replace("g:${a}", [Binding("b", Some("x")), Binding("a", Some("${b}"))]) == Ok("g:${b}")
  {
    assert Placeholder("a") == "${a}" && Placeholder("b") == "${b}";
    assert "g:" + "${a}" == "g:${a}" && "g:" + "${b}" == "g:${b}";
    ReplaceChained();
    ReplaceUnchained();
  }

  /** `a` first: its value brings in `${b}`, which `b` then replaces. */
  lemma ReplaceChained()
    ensures Replace("g:" + Placeholder("a"), [Binding("a", Some(Placeholder("b"))), Binding("b", Some("x"))]) == Ok("g:x")
  {
    var vars := [Binding("a", Some(Placeholder("b"))), Binding("b", Some("x"))];
    ReplaceAllOne("g:", "a", Placeholder("b"));
    ReplaceAllOne("g:", "b", "x");
    assert Replace("g:" + Placeholder("a"), vars) == Replace("g:" + Placeholder("b"), vars[1..]);
    var rest := vars[1..];
    assert rest[1..] == [];
    assert Replace("g:" + Placeholder("b"), rest) == Replace(ReplaceAll("g:" + Placeholder("b"), Placeholder("b"), "x"), []);
    assert "g:" + "x" == "g:x";
  }

  /** `b` first: there is no `${b}` yet, so the `${b}` that `a` brings in
      stays. */
  lemma ReplaceUnchained()
    ensures Replace("g:" + Placeholder("a"), [Binding("b", Some("x")), Binding("a", Some(Placeholder("b")))]) == Ok("g:" + Placeholder("b"))
  {
    var vars := [Binding("b", Some("x")), Binding("a", Some(Placeholder("b")))];
    var s := "g:" + Placeholder("a");
    var t := Placeholder("b");
    assert !Occurs(s, t) by {
      assert s == "g:${a}" && t == "${b}";
      forall i | 0 <= i <= |s|
        ensures !MatchAt(s, t, i)
      {
        if i + |t| <= |s| {
          assert s[i..i + |t|][0] == s[i] && s[i..i + |t|][2] == s[i + 2];
        }
      }
    }
    ReplaceAllAbsent(s, t, "x");
    ReplaceAllOne("g:", "a", t);
    assert Replace(s, vars) == Replace(s, vars[1..]);
    assert vars[1..][1..] == [];
    assert Replace(s, vars[1..]) == Replace("g:" + t, []);
  }

  /** Text that lacks the target's first character holds no occurrence that
      starts before the target's last character. */
  lemma FirstCharAbsent(p: string, t: string)
    requires |t| > 0 && t[0] !in p
    ensures !Occurs(p + t[..|t| - 1], t)
  {
    var u := p + t[..|t| - 1];
    forall i | 0 <= i <= |u|
      ensures !MatchAt(u, t, i)
    {
      if i + |t| <= |u| {
        assert u[i] == p[i];
        assert u[i..i + |t|][0] == u[i];
      }
    }
  }
}
