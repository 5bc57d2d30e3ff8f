/** The Java `String` operations the key grammar and the text payload use:
`indexOf(char)`, `equalsIgnoreCase("true")`, and the newline-terminated
joining of a list of lines.
 */
module Text {

  /** `s.indexOf(c)`: the first index holding `c`, or -1 (see `IndexOfSpec`). */
  function IndexOf(s: string, c: char): (r: int)
    ensures -1 <= r < |s|
    decreases |s|
  {
    if s == [] then -1
    else if s[0] == c then 0
    else
      var k := IndexOf(s[1..], c);
      if k == -1 then -1 else k + 1
  }

  /** `IndexOf` finds the first occurrence, and answers -1 exactly when
      there is none. */
  lemma {:induction false} IndexOfSpec(s: string, c: char)
    ensures IndexOf(s, c) == -1 <==> c !in s
    ensures IndexOf(s, c) >= 0 ==> s[IndexOf(s, c)] == c && c !in s[..IndexOf(s, c)]
    decreases |s|
  {
    if s != [] && s[0] != c {
      IndexOfSpec(s[1..], c);
      var k := IndexOf(s[1..], c);
      assert s == [s[0]] + s[1..];
      if k != -1 {
        assert s[..k + 1] == [s[0]] + s[1..][..k];
      }
    }
  }

  /** The first `c` of `a + [c] + b` is the one after `a`, when `a` has none. */
  lemma IndexOfAfter(a: string, c: char, b: string)
    requires c !in a
    ensures IndexOf(a + [c] + b, c) == |a|
  {
    var s := a + [c] + b;
    IndexOfSpec(s, c);
    assert s[|a|] == c;
    assert s[..|a|] == a;
  }

  /** `Character.toLowerCase` on the ASCII letters; other characters are kept. */
  function LowerAscii(c: char): char {
    if 'A' <= c <= 'Z' then (c as int + 32) as char else c
  }

  /** `"true".equalsIgnoreCase(s)`, which is what `Boolean.valueOf(s)` answers.
      Only `t`, `r`, `u`, `e` matter, and no character outside ASCII folds to
      one of them. */
  function BooleanValueOf(s: string): (b: bool)
    ensures b ==> |s| == 4
  {
    |s| == 4 && LowerAscii(s[0]) == 't' && LowerAscii(s[1]) == 'r' && LowerAscii(s[2]) == 'u' && LowerAscii(s[3]) == 'e'
  }

  /** Every spelling of "true" is true; anything else is false, never an error. */
  lemma BooleanValueOfExamples()
    ensures BooleanValueOf("true") && BooleanValueOf("TRUE") && BooleanValueOf("True") && BooleanValueOf("tRuE")
    ensures !BooleanValueOf("false") && !BooleanValueOf("") && !BooleanValueOf("yes") && !BooleanValueOf("true ")
  {
  }

  /** Each line followed by a newline, as the TEXT payload builder appends them. */
  function JoinLines(lines: seq<string>): (r: string)
    ensures |r| >= |lines|
    ensures lines != [] ==> r[|r| - 1] == '\n'
    decreases |lines|
  {
    if lines == [] then "" else lines[0] + "\n" + JoinLines(lines[1..])
  }

  /** Reading newline-terminated lines back; a final line without a newline
      still counts. */
  function SplitLines(s: string): seq<string>
    decreases |s|
  {
    if s == [] then []
    else
      var i := IndexOf(s, '\n');
      if i == -1 then [s] else [s[..i]] + SplitLines(s[i + 1..])
  }

  /** The text payload loses nothing: lines without newlines come back as
      they went in. */
  lemma {:induction false} SplitJoinLines(lines: seq<string>)
    requires forall i :: 0 <= i < |lines| ==> '\n' !in lines[i]
    ensures SplitLines(JoinLines(lines)) == lines
    decreases |lines|
  {
    if lines != [] {
      var s := JoinLines(lines);
      IndexOfAfter(lines[0], '\n', JoinLines(lines[1..]));
      assert s == lines[0] + "\n" + JoinLines(lines[1..]);
      assert s[..|lines[0]|] == lines[0];
      assert s[|lines[0]| + 1..] == JoinLines(lines[1..]);
      assert forall i :: 1 <= i < |lines| ==> lines[i] == lines[1..][i - 1];
      SplitJoinLines(lines[1..]);
    }
  }
}
