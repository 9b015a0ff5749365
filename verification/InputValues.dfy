/** From the text of a policy input to the list of values the policy engine receives. */
module InputValues {
  import opened Text

  /** unicode.IsSpace: the characters with the property White_Space. */
  predicate IsSpace(c: char) {
    || '\t' <= c <= '\r' || c == ' ' || c == '\U{85}' || c == '\U{A0}' || c == '\U{1680}'
    || '\U{2000}' <= c <= '\U{200A}' || c == '\U{2028}' || c == '\U{2029}' || c == '\U{202F}' || c == '\U{205F}'
    || c == '\U{3000}'
  }

  function TrimLeft(s: string): string {
    if s != "" && IsSpace(s[0]) then TrimLeft(s[1..]) else s
  }

  function TrimEnd(s: string): string {
    if s != "" && IsSpace(s[|s| - 1]) then TrimEnd(s[..|s| - 1]) else s
  }

  /** strings.TrimSpace */
  function TrimSpace(s: string): string {
    TrimEnd(TrimLeft(s))
  }

  predicate AllSpace(s: string) {
    forall i | 0 <= i < |s| :: IsSpace(s[i])
  }

  /** Neither end is white space. */
  predicate Trimmed(t: string) {
    t != "" ==> !IsSpace(t[0]) && !IsSpace(t[|t| - 1])
  }

  /** t is s without the white space at its ends. */
  ghost predicate TrimOf(s: string, i: nat, j: nat, t: string) {
    i <= j <= |s| && t == s[i..j] && AllSpace(s[..i]) && AllSpace(s[j..]) && Trimmed(t)
  }

  lemma {:induction false} TrimLeftSpec(s: string)
    ensures var n := |s| - |TrimLeft(s)|; n >= 0 && TrimLeft(s) == s[n..] && AllSpace(s[..n])
    ensures TrimLeft(s) != "" ==> !IsSpace(TrimLeft(s)[0])
  {
    hide IsSpace;
    if s != "" && IsSpace(s[0]) { TrimLeftSpec(s[1..]); }
  }

  lemma {:induction false} TrimEndSpec(s: string)
    ensures |TrimEnd(s)| <= |s| && TrimEnd(s) == s[..|TrimEnd(s)|] && AllSpace(s[|TrimEnd(s)|..])
    ensures TrimEnd(s) != "" ==> !IsSpace(TrimEnd(s)[|TrimEnd(s)| - 1])
    decreases |s|
  {
    hide IsSpace;
    if s != "" && IsSpace(s[|s| - 1]) {
      var init := s[..|s| - 1];
      TrimEndSpec(init);
      assert s == init + [s[|s| - 1]];
    }
  }

  /** What is cut off is white space, and what is left starts and ends with none. */
  lemma TrimSpaceSpec(s: string)
    ensures exists i: nat, j: nat :: TrimOf(s, i, j, TrimSpace(s))
  {
    hide IsSpace, TrimLeft, TrimEnd;
    TrimLeftSpec(s);
    var left := TrimLeft(s);
    TrimEndSpec(left);
    var i := |s| - |left|;
    var j := i + |TrimEnd(left)|;
    assert s[j..] == left[|TrimEnd(left)|..];
    assert TrimOf(s, i, j, TrimSpace(s));
  }

  lemma TrimmedStays(t: string)
    requires Trimmed(t)
    ensures TrimSpace(t) == t
  {
    hide IsSpace;
  }

  /** The trimmed fields that are not empty. */
  function NonBlank(fields: seq<string>): seq<string> {
    if fields == [] then []
    else
      var init, last := NonBlank(fields[..|fields| - 1]), TrimSpace(fields[|fields| - 1]);
      if last == "" then init else init + [last]
  }

  /** What is kept of the fields: what is left of each of them, if anything is. */
  lemma {:induction false} NonBlankIff(fields: seq<string>, t: string)
    ensures t in NonBlank(fields) <==> t != "" && exists i | 0 <= i < |fields| :: TrimSpace(fields[i]) == t
    decreases |fields|
  {
    hide TrimSpace;
    if fields != [] {
      var n := |fields| - 1;
      NonBlankIff(fields[..n], t);
      assert forall i | 0 <= i < n :: fields[..n][i] == fields[i];
    }
  }

  /** Trimming again changes nothing. */
  lemma {:induction false} NonBlankAgain(fields: seq<string>)
    requires forall i | 0 <= i < |fields| :: fields[i] != "" && Trimmed(fields[i])
    ensures NonBlank(fields) == fields
    decreases |fields|
  {
    hide TrimSpace, Trimmed;
    if fields != [] {
      var n := |fields| - 1;
      NonBlankAgain(fields[..n]);
      TrimmedStays(fields[n]);
      assert fields == fields[..n] + [fields[n]];
    }
  }

  lemma {:induction false} NonBlankTrimmed(fields: seq<string>)
    ensures forall t | t in NonBlank(fields) :: t != "" && Trimmed(t)
    decreases |fields|
  {
    hide TrimSpace, Trimmed;
    if fields != [] {
      var n := |fields| - 1;
      NonBlankTrimmed(fields[..n]);
      TrimSpaceSpec(fields[n]);
    }
  }

  const PLACEHOLDER := "$=$$ESCAPED_COMMA$$=$"
  const ESCAPED_COMMA := "\\,"

  /** The fields of a line as splitArgs computes them: escaped commas are hidden behind a placeholder while the
      line is split. */
  function Restored(parts: seq<string>): seq<string> {
    seq(|parts|, i requires 0 <= i < |parts| => ReplaceAll(parts[i], PLACEHOLDER, ","))
  }

  function ArgFields(line: string): seq<string> {
    Restored(Split(ReplaceAll(line, ESCAPED_COMMA, PLACEHOLDER), ','))
  }

  function ArgList(line: string): seq<string> {
    NonBlank(ArgFields(line))
  }

  /** splitArgs */
  method SplitArgs(s: string) returns (result: seq<string>)
    ensures result == ArgList(s)
  {
    hide Text.Weave, TrimSpace;
    var parts := Split(ReplaceAll(s, ESCAPED_COMMA, PLACEHOLDER), ',');
    result := [];
    ghost var fields := ArgFields(s);
    for i := 0 to |parts|
      invariant result == NonBlank(fields[..i])
    {
      assert fields[..i + 1][..i] == fields[..i];
      var trimmed := TrimSpace(ReplaceAll(parts[i], PLACEHOLDER, ","));
      if trimmed != "" {
        result := result + [trimmed];
      }
    }
    assert fields[..|parts|] == fields;
  }

  // ---- All lines of a value ----------------------------------------------------------------------------------

  /** strings.TrimRight(v, "\n") */
  function TrimNewlines(v: string): string {
    if v != "" && v[|v| - 1] == '\n' then TrimNewlines(v[..|v| - 1]) else v
  }

  function LineArgs(lines: seq<string>): seq<string> {
    if lines == [] then [] else LineArgs(lines[..|lines| - 1]) + ArgList(lines[|lines| - 1])
  }

  /** The values of an input: what getValue keeps of the arguments of all lines. */
  function Values(v: string): seq<string> {
    NonBlank(LineArgs(Split(TrimNewlines(v), '\n')))
  }

  /** What the engine receives for an input: nothing, one value, or a list. */
  datatype Arg = NoArg | One(value: string) | Many(values: seq<string>)

  function ArgOf(values: seq<string>): (a: Arg)
    ensures a.NoArg? <==> values == []
    ensures AsList(a) == values
  {
    if values == [] then NoArg else if |values| > 1 then Many(values) else One(values[0])
  }

  function AsList(a: Arg): seq<string> {
    match a
    case NoArg => []
    case One(v) => [v]
    case Many(vs) => vs
  }

  /** getValue */
  method GetValue(values: seq<string>) returns (a: Arg)
    ensures a == ArgOf(NonBlank(values))
  {
    hide TrimSpace;
    var lines: seq<string> := [];
    for i := 0 to |values|
      invariant lines == NonBlank(values[..i])
    {
      assert values[..i + 1][..i] == values[..i];
      var text := TrimSpace(values[i]);
      if |text| > 0 {
        lines := lines + [text];
      }
    }
    assert values[..|values|] == values;
    if |lines| == 0 {
      return NoArg;
    }
    if |lines| > 1 {
      return Many(lines);
    }
    return One(lines[0]);
  }

  /** getInputArguments: an input without a value is left out. The inputs are taken in any order. */
  method GetInputArguments(inputs: map<string, string>) returns (args: map<string, Arg>)
    ensures forall k :: k in args <==> k in inputs && Values(inputs[k]) != []
    ensures forall k | k in args :: args[k] == ArgOf(Values(inputs[k]))
  {
    hide TrimNewlines, ArgList, NonBlank;
    args := map[];
    var rest := inputs.Keys;
    while rest != {}
      invariant rest <= inputs.Keys
      invariant forall k :: k in args <==> k in inputs.Keys - rest && Values(inputs[k]) != []
      invariant forall k | k in args :: args[k] == ArgOf(Values(inputs[k]))
      decreases |rest|
    {
      var k :| k in rest;
      var lines := Split(TrimNewlines(inputs[k]), '\n');
      var values: seq<string> := [];
      for i := 0 to |lines|
        invariant values == LineArgs(lines[..i])
      {
        assert lines[..i + 1][..i] == lines[..i];
        var more := SplitArgs(lines[i]);
        values := values + more;
      }
      assert lines[..|lines|] == lines;
      var value := GetValue(values);
      rest := rest - {k};
      if value.NoArg? {
        continue;
      }
      args := args[k := value];
    }
  }

  // ---- Appending is a homomorphism ----------------------------------------------------------------------------

  lemma {:induction false} LineArgsConcat(a: seq<string>, b: seq<string>)
    ensures LineArgs(a + b) == LineArgs(a) + LineArgs(b)
    decreases |b|
  {
    hide ArgList;
    if b == [] {
      assert a + b == a;
    } else {
      var n := |b| - 1;
      assert (a + b)[..|a| + n] == a + b[..n];
      LineArgsConcat(a, b[..n]);
    }
  }

  lemma {:induction false} NonBlankConcat(a: seq<string>, b: seq<string>)
    ensures NonBlank(a + b) == NonBlank(a) + NonBlank(b)
    decreases |b|
  {
    hide TrimSpace;
    if b == [] {
      assert a + b == a;
    } else {
      var n := |b| - 1;
      assert (a + b)[..|a| + n] == a + b[..n];
      NonBlankConcat(a, b[..n]);
    }
  }

  lemma EmptyLine()
    ensures ArgList("") == [] && LineArgs(Split("", '\n')) == []
  {
    IndexLeast("", ESCAPED_COMMA);
    IndexLeast("", PLACEHOLDER);
    WeaveNone("", ESCAPED_COMMA, PLACEHOLDER, {});
    WeaveNone("", PLACEHOLDER, ",", {});
    assert ArgFields("") == [""];
    assert TrimSpace("") == "";
    assert [""][..0] == [];
  }

  /** Trailing line feeds add no value. */
  lemma {:induction false} TrimNewlinesHarmless(v: string)
    ensures LineArgs(Split(TrimNewlines(v), '\n')) == LineArgs(Split(v, '\n'))
    decreases |v|
  {
    hide ArgList;
    if v != "" && v[|v| - 1] == '\n' {
      var init := v[..|v| - 1];
      TrimNewlinesHarmless(init);
      assert v == init + ['\n'] + "";
      SplitAcross(init, '\n', "");
      EmptyLine();
      LineArgsConcat(Split(init, '\n'), Split("", '\n'));
    }
  }

  /** What MergeRuntimeInputs makes of two values of one input. */
  function Appended(existing: string, v: string): string {
    if existing != "" then existing + "\n" + v else v
  }

  /** The values of an appended input are the values of the one followed by the values of the other, whatever line
      feeds, commas and escapes either holds. */
  lemma AppendIsHomomorphic(existing: string, v: string)
    ensures Values(Appended(existing, v)) == Values(existing) + Values(v)
  {
    hide ArgList, NonBlank, TrimNewlines;
    TrimNewlinesHarmless(existing);
    TrimNewlinesHarmless(v);
    TrimNewlinesHarmless(Appended(existing, v));
    if existing == "" {
      EmptyLine();
      NoValues();
    } else {
      assert existing + "\n" + v == existing + ['\n'] + v;
      SplitAcross(existing, '\n', v);
      LineArgsConcat(Split(existing, '\n'), Split(v, '\n'));
      NonBlankConcat(LineArgs(Split(existing, '\n')), LineArgs(Split(v, '\n')));
    }
  }

  lemma NoValues()
    ensures NonBlank([]) == []
  {
  }
}
