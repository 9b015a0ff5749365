/** When splitArgs does what it documents: a line is split at its unescaped commas. The placeholder behind which
    escaped commas are hidden makes it go wrong on exactly the lines that hold the placeholder, or the start of one
    that an escaped comma completes. */
module ArgSplit {
  import opened Text
  import opened InputValues
  import opened LineWise

  // ---- The documented split -------------------------------------------------------------------------------------

  function Prepend(c: char, fields: seq<string>): seq<string>
    requires fields != []
  {
    [[c] + fields[0]] + fields[1..]
  }

  predicate StartsEscape(line: string) {
    |line| >= 2 && line[0] == '\\' && line[1] == ','
  }

  /** The fields between unescaped commas, with an escaped comma as a plain one. */
  function Fields(line: string): (fields: seq<string>)
    ensures fields != []
  {
    if line == "" then [""]
    else if StartsEscape(line) then Prepend(',', Fields(line[2..]))
    else if line[0] == ',' then [""] + Fields(line[1..])
    else Prepend(line[0], Fields(line[1..]))
  }

  // ---- Substitution, character by character -----------------------------------------------------------------------

  lemma ReplaceAtHead(s: string, sub: string, mask: string)
    requires sub != "" && sub <= s
    ensures ReplaceAll(s, sub, mask) == mask + ReplaceAll(s[|sub|..], sub, mask)
  {
    hide Text.Weave;
    assert At(s, 0, sub);
    IndexLeast(s, sub);
    WeaveUnfold(s, sub, mask, {}, 0, s[|sub|..], |s|);
    assert s[..0] + mask == mask;
  }

  lemma ReplacePastHead(s: string, sub: string, mask: string)
    requires sub != "" && !(sub <= s) && s != ""
    ensures ReplaceAll(s, sub, mask) == [s[0]] + ReplaceAll(s[1..], sub, mask)
  {
    hide Text.Weave, Index;
    var rest := s[1..];
    assert s == [s[0]] + rest && !At(s, 0, sub);
    IndexLeast([s[0]], sub);
    AtConcat([s[0]], rest, Index([s[0]], sub), sub);
    WeaveOver([s[0]], rest, sub, mask, {});
  }

  lemma ReplaceEmpty(sub: string, mask: string)
    requires sub != ""
    ensures ReplaceAll("", sub, mask) == ""
  {
    IndexLeast("", sub);
    WeaveNone("", sub, mask, {});
  }

  function Mark(line: string): string {
    ReplaceAll(line, ESCAPED_COMMA, PLACEHOLDER)
  }

  lemma MarkCases(line: string)
    ensures line == "" ==> Mark(line) == ""
    ensures StartsEscape(line) ==> Mark(line) == PLACEHOLDER + Mark(line[2..])
    ensures line != "" && !StartsEscape(line) ==> Mark(line) == [line[0]] + Mark(line[1..])
  {
    hide ReplaceAll;
    if line == "" {
      ReplaceEmpty(ESCAPED_COMMA, PLACEHOLDER);
    } else if StartsEscape(line) {
      assert line[..2] == ESCAPED_COMMA;
      ReplaceAtHead(line, ESCAPED_COMMA, PLACEHOLDER);
    } else {
      ReplacePastHead(line, ESCAPED_COMMA, PLACEHOLDER);
    }
  }

  // ---- Where the two part -----------------------------------------------------------------------------------

  /** The placeholder stands at the head of the marked line although the line does not start with an escape. */
  predicate BadHead(line: string) {
    line != "" && !StartsEscape(line) && PLACEHOLDER <= Mark(line)
  }

  /** A bad head at some field character of the line. */
  predicate Bad(line: string) {
    if line == "" then false
    else if StartsEscape(line) then Bad(line[2..])
    else BadHead(line) || Bad(line[1..])
  }

  lemma SplitHead(c: char, rest: string)
    ensures c == ',' ==> Split([c] + rest, ',') == [""] + Split(rest, ',')
    ensures c != ',' ==> Split([c] + rest, ',') == Prepend(c, Split(rest, ','))
  {
    assert ([c] + rest)[1..] == rest;
  }

  lemma {:induction false} SplitPrefix(a: string, rest: string)
    requires ',' !in a
    ensures Split(a + rest, ',') == [a + Split(rest, ',')[0]] + Split(rest, ',')[1..]
    decreases |a|
  {
    hide Split;
    if a == "" {
      assert a + rest == rest;
      assert "" + Split(rest, ',')[0] == Split(rest, ',')[0];
    } else {
      assert a + rest == [a[0]] + (a[1..] + rest);
      SplitHead(a[0], a[1..] + rest);
      SplitPrefix(a[1..], rest);
      assert [a[0]] + (a[1..] + Split(rest, ',')[0]) == a + Split(rest, ',')[0];
    }
  }

  /** The first part of a split is a prefix of the text up to its first comma. */
  lemma {:induction false} FirstPart(s: string)
    ensures Split(s, ',')[0] <= s
    ensures forall p: string | p <= s && ',' !in p :: p <= Split(s, ',')[0]
    decreases |s|
  {
    if s != "" {
      FirstPart(s[1..]);
      if s[0] != ',' {
        forall p: string | p <= s && ',' !in p ensures p <= Split(s, ',')[0] {
          if p != "" {
            assert p[1..] <= s[1..];
            assert p == [s[0]] + p[1..];
          }
        }
      }
    }
  }

  lemma PlaceholderFacts()
    ensures ',' !in PLACEHOLDER && '\\' !in PLACEHOLDER && |PLACEHOLDER| == 21 && PLACEHOLDER[0] == '$'
  {
  }

  /** The fields of the code, one character of the line at a time. */
  lemma ArgFieldsCases(line: string)
    ensures line == "" ==> ArgFields(line) == [""]
    ensures StartsEscape(line) ==> ArgFields(line[2..]) != [] && ArgFields(line) == Prepend(',', ArgFields(line[2..]))
    ensures line != "" && !StartsEscape(line) && line[0] == ',' ==> ArgFields(line) == [""] + ArgFields(line[1..])
    ensures line != "" && !StartsEscape(line) && line[0] != ',' && !BadHead(line) ==>
      ArgFields(line[1..]) != [] && ArgFields(line) == Prepend(line[0], ArgFields(line[1..]))
    ensures BadHead(line) && line[0] != ',' ==> ArgFields(line) != [] && "," <= ArgFields(line)[0]
  {
    hide ReplaceAll, Split;
    MarkCases(line);
    PlaceholderFacts();
    ReplaceEmpty(PLACEHOLDER, ",");
    if line == "" {
      SplitEmpty();
    } else if StartsEscape(line) {
      var rest := Split(Mark(line[2..]), ',');
      SplitPrefix(PLACEHOLDER, Mark(line[2..]));
      ReplaceAtHead(PLACEHOLDER + rest[0], PLACEHOLDER, ",");
      assert (PLACEHOLDER + rest[0])[21..] == rest[0];
    } else {
      var rest := Split(Mark(line[1..]), ',');
      SplitHead(line[0], Mark(line[1..]));
      if line[0] != ',' {
        var part := [line[0]] + rest[0];
        FirstPart(Mark(line));
        assert PLACEHOLDER <= Mark(line) <==> PLACEHOLDER <= part;
        if PLACEHOLDER <= part {
          ReplaceAtHead(part, PLACEHOLDER, ",");
        } else {
          ReplacePastHead(part, PLACEHOLDER, ",");
          assert part[1..] == rest[0];
        }
      } else {
        assert Restored([""] + rest) == [""] + Restored(rest);
      }
    }
  }

  lemma SplitEmpty()
    ensures Split("", ',') == [""]
  {
  }

  /** On a line without a bad head the code and the documentation agree on the fields. */
  lemma {:induction false} GoodLine(line: string)
    requires !Bad(line)
    ensures ArgFields(line) == Fields(line)
    decreases |line|
  {
    hide ArgFields;
    ArgFieldsCases(line);
    if line != "" {
      GoodLine(if StartsEscape(line) then line[2..] else line[1..]);
    }
  }

  // ---- Bad lines, in terms of the line ----------------------------------------------------------------------

  /** The two starts of the placeholder that an escaped comma behind them completes. */
  const LONG_START := PLACEHOLDER[..20] + ESCAPED_COMMA
  const SHORT_START := PLACEHOLDER[..18] + ESCAPED_COMMA

  /** The line holds the placeholder, or a start of it that an escaped comma completes. */
  predicate Tainted(line: string) {
    Contains(line, PLACEHOLDER) || Contains(line, LONG_START) || Contains(line, SHORT_START)
  }

  predicate TaintedHead(line: string) {
    PLACEHOLDER <= line || LONG_START <= line || SHORT_START <= line
  }

  /** The placeholder overlaps itself in its last character and in its last three, and nowhere else. */
  lemma Borders(j: nat)
    requires 1 <= j <= 20 && PLACEHOLDER[j..] == PLACEHOLDER[..21 - j]
    ensures j == 18 || j == 20
  {
    var p := PLACEHOLDER;
    assert p[j..][0] == p[0];
    if j < 20 { assert p[j..][1] == p[1] && p[j..][1] == p[j + 1]; }
  }

  /** The characters in front of the first escape survive marking. */
  lemma {:induction false} MarkPrefix(line: string, j: nat)
    requires j <= |line| && '\\' !in line[..j]
    ensures Mark(line) == line[..j] + Mark(line[j..])
    decreases j
  {
    hide Mark;
    if j == 0 {
      assert line[0..] == line && line[..0] == "";
    } else {
      MarkCases(line);
      assert line[0] in line[..j];
      assert line[1..][..j - 1] == line[..j][1..] && line[1..][j - 1..] == line[j..];
      MarkPrefix(line[1..], j - 1);
      assert line[..j] == [line[0]] + line[1..][..j - 1];
    }
  }

  /** An escape behind a prefix of the placeholder completes it only at one of the two overlaps. */
  lemma EscapeInside(line: string, j: nat)
    requires 0 < j < 21 && j <= |line| && line[..j] == PLACEHOLDER[..j] && StartsEscape(line[j..])
    requires 21 - j <= |Mark(line[j..])| && Mark(line[j..])[..21 - j] == PLACEHOLDER[j..]
    ensures TaintedHead(line)
  {
    hide Mark;
    var rest := line[j..];
    MarkCases(rest);
    assert Mark(rest)[..21 - j] == PLACEHOLDER[..21 - j];
    Borders(j);
    assert line[..j + 2] == line[..j] + rest[..2] && rest[..2] == ESCAPED_COMMA;
  }

  lemma {:induction false} BadHeadIsTainted(line: string, j: nat)
    requires j <= 21 && j <= |line| && line[..j] == PLACEHOLDER[..j] && PLACEHOLDER <= Mark(line)
    requires line != "" && !StartsEscape(line)
    ensures TaintedHead(line)
    decreases 21 - j
  {
    hide Mark;
    PlaceholderFacts();
    if j == 21 {
      assert line[..21] == PLACEHOLDER;
    } else {
      NoBackslash(line, j);
      MarkPrefix(line, j);
      var rest := line[j..];
      MarkCases(rest);
      assert Mark(line)[j..] == Mark(rest) && Mark(line)[..21][j..] == PLACEHOLDER[j..];
      if StartsEscape(rest) {
        EscapeInside(line, j);
      } else {
        assert rest != "";
        assert Mark(rest)[0] == PLACEHOLDER[j] == line[j];
        assert line[..j + 1] == line[..j] + [line[j]];
        assert PLACEHOLDER[..j + 1] == PLACEHOLDER[..j] + [PLACEHOLDER[j]];
        BadHeadIsTainted(line, j + 1);
      }
    }
  }

  lemma NoBackslash(line: string, j: nat)
    requires j <= 21 && j <= |line| && line[..j] == PLACEHOLDER[..j]
    ensures '\\' !in line[..j]
  {
  }

  /** Conversely, each of the three marks to a text that starts with the placeholder. */
  lemma TaintedHeadIsBad(line: string)
    requires TaintedHead(line)
    ensures BadHead(line)
  {
    hide Mark;
    PlaceholderFacts();
    var j := if PLACEHOLDER <= line then 21 else if LONG_START <= line then 20 else 18;
    assert line[..j] == PLACEHOLDER[..j];
    NoBackslash(line, j);
    MarkPrefix(line, j);
    assert line[0] == line[..j][0];
    if j == 21 {
      assert Mark(line)[..21] == PLACEHOLDER;
    } else {
      var rest := line[j..];
      var start := if j == 20 then LONG_START else SHORT_START;
      assert line[..j + 2] == start && start[j] == '\\' && start[j + 1] == ',';
      assert rest[0] == start[j] && rest[1] == start[j + 1];
      MarkCases(rest);
      assert PLACEHOLDER[j..] == PLACEHOLDER[..21 - j];
      assert Mark(line) == PLACEHOLDER[..j] + (PLACEHOLDER + Mark(rest[2..]));
      assert Mark(line)[..21] == PLACEHOLDER[..j] + PLACEHOLDER[..21 - j];
      assert PLACEHOLDER == PLACEHOLDER[..j] + PLACEHOLDER[j..];
    }
  }

  lemma {:induction false} BadIffTainted(line: string)
    ensures Bad(line) <==> Tainted(line)
    decreases |line|
  {
    hide Mark, BadHead;
    BadHeadCases(line);
    if line == "" {
      NothingTainted();
    } else {
      var n := if StartsEscape(line) then 2 else 1;
      BadIffTainted(line[n..]);
      TaintedStep(line, n);
    }
  }

  lemma NothingTainted()
    ensures !Tainted("")
  {
  }

  lemma BadHeadCases(line: string)
    ensures BadHead(line) <==> TaintedHead(line)
  {
    hide Mark;
    if BadHead(line) { BadHeadIsTainted(line, 0); }
    if TaintedHead(line) { TaintedHeadIsBad(line); }
  }

  /** A taint lies at the head or behind the first unit, never inside an escape. */
  lemma TaintedStep(line: string, n: nat)
    requires line != "" && n == if StartsEscape(line) then 2 else 1
    ensures Tainted(line) <==> TaintedHead(line) || Tainted(line[n..])
  {
    ContainsStep(line, n, PLACEHOLDER);
    ContainsStep(line, n, LONG_START);
    ContainsStep(line, n, SHORT_START);
  }

  lemma ContainsStep(line: string, n: nat, sub: string)
    requires line != "" && n == (if StartsEscape(line) then 2 else 1) && sub != "" && sub[0] == '$'
    ensures Contains(line, sub) <==> sub <= line || Contains(line[n..], sub)
  {
    assert line == line[..n] + line[n..];
    if sub <= line { assert At(line, 0, sub); }
    ContainsConcat(line[..n], line[n..], sub);
    if Contains(line, sub) {
      var i :| 0 <= i <= |line| && At(line, i, sub);
      AtChar(line, i, sub, 0);
      AtConcat(line[..n], line[n..], i, sub);
    }
  }

  // ---- Bad lines split wrongly ------------------------------------------------------------------------------

  /** The first difference between the fields: a comma where the documented field has a dollar sign. */
  ghost predicate PartAt(a: seq<string>, b: seq<string>, k: nat, m: nat) {
    && k < |a| && k < |b| && a[..k] == b[..k]
    && m < |a[k]| && m < |b[k]| && a[k][..m] == b[k][..m] && a[k][m] == ',' && b[k][m] == '$'
  }

  lemma PrependParts(c: char, a: seq<string>, b: seq<string>, k: nat, m: nat)
    requires a != [] && b != [] && PartAt(a, b, k, m)
    ensures PartAt(Prepend(c, a), Prepend(c, b), k, if k == 0 then m + 1 else m)
  {
    var x, y := Prepend(c, a), Prepend(c, b);
    if k == 0 {
      assert x[0][..m + 1] == [c] + a[0][..m] && y[0][..m + 1] == [c] + b[0][..m];
    } else {
      assert a[..k][0] == a[0] && b[..k][0] == b[0];
      assert forall i | 0 < i < k :: a[..k][i] == b[..k][i];
      assert x[..k] == y[..k];
    }
  }

  lemma CommaParts(a: seq<string>, b: seq<string>, k: nat, m: nat)
    requires PartAt(a, b, k, m)
    ensures PartAt([""] + a, [""] + b, k + 1, m)
  {
    assert ([""] + a)[..k + 1] == [""] + a[..k] && ([""] + b)[..k + 1] == [""] + b[..k];
  }

  lemma {:induction false} BadLineParts(line: string) returns (k: nat, m: nat)
    requires Bad(line)
    ensures PartAt(ArgFields(line), Fields(line), k, m)
    decreases |line|
  {
    hide ArgFields, BadHead, Mark;
    ArgFieldsCases(line);
    BadHeadDollar(line);
    if StartsEscape(line) {
      k, m := BadLineParts(line[2..]);
      PrependParts(',', ArgFields(line[2..]), Fields(line[2..]), k, m);
      m := if k == 0 then m + 1 else m;
    } else if BadHead(line) {
      k, m := 0, 0;
      assert ArgFields(line)[..0] == Fields(line)[..0];
    } else {
      k, m := BadLineParts(line[1..]);
      if line[0] == ',' {
        CommaParts(ArgFields(line[1..]), Fields(line[1..]), k, m);
        k := k + 1;
      } else {
        PrependParts(line[0], ArgFields(line[1..]), Fields(line[1..]), k, m);
        m := if k == 0 then m + 1 else m;
      }
    }
  }

  lemma BadHeadDollar(line: string)
    ensures BadHead(line) ==> line[0] == '$'
  {
    hide Mark;
    MarkCases(line);
    PlaceholderFacts();
  }

  // ---- Trimming does not hide the difference ----------------------------------------------------------------

  lemma {:induction false} TrimLeftKeeps(a: string, b: string, m: nat) returns (n: nat)
    requires m < |a| && m < |b| && a[..m] == b[..m] && !IsSpace(a[m]) && !IsSpace(b[m])
    ensures n < |TrimLeft(a)| && n < |TrimLeft(b)| && TrimLeft(a)[n] == a[m] && TrimLeft(b)[n] == b[m]
    decreases m
  {
    if m > 0 {
      assert a[0] == a[..m][0] && b[0] == b[..m][0];
    }
    if IsSpace(a[0]) {
      assert a[1..][..m - 1] == a[..m][1..] && b[1..][..m - 1] == b[..m][1..];
      n := TrimLeftKeeps(a[1..], b[1..], m - 1);
    } else {
      n := m;
    }
  }

  lemma {:induction false} TrimEndKeeps(s: string, n: nat)
    requires n < |s| && !IsSpace(s[n])
    ensures n < |TrimEnd(s)| && TrimEnd(s)[n] == s[n]
    decreases |s|
  {
    if IsSpace(s[|s| - 1]) { TrimEndKeeps(s[..|s| - 1], n); }
  }

  lemma TrimmedDiffer(a: string, b: string, m: nat)
    requires m < |a| && m < |b| && a[..m] == b[..m] && a[m] == ',' && b[m] == '$'
    ensures TrimSpace(a) != TrimSpace(b) && TrimSpace(a) != "" && TrimSpace(b) != ""
  {
    var n := TrimLeftKeeps(a, b, m);
    TrimEndKeeps(TrimLeft(a), n);
    TrimEndKeeps(TrimLeft(b), n);
  }

  lemma NonBlankAt(fields: seq<string>, k: nat)
    requires k < |fields| && TrimSpace(fields[k]) != ""
    ensures var i := |NonBlank(fields[..k])|; i < |NonBlank(fields)| && NonBlank(fields)[i] == TrimSpace(fields[k])
  {
    hide TrimSpace;
    assert fields == fields[..k] + [fields[k]] + fields[k + 1..];
    NonBlankConcat(fields[..k] + [fields[k]], fields[k + 1..]);
    NonBlankConcat(fields[..k], [fields[k]]);
    assert [fields[k]][..0] == [];
    assert NonBlank([fields[k]]) == [TrimSpace(fields[k])];
  }

  /** splitArgs returns the documented list exactly on the lines that are not tainted. */
  lemma SplitArgsCorrectIff(line: string)
    ensures ArgList(line) == NonBlank(Fields(line)) <==> !Tainted(line)
  {
    hide ArgFields, Fields, Bad, Tainted, NonBlank, TrimSpace;
    BadIffTainted(line);
    if Bad(line) {
      var k, m := BadLineParts(line);
      var a, b := ArgFields(line), Fields(line);
      TrimmedDiffer(a[k], b[k], m);
      NonBlankAt(a, k);
      NonBlankAt(b, k);
    } else {
      GoodLine(line);
    }
  }

  /** In particular a line without a dollar sign is always split as documented. */
  lemma NoDollarIsFine(line: string)
    requires '$' !in line
    ensures ArgList(line) == NonBlank(Fields(line))
  {
    hide ArgList, NonBlank, Fields;
    SplitArgsCorrectIff(line);
    NoDollar(line, PLACEHOLDER);
    NoDollar(line, LONG_START);
    NoDollar(line, SHORT_START);
  }

  lemma NoDollar(line: string, sub: string)
    requires '$' !in line && sub != "" && sub[0] == '$'
    ensures !Contains(line, sub)
  {
  }

  lemma {:induction false} OneField(line: string)
    requires ',' !in line && '\\' !in line
    ensures Fields(line) == [line]
  {
    if line != "" {
      OneField(line[1..]);
      assert line == [line[0]] + line[1..];
    }
  }

  lemma Untrimmed(s: string)
    requires s != "" && !IsSpace(s[0]) && !IsSpace(s[|s| - 1])
    ensures NonBlank([s]) == [s]
  {
    assert [s][..0] == [];
  }

  /** A line without commas and backslashes is one field, in which the code only looks for its placeholder. */
  lemma OneArgField(line: string)
    requires ',' !in line && '\\' !in line
    ensures ArgFields(line) == [ReplaceAll(line, PLACEHOLDER, ",")]
  {
    hide ReplaceAll, Split;
    assert line[..|line|] == line && line[|line|..] == "" && line + "" == line;
    MarkPrefix(line, |line|);
    MarkCases("");
    SplitPrefix(line, "");
    SplitEmpty();
  }

  lemma ReplaceWhole(sub: string, mask: string)
    requires sub != ""
    ensures ReplaceAll(sub, sub, mask) == mask
  {
    hide ReplaceAll;
    assert sub[|sub|..] == "" && mask + "" == mask;
    ReplaceAtHead(sub, sub, mask);
    ReplaceEmpty(sub, mask);
  }

  /** The placeholder itself is a line that is not split as documented: its one field comes out as a comma. */
  lemma PlaceholderIsMissplit()
    ensures ArgList(PLACEHOLDER) == [","] && NonBlank(Fields(PLACEHOLDER)) == [PLACEHOLDER]
  {
    hide ReplaceAll, ArgFields, Fields, NonBlank;
    PlaceholderFacts();
    OneField(PLACEHOLDER);
    OneArgField(PLACEHOLDER);
    ReplaceWhole(PLACEHOLDER, ",");
    Untrimmed(PLACEHOLDER);
    Untrimmed(",");
  }

  // ---- All values of an input ------------------------------------------------------------------------------------

  /** The documented values of lines: of each in order, its fields between unescaped commas, trimmed, without the empty
      ones. */
  function Documented(lines: seq<string>): seq<string> {
    if lines == [] then [] else Documented(lines[..|lines| - 1]) + NonBlank(Fields(lines[|lines| - 1]))
  }

  lemma {:induction false} LineArgsDocumented(lines: seq<string>)
    requires forall line | line in lines :: !Tainted(line)
    ensures LineArgs(lines) == Documented(lines)
    ensures forall i | 0 <= i < |Documented(lines)| :: Documented(lines)[i] != "" && Trimmed(Documented(lines)[i])
    decreases |lines|
  {
    hide Tainted, ArgList, NonBlank, Fields, Trimmed;
    if lines != [] {
      var n := |lines| - 1;
      assert forall line | line in lines[..n] :: line in lines;
      LineArgsDocumented(lines[..n]);
      assert lines[n] in lines;
      SplitArgsCorrectIff(lines[n]);
      NonBlankTrimmed(Fields(lines[n]));
    }
  }

  /** An input none of whose lines is tainted has exactly the documented values, line by line. */
  lemma ValuesAsDocumented(v: string)
    requires forall line | line in Split(v, '\n') :: !Tainted(line)
    ensures Values(v) == Documented(Split(v, '\n'))
  {
    hide Tainted, ArgList, NonBlank, Fields, Trimmed, Split, LineArgs, Documented, TrimNewlines;
    TrimNewlinesHarmless(v);
    LineArgsDocumented(Split(v, '\n'));
    NonBlankAgain(Documented(Split(v, '\n')));
  }
}
