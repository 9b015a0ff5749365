/** From the leaves of a document to the end of a run: what a detector of single lines is made to report is found in
    every pass, and is gone in the end or given up. */
module DetectedRuns {
  import opened Options
  import opened Text
  import opened Escapes
  import opened StringBody
  import opened Pending
  import opened Leaf
  import opened Tree
  import opened Redact
  import opened Convergence
  import opened TextLines
  import opened LocalScan
  import opened DocumentScanner
  import opened ScannerRuns
  import opened Rendering
  import opened RedactionRuns
  import opened Positions
  import opened RenderedLeaves

  // ---- Leaves on the lines a detector sees ---------------------------------------------------------------------

  lemma {:induction false} FirstEndOnly(line: string)
    requires line != "" && forall i | 0 <= i < |line| - 1 :: line[i] != '\n'
    ensures FirstEnd(line) == |line|
  {
    if |line| > 1 { FirstEndOnly(line[1..]); }
  }

  /** A text with a line feed at its end only is one line. */
  lemma LoneLine(line: string)
    requires line != "" && forall i | 0 <= i < |line| - 1 :: line[i] != '\n'
    ensures TextLines.Lines(line) == [line]
  {
    hide FirstEnd;
    FirstEndOnly(line);
    assert line[..|line|] == line && line[|line|..] == "";
  }

  /** A text on a line of its own lies on one of the lines. */
  lemma OnLineIsInLines(text: string, inner: string)
    requires OnLine(text, inner) && '\n' !in inner
    ensures exists k | 0 <= k < |TextLines.Lines(text)| :: inner <= TextLines.Lines(text)[k]
  {
    hide TextLines.Lines;
    var i: nat :| LineAt(text, i, inner);
    var rest := text[i + |inner|..];
    var n := if "\n" <= rest then 1 else 2;
    var e := i + |inner| + n;
    var front, line, behind := text[..i], text[i..e], text[e..];
    assert line == inner + rest[..n] by { assert text[i..i + |inner|] == inner; }
    LoneLine(line);
    assert text == front + (line + behind);
    TextLines.LinesConcat(line, behind);
    TextLines.LinesConcat(front, line + behind);
    var k := |TextLines.Lines(front)|;
    assert TextLines.Lines(text)[k] == line;
  }

  lemma {:induction false} DeeperIsBlank(indent: string, n: nat)
    requires '\n' !in indent
    ensures '\n' !in Deeper(indent, n)
    decreases n
  {
    if n > 0 { DeeperIsBlank(indent + "  ", n - 1); }
  }

  lemma LeadOnOneLine(step: Edge)
    ensures '\n' !in Lead(step)
  {
    if step.Key? { EncodedOnOneLine(step.key); }
  }

  /** What a leaf of an object holds is on a line of its rendering. */
  lemma HeldOnSomeLine(v: Value, t: string)
    requires v.Obj? && !Absent(v, t)
    ensures exists k | 0 <= k < |TextLines.Lines(Render(v, ""))| :: Contains(TextLines.Lines(Render(v, ""))[k], t)
  {
    hide TextLines.Lines, Render, Encode, Contains, Absent, Lead;
    AbsentIff(v, t);
    var steps :| HeldAt(v, steps, t);
    var code := Encode(LeafAt(v, steps).value);
    var lead := Deeper("", |steps|) + Lead(steps[|steps| - 1]);
    var inner := lead + ("\"" + code + "\"");
    LeafOnItsLine(v, "", steps);
    EncodedOnOneLine(LeafAt(v, steps).value);
    DeeperIsBlank("", |steps|);
    LeadOnOneLine(steps[|steps| - 1]);
    OnLineIsInLines(Render(v, ""), inner);
    ContainsConcat("\"", code, t);
    ContainsConcat("\"" + code, "\"", t);
    ContainsConcat(lead, "\"" + code + "\"", t);
    var k :| 0 <= k < |TextLines.Lines(Render(v, ""))| && inner <= TextLines.Lines(Render(v, ""))[k];
    var line := TextLines.Lines(Render(v, ""))[k];
    assert line == inner + line[|inner|..];
    ContainsConcat(inner, line[|inner|..], t);
  }

  // ---- Every pass ------------------------------------------------------------------------------------------------

  /** The rules report f on every line that holds its secret. */
  ghost predicate FindsEverywhere(rules: LocalRules, f: Finding) {
    forall line | Contains(line, f.secret) :: f in rules.one(line)
  }

  lemma HeldIsDetected(
      base: Base, detect: string -> seq<Finding>, rules: LocalRules, window: nat, v: Value, f: Finding)
    requires Local(detect, rules, window) && (forall text :: detect(text) == Detect(base, text))
    requires FindsEverywhere(rules, f) && v.Obj? && !Absent(v, f.secret)
    ensures f in Detect(base, Render(v, ""))
  {
    hide TextLines.Lines, Render, Contains, Absent, Local, Detect;
    var lines := TextLines.Lines(Render(v, ""));
    HeldOnSomeLine(v, f.secret);
    var k :| 0 <= k < |lines| && Contains(lines[k], f.secret);
    assert FoundOnLine(rules, lines, f);
    DetectIff(detect, rules, window, Render(v, ""), f);
  }

  lemma VersionIsObject(
      cfg: Config, render: Value -> string, scan: Redact.Scanner, root: Value, v: Value)
    requires root.Obj? && v in Versions(cfg, render, scan, Start(root), 1)
    ensures v.Obj?
  {
    hide Versions;
    EveryVersionIsFramed(cfg, render, scan, Start(root), 1, v);
  }

  /** In every pass of every run: a scan that succeeds reports what the rules find on single lines for every leaf that
      holds it, whatever chunk the leaf lies in and whatever was remembered. */
  lemma EveryPassFindsLeaves(
      base: Base, detect: string -> seq<Finding>, rules: LocalRules, window: nat,
      cfg: Config, render: Value -> string, scan: Redact.Scanner, root: Value, calls: seq<Call>, k: nat, f: Finding)
    requires base.size >= 1 && k < |calls| && CollisionFree(base, SeenTexts(base, calls))
    requires Local(detect, rules, window) && forall text :: detect(text) == Detect(base, text)
    requires root.Obj? && Renders(render) && CallsOf(cfg, render, scan, root, calls)
    requires window <= base.overlap && (window <= 1 || Fits(render(root), base.size, window))
    requires FindsEverywhere(rules, f)
    requires !Absent(Versions(cfg, render, scan, Start(root), 1)[k], f.secret)
    ensures var result := Step(base, MemoryAfter(base, calls[..k]), calls[k]).result;
      result.Some? ==> f in result.value
  {
    hide Versions, Local, Detect, CollisionFree, SeenTexts, Fits, Step, MemoryAfter, Absent, FindsEverywhere, Render;
    var v := Versions(cfg, render, scan, Start(root), 1)[k];
    VersionIsObject(cfg, render, scan, root, v);
    HeldIsDetected(base, detect, rules, window, v, f);
    EveryPassFindsWhole(base, detect, rules, window, cfg, render, scan, root, calls, k, f);
  }

  // ---- The end of a run -------------------------------------------------------------------------------------

  lemma NotWanted(cfg: Config, findings: seq<Finding>, skip: set<string>, f: Finding)
    requires PendingOf(cfg, findings, skip) == [] && f in findings
    ensures var secret := TrimPartialEscape(f.secret); secret == "" || secret in skip || cfg.isPlaceholder(secret)
  {
    hide PendingList;
    PendingOfIs(cfg, findings, skip);
    PendingWanted(findings, skip, cfg.isPlaceholder);
    var list := PendingOf(cfg, findings, skip);
    assert Wanted(f, skip, cfg.isPlaceholder) ==> TrimPartialEscape(f.secret) in Secrets(list);
  }

  /** End to end, from the leaves through the rendering, the chunks, the memory of the scanner and the loop: when a
      run succeeds, a secret that the rules report on every line that holds it is in no leaf of the final document,
      unless it was given up, is nothing but an open escape, or is taken for a placeholder. */
  lemma DetectedIsGone(
      base: Base, detect: string -> seq<Finding>, rules: LocalRules, window: nat,
      cfg: Config, render: Value -> string, scan: Redact.Scanner, root: Value, calls: seq<Call>, f: Finding)
    requires AnsweredBy(base, cfg, render, scan, root, calls) && CollisionFree(base, SeenTexts(base, calls))
    requires Local(detect, rules, window) && forall text :: detect(text) == Detect(base, text)
    requires root.Obj? && Renders(render) && Passes(cfg, render, scan, Start(root), 1).Done?
    requires window <= base.overlap && (window <= 1 || Fits(render(root), base.size, window))
    requires FindsEverywhere(rules, f)
    ensures var end, secret := Passes(cfg, render, scan, Start(root), 1).end, TrimPartialEscape(f.secret);
      Absent(end.root, f.secret) || secret in end.skip || secret == "" || cfg.isPlaceholder(secret)
  {
    hide Local, Detect, CollisionFree, SeenTexts, Fits, Step, MemoryAfter, Absent, FindsEverywhere, Render, Passes,
         Versions, AnsweredBy, PendingOf;
    var end := Passes(cfg, render, scan, Start(root), 1).end;
    if !Absent(end.root, f.secret) {
      LastVersion(cfg, render, scan, Start(root), 1);
      VersionIsObject(cfg, render, scan, root, end.root);
      HeldIsDetected(base, detect, rules, window, end.root, f);
      LastScanFindsWhole(base, detect, rules, window, cfg, render, scan, root, calls, f);
      SuccessIsClean(cfg, render, scan, Start(root), 1);
      NotWanted(cfg, scan(end.report.passes, render(end.root)).value, end.skip, f);
    }
  }
}
