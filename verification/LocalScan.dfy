/** Why scanning chunks finds what scanning the whole document would: for a detector that looks at single
    lines and at pairs of lines within a window, the overlap of the chunks leaves nothing out. */
module LocalScan {
  import opened Pending
  import opened TextLines
  import opened Chunks
  import opened LineRanges

  /** A finding on one line, or on two lines a given distance apart. */
  datatype LocalRules = LocalRules(one: string -> seq<Finding>, two: (string, string, nat) -> seq<Finding>)

  ghost predicate FoundOnLine(rules: LocalRules, lines: seq<string>, f: Finding) {
    exists i | 0 <= i < |lines| :: f in rules.one(lines[i])
  }

  /** f is found on lines i and j. */
  ghost predicate PairFinds(rules: LocalRules, lines: seq<string>, window: nat, i: int, j: int, f: Finding) {
    0 <= i < j < |lines| && j - i <= window && f in rules.two(lines[i], lines[j], j - i)
  }

  ghost predicate FoundOnPair(rules: LocalRules, lines: seq<string>, window: nat, f: Finding) {
    exists i, j :: PairFinds(rules, lines, window, i, j, f)
  }

  /** The detector reports exactly what its rules find on lines and on pairs of lines within the window. */
  ghost predicate Local(detect: string -> seq<Finding>, rules: LocalRules, window: nat) {
    forall text, f :: f in detect(text) <==>
      FoundOnLine(rules, Lines(text), f) || FoundOnPair(rules, Lines(text), window, f)
  }

  lemma DetectIff(detect: string -> seq<Finding>, rules: LocalRules, window: nat, text: string, f: Finding)
    requires Local(detect, rules, window)
    ensures f in detect(text) <==> FoundOnLine(rules, Lines(text), f) || FoundOnPair(rules, Lines(text), window, f)
  {
  }

  /** f is found in the text of one of the ranges of lines. */
  ghost predicate FoundInRanges(detect: string -> seq<Finding>, text: string, ranges: seq<LineSpan>, f: Finding) {
    exists r | r in ranges :: r.start <= r.end && f in detect(RangeText(text, r))
  }

  function RangeText(text: string, r: LineSpan): string
    requires r.start <= r.end
  {
    OffsetMonotone(text, r.start, r.end);
    text[LineOffset(text, r.start)..LineOffset(text, r.end)]
  }

  // ---- Ranges that leave no pair out ----------------------------------------------------------------------

  ghost predicate Holds(r: LineSpan, i: nat, j: nat) {
    r.start <= i <= j < r.end
  }

  ghost predicate Together(ranges: seq<LineSpan>, i: nat, j: nat) {
    exists r | r in ranges :: Holds(r, i, j)
  }

  /** Any two of the first n lines at most window apart lie in a common range. */
  ghost predicate KeepsPairs(ranges: seq<LineSpan>, n: nat, window: nat) {
    forall i, j | 0 <= i <= j < n && j - i <= window :: Together(ranges, i, j)
  }

  /** Each range reaches back at least window lines behind the end of the one before it. */
  ghost predicate ReachesBack(ranges: seq<LineSpan>, window: nat) {
    forall k | 0 < k < |ranges| :: ranges[k].start + window <= ranges[k - 1].end || ranges[k].start == 0
  }

  lemma {:induction false} PairInRange(ranges: seq<LineSpan>, n: nat, window: nat, i: nat, j: nat, k: nat)
    requires Gapless(ranges, n) && ReachesBack(ranges, window) && k < |ranges|
    requires i <= j < ranges[k].end && j - i <= window
    ensures Together(ranges, i, j)
    decreases k
  {
    if k > 0 && j < ranges[k - 1].end {
      PairInRange(ranges, n, window, i, j, k - 1);
    } else {
      assert ranges[k] in ranges && Holds(ranges[k], i, j);
    }
  }

  lemma GaplessKeepsPairs(ranges: seq<LineSpan>, n: nat, window: nat)
    requires Gapless(ranges, n) && ReachesBack(ranges, window)
    ensures KeepsPairs(ranges, n, window)
  {
    forall i, j | 0 <= i <= j < n && j - i <= window ensures Together(ranges, i, j) {
      PairInRange(ranges, n, window, i, j, |ranges| - 1);
    }
  }

  // ---- Chunks and the whole text ------------------------------------------------------------------------------

  /** A chunk finds only what the whole text holds. */
  lemma RangeFindsPart(
      detect: string -> seq<Finding>, rules: LocalRules, window: nat, text: string, r: LineSpan, f: Finding)
    requires Local(detect, rules, window) && r.start <= r.end && f in detect(RangeText(text, r))
    ensures f in detect(text)
  {
    hide Lines, LineOffset, Local;
    LinesOfRange(text, r.start, r.end);
    DetectIff(detect, rules, window, RangeText(text, r), f);
    DetectIff(detect, rules, window, text, f);
    var all, part := Lines(text), Lines(RangeText(text, r));
    var base := Min(r.start, |all|);
    assert forall i | 0 <= i < |part| :: part[i] == all[base + i];
    if FoundOnLine(rules, part, f) {
      var i :| 0 <= i < |part| && f in rules.one(part[i]);
      assert f in rules.one(all[base + i]);
    } else {
      var i, j :| PairFinds(rules, part, window, i, j, f);
      assert PairFinds(rules, all, window, base + i, base + j, f);
    }
  }

  /** A range that holds both lines of a pair finds what the pair gives. */
  lemma RangeFindsPair(
      detect: string -> seq<Finding>, rules: LocalRules, window: nat,
      text: string, r: LineSpan, i: nat, j: nat, f: Finding)
    requires Local(detect, rules, window) && Holds(r, i, j) && j < |Lines(text)|
    requires (i == j && f in rules.one(Lines(text)[i])) || PairFinds(rules, Lines(text), window, i, j, f)
    ensures f in detect(RangeText(text, r))
  {
    hide Lines, LineOffset, Local;
    LinesOfRange(text, r.start, r.end);
    DetectIff(detect, rules, window, RangeText(text, r), f);
    var all, part := Lines(text), Lines(RangeText(text, r));
    assert part[i - r.start] == all[i] && part[j - r.start] == all[j];
    if PairFinds(rules, all, window, i, j, f) {
      assert PairFinds(rules, part, window, i - r.start, j - r.start, f);
    }
  }

  /** For ranges that keep every pair within the window, scanning the ranges finds exactly what scanning the
      whole text finds. */
  lemma RangesFindWhole(
      detect: string -> seq<Finding>, rules: LocalRules, window: nat, text: string, ranges: seq<LineSpan>, f: Finding)
    requires Local(detect, rules, window) && KeepsPairs(ranges, |Lines(text)|, window)
    ensures FoundInRanges(detect, text, ranges, f) <==> f in detect(text)
  {
    hide Lines, LineOffset, RangeText, Local;
    DetectIff(detect, rules, window, text, f);
    if FoundInRanges(detect, text, ranges, f) {
      var r :| r in ranges && r.start <= r.end && f in detect(RangeText(text, r));
      RangeFindsPart(detect, rules, window, text, r, f);
    }
    if f in detect(text) {
      var lines := Lines(text);
      var i, j := Witness(rules, lines, window, f);
      assert Together(ranges, i, j);
      var r :| r in ranges && Holds(r, i, j);
      RangeFindsPair(detect, rules, window, text, r, i, j, f);
    }
  }

  lemma Witness(rules: LocalRules, lines: seq<string>, window: nat, f: Finding) returns (i: nat, j: nat)
    requires FoundOnLine(rules, lines, f) || FoundOnPair(rules, lines, window, f)
    ensures i <= j < |lines| && j - i <= window
    ensures (i == j && f in rules.one(lines[i])) || PairFinds(rules, lines, window, i, j, f)
  {
    if FoundOnLine(rules, lines, f) {
      i :| 0 <= i < |lines| && f in rules.one(lines[i]);
      j := i;
    } else {
      var a, b :| PairFinds(rules, lines, window, a, b, f);
      i, j := a, b;
    }
  }

  // ---- The cut keeps pairs --------------------------------------------------------------------------------------

  /** Any window consecutive lines fit in a chunk together. */
  ghost predicate Fits(text: string, size: nat, window: nat) {
    forall a: nat :: LineOffset(text, a + window) - LineOffset(text, a) <= size
  }

  /** Going back over one line takes off one line feed. */
  lemma LineBack(text: string, start: nat)
    requires 0 < start <= |text| && LineStartAt(text, start)
    ensures var s := LineStart(text, start - 1);
      LineStartAt(text, s) && Newlines(text[..s]) + 1 == Newlines(text[..start])
  {
    var s := LineStart(text, start - 1);
    NewlinesSplit(text, s, start);
    var line := text[s..start];
    assert line[|line| - 1] == '\n';
    OneNewline(line);
  }

  /** A chunk goes back over window lines if overlap allows it and they fit, and over one line in any case. */
  lemma {:induction false} BackUpLines(text: string, size: nat, pos: nat, start: nat, k: nat, window: nat)
    requires start <= pos <= |text| && LineStartAt(text, pos) && LineStartAt(text, start)
    requires window <= 1 || Fits(text, size, window)
    requires Newlines(text[..start]) <= Newlines(text[..pos])
    requires Newlines(text[..pos]) - Newlines(text[..start]) + k >= window
    ensures var s := BackUp(text, size, pos, start, k);
      LineStartAt(text, s) && (Newlines(text[..s]) + window <= Newlines(text[..pos]) || s == 0)
    decreases k
  {
    hide LineStart, Newlines, LineOffset;
    var back := Newlines(text[..pos]) - Newlines(text[..start]);
    if k > 0 && start > 0 {
      LineBack(text, start);
      var lineStart := LineStart(text, start - 1);
      if back < window && start != pos {
        WindowFits(text, size, pos, start, lineStart, window, back);
      }
      if !(pos - lineStart > size && start != pos) {
        BackUpLines(text, size, pos, lineStart, k - 1, window);
      }
    }
  }

  lemma WindowFits(text: string, size: nat, pos: nat, start: nat, lineStart: nat, window: nat, back: nat)
    requires lineStart < start < pos <= |text| && LineStartAt(text, pos) && LineStartAt(text, lineStart)
    requires LineStartAt(text, start) && Newlines(text[..lineStart]) + 1 == Newlines(text[..start])
    requires back == Newlines(text[..pos]) - Newlines(text[..start]) && back < window
    requires window <= 1 || Fits(text, size, window)
    ensures pos - lineStart <= size
  {
    hide Newlines, LineOffset;
    NewlinesSplit(text, start, pos);
    NewlinesPositiveBetween(text, start, pos);
    var a := Newlines(text[..lineStart]);
    OffsetOfLine(text, lineStart);
    OffsetOfLine(text, pos);
    assert Newlines(text[..pos]) == a + back + 1;
    OffsetMonotone(text, a + back + 1, a + window);
  }

  /** Chunk by chunk: the next one reaches back over the window. */
  lemma {:induction false} CutReachesBack(
      text: string, size: nat, overlap: nat, start: nat, pos: nat, window: nat, k: nat)
    requires size >= 1 && start <= pos <= |text| && Boundary(text, pos) && LineStartAt(text, start)
    requires window <= overlap && (window <= 1 || Fits(text, size, window))
    requires 0 < k < |CutFrom(text, size, overlap, start, pos)|
    ensures var c, d := CutFrom(text, size, overlap, start, pos)[k - 1], CutFrom(text, size, overlap, start, pos)[k];
      && d.start <= |text| && c.end < |text|
      && (Newlines(text[..d.start]) + window <= Newlines(text[..c.end]) || d.start == 0)
    decreases |text| - pos
  {
    hide CutFrom, FreshEnd, BackUp, Newlines;
    CutFromStep(text, size, overlap, start, pos);
    var end := FreshEnd(text, size, pos, pos);
    var next := BackUp(text, size, end, end, overlap);
    CutFromStep(text, size, overlap, next, end);
    BackUpLines(text, size, end, end, overlap, window);
    if k > 1 {
      CutReachesBack(text, size, overlap, next, end, window, k - 1);
    }
  }

  lemma CutKeepsPairs(text: string, size: nat, overlap: nat, window: nat)
    requires size >= 1 && window <= overlap && (window <= 1 || Fits(text, size, window))
    ensures Ordered(Cut(text, size, overlap), |text|)
    ensures KeepsPairs(LinesOfSpans(text, Cut(text, size, overlap)), EndLine(text, |text|), window)
  {
    hide Newlines, CutFrom;
    CutRanges(text, size, overlap);
    var chunks := Cut(text, size, overlap);
    var ranges := LinesOfSpans(text, chunks);
    forall k | 0 < k < |ranges| ensures ranges[k].start + window <= ranges[k - 1].end || ranges[k].start == 0 {
      CutReachesBack(text, size, overlap, 0, 0, window, k);
      assert text[..0] == "";
      NoNewlines();
    }
    GaplessKeepsPairs(ranges, EndLine(text, |text|), window);
  }

  /** The chunked scan finds exactly what a scan of the whole text finds, on the text that was cut and on every
      later version with as many lines that reuses the line ranges. */
  lemma ChunkedFindsWhole(
      detect: string -> seq<Finding>, rules: LocalRules, window: nat,
      text: string, size: nat, overlap: nat, version: string, f: Finding)
    requires Local(detect, rules, window) && size >= 1 && window <= overlap && (window <= 1 || Fits(text, size, window))
    requires version == text || (Newlines(version) == Newlines(text) && (!EndsLine(text) || EndsLine(version)))
    ensures Ordered(Cut(text, size, overlap), |text|)
    ensures FoundInRanges(detect, version, LinesOfSpans(text, Cut(text, size, overlap)), f) <==> f in detect(version)
  {
    hide Newlines, Cut, Lines, Local, Fits;
    CutKeepsPairs(text, size, overlap, window);
    assert text[..|text|] == text;
    LineCount(version);
    var ranges := LinesOfSpans(text, Cut(text, size, overlap));
    assert |Lines(version)| <= EndLine(text, |text|);
    assert KeepsPairs(ranges, |Lines(version)|, window);
    RangesFindWhole(detect, rules, window, version, ranges, f);
  }
}
