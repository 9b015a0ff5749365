/** What the scanner of successive versions finds, over whole runs: exactly what a detector would find in each
    version as a whole. */
module ScannerRuns {
  import opened Options
  import opened Pending
  import opened TextLines
  import opened Chunks
  import opened LineRanges
  import opened LocalScan
  import opened DocumentScanner

  /** The remembered ranges are those of a cut of the given text. */
  ghost predicate CutOf(base: Base, m: Memory, text: string) {
    && base.size >= 1 && Ordered(Cut(text, base.size, base.overlap), |text|)
    && m.chunks == Some(LinesOfSpans(text, Cut(text, base.size, base.overlap)))
    && m.lines == Newlines(text) + 1
  }

  /** Call k cuts its text. */
  ghost predicate CutsAt(base: Base, calls: seq<Call>, k: nat)
    requires base.size >= 1 && k < |calls|
  {
    !calls[k].cancelled && !Reuses(MemoryAfter(base, calls[..k]), calls[k].text)
  }

  /** The last of the first n calls that cut its text, or the first call if there is none. */
  ghost function LastCut(base: Base, calls: seq<Call>, n: nat): (j: nat)
    requires base.size >= 1 && n <= |calls|
    ensures j < n || j == 0
  {
    if n == 0 then 0 else if CutsAt(base, calls, n - 1) then n - 1 else LastCut(base, calls, n - 1)
  }

  /** After any calls, the remembered ranges are those of a cut of the text of the last call that cut. */
  lemma {:induction false} RangesComeFromACut(base: Base, calls: seq<Call>, n: nat)
    requires base.size >= 1 && n <= |calls|
    ensures var m := MemoryAfter(base, calls[..n]);
      m.chunks.Some? ==> n > 0 && CutOf(base, m, calls[LastCut(base, calls, n)].text)
    decreases n
  {
    hide Cut, Newlines, LinesOfSpans, Answers, Remember, Stale, Texts, Concat;
    if n > 0 {
      var k := n - 1;
      assert calls[..n][..k] == calls[..k] && calls[..n][k] == calls[k];
      RangesComeFromACut(base, calls, k);
      CutRanges(calls[k].text, base.size, base.overlap);
    }
  }

  /** The chunks of a version are the texts of the line ranges in use for it. */
  lemma ChunksAreRanges(base: Base, m: Memory, text: string)
    requires Usable(base, m)
    ensures InText(Cut(text, base.size, base.overlap), text)
    ensures var ranges := Located(base, m, text).chunks.value;
      OrderedRanges(ranges) && ChunkTexts(base, m, text) ==
      seq(|ranges|, i requires 0 <= i < |ranges| => RangeText(text, ranges[i]))
  {
    hide Cut, Newlines, LineOffset, ToLines;
    SpansInText(base, m, text);
    CutRoundTrip(text, base.size, base.overlap);
    CutRanges(text, base.size, base.overlap);
    var ranges := Located(base, m, text).chunks.value;
    var spans := SpansOf(base, m, text);
    assert spans == BytesOfRanges(text, ranges);
    var texts := ChunkTexts(base, m, text);
    forall i | 0 <= i < |ranges| ensures texts[i] == RangeText(text, ranges[i]) {
      assert spans[i] == ToBytes(text, ranges[i]);
    }
  }

  lemma {:induction false} FromScratchFinds(base: Base, texts: seq<string>, f: Finding)
    ensures f in FromScratch(base, texts) <==> exists i | 0 <= i < |texts| :: f in Detect(base, texts[i])
    decreases |texts|
  {
    hide Detect;
    if texts != [] {
      var n := |texts| - 1;
      FromScratchFinds(base, texts[..n], f);
      if i :| 0 <= i < |texts| && f in Detect(base, texts[i]) && i < n {
        assert texts[..n][i] == texts[i];
      }
    }
  }

  /** A text can be cut so that every pair of lines within the window shares a chunk. */
  ghost predicate Cuttable(base: Base, window: nat, text: string) {
    window <= base.overlap && (window <= 1 || Fits(text, base.size, window))
  }

  /** The call whose cut is in use for call k. */
  ghost function CutInUse(base: Base, calls: seq<Call>, k: nat): (j: nat)
    requires base.size >= 1 && k < |calls|
    ensures j <= k
  {
    if Reuses(MemoryAfter(base, calls[..k]), calls[k].text) then LastCut(base, calls, k) else k
  }

  /** The ranges in use for a version are those of a cut of it, or of an earlier version with as many lines. */
  lemma Origin(base: Base, calls: seq<Call>, k: nat)
    requires base.size >= 1 && k < |calls|
    ensures InText(Cut(calls[k].text, base.size, base.overlap), calls[k].text)
    ensures var text, cut := calls[k].text, calls[CutInUse(base, calls, k)].text;
      CutOf(base, Located(base, MemoryAfter(base, calls[..k]), text), cut) && Newlines(text) == Newlines(cut)
  {
    hide Cut, Newlines, LinesOfSpans, MemoryAfter, LastCut;
    CutRanges(calls[k].text, base.size, base.overlap);
    RangesComeFromACut(base, calls, k);
  }

  /** For a detector that is local within the window, over every run: when the text whose cut is in use can be cut for
      the window, and does not end in a line feed unless the version at hand does, a successful scan reports a finding
      exactly when the detector finds it in that whole version. */
  lemma EveryScanFindsWhole(
      base: Base, detect: string -> seq<Finding>, rules: LocalRules, window: nat, calls: seq<Call>, k: nat, f: Finding)
    requires base.size >= 1 && k < |calls| && CollisionFree(base, SeenTexts(base, calls))
    requires Local(detect, rules, window) && forall text :: detect(text) == Detect(base, text)
    requires var cut := calls[CutInUse(base, calls, k)].text;
      Cuttable(base, window, cut) && (!EndsLine(cut) || EndsLine(calls[k].text))
    ensures var result := Step(base, MemoryAfter(base, calls[..k]), calls[k]).result;
      result.Some? ==> (f in result.value <==> f in Detect(base, calls[k].text))
  {
    hide Step, Local, Detect, CollisionFree, SeenTexts, MemoryAfter, FromScratch, ChunkTexts, Cut, Fits, Newlines,
         Located, LinesOfSpans, RangeText, CutInUse;
    var m, text := MemoryAfter(base, calls[..k]), calls[k].text;
    EveryScanIsFromScratch(base, calls, k);
    Origin(base, calls, k);
    var ranges := Located(base, m, text).chunks.value;
    ChunksAreRanges(base, m, text);
    FromScratchFinds(base, ChunkTexts(base, m, text), f);
    RangesFind(base, detect, text, ranges, ChunkTexts(base, m, text), f);
    ChunkedFindsWhole(detect, rules, window, calls[CutInUse(base, calls, k)].text, base.size, base.overlap, text, f);
  }

  /** A new scanner reports nothing that the detector does not find in the whole text, however the text is cut. */
  lemma FirstScanFindsPart(
      base: Base, detect: string -> seq<Finding>, rules: LocalRules, window: nat, call: Call, f: Finding)
    requires base.size >= 1 && Local(detect, rules, window) && forall text :: detect(text) == Detect(base, text)
    ensures var result := Step(base, NOTHING, call).result;
      result.Some? && f in result.value ==> f in Detect(base, call.text)
  {
    hide Local, Detect, FromScratch, ChunkTexts, Cut, Newlines, LinesOfSpans, RangeText, Step;
    SpansInText(base, NOTHING, call.text);
    var text := call.text;
    var texts := ChunkTexts(base, NOTHING, text);
    FirstScanIsFromScratch(base, call);
    FromScratchFinds(base, texts, f);
    ChunksAreRanges(base, NOTHING, text);
    var ranges := Located(base, NOTHING, text).chunks.value;
    RangesFind(base, detect, text, ranges, texts, f);
    if FoundInRanges(detect, text, ranges, f) {
      var r :| r in ranges && r.start <= r.end && f in detect(RangeText(text, r));
      RangeFindsPart(detect, rules, window, text, r, f);
    }
  }

  lemma RangesFind(
      base: Base, detect: string -> seq<Finding>, text: string, ranges: seq<LineSpan>, texts: seq<string>, f: Finding)
    requires OrderedRanges(ranges) && forall x :: detect(x) == Detect(base, x)
    requires texts == seq(|ranges|, i requires 0 <= i < |ranges| => RangeText(text, ranges[i]))
    ensures FoundInRanges(detect, text, ranges, f) <==> exists i | 0 <= i < |texts| :: f in Detect(base, texts[i])
  {
    hide Detect, RangeText;
    if FoundInRanges(detect, text, ranges, f) {
      var r :| r in ranges && r.start <= r.end && f in detect(RangeText(text, r));
      var i :| 0 <= i < |ranges| && ranges[i] == r;
      assert texts[i] == RangeText(text, r);
    }
    if i :| 0 <= i < |texts| && f in Detect(base, texts[i]) {
      assert ranges[i] in ranges && texts[i] == RangeText(text, ranges[i]);
    }
  }
}
