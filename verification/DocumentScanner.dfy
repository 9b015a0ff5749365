/** Scanning successive versions of one document: only the chunks whose text changed are scanned again. */
module DocumentScanner {
  import opened Text
  import opened Options
  import opened Pending
  import opened TextLines
  import opened Chunks
  import opened LineRanges
  import opened Scanner

  /** The detector, the digest, and how documents are cut. */
  datatype Base = Base(detector: string -> seq<Raw>, digest: string -> string, size: nat, overlap: nat)

  function Detect(base: Base, text: string): seq<Finding> {
    AllFindings(base.detector(text))
  }

  /** What the scanner remembers: the line ranges of the first cut, if there was one, the number of lines then,
      and the findings of the chunks of the version before, by digest. */
  datatype Memory = Memory(chunks: Option<seq<LineSpan>>, lines: nat, findings: map<string, seq<Finding>>)

  const NOTHING := Memory(None, 0, map[])

  /** One call of Scan: the text, whether the context was cancelled before or meanwhile, and how the results of
      the chunks that are scanned arrive. */
  datatype Call = Call(text: string, cancelled: bool, cancelledLate: bool, run: seq<string> -> seq<Item>)

  /** The detector is deterministic: a run without errors delivers each chunk's own reports in order. */
  ghost predicate Faithful(base: Base, run: seq<string> -> seq<Item>) {
    forall texts :: Complete(run(texts), |texts|) ==> Interleaves(run(texts), Reports(base, texts))
  }

  function Reports(base: Base, texts: seq<string>): seq<seq<Raw>> {
    seq(|texts|, i requires 0 <= i < |texts| => base.detector(texts[i]))
  }

  // ---- The step as a function --------------------------------------------------------------------------------

  predicate Reuses(m: Memory, text: string) {
    m.chunks.Some? && Newlines(text) + 1 == m.lines
  }

  /** The chunks a version is scanned in. */
  function SpansOf(base: Base, m: Memory, text: string): seq<Span>
    requires base.size >= 1
  {
    if Reuses(m, text) then BytesOfRanges(text, m.chunks.value) else Cut(text, base.size, base.overlap)
  }

  /** Spans lie within the text. */
  ghost predicate InText(spans: seq<Span>, text: string) {
    forall i | 0 <= i < |spans| :: spans[i].start <= spans[i].end <= |text|
  }

  function Texts(text: string, spans: seq<Span>): seq<string>
    requires InText(spans, text)
  {
    seq(|spans|, i requires 0 <= i < |spans| => text[spans[i].start..spans[i].end])
  }

  /** What scanning all chunks from scratch returns. */
  function FromScratch(base: Base, texts: seq<string>): seq<Finding> {
    if texts == [] then [] else FromScratch(base, texts[..|texts| - 1]) + Detect(base, texts[|texts| - 1])
  }

  /** The findings of one chunk: the remembered ones of its digest, or new ones. */
  function Answer(base: Base, findings: map<string, seq<Finding>>, text: string): seq<Finding> {
    var d := base.digest(text);
    if d in findings then findings[d] else Detect(base, text)
  }

  function Answers(base: Base, findings: map<string, seq<Finding>>, texts: seq<string>): seq<seq<Finding>> {
    seq(|texts|, i requires 0 <= i < |texts| => Answer(base, findings, texts[i]))
  }

  function Concat(lists: seq<seq<Finding>>): seq<Finding> {
    if lists == [] then [] else Concat(lists[..|lists| - 1]) + lists[|lists| - 1]
  }

  /** The chunks with no remembered findings. */
  function Stale(base: Base, findings: map<string, seq<Finding>>, texts: seq<string>): seq<string> {
    if texts == [] then []
    else
      var last := texts[|texts| - 1];
      Stale(base, findings, texts[..|texts| - 1]) + (if base.digest(last) in findings then [] else [last])
  }

  /** The answers by digest; a later chunk overwrites an earlier one with the same digest. */
  function Remember(base: Base, texts: seq<string>, answers: seq<seq<Finding>>): map<string, seq<Finding>>
    requires |texts| == |answers|
  {
    if texts == [] then map[]
    else
      var n := |texts| - 1;
      Remember(base, texts[..n], answers[..n])[base.digest(texts[n]) := answers[n]]
  }

  /** Whether scanning the stale chunks fails. */
  predicate Fails(stale: seq<string>, call: Call) {
    stale != [] && (call.cancelledLate || !Complete(call.run(stale), |stale|))
  }

  /** The memory after the cut of a version, before its chunks are scanned. */
  function Located(base: Base, m: Memory, text: string): Memory
    requires base.size >= 1
    requires InText(Cut(text, base.size, base.overlap), text)
  {
    if Reuses(m, text) then m
    else m.(chunks := Some(LinesOfSpans(text, Cut(text, base.size, base.overlap))), lines := Newlines(text) + 1)
  }

  lemma SpansInText(base: Base, m: Memory, text: string)
    requires base.size >= 1 && (m.chunks.Some? ==> OrderedRanges(m.chunks.value))
    ensures InText(SpansOf(base, m, text), text) && InText(Cut(text, base.size, base.overlap), text)
    ensures Ordered(Cut(text, base.size, base.overlap), |text|)
  {
    CutRoundTrip(text, base.size, base.overlap);
    if Reuses(m, text) {
      var ranges := m.chunks.value;
      forall i | 0 <= i < |ranges| ensures LineOffset(text, ranges[i].start) <= LineOffset(text, ranges[i].end) {
        OffsetMonotone(text, ranges[i].start, ranges[i].end);
      }
    }
  }

  datatype Reply = Reply(memory: Memory, result: Option<seq<Finding>>)

  ghost predicate Usable(base: Base, m: Memory) {
    base.size >= 1 && (m.chunks.Some? ==> OrderedRanges(m.chunks.value))
  }

  function Step(base: Base, m: Memory, call: Call): Reply
    requires Usable(base, m)
  {
    if call.cancelled then Reply(m, None)
    else
      SpansInText(base, m, call.text);
      var texts := Texts(call.text, SpansOf(base, m, call.text));
      var located := Located(base, m, call.text);
      if Fails(Stale(base, m.findings, texts), call) then Reply(located, None)
      else
        var answers := Answers(base, m.findings, texts);
        Reply(located.(findings := Remember(base, texts, answers)), Some(Concat(answers)))
  }

  // ---- Every scan equals a scan from scratch ------------------------------------------------------------------

  /** No two of the texts have the same digest. */
  ghost predicate CollisionFree(base: Base, texts: set<string>) {
    forall s, t | s in texts && t in texts && base.digest(s) == base.digest(t) :: s == t
  }

  /** The entry for d is the detector's answer for a text with that digest. */
  ghost predicate Justified(base: Base, findings: map<string, seq<Finding>>, seen: set<string>, d: string)
    requires d in findings
  {
    exists t | t in seen :: base.digest(t) == d && findings[d] == Detect(base, t)
  }

  ghost predicate Sound(base: Base, findings: map<string, seq<Finding>>, seen: set<string>) {
    forall d | d in findings :: Justified(base, findings, seen, d)
  }

  lemma AnswerIsDetect(base: Base, findings: map<string, seq<Finding>>, seen: set<string>, text: string)
    requires Sound(base, findings, seen) && CollisionFree(base, seen) && text in seen
    ensures Answer(base, findings, text) == Detect(base, text)
  {
    var d := base.digest(text);
    if d in findings {
      assert Justified(base, findings, seen, d);
    }
  }

  lemma {:induction false} AnswersAreDetects(
      base: Base, findings: map<string, seq<Finding>>, seen: set<string>, texts: seq<string>)
    requires Sound(base, findings, seen) && CollisionFree(base, seen) && forall t | t in texts :: t in seen
    ensures forall i | 0 <= i < |texts| :: Answers(base, findings, texts)[i] == Detect(base, texts[i])
    ensures Concat(Answers(base, findings, texts)) == FromScratch(base, texts)
    decreases |texts|
  {
    hide Detect, Sound, CollisionFree, Answer;
    if texts != [] {
      var n := |texts| - 1;
      assert forall t | t in texts[..n] :: t in texts;
      AnswersAreDetects(base, findings, seen, texts[..n]);
      AnswerIsDetect(base, findings, seen, texts[n]);
      var answers := Answers(base, findings, texts);
      assert answers[..n] == Answers(base, findings, texts[..n]);
      forall i | 0 <= i < |texts| ensures answers[i] == Detect(base, texts[i]) {
        if i < n { assert answers[i] == answers[..n][i]; }
      }
    }
  }

  lemma {:induction false} RememberIsSound(
      base: Base, texts: seq<string>, answers: seq<seq<Finding>>, seen: set<string>)
    requires |texts| == |answers| && (forall t | t in texts :: t in seen)
    requires forall i | 0 <= i < |texts| :: answers[i] == Detect(base, texts[i])
    ensures Sound(base, Remember(base, texts, answers), seen)
    decreases |texts|
  {
    hide Detect;
    if texts != [] {
      var n := |texts| - 1;
      assert forall t | t in texts[..n] :: t in texts;
      RememberIsSound(base, texts[..n], answers[..n], seen);
      var before, after := Remember(base, texts[..n], answers[..n]), Remember(base, texts, answers);
      assert texts[n] in seen;
      forall d | d in after ensures Justified(base, after, seen, d) {
        if d != base.digest(texts[n]) { assert Justified(base, before, seen, d); }
      }
    }
  }

  lemma StepUsable(base: Base, m: Memory, call: Call)
    requires Usable(base, m)
    ensures Usable(base, Step(base, m, call).memory)
  {
    hide Cut, FromScratch, Answers, Remember, Stale, Texts, ToLines;
    SpansInText(base, m, call.text);
    CutRanges(call.text, base.size, base.overlap);
  }

  /** The texts of the chunks a call scans. */
  function ChunkTexts(base: Base, m: Memory, text: string): seq<string>
    requires Usable(base, m)
  {
    SpansInText(base, m, text);
    Texts(text, SpansOf(base, m, text))
  }

  /** One call: the result, if there is one, is that of a scan from scratch, and the memory stays sound. */
  lemma StepIsFromScratch(base: Base, m: Memory, call: Call, seen: set<string>)
    requires Usable(base, m) && Sound(base, m.findings, seen) && CollisionFree(base, seen)
    requires forall t | t in ChunkTexts(base, m, call.text) :: t in seen
    ensures var reply := Step(base, m, call);
      && Sound(base, reply.memory.findings, seen)
      && (reply.result.Some? ==> reply.result.value == FromScratch(base, ChunkTexts(base, m, call.text)))
  {
    hide Sound, CollisionFree, FromScratch, Concat, Answers, Remember, Detect, Cut, SpansOf, Stale, Texts;
    SpansInText(base, m, call.text);
    var texts := ChunkTexts(base, m, call.text);
    AnswersAreDetects(base, m.findings, seen, texts);
    AnswersLength(base, m.findings, texts);
    RememberIsSound(base, texts, Answers(base, m.findings, texts), seen);
  }

  lemma AnswersLength(base: Base, findings: map<string, seq<Finding>>, texts: seq<string>)
    ensures |Answers(base, findings, texts)| == |texts|
  {
  }

  lemma {:induction false} FirstAnswers(base: Base, texts: seq<string>)
    ensures Concat(Answers(base, map[], texts)) == FromScratch(base, texts)
    decreases |texts|
  {
    hide Detect;
    if texts != [] {
      var n := |texts| - 1;
      var answers := Answers(base, map[], texts);
      assert answers[..n] == Answers(base, map[], texts[..n]);
      FirstAnswers(base, texts[..n]);
    }
  }

  /** A new scanner scans all chunks, whatever their digests. */
  lemma FirstScanIsFromScratch(base: Base, call: Call)
    requires base.size >= 1
    ensures var result := Step(base, NOTHING, call).result;
      result.Some? ==> result.value == FromScratch(base, ChunkTexts(base, NOTHING, call.text))
  {
    hide FromScratch, Concat, Answers, Remember, Detect, Cut, SpansOf, Stale, Texts;
    SpansInText(base, NOTHING, call.text);
    FirstAnswers(base, ChunkTexts(base, NOTHING, call.text));
  }

  // ---- Whole runs -----------------------------------------------------------------------------------------------

  /** The memory after a sequence of calls on a new scanner. */
  function MemoryAfter(base: Base, calls: seq<Call>): (m: Memory)
    requires base.size >= 1
    ensures Usable(base, m)
    decreases |calls|
  {
    if calls == [] then NOTHING
    else
      var n := |calls| - 1;
      StepUsable(base, MemoryAfter(base, calls[..n]), calls[n]);
      Step(base, MemoryAfter(base, calls[..n]), calls[n]).memory
  }

  /** All chunk texts of a sequence of calls. */
  ghost function SeenTexts(base: Base, calls: seq<Call>): set<string>
    requires base.size >= 1
    decreases |calls|
  {
    if calls == [] then {}
    else
      var n := |calls| - 1;
      SeenTexts(base, calls[..n])
      + (set t | t in ChunkTexts(base, MemoryAfter(base, calls[..n]), calls[n].text))
  }

  lemma {:induction false} MemorySound(base: Base, calls: seq<Call>, seen: set<string>)
    requires base.size >= 1 && SeenTexts(base, calls) <= seen && CollisionFree(base, seen)
    ensures Sound(base, MemoryAfter(base, calls).findings, seen)
    decreases |calls|
  {
    hide Sound, CollisionFree, Step, ChunkTexts;
    if calls == [] {
      NothingSound(base, seen);
    } else {
      var n := |calls| - 1;
      MemorySound(base, calls[..n], seen);
      StepIsFromScratch(base, MemoryAfter(base, calls[..n]), calls[n], seen);
    }
  }

  lemma NothingSound(base: Base, seen: set<string>)
    ensures Sound(base, NOTHING.findings, seen)
  {
  }

  /** For every sequence of versions, with failed and cancelled scans in between, each successful scan returns
      exactly what scanning all current chunks from scratch returns. */
  lemma EveryScanIsFromScratch(base: Base, calls: seq<Call>, k: nat)
    requires base.size >= 1 && k < |calls| && CollisionFree(base, SeenTexts(base, calls))
    ensures var m := MemoryAfter(base, calls[..k]);
      var result := Step(base, m, calls[k]).result;
      result.Some? ==> result.value == FromScratch(base, ChunkTexts(base, m, calls[k].text))
  {
    hide Sound, CollisionFree, Step, ChunkTexts, MemoryAfter, FromScratch;
    var m, seen := MemoryAfter(base, calls[..k]), SeenTexts(base, calls);
    SeenGrows(base, calls, k);
    SeenGrows(base, calls, k + 1);
    assert calls[..k + 1][..k] == calls[..k] && calls[..k + 1][k] == calls[k];
    MemorySound(base, calls[..k], seen);
    StepIsFromScratch(base, m, calls[k], seen);
  }

  lemma {:induction false} SeenGrows(base: Base, calls: seq<Call>, k: nat)
    requires base.size >= 1 && k <= |calls|
    ensures SeenTexts(base, calls[..k]) <= SeenTexts(base, calls)
    decreases |calls|
  {
    hide ChunkTexts, MemoryAfter;
    if k == |calls| {
      assert calls[..k] == calls;
    } else {
      var n := |calls| - 1;
      assert calls[..n][..k] == calls[..k];
      SeenGrows(base, calls[..n], k);
    }
  }

  // ---- What is scanned again -------------------------------------------------------------------------------------

  lemma {:induction false} RememberKeys(base: Base, texts: seq<string>, answers: seq<seq<Finding>>, d: string)
    requires |texts| == |answers|
    ensures d in Remember(base, texts, answers) <==> exists t | t in texts :: base.digest(t) == d
    decreases |texts|
  {
    if texts != [] {
      var n := |texts| - 1;
      RememberKeys(base, texts[..n], answers[..n], d);
      assert texts == texts[..n] + [texts[n]];
    }
  }

  lemma {:induction false} StaleIff(base: Base, findings: map<string, seq<Finding>>, texts: seq<string>, t: string)
    ensures t in Stale(base, findings, texts) <==> t in texts && base.digest(t) !in findings
    decreases |texts|
  {
    if texts != [] {
      var n := |texts| - 1;
      StaleIff(base, findings, texts[..n], t);
      assert texts == texts[..n] + [texts[n]];
    }
  }

  /** Behind a successful call, the next one scans exactly the chunks whose text the call before did not have. */
  lemma RescansChangedOnly(base: Base, m: Memory, call: Call, text: string, t: string)
    requires Usable(base, m) && Step(base, m, call).result.Some?
    ensures Usable(base, Step(base, m, call).memory)
    ensures var next := Step(base, m, call).memory;
      var before, now := ChunkTexts(base, m, call.text), ChunkTexts(base, next, text);
      (CollisionFree(base, (set u | u in before) + (set u | u in now))) ==>
        (t in Stale(base, next.findings, now) <==> t in now && t !in before)
  {
    hide Cut, SpansOf, Texts, Concat, Answers, Remember, Stale, Fails, Located;
    StepUsable(base, m, call);
    var next := Step(base, m, call).memory;
    var before, now := ChunkTexts(base, m, call.text), ChunkTexts(base, next, text);
    StaleIff(base, next.findings, now, t);
    AnswersLength(base, m.findings, before);
    RememberKeys(base, before, Answers(base, m.findings, before), base.digest(t));
  }

  /** A call fails if and only if it was cancelled before, or some chunk has to be scanned and that is cancelled or
      yields an error or a result out of range; it then remembers the same findings. */
  lemma ScanFailsIff(base: Base, m: Memory, call: Call)
    requires Usable(base, m)
    ensures var reply, stale := Step(base, m, call), Stale(base, m.findings, ChunkTexts(base, m, call.text));
      && (reply.result.None? <==>
            || call.cancelled
            || (stale != [] && (call.cancelledLate
                || exists item | item in call.run(stale) :: item.Broken? || !(0 <= item.chunk < |stale|))))
      && (reply.result.None? ==> reply.memory.findings == m.findings)
      && (call.cancelled ==> reply.memory == m)
  {
    hide Cut, SpansOf, Texts, Concat, Answers, Remember, Stale;
    SpansInText(base, m, call.text);
  }
}
