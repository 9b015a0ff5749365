/** Chunks as ranges of lines: how the cut of one version of a document is carried over to the next. */
module LineRanges {
  import opened Text
  import opened TextLines
  import opened Chunks

  datatype LineSpan = LineSpan(start: nat, end: nat)

  /** The number of lines that end at or before the boundary p. The final line may have no line feed. */
  function EndLine(text: string, p: nat): nat
    requires p <= |text|
  {
    Newlines(text[..p]) + (if p == |text| && !EndsLine(text) then 1 else 0)
  }

  function ToLines(text: string, s: Span): LineSpan
    requires s.start <= s.end <= |text|
  {
    LineSpan(Newlines(text[..s.start]), EndLine(text, s.end))
  }

  function ToBytes(text: string, r: LineSpan): Span {
    Span(LineOffset(text, r.start), LineOffset(text, r.end))
  }

  /** Spans as splitLines produces them: within the text, with starts in order. */
  ghost predicate Ordered(spans: seq<Span>, n: nat) {
    && (forall i | 0 <= i < |spans| :: spans[i].start <= spans[i].end <= n)
    && (forall i | 0 < i < |spans| :: spans[i - 1].start <= spans[i].start)
  }

  ghost predicate OrderedRanges(ranges: seq<LineSpan>) {
    && (forall i | 0 <= i < |ranges| :: ranges[i].start <= ranges[i].end)
    && (forall i | 0 < i < |ranges| :: ranges[i - 1].start <= ranges[i].start)
  }

  function LinesOfSpans(text: string, spans: seq<Span>): (out: seq<LineSpan>)
    requires forall i | 0 <= i < |spans| :: spans[i].start <= spans[i].end <= |text|
  {
    seq(|spans|, i requires 0 <= i < |spans| => ToLines(text, spans[i]))
  }

  function BytesOfRanges(text: string, ranges: seq<LineSpan>): seq<Span> {
    seq(|ranges|, i requires 0 <= i < |ranges| => ToBytes(text, ranges[i]))
  }

  /** lineSpans */
  method LineSpans(text: string, spans: seq<Span>) returns (out: seq<LineSpan>)
    requires Ordered(spans, |text|)
    ensures out == LinesOfSpans(text, spans)
  {
    out := [];
    var offset, line := 0, 0;
    for i := 0 to |spans|
      invariant 0 <= offset <= |text| && line == Newlines(text[..offset])
      invariant offset == if i == 0 then 0 else spans[i - 1].start
      invariant |out| == i && forall j | 0 <= j < i :: out[j] == ToLines(text, spans[j])
    {
      var s := spans[i];
      NewlinesSplit(text, offset, s.start);
      line := line + Newlines(text[offset..s.start]);
      offset := s.start;
      NewlinesSplit(text, s.start, s.end);
      var end := line + Newlines(text[s.start..s.end]);
      if s.end == |text| && !EndsLine(text) {
        end := end + 1;
      }
      out := out + [LineSpan(line, end)];
    }
  }

  /** strings.IndexByte(s, '\n') */
  function IndexNewline(s: string): (r: int)
    ensures r == -1 || (0 <= r < |s| && s[r] == '\n')
    ensures forall i | 0 <= i < |s| && (r < 0 || i < r) :: s[i] != '\n'
  {
    if s == "" then -1
    else if s[0] == '\n' then 0
    else
      var r := IndexNewline(s[1..]);
      if r < 0 then -1 else r + 1
  }

  lemma {:induction false} NewlinesNone(s: string)
    requires forall i | 0 <= i < |s| :: s[i] != '\n'
    ensures Newlines(s) == 0
  {
    if s != "" { NewlinesNone(s[1..]); }
  }

  /** From the start of line k, the next line feed leads to the start of line k + 1. */
  lemma NextLine(text: string, k: nat)
    ensures var offset := LineOffset(text, k);
      var nl := IndexNewline(text[offset..]);
      LineOffset(text, k + 1) == if nl < 0 then |text| else offset + nl + 1
  {
    hide LineOffset, Newlines;
    var offset := LineOffset(text, k);
    var rest := text[offset..];
    var nl := IndexNewline(rest);
    if k > Newlines(text) {
      OffsetPastEnd(text, k);
      OffsetPastEnd(text, k + 1);
    } else {
      OffsetInText(text, k);
      NewlinesSplit(text, offset, |text|);
      assert text[..|text|] == text && text[offset..|text|] == rest;
      if nl < 0 {
        NewlinesNone(rest);
        OffsetPastEnd(text, k + 1);
      } else {
        var e := offset + nl + 1;
        NewlinesSplit(text, offset, e);
        OneNewline(text[offset..e]);
        OffsetOfLine(text, e);
      }
    }
  }

  lemma OneNewline(s: string)
    requires s != "" && s[|s| - 1] == '\n' && forall i | 0 <= i < |s| - 1 :: s[i] != '\n'
    ensures Newlines(s) == 1
  {
    var init := s[..|s| - 1];
    assert s == init + "\n";
    NewlinesConcat(init, "\n");
    NewlinesNone(init);
    assert Newlines("\n") == 1 + Newlines("\n"[1..]);
  }

  /** The inner loop of byteSpans: from the start of one line to that of a later one. */
  method Advance(text: string, offset: nat, line: nat, to: nat) returns (there: nat)
    requires line <= to && offset == LineOffset(text, line)
    ensures there == LineOffset(text, to)
  {
    hide LineOffset;
    there := offset;
    var at := line;
    while at < to
      invariant line <= at <= to && there == LineOffset(text, at)
    {
      NextLine(text, at);
      var nl := IndexNewline(text[there..]);
      if nl < 0 {
        OffsetMonotone(text, at + 1, to);
        return |text|;
      }
      there := there + nl + 1;
      at := at + 1;
    }
  }

  /** byteSpans */
  method ByteSpans(text: string, ranges: seq<LineSpan>) returns (out: seq<Span>)
    requires OrderedRanges(ranges)
    ensures out == BytesOfRanges(text, ranges)
  {
    out := [];
    var offset, line := 0, 0;
    for i := 0 to |ranges|
      invariant line == if i == 0 then 0 else ranges[i - 1].start
      invariant offset == LineOffset(text, line)
      invariant |out| == i && forall j | 0 <= j < i :: out[j] == ToBytes(text, ranges[j])
    {
      var r := ranges[i];
      var start := Advance(text, offset, line, r.start);
      var end := Advance(text, start, r.start, r.end);
      out := out + [Span(start, end)];
      line, offset := r.start, start;
    }
  }

  // ---- Round trip ---------------------------------------------------------------------------------------

  lemma BoundaryRoundTrip(text: string, p: nat)
    requires p <= |text|
    ensures LineStartAt(text, p) ==> LineOffset(text, Newlines(text[..p])) == p
    ensures Boundary(text, p) ==> LineOffset(text, EndLine(text, p)) == p
  {
    if LineStartAt(text, p) { OffsetOfLine(text, p); }
    if p == |text| && !EndsLine(text) {
      assert text[..p] == text;
      OffsetPastEnd(text, Newlines(text) + 1);
    }
  }

  /** byteSpans undoes lineSpans on every cut of the text. */
  lemma CutRoundTrip(text: string, size: nat, overlap: nat)
    requires size >= 1
    ensures Ordered(Cut(text, size, overlap), |text|)
    ensures BytesOfRanges(text, LinesOfSpans(text, Cut(text, size, overlap))) == Cut(text, size, overlap)
  {
    CutIsLinear(text, size, overlap);
    hide Cut;
    var chunks := Cut(text, size, overlap);
    forall i | 0 <= i < |chunks| ensures chunks[i].start <= chunks[i].end <= |text| {
      assert ChunkAt(text, size, overlap, chunks, i);
    }
    forall i | 0 < i < |chunks| ensures chunks[i - 1].start <= chunks[i].start {
      assert ChunkAt(text, size, overlap, chunks, i);
    }
    forall i | 0 <= i < |chunks| ensures ToBytes(text, ToLines(text, chunks[i])) == chunks[i] {
      assert ChunkAt(text, size, overlap, chunks, i);
      BoundaryRoundTrip(text, chunks[i].start);
      BoundaryRoundTrip(text, chunks[i].end);
    }
  }

  // ---- Carrying a cut over to another version -------------------------------------------------------------

  /** Ranges that follow each other without a gap from line 0 to line n. */
  ghost predicate Gapless(ranges: seq<LineSpan>, n: nat) {
    && ranges != [] && ranges[0].start == 0 && ranges[|ranges| - 1].end == n
    && (forall i | 0 <= i < |ranges| :: ranges[i].start <= ranges[i].end)
    && (forall i | 0 < i < |ranges| :: ranges[i - 1].start <= ranges[i].start <= ranges[i - 1].end <= ranges[i].end)
  }

  ghost predicate Covers(spans: seq<Span>, n: nat) {
    && spans != [] && spans[0].start == 0 && spans[|spans| - 1].end == n
    && (forall i | 0 <= i < |spans| :: spans[i].start <= spans[i].end)
    && (forall i | 0 < i < |spans| :: spans[i - 1].start <= spans[i].start <= spans[i - 1].end <= spans[i].end)
  }

  lemma NewlinesMonotone(text: string, p: nat, q: nat)
    requires p <= q <= |text|
    ensures Newlines(text[..p]) <= Newlines(text[..q])
  {
    NewlinesSplit(text, p, q);
  }

  lemma ChunkLines(text: string, c: Span)
    requires c.start <= c.end <= |text|
    ensures ToLines(text, c).start <= ToLines(text, c).end && ToLines(text, c).start <= Newlines(text)
  {
    NewlinesMonotone(text, c.start, c.end);
    NewlinesMonotone(text, c.start, |text|);
    assert text[..|text|] == text;
  }

  lemma NextChunkLines(text: string, c: Span, d: Span)
    requires c.start <= d.start <= c.end < d.end <= |text|
    ensures ToLines(text, c).start <= ToLines(text, d).start <= ToLines(text, c).end <= ToLines(text, d).end
  {
    NewlinesMonotone(text, c.start, d.start);
    NewlinesMonotone(text, d.start, c.end);
    NewlinesMonotone(text, c.end, d.end);
  }

  /** The line ranges of a cut, with the bound on where each starts. */
  lemma CutRanges(text: string, size: nat, overlap: nat)
    requires size >= 1
    ensures Ordered(Cut(text, size, overlap), |text|)
    ensures var ranges := LinesOfSpans(text, Cut(text, size, overlap));
      && Gapless(ranges, EndLine(text, |text|))
      && (forall i | 0 <= i < |ranges| :: ranges[i].start <= Newlines(text))
  {
    hide Cut, Newlines, ToLines, WellCut, LinesOfSpans;
    CutIsLinear(text, size, overlap);
    CutRoundTrip(text, size, overlap);
    var chunks := Cut(text, size, overlap);
    WellCutEnds(text, size, overlap, chunks);
    var ranges := LinesOfSpans(text, chunks);
    RangesAre(text, chunks);
    forall i | 0 <= i < |ranges| ensures ranges[i].start <= ranges[i].end && ranges[i].start <= Newlines(text) {
      ChunkLines(text, chunks[i]);
    }
    forall i | 0 < i < |ranges|
      ensures ranges[i - 1].start <= ranges[i].start <= ranges[i - 1].end <= ranges[i].end
    {
      Neighbours(text, size, overlap, chunks, i);
      NextChunkLines(text, chunks[i - 1], chunks[i]);
    }
    EndsOfText(text, chunks[0], chunks[|chunks| - 1]);
  }

  lemma RangesAre(text: string, spans: seq<Span>)
    requires forall i | 0 <= i < |spans| :: spans[i].start <= spans[i].end <= |text|
    ensures |LinesOfSpans(text, spans)| == |spans|
    ensures forall i | 0 <= i < |spans| :: LinesOfSpans(text, spans)[i] == ToLines(text, spans[i])
  {
    hide ToLines;
  }

  lemma WellCutEnds(text: string, size: nat, overlap: nat, chunks: seq<Span>)
    requires WellCut(text, size, overlap, chunks)
    ensures chunks != [] && chunks[0].start == 0 && chunks[|chunks| - 1].end == |text|
  {
  }

  lemma Neighbours(text: string, size: nat, overlap: nat, chunks: seq<Span>, i: nat)
    requires WellCut(text, size, overlap, chunks) && 0 < i < |chunks|
    ensures chunks[i - 1].start <= chunks[i].start <= chunks[i - 1].end < chunks[i].end <= |text|
  {
    assert ChunkAt(text, size, overlap, chunks, i);
  }

  lemma EndsOfText(text: string, first: Span, last: Span)
    requires first.start == 0 <= first.end <= |text| && last.start <= last.end == |text|
    ensures ToLines(text, first).start == 0 && ToLines(text, last).end == EndLine(text, |text|)
  {
    assert text[..0] == "";
  }

  /** A cut carried over to another version with as many lines keeps its line numbers and starts on line
      starts; it covers that version exactly when the cut text had no final line feed, or the new one has. */
  lemma CarriedOver(text: string, size: nat, overlap: nat, other: string)
    requires size >= 1 && Newlines(other) == Newlines(text)
    ensures Ordered(Cut(text, size, overlap), |text|)
    ensures var ranges := LinesOfSpans(text, Cut(text, size, overlap));
      var spans := BytesOfRanges(other, ranges);
      && (forall i | 0 <= i < |spans| ::
            LineStartAt(other, spans[i].start) && Newlines(other[..spans[i].start]) == ranges[i].start)
      && (Covers(spans, |other|) <==> !EndsLine(text) || EndsLine(other))
  {
    hide Cut, Newlines, LineOffset, ToLines, LineStartAt;
    CutRanges(text, size, overlap);
    var ranges := LinesOfSpans(text, Cut(text, size, overlap));
    var spans := BytesOfRanges(other, ranges);
    forall i | 0 <= i < |spans|
      ensures LineStartAt(other, spans[i].start) && Newlines(other[..spans[i].start]) == ranges[i].start
      ensures spans[i].start <= spans[i].end
    {
      OffsetInText(other, ranges[i].start);
      OffsetMonotone(other, ranges[i].start, ranges[i].end);
    }
    forall i | 0 < i < |spans|
      ensures spans[i - 1].start <= spans[i].start <= spans[i - 1].end <= spans[i].end
    {
      OffsetMonotone(other, ranges[i - 1].start, ranges[i].start);
      OffsetMonotone(other, ranges[i].start, ranges[i - 1].end);
      OffsetMonotone(other, ranges[i - 1].end, ranges[i].end);
    }
    ZeroOffset(other);
    LastOffset(text, other);
  }

  lemma ZeroOffset(text: string)
    ensures LineOffset(text, 0) == 0
  {
  }

  lemma LastOffset(text: string, other: string)
    requires Newlines(other) == Newlines(text)
    ensures LineOffset(other, EndLine(text, |text|)) == |other| <==> !EndsLine(text) || EndsLine(other)
  {
    hide Newlines, LineOffset;
    assert text[..|text|] == text;
    if EndsLine(text) {
      var n := Newlines(other);
      OffsetInText(other, n);
      NewlinesPositive(text, |text|);
      NoNewlines();
      if EndsLine(other) {
        OffsetOfLine(other, |other|);
        assert other[..|other|] == other;
      }
    } else {
      OffsetPastEnd(other, Newlines(other) + 1);
    }
  }

  /** The cut of a text that ends in a line feed leaves out the last line of a later text that does not, although both
      have one line feed. */
  lemma LastLineLeftOut(size: nat, overlap: nat)
    requires size >= 2
    ensures Newlines("a\n") == Newlines("a\nb") && Ordered(Cut("a\n", size, overlap), 2)
    ensures BytesOfRanges("a\nb", LinesOfSpans("a\n", Cut("a\n", size, overlap))) == [Span(0, 2)]
  {
    var text, other := "a\n", "a\nb";
    assert text[1..] == "\n" && "\n"[1..] == "" && other[1..] == "\nb" && "\nb"[1..] == "b" && "b"[1..] == "";
    assert Newlines(text) == 1 + Newlines("") && Newlines(other) == 1 + Newlines("b");
    assert text[..0] == "" && text[..2] == text;
    assert ToLines(text, Span(0, 2)) == LineSpan(0, 1);
    assert LineOffset(other, 1) == 1 + LineOffset("\nb", 1) == 2 + LineOffset("b", 0);
    assert ToBytes(other, LineSpan(0, 1)) == Span(0, 2);
  }
}
