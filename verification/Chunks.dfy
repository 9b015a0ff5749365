/** Cutting a rendered document into overlapping line-aligned chunks. */
module Chunks {
  import opened Text
  import opened TextLines

  // ---- The cut as a function ---------------------------------------------------------------------------

  /** The end of the line that holds position pos. */
  function LineEnd(text: string, pos: nat): (e: nat)
    requires pos < |text|
    ensures pos < e <= |text| && Boundary(text, e)
    ensures forall i | pos <= i < e - 1 :: text[i] != '\n'
    decreases |text| - pos
  {
    if text[pos] == '\n' || pos + 1 == |text| then pos + 1 else LineEnd(text, pos + 1)
  }

  /** The start of the line that holds position pos. */
  function LineStart(text: string, pos: nat): (s: nat)
    requires pos < |text|
    ensures s <= pos && LineStartAt(text, s)
    ensures forall i | s <= i < pos :: text[i] != '\n'
  {
    if pos == 0 || text[pos - 1] == '\n' then pos else LineStart(text, pos - 1)
  }

  /** The position after whole lines from pos that carry at least size bytes counted from anchor. */
  function FreshEnd(text: string, size: nat, pos: nat, anchor: nat): (e: nat)
    requires anchor <= pos <= |text| && Boundary(text, pos)
    ensures pos <= e <= |text| && Boundary(text, e)
    ensures e == |text| || e - anchor >= size
    ensures pos < |text| && pos - anchor < size ==> pos < e
    decreases |text| - pos
  {
    if pos < |text| && pos - anchor < size then FreshEnd(text, size, LineEnd(text, pos), anchor) else pos
  }

  /** Without its last line, which starts at last, the text from pos to end is shorter than size. */
  predicate LastLineFills(text: string, size: nat, pos: nat, end: nat, last: nat) {
    && pos <= last < end <= |text| && last - pos < size && Boundary(text, last)
    && forall i | last <= i < end - 1 :: text[i] != '\n'
  }

  /** The new text of a chunk reaches size with its last line only. */
  lemma {:induction false} FreshIsShort(text: string, size: nat, pos: nat, anchor: nat)
    requires anchor <= pos < |text| && Boundary(text, pos) && pos - anchor < size
    ensures exists last: nat :: LastLineFills(text, size, anchor, FreshEnd(text, size, pos, anchor), last)
    decreases |text| - pos
  {
    var e := LineEnd(text, pos);
    if e < |text| && e - anchor < size {
      FreshIsShort(text, size, e, anchor);
      assert FreshEnd(text, size, pos, anchor) == FreshEnd(text, size, e, anchor);
    } else {
      assert LastLineFills(text, size, anchor, FreshEnd(text, size, pos, anchor), pos);
    }
  }

  /** Where the chunk after one that ends at pos starts: up to k lines in front of start. */
  function BackUp(text: string, size: nat, pos: nat, start: nat, k: nat): (s: nat)
    requires start <= pos <= |text|
    ensures s <= start
    decreases k
  {
    if k == 0 || start == 0 then start
    else
      var lineStart := LineStart(text, start - 1);
      if pos - lineStart > size && start != pos then start else BackUp(text, size, pos, lineStart, k - 1)
  }

  /** The chunks that carry the text from pos on, the first of which starts at start. */
  function CutFrom(text: string, size: nat, overlap: nat, start: nat, pos: nat): seq<Span>
    requires size >= 1 && start <= pos <= |text| && Boundary(text, pos)
    decreases |text| - pos
  {
    if pos == |text| then []
    else
      var end := FreshEnd(text, size, pos, pos);
      [Span(start, end)] + CutFrom(text, size, overlap, BackUp(text, size, end, end, overlap), end)
  }

  lemma CutFromStep(text: string, size: nat, overlap: nat, start: nat, pos: nat)
    requires size >= 1 && start <= pos <= |text| && Boundary(text, pos)
    ensures pos == |text| ==> CutFrom(text, size, overlap, start, pos) == []
    ensures pos < |text| ==>
      var end := FreshEnd(text, size, pos, pos);
      CutFrom(text, size, overlap, start, pos) ==
        [Span(start, end)] + CutFrom(text, size, overlap, BackUp(text, size, end, end, overlap), end)
  {
  }

  function Cut(text: string, size: nat, overlap: nat): seq<Span>
    requires size >= 1
  {
    if |text| <= size then [Span(0, |text|)] else CutFrom(text, size, overlap, 0, 0)
  }

  // ---- The loops ------------------------------------------------------------------------------------------

  /** splitLines */
  method SplitLines(text: string, size: nat, overlap: nat) returns (chunks: seq<Span>)
    requires size >= 1
    ensures chunks == Cut(text, size, overlap)
  {
    hide CutFrom, LineEnd, LineStart;
    if |text| <= size {
      return [Span(0, |text|)];
    }
    chunks := [];
    var start, pos := 0, 0;
    while pos < |text|
      invariant 0 <= start <= pos <= |text| && Boundary(text, pos)
      invariant chunks + CutFrom(text, size, overlap, start, pos) == CutFrom(text, size, overlap, 0, 0)
      decreases |text| - pos
    {
      var anchor := pos;
      while pos < |text| && pos - anchor < size
        invariant anchor <= pos <= |text| && Boundary(text, pos)
        invariant FreshEnd(text, size, pos, anchor) == FreshEnd(text, size, anchor, anchor)
        decreases |text| - pos
      {
        pos := LineEnd(text, pos);
      }
      ghost var rest := CutFrom(text, size, overlap, BackUp(text, size, pos, pos, overlap), pos);
      CutFromStep(text, size, overlap, start, anchor);
      assert chunks + ([Span(start, pos)] + rest) == chunks + [Span(start, pos)] + rest;
      chunks := chunks + [Span(start, pos)];
      hide FreshEnd;
      start := pos;
      var k := 0;
      while k < overlap
        invariant 0 <= k <= overlap && 0 <= start <= pos
        invariant BackUp(text, size, pos, start, overlap - k) == BackUp(text, size, pos, pos, overlap)
        decreases overlap - k
      {
        if start == 0 {
          break;
        }
        var lineStart := LineStart(text, start - 1);
        if pos - lineStart > size && start != pos {
          break;
        }
        start := lineStart;
        k := k + 1;
      }
    }
    CutFromStep(text, size, overlap, start, pos);
  }

  // ---- Properties of the cut ---------------------------------------------------------------------------------

  /** The next chunk starts at a line start, and behind everything the chunk before the last carried. */
  lemma {:induction false} BackUpBounds(text: string, size: nat, pos: nat, start: nat, k: nat, floor: nat)
    requires floor < pos <= |text| && floor <= start <= pos && LineStartAt(text, floor)
    requires Boundary(text, start) && (pos - floor >= size)
    ensures var s := BackUp(text, size, pos, start, k); floor <= s && Boundary(text, s)
    decreases k
  {
    if k > 0 && start > 0 {
      var lineStart := LineStart(text, start - 1);
      if !(pos - lineStart > size && start != pos) {
        assert floor <= lineStart;
        BackUpBounds(text, size, pos, lineStart, k - 1, floor);
      }
    }
  }

  /** It reaches back over k lines at most. */
  lemma {:induction false} BackUpLines(text: string, size: nat, pos: nat, start: nat, k: nat)
    requires start <= pos <= |text|
    ensures Newlines(text[BackUp(text, size, pos, start, k)..start]) <= k
    decreases k
  {
    hide LineStart, Newlines;
    var s := BackUp(text, size, pos, start, k);
    if s == start {
      assert text[s..start] == "";
      NoLines();
    } else {
      var lineStart := LineStart(text, start - 1);
      BackUpLines(text, size, pos, lineStart, k - 1);
      assert text[s..start] == text[s..lineStart] + text[lineStart..start];
      NewlinesConcat(text[s..lineStart], text[lineStart..start]);
      assert text[lineStart..start] == text[lineStart..start - 1] + [text[start - 1]];
      NewlinesConcat(text[lineStart..start - 1], [text[start - 1]]);
      OneLine(text[lineStart..start - 1]);
      OneCharacter(text[start - 1]);
    }
  }

  lemma NoLines()
    ensures Newlines("") == 0
  {
  }

  lemma OneCharacter(c: char)
    ensures Newlines([c]) <= 1
  {
    assert [c][1..] == "";
  }

  lemma {:induction false} OneLine(s: string)
    requires forall i | 0 <= i < |s| :: s[i] != '\n'
    ensures Newlines(s) == 0
  {
    if s != "" { OneLine(s[1..]); }
  }

  /** Total length of the chunks: the bytes the detector reads. */
  function Total(chunks: seq<Span>): int {
    if chunks == [] then 0 else chunks[0].end - chunks[0].start + Total(chunks[1..])
  }

  /** Chunks that carry the text from pos on in order: they start and end on line boundaries, each carries new
      text, each but the last at least size bytes of it but less without its last line, and none reaches back further
      than the new text of the one before it or over more than overlap lines. */
  ghost predicate Orderly(text: string, size: nat, overlap: nat, chunks: seq<Span>, start: nat, pos: nat)
    requires pos <= |text|
  {
    if chunks == [] then pos == |text|
    else
      && chunks[0].start == start <= pos < chunks[0].end <= |text|
      && LineStartAt(text, start) && Boundary(text, chunks[0].end)
      && Newlines(text[start..pos]) <= overlap
      && (exists last: nat :: LastLineFills(text, size, pos, chunks[0].end, last))
      && (|chunks| > 1 ==> chunks[0].end - pos >= size && pos <= chunks[1].start)
      && Orderly(text, size, overlap, chunks[1..], if |chunks| > 1 then chunks[1].start else 0, chunks[0].end)
  }

  lemma {:induction false} CutIsOrderly(text: string, size: nat, overlap: nat, start: nat, pos: nat)
    requires size >= 1 && start <= pos <= |text| && Boundary(text, pos) && LineStartAt(text, start)
    requires Newlines(text[start..pos]) <= overlap
    ensures Orderly(text, size, overlap, CutFrom(text, size, overlap, start, pos), start, pos)
    decreases |text| - pos
  {
    if pos < |text| {
      var end := FreshEnd(text, size, pos, pos);
      var next := BackUp(text, size, end, end, overlap);
      var chunks := CutFrom(text, size, overlap, start, pos);
      assert chunks[1..] == CutFrom(text, size, overlap, next, end);
      FreshIsShort(text, size, pos, pos);
      BackUpLines(text, size, end, end, overlap);
      if end < |text| {
        BackUpBounds(text, size, end, end, overlap, pos);
        CutIsOrderly(text, size, overlap, next, end);
      }
    }
  }

  /** Behind the first chunk, every chunk starts at or behind pos. */
  lemma {:induction false} StartsBehind(
      text: string, size: nat, overlap: nat, chunks: seq<Span>, start: nat, pos: nat, j: nat)
    requires pos <= |text| && Orderly(text, size, overlap, chunks, start, pos) && 1 <= j < |chunks|
    ensures pos <= chunks[j].start
    decreases j
  {
    if j > 1 { StartsBehind(text, size, overlap, chunks[1..], chunks[1].start, chunks[0].end, j - 1); }
  }

  /** Chunk j is aligned with the lines, reaches back over overlap lines at most and carries new text: size bytes of it
      unless it is the last, but less without its last line. */
  ghost predicate ChunkAt(text: string, size: nat, overlap: nat, chunks: seq<Span>, j: nat)
    requires j < |chunks|
  {
    var c, seen := chunks[j], if j == 0 then 0 else chunks[j - 1].end;
    && c.start <= seen <= c.end <= |text| && LineStartAt(text, c.start) && Boundary(text, c.end)
    && (j > 0 ==> chunks[j - 1].start <= c.start && seen < c.end)
    && Newlines(text[c.start..seen]) <= overlap
    && (seen < c.end ==> exists last: nat :: LastLineFills(text, size, seen, c.end, last))
    && (j + 1 < |chunks| ==> c.end - seen >= size)
  }

  lemma FirstChunk(text: string, size: nat, overlap: nat, chunks: seq<Span>)
    requires chunks != [] && Orderly(text, size, overlap, chunks, 0, 0)
    ensures ChunkAt(text, size, overlap, chunks, 0)
  {
  }

  lemma {:induction false} OrderlyChunk(
      text: string, size: nat, overlap: nat, chunks: seq<Span>, start: nat, pos: nat, j: nat)
    requires pos <= |text| && Orderly(text, size, overlap, chunks, start, pos) && 1 <= j < |chunks|
    ensures ChunkAt(text, size, overlap, chunks, j)
    decreases j
  {
    var rest := chunks[1..];
    if j > 1 {
      OrderlyChunk(text, size, overlap, rest, chunks[1].start, chunks[0].end, j - 1);
      assert rest[j - 1] == chunks[j] && rest[j - 2] == chunks[j - 1];
    } else {
      assert rest[0] == chunks[1];
    }
  }

  lemma {:induction false} OrderlyEnd(text: string, size: nat, overlap: nat, chunks: seq<Span>, start: nat, pos: nat)
    requires pos <= |text| && Orderly(text, size, overlap, chunks, start, pos) && chunks != []
    ensures chunks[|chunks| - 1].end == |text|
    decreases |chunks|
  {
    if |chunks| > 1 {
      OrderlyEnd(text, size, overlap, chunks[1..], chunks[1].start, chunks[0].end);
    }
  }

  lemma {:induction false} OrderlyApart(
      text: string, size: nat, overlap: nat, chunks: seq<Span>, start: nat, pos: nat, i: nat, j: nat)
    requires pos <= |text| && Orderly(text, size, overlap, chunks, start, pos) && i + 2 <= j < |chunks|
    ensures chunks[i].end <= chunks[j].start
    decreases i
  {
    var rest := chunks[1..];
    if i == 0 {
      StartsBehind(text, size, overlap, rest, chunks[1].start, chunks[0].end, j - 1);
    } else {
      OrderlyApart(text, size, overlap, rest, chunks[1].start, chunks[0].end, i - 1, j - 1);
    }
  }

  lemma {:induction false} OrderlyTotal(text: string, size: nat, overlap: nat, chunks: seq<Span>, start: nat, pos: nat)
    requires start <= pos <= |text| && Orderly(text, size, overlap, chunks, start, pos)
    ensures Total(chunks) <= (pos - start) + 2 * (|text| - pos)
    decreases |chunks|
  {
    if |chunks| > 1 {
      OrderlyTotal(text, size, overlap, chunks[1..], chunks[1].start, chunks[0].end);
    }
  }

  /** A cut covers the text in order with line-aligned chunks, each of which carries new text; no byte lies in
      more than two of them. */
  ghost predicate WellCut(text: string, size: nat, overlap: nat, chunks: seq<Span>) {
    && chunks != [] && chunks[0].start == 0 && chunks[|chunks| - 1].end == |text|
    && (forall j | 0 <= j < |chunks| :: ChunkAt(text, size, overlap, chunks, j))
    && (forall i, j | 0 <= i && i + 2 <= j < |chunks| :: chunks[i].end <= chunks[j].start)
  }

  lemma WholeIsWellCut(text: string, size: nat, overlap: nat)
    requires |text| <= size
    ensures WellCut(text, size, overlap, [Span(0, |text|)]) && Total([Span(0, |text|)]) == |text|
  {
    var chunks := [Span(0, |text|)];
    assert chunks[1..] == [];
    var c := chunks[0];
    assert text[c.start..0] == "";
    if text != "" { assert LastLineFills(text, size, 0, c.end, LineStart(text, |text| - 1)); }
    assert ChunkAt(text, size, overlap, chunks, 0);
  }

  /** For every text, size and overlap, splitLines cuts well and reads at most twice the text. */
  lemma CutIsLinear(text: string, size: nat, overlap: nat)
    requires size >= 1
    ensures WellCut(text, size, overlap, Cut(text, size, overlap))
    ensures Total(Cut(text, size, overlap)) <= 2 * |text|
  {
    var chunks := Cut(text, size, overlap);
    assert text[0..0] == "";
    if |text| <= size {
      WholeIsWellCut(text, size, overlap);
    } else {
      CutIsOrderly(text, size, overlap, 0, 0);
      hide CutFrom, FreshEnd, BackUp;
      OrderlyTotal(text, size, overlap, chunks, 0, 0);
      OrderlyEnd(text, size, overlap, chunks, 0, 0);
      forall j | 0 <= j < |chunks| ensures ChunkAt(text, size, overlap, chunks, j) {
        if j == 0 { FirstChunk(text, size, overlap, chunks); }
        if j > 0 { OrderlyChunk(text, size, overlap, chunks, 0, 0, j); }
      }
      forall i, j | 0 <= i && i + 2 <= j < |chunks| ensures chunks[i].end <= chunks[j].start {
        OrderlyApart(text, size, overlap, chunks, 0, 0, i, j);
      }
    }
  }

  /** A byte lies in at most two chunks, and two chunks that share one are neighbours. */
  lemma AtMostTwo(text: string, size: nat, overlap: nat, i: nat, j: nat, b: nat)
    requires size >= 1 && i < j < |Cut(text, size, overlap)|
    requires var chunks := Cut(text, size, overlap);
      chunks[i].start <= b < chunks[i].end && chunks[j].start <= b < chunks[j].end
    ensures j == i + 1
  {
    CutIsLinear(text, size, overlap);
  }
}
