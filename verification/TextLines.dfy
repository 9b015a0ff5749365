/** The lines of a rendered document, by position and by number. */
module TextLines {

  /** strings.Count(text, "\n") */
  function Newlines(text: string): nat {
    if text == "" then 0 else (if text[0] == '\n' then 1 else 0) + Newlines(text[1..])
  }

  predicate EndsLine(text: string) {
    text != "" && text[|text| - 1] == '\n'
  }

  /** The position where line k starts: behind the k-th line feed, or the end of a text with fewer. */
  function LineOffset(text: string, k: nat): (r: nat)
    ensures r <= |text|
  {
    if k == 0 || text == "" then 0
    else 1 + LineOffset(text[1..], if text[0] == '\n' then k - 1 else k)
  }

  /** A position behind a line feed, or the start of the text. */
  predicate LineStartAt(text: string, p: int) {
    0 <= p <= |text| && (p == 0 || text[p - 1] == '\n')
  }

  /** A position where a line starts or the text ends. */
  predicate Boundary(text: string, p: int) {
    LineStartAt(text, p) || p == |text|
  }

  lemma {:induction false} NewlinesConcat(a: string, b: string)
    ensures Newlines(a + b) == Newlines(a) + Newlines(b)
  {
    if a == "" {
      assert a + b == b;
    } else {
      assert (a + b)[1..] == a[1..] + b;
      NewlinesConcat(a[1..], b);
    }
  }

  lemma NewlinesSplit(text: string, p: nat, q: nat)
    requires p <= q <= |text|
    ensures Newlines(text[..q]) == Newlines(text[..p]) + Newlines(text[p..q])
  {
    assert text[..q] == text[..p] + text[p..q];
    NewlinesConcat(text[..p], text[p..q]);
  }

  /** A line start is where its own line starts. */
  lemma OffsetOfLine(text: string, p: nat)
    requires LineStartAt(text, p)
    ensures LineOffset(text, Newlines(text[..p])) == p
  {
    if p > 0 {
      assert text[..p][1..] == text[1..][..p - 1];
      OffsetRest(text, p);
    }
  }

  lemma {:induction false} OffsetRest(text: string, p: nat)
    requires LineStartAt(text, p) && p > 0
    ensures LineOffset(text, Newlines(text[..p])) == p
    decreases |text|
  {
    var rest := text[1..];
    assert text[..p][1..] == rest[..p - 1];
    if p > 1 {
      OffsetRest(rest, p - 1);
      NewlinesPositive(rest, p - 1);
    }
  }

  lemma NewlinesPositive(text: string, p: nat)
    requires 0 < p <= |text| && text[p - 1] == '\n'
    ensures Newlines(text[..p]) >= 1
  {
    NewlinesSplit(text, p - 1, p);
    assert text[p - 1..p] == "\n";
    assert Newlines("\n") == 1;
  }

  /** The text has fewer than k line feeds. */
  lemma {:induction false} OffsetPastEnd(text: string, k: nat)
    requires k > Newlines(text)
    ensures LineOffset(text, k) == |text|
  {
    if text != "" { OffsetPastEnd(text[1..], if text[0] == '\n' then k - 1 else k); }
  }

  /** Within the text, a line offset is a line start with that many line feeds in front. */
  lemma {:induction false} OffsetInText(text: string, k: nat)
    requires k <= Newlines(text)
    ensures LineStartAt(text, LineOffset(text, k)) && Newlines(text[..LineOffset(text, k)]) == k
    decreases |text|
  {
    if k > 0 {
      var k' := if text[0] == '\n' then k - 1 else k;
      OffsetInText(text[1..], k');
      var r := LineOffset(text[1..], k');
      assert text[..1 + r][1..] == text[1..][..r];
      assert k' > 0 ==> r > 0;
    }
  }

  lemma OffsetBoundary(text: string, k: nat)
    ensures Boundary(text, LineOffset(text, k))
  {
    if k <= Newlines(text) { OffsetInText(text, k); } else { OffsetPastEnd(text, k); }
  }

  lemma OffsetMonotone(text: string, j: nat, k: nat)
    requires j <= k
    ensures LineOffset(text, j) <= LineOffset(text, k)
  {
    if k > Newlines(text) {
      OffsetPastEnd(text, k);
    } else {
      OffsetInText(text, j);
      OffsetInText(text, k);
      var p, q := LineOffset(text, j), LineOffset(text, k);
      if q < p {
        NewlinesSplit(text, q, p);
        NewlinesPositiveBetween(text, q, p);
      }
    }
  }

  lemma NewlinesPositiveBetween(text: string, q: nat, p: nat)
    requires q < p <= |text| && text[p - 1] == '\n'
    ensures Newlines(text[q..p]) >= 1
  {
    NewlinesPositive(text[q..], p - q);
    assert text[q..][..p - q] == text[q..p];
  }

  // ---- The lines themselves -----------------------------------------------------------------------------

  /** The end of the first line, with its line feed. */
  function FirstEnd(text: string): (e: nat)
    requires text != ""
    ensures 0 < e <= |text| && Boundary(text, e)
    ensures forall i | 0 <= i < e - 1 :: text[i] != '\n'
  {
    if text[0] == '\n' || |text| == 1 then 1 else 1 + FirstEnd(text[1..])
  }

  /** The lines of a text, each with its line feed. */
  function Lines(text: string): seq<string> {
    if text == "" then [] else [text[..FirstEnd(text)]] + Lines(text[FirstEnd(text)..])
  }

  lemma {:induction false} FirstEndConcat(a: string, b: string)
    requires a != "" && (EndsLine(a) || b == "")
    ensures FirstEnd(a + b) == FirstEnd(a)
  {
    if b == "" {
      assert a + b == a;
    } else if a[0] != '\n' {
      assert (a + b)[1..] == a[1..] + b;
      FirstEndConcat(a[1..], b);
    }
  }

  /** Lines split at a line start. */
  lemma {:induction false} LinesConcat(a: string, b: string)
    requires a == "" || EndsLine(a) || b == ""
    ensures Lines(a + b) == Lines(a) + Lines(b)
    decreases |a|
  {
    hide Lines, FirstEnd;
    if a == "" {
      assert a + b == b;
      NoLines();
    } else {
      FirstEndConcat(a, b);
      var e := FirstEnd(a);
      var head, rest := a[..e], a[e..];
      assert (a + b)[..e] == head && (a + b)[e..] == rest + b;
      assert rest == "" || EndsLine(rest) || b == "";
      LinesConcat(rest, b);
      LinesUnfold(a, e, head, rest);
      LinesUnfold(a + b, e, head, rest + b);
      assert [head] + (Lines(rest) + Lines(b)) == [head] + Lines(rest) + Lines(b);
    }
  }

  lemma NoLines()
    ensures Lines("") == []
  {
  }

  lemma LinesUnfold(text: string, e: nat, head: string, rest: string)
    requires text != "" && e == FirstEnd(text) && head == text[..e] && rest == text[e..]
    ensures Lines(text) == [head] + Lines(rest)
  {
  }

  /** How many lines there are: one per line feed, and a last one without. */
  lemma {:induction false} LineCount(text: string)
    ensures |Lines(text)| == Newlines(text) + (if text == "" || EndsLine(text) then 0 else 1)
    decreases |text|
  {
    if text != "" {
      var e := FirstEnd(text);
      LineCount(text[e..]);
      FirstLineNewlines(text);
      assert text == text[..e] + text[e..];
      NewlinesConcat(text[..e], text[e..]);
      assert text[e..] == "" ==> text[..e] == text;
    }
  }

  lemma {:induction false} FirstLineNewlines(text: string)
    requires text != ""
    ensures Newlines(text[..FirstEnd(text)]) == (if text[FirstEnd(text) - 1] == '\n' then 1 else 0)
    decreases |text|
  {
    var e := FirstEnd(text);
    if e == 1 {
      assert text[..1] == [text[0]];
      assert Newlines([text[0]]) == (if text[0] == '\n' then 1 else 0) + Newlines([text[0]][1..]);
    } else {
      assert text[..e][1..] == text[1..][..e - 1];
      FirstLineNewlines(text[1..]);
    }
  }

  function Min(a: nat, b: nat): nat {
    if a < b then a else b
  }

  /** The text in front of line k holds the first k lines. */
  lemma LinesBefore(text: string, k: nat)
    ensures var p := LineOffset(text, k);
      |Lines(text[..p])| == Min(k, |Lines(text)|) && Lines(text) == Lines(text[..p]) + Lines(text[p..])
  {
    hide Lines, FirstEnd, LineOffset, Newlines;
    var p := LineOffset(text, k);
    LineCount(text);
    LineCount(text[..p]);
    if k <= Newlines(text) {
      OffsetInText(text, k);
      NoNewlines();
    } else {
      OffsetPastEnd(text, k);
      assert text[..p] == text;
    }
    assert text == text[..p] + text[p..];
    LinesConcat(text[..p], text[p..]);
  }

  lemma NoNewlines()
    ensures Newlines("") == 0
  {
  }

  /** The text between two line offsets holds exactly the lines in between. */
  lemma LinesOfRange(text: string, a: nat, b: nat)
    requires a <= b
    ensures LineOffset(text, a) <= LineOffset(text, b)
    ensures var n := |Lines(text)|;
      Lines(text[LineOffset(text, a)..LineOffset(text, b)]) == Lines(text)[Min(a, n)..Min(b, n)]
  {
    hide Lines, FirstEnd, LineOffset, Newlines;
    OffsetMonotone(text, a, b);
    OffsetBoundary(text, a);
    OffsetBoundary(text, b);
    var p, q := LineOffset(text, a), LineOffset(text, b);
    LinesBefore(text, a);
    LinesBefore(text, b);
    var front, middle := text[..p], text[p..q];
    assert text[..q] == front + middle;
    LinesConcat(front, middle);
    assert Lines(text)[..Min(b, |Lines(text)|)] == Lines(front) + Lines(middle);
  }
}
