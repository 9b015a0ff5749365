/** Where the lines of a body start and stop, and which of them an occurrence takes a line break from. */
module LinePositions {
  import opened Text
  import opened Escapes
  import opened Breaks
  import opened Markers
  import opened LineWise
  import opened LeafLines

  ghost predicate StartsLine(body: string, ls: nat) {
    && ls <= |body| && !Esc(false, body[..ls])
    && (ls == 0 || (ls >= 2 && BreakAt(body, ls - 2, LINE_BREAKS)))
  }

  /** Where the line that starts at ls stops: in front of its line break, or at the end of the body. */
  function LineStop(body: string, ls: nat): (e: nat)
    requires ls <= |body|
    ensures ls <= e <= |body|
  {
    ls + |BeforeEscape(body[ls..], LINE_BREAKS)|
  }

  predicate MarkedAt(body: string, ls: nat)
    requires ls <= |body|
  {
    HasAllowMarker(body[ls..LineStop(body, ls)])
  }

  lemma StopFacts(body: string, ls: nat)
    requires StartsLine(body, ls) && !Esc(false, body)
    ensures var e := LineStop(body, ls);
      && !Esc(false, body[..e]) && (forall b: nat | ls <= b < e :: !BreakAt(body, b, LINE_BREAKS))
      && BeforeEscape(body[ls..], LINE_BREAKS) == body[ls..e]
      && (e < |body| ==> e + 2 <= |body| && BreakAt(body, e, LINE_BREAKS) && StartsLine(body, e + 2))
  {
    hide BeforeEscape, Esc;
    var front, text := body[..ls], body[ls..];
    var line := BeforeEscape(text, LINE_BREAKS);
    var e := LineStop(body, ls);
    CutIsFirstBreak(text, LINE_BREAKS);
    assert body == front + text && line == text[..|line|] == body[ls..e];
    if line != text {
      BreakShift(front, text, |line|, LINE_BREAKS);
      BehindBreak(body, e);
    } else {
      assert body[..e] == body;
    }
    forall b: nat | ls <= b < e ensures !BreakAt(body, b, LINE_BREAKS) {
      if BreakAt(body, b, LINE_BREAKS) { LineHoldsNoBreak(body, ls, line, b); }
    }
  }

  lemma LinesFrom(body: string, ls: nat)
    requires ls <= |body|
    ensures var e := LineStop(body, ls);
      && (e < |body| ==> e + 2 <= |body| && Lines(body[ls..]) == [body[ls..e]] + Lines(body[e + 2..]))
      && (e == |body| ==> Lines(body[ls..]) == [body[ls..e]])
  {
    hide BeforeEscape;
    var text, e := body[ls..], LineStop(body, ls);
    var line := BeforeEscape(text, LINE_BREAKS);
    assert line == text[..|line|] == body[ls..e];
    if line != text { assert text[|line| + 2..] == body[e + 2..]; }
  }

  /** No part of a line that starts where no escape is open holds a line break. */
  lemma NoBreakWithin(body: string, ls: nat, x: nat, y: nat)
    requires StartsLine(body, ls) && !Esc(false, body)
    requires ls <= x <= y <= LineStop(body, ls) && !Esc(false, body[..x])
    ensures NoBreak(body[x..y], LINE_BREAKS) && Esc(false, body[x..y]) == Esc(false, body[..y])
  {
    hide Esc, LineStop;
    StopFacts(body, ls);
    EscBetween(body, x, y);
    var part := body[x..y];
    forall k | 0 <= k < |part| ensures !BreakAt(part, k, LINE_BREAKS) {
      EscBetween(body, x, x + k);
      assert part[..k] == body[x..x + k];
      assert !BreakAt(body, x + k, LINE_BREAKS);
    }
  }

  // ---- Allowed lines by position ---------------------------------------------------------------------------

  lemma {:induction false} SpanBounds(body: string, start: nat)
    ensures forall span | span in AllowedFrom(body, start) :: start <= span.start <= span.end
    decreases |body| + 2 - start
  {
    if start <= |body| {
      SpanBounds(body, start + |BeforeEscape(body[start..], LINE_BREAKS)| + 2);
    }
  }

  /** From the start of a later line on, the allowed lines are the same, and the earlier ones stop before it. */
  lemma {:induction false} SpansFrom(body: string, start: nat, ls: nat)
    requires StartsLine(body, start) && StartsLine(body, ls) && start <= ls && !Esc(false, body)
    ensures forall span | span in AllowedFrom(body, ls) :: span in AllowedFrom(body, start)
    ensures forall span | span in AllowedFrom(body, start) :: span in AllowedFrom(body, ls) || span.end + 2 <= ls
    decreases |body| - start
  {
    hide AllowedFrom, BeforeEscape, HasAllowMarker, Esc, BreakAt, LineStop, StartsLine;
    if start < ls {
      StopFacts(body, start);
      var e := LineStop(body, start);
      NextStart(body, start, ls);
      AllowedUnfold(body, start, body[start..e]);
      SpansFrom(body, e + 2, ls);
    }
  }

  lemma NextStart(body: string, start: nat, ls: nat)
    requires StartsLine(body, start) && StartsLine(body, ls) && start < ls && !Esc(false, body)
    ensures LineStop(body, start) + 2 <= ls <= |body|
  {
    hide Esc, LineStop;
    StopFacts(body, start);
    var e := LineStop(body, start);
    if ls == e + 3 { EscAtBreak(body, e); }
    if ls == start + 1 { EscAtBreak(body, ls - 2); }
  }

  /** Inside a line break an escape is open. */
  lemma EscAtBreak(body: string, e: nat)
    requires BreakAt(body, e, LINE_BREAKS)
    ensures Esc(false, body[..e + 1])
  {
    assert body[..e + 1] == body[..e] + "\\";
    EscOpened(body[..e]);
  }

  /** An occurrence inside a line is spared exactly when the line is marked, and one that reaches over its end never. */
  lemma WithinLine(body: string, ls: nat, p: nat, n: nat)
    requires StartsLine(body, ls) && !Esc(false, body) && ls <= p <= LineStop(body, ls) + 1 && n > 0
    ensures p + n <= LineStop(body, ls) ==> (Within(AllowedFrom(body, 0), p, p + n) <==> MarkedAt(body, ls))
    ensures p + n > LineStop(body, ls) ==> !Within(AllowedFrom(body, 0), p, p + n)
  {
    hide AllowedFrom, BeforeEscape, HasAllowMarker, Esc, BreakAt, LineStop;
    var e := LineStop(body, ls);
    StopFacts(body, ls);
    assert body[..0] == "";
    EscNothing();
    SpansFrom(body, 0, ls);
    AllowedUnfold(body, ls, body[ls..e]);
    SpanBounds(body, e + 2);
    if MarkedAt(body, ls) { assert AllowedFrom(body, ls)[0] in AllowedFrom(body, ls); }
  }

  lemma EscNothing()
    ensures !Esc(false, "")
  {
  }

  // ---- Occurrences that take a line break from a marked line --------------------------------------------------

  /** The n characters at p hold the line break behind the span or the one in front of it. */
  predicate HitBy(span: Span, p: int, n: nat) {
    p <= span.end < p + n || p <= span.start - 2 < p + n
  }

  /** They hold a line break next to an allowed line that starts at ls or later. */
  ghost predicate Hits(body: string, ls: nat, p: int, n: nat) {
    exists span | span in AllowedFrom(body, ls) :: HitBy(span, p, n)
  }

  lemma HitsFrom(body: string, ls: nat, p: nat, n: nat)
    requires StartsLine(body, ls) && !Esc(false, body) && ls <= p
    ensures Hits(body, 0, p, n) <==> Hits(body, ls, p, n)
  {
    hide AllowedFrom, Esc;
    assert body[..0] == "";
    EscNothing();
    SpansFrom(body, 0, ls);
    SpanBounds(body, 0);
  }

  lemma HitsUnfold(body: string, ls: nat, p: int, n: nat)
    requires StartsLine(body, ls) && !Esc(false, body)
    ensures var e := LineStop(body, ls);
      Hits(body, ls, p, n) <==> (MarkedAt(body, ls) && HitBy(Span(ls, e), p, n)) || Hits(body, e + 2, p, n)
  {
    hide AllowedFrom, BeforeEscape, HasAllowMarker, Esc, BreakAt, LineStop;
    var e := LineStop(body, ls);
    StopFacts(body, ls);
    AllowedUnfold(body, ls, body[ls..e]);
    var spans, later := AllowedFrom(body, ls), AllowedFrom(body, e + 2);
    if MarkedAt(body, ls) { assert spans[0] in spans; }
    assert forall span | span in later :: span in spans;
  }

  /** What stops before a line break takes nothing from the lines behind it. */
  lemma HitsNothingBehind(body: string, start: nat, p: int, n: nat)
    requires p + n + 2 <= start
    ensures !Hits(body, start, p, n)
  {
    hide AllowedFrom;
    SpanBounds(body, start);
  }
}
