/** How many lines a substitution leaves, and why an occurrence with a line break in it is never spared. */
module LineCounts {
  import opened Text
  import opened Escapes
  import opened StringBody
  import opened Breaks
  import opened Masking
  import opened Markers
  import opened LineWise
  import opened Leaf
  import opened LeafLines

  /** A body without a break is one line, and one with a break has more. */
  lemma OneOrMore(s: string)
    ensures NoBreak(s, LINE_BREAKS) <==> |Lines(s)| == 1
  {
    hide BeforeEscape, NoBreak;
    CutIsFirstBreak(s, LINE_BREAKS);
    var line := BeforeEscape(s, LINE_BREAKS);
    LinesFirst(s, line);
    if line != s { BreakHere(s, |line|); } else { WholeIsOne(s); }
  }

  lemma WholeIsOne(s: string)
    requires BeforeEscape(s, LINE_BREAKS) == s
    ensures Lines(s) == [s]
  {
  }

  lemma BreakHere(s: string, i: nat)
    requires BreakAt(s, i, LINE_BREAKS)
    ensures !NoBreak(s, LINE_BREAKS)
  {
  }

  /** The lines of two texts that meet outside an escape: the last of the one and the first of the other are joined. */
  lemma {:induction false} LinesJoin(a: string, b: string)
    requires !Esc(false, a)
    ensures |Lines(a + b)| == |Lines(a)| + |Lines(b)| - 1
    decreases |a|
  {
    hide BeforeEscape, NoBreak, Esc, Lines;
    OneOrMore(a);
    if BeforeEscape(a, LINE_BREAKS) == a {
      CutIsFirstBreak(a, LINE_BREAKS);
      JoinToLine(a, b);
    } else {
      var line, brk, rest := FirstLine(a);
      EscConcat(false, line + brk, rest);
      LinesJoin(rest, b);
      LinesUnfold(line, brk, rest);
      assert a + b == line + brk + (rest + b);
      BreakHead(brk, rest, rest + b);
      LinesUnfold(line, brk, rest + b);
    }
  }

  lemma JoinToLine(a: string, b: string)
    requires !Esc(false, a) && NoBreak(a, LINE_BREAKS)
    ensures |Lines(a + b)| == |Lines(b)|
  {
    hide BeforeEscape, NoBreak, Esc, Lines;
    NoBreakConcat(a, b, LINE_BREAKS);
    OneOrMore(a + b);
    OneOrMore(b);
    if BeforeEscape(b, LINE_BREAKS) != b {
      var line, brk, rest := FirstLine(b);
      LinesUnfold(line, brk, rest);
      EscConcat(false, a, line);
      NoBreakConcat(a, line, LINE_BREAKS);
      assert a + b == (a + line) + brk + rest;
      LinesUnfold(a + line, brk, rest);
    } else {
      CutIsFirstBreak(b, LINE_BREAKS);
    }
  }

  lemma JoinThree(a: string, x: string, b: string)
    requires !Esc(false, a) && !Esc(false, a + x)
    ensures |Lines(a + x + b)| == |Lines(a)| + |Lines(x)| + |Lines(b)| - 2
  {
    hide Lines, Esc;
    LinesJoin(a + x, b);
    LinesJoin(a, x);
  }

  /** Each substitution takes away the line breaks of the secret, and no more. */
  lemma {:induction false} LinesAfter(s: string, sub: string, mask: string, keep: set<int>)
    requires sub != "" && !Esc(false, sub) && Aligned(s, sub) && LineText(mask)
    ensures |Lines(Weave(s, sub, mask, keep))| ==
            |Lines(s)| - (Count(s, sub) - KeptCount(s, sub, keep)) * (|Lines(sub)| - 1)
    decreases |s|
  {
    hide Text.Weave, Text.Index, Esc, KeptCount, Count, Lines, Aligned, NoBreak;
    var i := Index(s, sub);
    if i < 0 {
      WeaveNone(s, sub, mask, keep);
      NoneCounted(s, sub, keep);
    } else {
      IndexLeast(s, sub);
      CutAt(s, i, sub);
      var a, rest := s[..i], s[i + |sub|..];
      var d := |sub| + |rest|;
      WeaveUnfold(s, sub, mask, keep, i, rest, d);
      CountUnfold(s, sub, keep, i, rest, d);
      ClosedBehind(a, sub, rest);
      AlignedBehindConcat(a + sub, rest, sub);
      LinesAfter(rest, sub, mask, keep);
      EscConcat(false, a, mask);
      OneOrMore(mask);
      JoinThree(a, sub, rest);
      var tail := Weave(rest, sub, mask, keep);
      if d in keep { JoinThree(a, sub, tail); } else { JoinThree(a, mask, tail); }
      OneMore(Count(rest, sub) - KeptCount(rest, sub, keep), |Lines(sub)| - 1);
    }
  }

  lemma NoneCounted(s: string, sub: string, keep: set<int>)
    requires sub != "" && Index(s, sub) < 0
    ensures Count(s, sub) == 0 && KeptCount(s, sub, keep) == 0
  {
  }

  lemma OneMore(n: int, k: int)
    ensures (n + 1) * k == n * k + k
  {
  }

  // ---- Secrets that span lines -------------------------------------------------------------------------

  lemma {:induction false} NoneKept(s: string, sub: string, keep: set<int>)
    requires sub != "" && forall p | 0 <= p <= |s| && At(s, p, sub) :: |s| - p !in keep
    ensures KeptCount(s, sub, keep) == 0
    decreases |s|
  {
    hide Index;
    var i := Index(s, sub);
    IndexLeast(s, sub);
    if i >= 0 {
      var rest := s[i + |sub|..];
      assert s == s[..i + |sub|] + rest;
      forall p | 0 <= p <= |rest| && At(rest, p, sub) ensures |rest| - p !in keep {
        AtConcat(s[..i + |sub|], rest, p, sub);
        assert |s| - (i + |sub| + p) == |rest| - p;
      }
      NoneKept(rest, sub, keep);
    }
  }

  /** No aligned occurrence of a secret with a line break is spared. */
  lemma SpanningIsNotSpared(body: string, secret: string, marked: bool)
    requires secret != "" && !NoBreak(secret, LINE_BREAKS) && Aligned(body, secret)
    ensures KeptCount(body, secret, Spared(body, secret, marked)) == 0
  {
    hide KeptCount, Aligned, Spared, NoBreak;
    forall p | 0 <= p <= |body| && At(body, p, secret) ensures |body| - p !in Spared(body, secret, marked) {
      SpanningOccurrence(body, secret, marked, p);
    }
    NoneKept(body, secret, Spared(body, secret, marked));
  }

  lemma SpanningOccurrence(body: string, secret: string, marked: bool, p: nat)
    requires secret != "" && !NoBreak(secret, LINE_BREAKS) && Aligned(body, secret) && At(body, p, secret)
    ensures |body| - p !in Spared(body, secret, marked)
  {
    hide Esc, AllowedFrom, Aligned, BreakAt;
    var q :| 0 <= q < |secret| && BreakAt(secret, q, LINE_BREAKS);
    AlignedStart(body, p, secret);
    CutAt(body, p, secret);
    BreakInside(body[..p], secret, body[p + |secret|..], q);
    SpanningIsNeverAllowed(body, p, p + |secret|, p + q);
  }

  lemma BreakInside(front: string, secret: string, behind: string, q: nat)
    requires !Esc(false, front) && BreakAt(secret, q, LINE_BREAKS)
    ensures BreakAt(front + secret + behind, |front| + q, LINE_BREAKS)
  {
    assert (secret + behind)[..q] == secret[..q];
    BreakShift(front, secret + behind, q, LINE_BREAKS);
    assert front + secret + behind == front + (secret + behind);
  }
}
