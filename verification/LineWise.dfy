/** The substitution that respects allow markers, line by line: lines with a marker stay as they are,
    and the others lose every secret. */
module LineWise {
  import opened Text
  import opened Escapes
  import opened StringBody
  import opened Breaks
  import opened Masking
  import opened Markers

  /** Every occurrence of t starts outside an escape. */
  ghost predicate Aligned(body: string, t: string) {
    forall i | 0 <= i <= |body| && At(body, i, t) :: !Inside(body[..i])
  }

  lemma AlignedStart(body: string, i: nat, t: string)
    requires Aligned(body, t) && At(body, i, t)
    ensures !Esc(false, body[..i])
  {
  }

  /** A trimmed secret that stays on one line of the decoded string. */
  ghost predicate OneLine(secret: string) {
    secret != "" && !Esc(false, secret) && NoBreak(secret, LINE_BREAKS)
  }

  /** The lines of the decoded string, in their encoded form. */
  function Lines(body: string): (lines: seq<string>)
    ensures |lines| >= 1
  {
    var line := BeforeEscape(body, LINE_BREAKS);
    if line == body then [body] else [line] + Lines(body[|line| + 2..])
  }

  /** What one line becomes. */
  function MaskLine(line: string, secret: string, placeholder: string): string
    requires secret != ""
  {
    if HasAllowMarker(line) then line else ReplaceAll(line, secret, placeholder)
  }

  /** The reference substitution: each line on its own. */
  function MaskLines(body: string, secret: string, placeholder: string): string
    requires secret != ""
    decreases |body|
  {
    var line := BeforeEscape(body, LINE_BREAKS);
    if line == body then MaskLine(line, secret, placeholder)
    else MaskLine(line, secret, placeholder) + body[|line|..|line| + 2]
         + MaskLines(body[|line| + 2..], secret, placeholder)
  }

  // ---- Occurrences and lines ---------------------------------------------------------------------

  /** No occurrence crosses the cut between a and b. */
  ghost predicate Uncrossed(a: string, b: string, t: string) {
    forall i | 0 <= i <= |a + b| && At(a + b, i, t) :: i + |t| <= |a| || |a| <= i
  }

  /** The escape state behind an aligned start is that of the text in between. */
  lemma EscBetween(body: string, i: nat, j: nat)
    requires i <= j <= |body| && !Esc(false, body[..i])
    ensures Esc(false, body[..j]) == Esc(false, body[i..j])
  {
    assert body[..j] == body[..i] + body[i..j];
    EscConcat(false, body[..i], body[i..j]);
  }

  /** An aligned occurrence of a one-line secret lies on one side of a line break. */
  lemma BesideBreak(body: string, b: nat, i: nat, secret: string)
    requires OneLine(secret) && At(body, i, secret) && !Esc(false, body[..i])
    requires BreakAt(body, b, LINE_BREAKS)
    ensures i + |secret| <= b || b + 2 <= i
  {
    if i == b + 1 {
      assert body[..i] == body[..b] + "\\";
      EscOpened(body[..b]);
    } else if i <= b < i + |secret| {
      var q := b - i;
      AtChar(body, i, secret, q);
      assert secret[..q] == body[i..b];
      EscBetween(body, i, b);
      if q + 1 < |secret| {
        AtChar(body, i, secret, q + 1);
        assert BreakAt(secret, q, LINE_BREAKS);
      } else {
        assert secret == secret[..q] + "\\";
        EscOpened(secret[..q]);
      }
    }
  }

  /** A line break and the text behind it leave the escape state as the text alone does. */
  lemma BehindBreak(body: string, b: nat)
    requires BreakAt(body, b, LINE_BREAKS)
    ensures !Esc(false, body[..b + 2])
  {
    assert body[..b + 2] == body[..b] + body[b..b + 2];
    EscConcat(false, body[..b], body[b..b + 2]);
    UnitClosed(body[b..b + 2]);
  }

  lemma AlignedBehind(body: string, n: nat, t: string)
    requires n <= |body| && !Esc(false, body[..n]) && Aligned(body, t)
    ensures Aligned(body[n..], t)
  {
    forall i | 0 <= i <= |body[n..]| && At(body[n..], i, t) ensures !Inside(body[n..][..i]) {
      assert body == body[..n] + body[n..];
      AtConcat(body[..n], body[n..], i, t);
      assert body[..n + i] == body[..n] + body[n..][..i];
      if Inside(body[n..][..i]) { InsideBehind(body[..n], body[n..][..i]); }
    }
  }

  /** Allowed lines hold no line break. */
  lemma {:induction false} AllowedHoldNoBreak(body: string, start: nat, b: nat, span: Span)
    requires start <= |body| && !Esc(false, body[..start]) && BreakAt(body, b, LINE_BREAKS)
    requires span in AllowedFrom(body, start)
    ensures b < span.start || span.end <= b
    decreases |body| - start
  {
    hide AllowedFrom, BeforeEscape, HasAllowMarker, Esc;
    var line := BeforeEscape(body[start..], LINE_BREAKS);
    AllowedUnfold(body, start, line);
    var next := start + |line| + 2;
    LineHoldsNoBreak(body, start, line, b);
    if span != Span(start, start + |line|) {
      if next <= |body| {
        AllowedHoldNoBreak(body, next, b, span);
      } else {
        NothingBehind(body, next);
      }
    }
  }

  lemma LineHoldsNoBreak(body: string, start: nat, line: string, b: nat)
    requires start <= |body| && !Esc(false, body[..start]) && BreakAt(body, b, LINE_BREAKS)
    requires line == BeforeEscape(body[start..], LINE_BREAKS)
    ensures b < start || start + |line| <= b
    ensures start + |line| + 2 <= |body| ==> !Esc(false, body[..start + |line| + 2])
  {
    hide BeforeEscape, Esc;
    var front, text := body[..start], body[start..];
    CutIsFirstBreak(text, LINE_BREAKS);
    assert body == front + text;
    if start <= b {
      BreakShift(front, text, b - start, LINE_BREAKS);
      if line != text && b - start < |line| {
        assert text == line + text[|line|..];
        BreakPrefix(line, text[|line|..], b - start, LINE_BREAKS);
      }
    }
    if line != text {
      BehindBreak(text, |line|);
      assert body[..start + |line| + 2] == front + text[..|line| + 2];
      EscConcat(false, front, text[..|line| + 2]);
    }
  }

  /** An occurrence with a line break in it never lies within an allowed line, so it is always substituted. */
  lemma SpanningIsNeverAllowed(body: string, i: int, j: int, b: nat)
    requires BreakAt(body, b, LINE_BREAKS) && i <= b < j
    ensures !Within(AllowedFrom(body, 0), i, j)
  {
    assert body[..0] == "";
    forall span | span in AllowedFrom(body, 0) ensures !(span.start <= i && j <= span.end) {
      AllowedHoldNoBreak(body, 0, b, span);
    }
  }

  // ---- A substitution splits where no occurrence crosses -------------------------------------------

  lemma IndexUncrossed(a: string, b: string, t: string)
    requires t != "" && Uncrossed(a, b, t)
    ensures Index(a, t) >= 0 ==> Index(a + b, t) == Index(a, t)
    ensures Index(a, t) < 0 && Index(b, t) >= 0 ==> Index(a + b, t) == |a| + Index(b, t)
    ensures Index(a, t) < 0 && Index(b, t) < 0 ==> Index(a + b, t) < 0
  {
    IndexLeast(a, t);
    IndexLeast(b, t);
    IndexLeast(a + b, t);
    var i := Index(a + b, t);
    if i >= 0 { AtConcat(a, b, i, t); }
    if Index(a, t) >= 0 { AtConcat(a, b, Index(a, t), t); }
    if Index(b, t) >= 0 { AtConcat(a, b, Index(b, t), t); }
  }

  lemma UncrossedTail(a: string, b: string, n: nat, t: string)
    requires n <= |a| && Uncrossed(a, b, t)
    ensures Uncrossed(a[n..], b, t)
  {
    assert a + b == a[..n] + (a[n..] + b);
    forall i | 0 <= i <= |a[n..] + b| && At(a[n..] + b, i, t) ensures i + |t| <= |a[n..]| || |a[n..]| <= i {
      AtConcat(a[..n], a[n..] + b, i, t);
      assert At(a + b, n + i, t);
    }
  }

  /** The occurrences of t in a, followed by b, are all kept or all substituted. */
  ghost predicate Uniform(a: string, b: string, t: string, keep: set<int>, kept: bool) {
    forall p | 0 <= p <= |a| && At(a, p, t) :: (|a| - p + |b| in keep) == kept
  }

  lemma UniformTail(a: string, b: string, n: nat, t: string, keep: set<int>, kept: bool)
    requires n <= |a| && Uniform(a, b, t, keep, kept)
    ensures Uniform(a[n..], b, t, keep, kept)
  {
    assert a == a[..n] + a[n..];
    forall p | 0 <= p <= |a[n..]| && At(a[n..], p, t) ensures (|a[n..]| - p + |b| in keep) == kept {
      AtConcat(a[..n], a[n..], p, t);
      assert |a| - (n + p) + |b| == |a[n..]| - p + |b|;
    }
  }

  /** The substitution passes over a prefix that holds no occurrence. */
  lemma WeaveOver(a: string, b: string, t: string, mask: string, keep: set<int>)
    requires t != "" && Uncrossed(a, b, t) && Index(a, t) < 0
    ensures Weave(a + b, t, mask, keep) == a + Weave(b, t, mask, keep)
  {
    hide Text.Weave, Text.Index, Uncrossed;
    IndexUncrossed(a, b, t);
    var j := Index(b, t);
    if j < 0 {
      WeaveNone(a + b, t, mask, keep);
      WeaveNone(b, t, mask, keep);
    } else {
      var rest := b[j + |t|..];
      assert (a + b)[|a| + j + |t|..] == rest && (a + b)[..|a| + j] == a + b[..j];
      WeaveUnfold(a + b, t, mask, keep, |a| + j, rest, |b| - j);
      WeaveUnfold(b, t, mask, keep, j, rest, |b| - j);
      Reassociate(a, b[..j], if |b| - j in keep then t else mask, Weave(rest, t, mask, keep));
    }
  }

  lemma {:induction false} WeavePrefix(a: string, b: string, t: string, mask: string, keep: set<int>, kept: bool)
    requires t != "" && Uncrossed(a, b, t) && Uniform(a, b, t, keep, kept)
    ensures Weave(a + b, t, mask, keep) ==
            (if kept then a else ReplaceAll(a, t, mask)) + Weave(b, t, mask, keep)
    decreases |a|
  {
    var i := Index(a, t);
    if i < 0 {
      WeaveOver(a, b, t, mask, keep);
    } else {
      IndexLeast(a, t);
      UncrossedTail(a, b, i + |t|, t);
      UniformTail(a, b, i + |t|, t, keep, kept);
      WeavePrefix(a[i + |t|..], b, t, mask, keep, kept);
      WeavePrefixStep(a, b, t, mask, keep, kept, i, a[i + |t|..]);
    }
  }

  lemma WeavePrefixStep(
      a: string, b: string, t: string, mask: string, keep: set<int>, kept: bool, i: nat, rest: string)
    requires t != "" && Uncrossed(a, b, t) && Uniform(a, b, t, keep, kept)
    requires i == Index(a, t) && rest == a[i + |t|..]
    requires Weave(rest + b, t, mask, keep) ==
             (if kept then rest else ReplaceAll(rest, t, mask)) + Weave(b, t, mask, keep)
    ensures Weave(a + b, t, mask, keep) ==
            (if kept then a else ReplaceAll(a, t, mask)) + Weave(b, t, mask, keep)
  {
    hide Text.Weave, Text.Index, Uncrossed;
    IndexUncrossed(a, b, t);
    IndexLeast(a, t);
    assert (a + b)[i + |t|..] == rest + b && (a + b)[..i] == a[..i];
    WeaveUnfold(a + b, t, mask, keep, i, rest + b, |a| - i + |b|);
    WeaveUnfold(a, t, mask, {}, i, rest, |a| - i);
    CutAt(a, i, t);
    Regroup(a[..i], if kept then t else mask, if kept then rest else ReplaceAll(rest, t, mask),
            Weave(b, t, mask, keep));
  }

  lemma Regroup(a: string, b: string, c: string, d: string)
    ensures a + b + (c + d) == (a + b + c) + d
  {
  }

  // ---- The substitution is line by line -----------------------------------------------------------

  /** The first line of a body with more than one, its break, and the rest. */
  lemma FirstLine(body: string) returns (line: string, brk: string, rest: string)
    requires BeforeEscape(body, LINE_BREAKS) != body
    ensures line == BeforeEscape(body, LINE_BREAKS) && NoBreak(line, LINE_BREAKS)
    ensures |line| + 2 <= |body| && brk == body[|line|..|line| + 2] && rest == body[|line| + 2..]
    ensures |brk| == 2 && body == line + brk + rest
    ensures BreakAt(body, |line|, LINE_BREAKS) && BreakAt(brk + rest, 0, LINE_BREAKS)
    ensures !Esc(false, line) && !Esc(false, line + brk)
  {
    hide BeforeEscape, Esc, NoBreak;
    line := BeforeEscape(body, LINE_BREAKS);
    CutIsFirstBreak(body, LINE_BREAKS);
    brk, rest := body[|line|..|line| + 2], body[|line| + 2..];
    BehindBreak(body, |line|);
    assert line == body[..|line|] && brk + rest == body[|line|..];
    assert line + brk == body[..|line| + 2];
    assert body == line + (brk + rest);
    BreakShift(line, brk + rest, 0, LINE_BREAKS);
  }

  lemma {:induction false} AllowedBounds(body: string, start: nat)
    ensures forall span | span in AllowedFrom(body, start) :: start <= span.start
    decreases |body| + 2 - start
  {
    if start <= |body| {
      AllowedBounds(body, start + |BeforeEscape(body[start..], LINE_BREAKS)| + 2);
    }
  }

  /** Which occurrences at or behind start are kept: those within an allowed line. */
  ghost predicate KeepsAllowed(body: string, start: nat, n: nat, keep: set<int>) {
    forall d | 0 <= d <= |body| - start ::
      d in keep <==> WithinBack(AllowedFrom(body, start), |body|, n, d)
  }

  /** Behind the first line, only the later lines matter. */
  lemma KeepsAllowedBehind(body: string, start: nat, line: string, n: nat, keep: set<int>)
    requires start <= |body| && n > 0 && KeepsAllowed(body, start, n, keep)
    requires line == BeforeEscape(body[start..], LINE_BREAKS)
    ensures KeepsAllowed(body, start + |line| + 2, n, keep)
  {
    AllowedUnfold(body, start, line);
    hide AllowedFrom, BeforeEscape, HasAllowMarker;
    var spans, later := AllowedFrom(body, start), AllowedFrom(body, start + |line| + 2);
    forall d | 0 <= d <= |body| - (start + |line| + 2)
      ensures WithinBack(spans, |body|, n, d) <==> WithinBack(later, |body|, n, d)
    {
      assert forall span | span in later :: span in spans;
    }
  }

  /** The occurrences on the first line are kept exactly when it carries a marker. */
  lemma FirstLineUniform(body: string, start: nat, line: string, rest: string, t: string, keep: set<int>)
    requires start <= |body| && t != "" && KeepsAllowed(body, start, |t|, keep)
    requires line == BeforeEscape(body[start..], LINE_BREAKS) && body[start..] == line + rest
    ensures Uniform(line, rest, t, keep, HasAllowMarker(line))
  {
    AllowedBounds(body, start + |line| + 2);
    AllowedUnfold(body, start, line);
    hide AllowedFrom, BeforeEscape, HasAllowMarker;
    var spans, later := AllowedFrom(body, start), AllowedFrom(body, start + |line| + 2);
    forall p | 0 <= p <= |line| && At(line, p, t) ensures (|line| - p + |rest| in keep) == HasAllowMarker(line) {
      var d := |line| - p + |rest|;
      assert |body| - d == start + p;
      if HasAllowMarker(line) {
        assert spans[0] in spans;
      }
      assert WithinBack(spans, |body|, |t|, d) <==> HasAllowMarker(line);
    }
  }

  /** replaceOutsideAllowedLines agrees with the line-by-line reference, from any line start on. */
  lemma {:induction false} WeaveIsMaskLines(body: string, start: nat, t: string, mask: string, keep: set<int>)
    requires OneLine(t) && start <= |body| && Aligned(body[start..], t)
    requires KeepsAllowed(body, start, |t|, keep)
    ensures Weave(body[start..], t, mask, keep) == MaskLines(body[start..], t, mask)
    decreases |body| - start
  {
    hide Text.Weave, Text.Index, BeforeEscape, HasAllowMarker, KeepsAllowed, NoBreak, Esc, Uniform, MaskLines, Aligned;
    var text := body[start..];
    MaskLinesUnfold(text, t, mask);
    if BeforeEscape(text, LINE_BREAKS) == text {
      assert text == text + "";
      FirstLineUniform(body, start, text, "", t, keep);
      WeaveLastLine(text, t, mask, keep);
    } else {
      var line, brk, rest := FirstLine(text);
      FirstLineUniform(body, start, line, brk + rest, t, keep);
      assert text == line + (brk + rest);
      WeaveFirstLine(line, brk, rest, t, mask, keep);
      assert text[..|line| + 2] == line + brk;
      AlignedBehind(text, |line| + 2, t);
      KeepsAllowedBehind(body, start, line, |t|, keep);
      assert rest == body[start + |line| + 2..];
      WeaveIsMaskLines(body, start + |line| + 2, t, mask, keep);
    }
  }

  lemma MaskLinesUnfold(text: string, t: string, mask: string)
    requires t != ""
    ensures BeforeEscape(text, LINE_BREAKS) == text ==> MaskLines(text, t, mask) == MaskLine(text, t, mask)
    ensures var line := BeforeEscape(text, LINE_BREAKS);
      line != text ==>
        && |line| + 2 <= |text|
        && MaskLines(text, t, mask) ==
             MaskLine(line, t, mask) + text[|line|..|line| + 2] + MaskLines(text[|line| + 2..], t, mask)
  {
    hide MaskLine;
  }

  lemma WeaveLastLine(line: string, t: string, mask: string, keep: set<int>)
    requires t != "" && Uniform(line, "", t, keep, HasAllowMarker(line))
    ensures Weave(line, t, mask, keep) == MaskLine(line, t, mask)
  {
    hide Text.Weave, HasAllowMarker;
    assert line + "" == line;
    IndexLeast("", t);
    WeaveNone("", t, mask, keep);
    WeavePrefix(line, "", t, mask, keep, HasAllowMarker(line));
  }

  lemma WeaveFirstLine(line: string, brk: string, rest: string, t: string, mask: string, keep: set<int>)
    requires OneLine(t) && |brk| == 2 && Aligned(line + brk + rest, t)
    requires BreakAt(line + brk + rest, |line|, LINE_BREAKS)
    requires Uniform(line, brk + rest, t, keep, HasAllowMarker(line))
    ensures Weave(line + brk + rest, t, mask, keep) ==
            MaskLine(line, t, mask) + brk + Weave(rest, t, mask, keep)
  {
    hide Text.Weave, HasAllowMarker;
    UncrossedAtBreak(line, brk, rest, t);
    WeavePrefix(line, brk + rest, t, mask, keep, HasAllowMarker(line));
    WeaveOver(brk, rest, t, mask, keep);
    assert line + brk + rest == line + (brk + rest);
    assert MaskLine(line, t, mask) + (brk + Weave(rest, t, mask, keep))
        == MaskLine(line, t, mask) + brk + Weave(rest, t, mask, keep);
  }

  lemma UncrossedAtBreak(line: string, brk: string, rest: string, t: string)
    requires OneLine(t) && |brk| == 2 && Aligned(line + brk + rest, t)
    requires BreakAt(line + brk + rest, |line|, LINE_BREAKS)
    ensures Uncrossed(line, brk + rest, t) && Uncrossed(brk, rest, t) && Index(brk, t) < 0
  {
    var text := line + brk + rest;
    assert text == line + (brk + rest);
    forall i | 0 <= i <= |text| && At(text, i, t) ensures i + |t| <= |line| || |line| + 2 <= i {
      BesideBreak(text, |line|, i, t);
    }
    forall i | 0 <= i <= |brk + rest| && At(brk + rest, i, t) ensures |brk| <= i {
      AtConcat(line, brk + rest, i, t);
    }
    IndexLeast(brk, t);
    AtConcat(brk, rest, Index(brk, t), t);
  }

  lemma MaskLinesSpec(body: string, t: string, mask: string)
    requires OneLine(t) && Aligned(body, t)
    ensures Weave(body, t, mask, Kept(body, |t|)) == MaskLines(body, t, mask)
  {
    assert body[0..] == body;
    WeaveIsMaskLines(body, 0, t, mask, Kept(body, |t|));
  }

  // ---- What substitution keeps ----------------------------------------------------------------------

  lemma AlignedPrefix(a: string, b: string, t: string)
    requires Aligned(a + b, t)
    ensures Aligned(a, t)
  {
    forall i | 0 <= i <= |a| && At(a, i, t) ensures !Inside(a[..i]) {
      AtConcat(a, b, i, t);
      assert (a + b)[..i] == a[..i];
    }
  }

  /** Aligned occurrences around an inserted placeholder. */
  lemma AlignedAround(a: string, mask: string, b: string, t: string)
    requires Bracketed(mask) && Apart(t, mask) && Aligned(a, t) && Aligned(b, t)
    ensures Aligned(a + mask + b, t)
  {
    var s := a + mask + b;
    forall i | 0 <= i <= |s| && At(s, i, t) ensures !Inside(s[..i]) {
      Beside(a, mask, b, i, t);
      if At(a, i, t) {
        assert s[..i] == a[..i];
      } else {
        var j := i - |a| - |mask|;
        assert s[..i] == (a + mask) + b[..j];
        InsideBehindBracket(a + mask, b[..j]);
      }
    }
  }

  /** Substituting aligned secrets leaves the other secrets aligned. */
  lemma {:induction false} StaysAligned(
      u: string, s: string, sub: string, mask: string, keep: set<int>, t: string)
    requires sub != "" && !Esc(false, sub) && Aligned(u + s, sub)
    requires Bracketed(mask) && Apart(t, mask) && Aligned(u + s, t)
    ensures Aligned(u + Weave(s, sub, mask, keep), t)
    decreases |s|
  {
    hide Text.Weave, Text.Index, Esc, KeptCount, Aligned, Inside, Apart, Contains;
    if Index(s, sub) < 0 {
      WeaveNone(s, sub, mask, keep);
    } else {
      var a, kept, rest, tail := WeaveStep(u, s, sub, mask, keep);
      if kept {
        StaysAligned(a + sub, rest, sub, mask, keep, t);
      } else {
        ClosedBehind(a, sub, rest);
        AlignedBehindConcat(a + sub, rest, sub);
        AlignedBehindConcat(a + sub, rest, t);
        assert "" + rest == rest && "" + tail == tail;
        StaysAligned("", rest, sub, mask, keep, t);
        assert a + sub + rest == a + (sub + rest);
        AlignedPrefix(a, sub + rest, t);
        AlignedAround(a, mask, tail, t);
      }
    }
  }

  /** No escape is open before or behind an aligned, trimmed occurrence. */
  lemma ClosedBehind(a: string, sub: string, rest: string)
    requires !Esc(false, sub) && Aligned(a + sub + rest, sub)
    ensures !Inside(a) && !Esc(false, a) && !Esc(false, a + sub)
  {
    var s := a + sub + rest;
    assert s[|a|..|a| + |sub|] == sub && s[..|a|] == a;
    assert At(s, |a|, sub);
    EscConcat(false, a, sub);
  }

  lemma AlignedBehindConcat(a: string, b: string, t: string)
    requires !Esc(false, a) && Aligned(a + b, t)
    ensures Aligned(b, t)
  {
    assert (a + b)[..|a|] == a && (a + b)[|a|..] == b;
    AlignedBehind(a + b, |a|, t);
  }

  // ---- Lines of the substituted text ------------------------------------------------------------------

  /** A text that can stand on one line: no line break, no escape left open. */
  ghost predicate LineText(s: string) {
    !Esc(false, s) && NoBreak(s, LINE_BREAKS)
  }

  lemma LineTextConcat(a: string, b: string)
    requires !Esc(false, a)
    ensures LineText(a + b) <==> LineText(a) && LineText(b)
  {
    EscConcat(false, a, b);
    NoBreakConcat(a, b, LINE_BREAKS);
  }

  /** Substitution neither adds nor removes a line break. */
  lemma {:induction false} ReplaceStaysOneLine(line: string, t: string, mask: string)
    requires OneLine(t) && Aligned(line, t) && LineText(line) && LineText(mask)
    ensures LineText(ReplaceAll(line, t, mask))
    decreases |line|
  {
    hide Text.Weave, Text.Index, Esc, KeptCount, NoBreak;
    if Index(line, t) < 0 {
      WeaveNone(line, t, mask, {});
    } else {
      assert "" + line == line && "" + ReplaceAll(line, t, mask) == ReplaceAll(line, t, mask);
      var a, kept, rest, tail := WeaveStep("", line, t, mask, {});
      ClosedBehind(a, t, rest);
      LineTextConcat(a + t, rest);
      LineTextConcat(a, t);
      AlignedBehindConcat(a + t, rest, t);
      ReplaceStaysOneLine(rest, t, mask);
      LineTextConcat(a, mask);
      LineTextConcat(a + mask, tail);
    }
  }

  /** The lines of the result are the lines of the body, each substituted on its own. */
  lemma {:induction false} LinesOfMasked(body: string, t: string, mask: string)
    requires OneLine(t) && Aligned(body, t) && !Esc(false, body) && LineText(mask)
    ensures |Lines(MaskLines(body, t, mask))| == |Lines(body)|
    ensures forall k | 0 <= k < |Lines(body)| ::
      Lines(MaskLines(body, t, mask))[k] == MaskLine(Lines(body)[k], t, mask)
    decreases |body|
  {
    hide BeforeEscape, MaskLine, Esc, NoBreak, Aligned;
    var line := BeforeEscape(body, LINE_BREAKS);
    if line == body {
      CutIsFirstBreak(body, LINE_BREAKS);
      MaskLineText(body, t, mask);
      WholeLine(MaskLine(body, t, mask));
    } else {
      var l, brk, rest := FirstLine(body);
      assert line + brk + rest == line + (brk + rest);
      AlignedPrefix(line, brk + rest, t);
      MaskLineText(line, t, mask);
      AlignedBehindConcat(line + brk, rest, t);
      EscConcat(false, line + brk, rest);
      LinesOfMasked(rest, t, mask);
      var masked := MaskLine(line, t, mask);
      LinesUnfold(masked, brk, MaskLines(rest, t, mask));
      BreakHead(brk, rest, MaskLines(rest, t, mask));
    }
  }

  lemma MaskLineText(line: string, t: string, mask: string)
    requires OneLine(t) && Aligned(line, t) && LineText(line) && LineText(mask)
    ensures LineText(MaskLine(line, t, mask))
  {
    if !HasAllowMarker(line) { ReplaceStaysOneLine(line, t, mask); }
  }

  lemma WholeLine(line: string)
    requires LineText(line)
    ensures Lines(line) == [line]
  {
    CutIsFirstBreak(line, LINE_BREAKS);
  }

  lemma BreakHead(brk: string, rest: string, rest': string)
    requires |brk| == 2
    ensures BreakAt(brk + rest, 0, LINE_BREAKS) == BreakAt(brk + rest', 0, LINE_BREAKS)
  {
    assert (brk + rest)[..0] == (brk + rest')[..0];
  }

  lemma LinesUnfold(line: string, brk: string, rest: string)
    requires LineText(line) && |brk| == 2 && BreakAt(brk + rest, 0, LINE_BREAKS)
    ensures Lines(line + brk + rest) == [line] + Lines(rest)
  {
    assert line + brk + rest == line + (brk + rest);
    CutBeforeBreak(line, brk + rest, LINE_BREAKS);
    assert (line + brk + rest)[|line| + 2..] == rest;
  }
}
