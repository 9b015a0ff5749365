/** What a pass does to the marked lines of a leaf: it keeps them all, in order and verbatim, and clears every other
    line of the pending secrets, if and only if no substituted occurrence takes a line break from one of them. */
module MarkedLeaves {
  import opened Text
  import opened Escapes
  import opened StringBody
  import opened Breaks
  import opened Masking
  import opened Markers
  import opened LineWise
  import opened Pending
  import opened Leaf
  import opened LeafLines
  import opened LineCounts
  import opened Survival
  import opened Occurrences
  import opened LinePositions
  import opened MarkedLines
  import opened Rebuilding

  // ---- One secret ------------------------------------------------------------------------------------------

  /** A substituted occurrence of secret holds the line break in front of a marked line of the body, or behind one. */
  ghost predicate TakesBreak(body: string, secret: string, marked: bool)
    requires secret != ""
  {
    exists p: nat | p <= |body| && SubstitutedAt(body, secret, Spared(body, secret, marked), p) ::
      Hits(body, 0, p, |secret|)
  }

  /** Clean cuts lie where no escape is open. The text f in front of the prefix u is what was written before. */
  lemma {:induction false} CleanIsClosed(f: string, u: string, s: string, sub: string, keep: set<int>)
    requires sub != "" && !Esc(false, sub) && !Esc(false, f) && CleanCuts(u, s, sub, keep)
    ensures forall p | 0 <= p <= |s| && SubstitutedAt(s, sub, keep, p) :: !Esc(false, f + u + s[..p])
    decreases |s|
  {
    hide Esc, MidCode, Index, CleanCuts, SubstitutedAt;
    var i := Index(s, sub);
    if i < 0 {
      forall p ensures !SubstitutedAt(s, sub, keep, p) { SubstitutedUnfold(s, sub, keep, i, "", p); }
    } else {
      IndexLeast(s, sub);
      CutAt(s, i, sub);
      var a, rest := u + s[..i], s[i + |sub|..];
      CleanUnfold(u, s, sub, keep, i, a, rest, |s| - i);
      EscConcat(false, f, a);
      EscConcat(false, f + a, sub);
      var f', u' := if |s| - i in keep then f else f + a + sub, if |s| - i in keep then a + sub else "";
      CleanIsClosed(f', u', rest, sub, keep);
      forall p | 0 <= p <= |s| && SubstitutedAt(s, sub, keep, p) ensures !Esc(false, f + u + s[..p]) {
        SubstitutedUnfold(s, sub, keep, i, rest, p);
        if p == i && |s| - i !in keep {
          assert f + u + s[..p] == f + a;
        } else {
          SubstitutedInText(rest, sub, keep, p - i - |sub|);
          assert s[..p] == s[..i] + sub + rest[..p - i - |sub|];
          assert f + u + s[..p] == f' + u' + rest[..p - i - |sub|];
        }
      }
    }
  }

  /** The substitution of sr in body. */
  ghost function JobOf(cfg: Config, sr: SecretRule, all: seq<SecretRule>, body: string): Job {
    Job(body, sr.secret, Mask(cfg, sr.ruleID), Masks(cfg, all))
  }

  /** A secret of a list whose turn it is. */
  ghost predicate Turn(cfg: Config, sr: SecretRule, all: seq<SecretRule>, marked: bool, body: string) {
    && LineSafe(cfg, all) && sr in all && sr.secret != "" && WellEncoded(body) && (HasAllowMarker(body) ==> marked)
    && CleanCuts("", body, sr.secret, Spared(body, sr.secret, marked))
  }

  lemma SparedByMarkers(body: string, secret: string, marked: bool)
    requires HasAllowMarker(body) ==> marked
    ensures Spared(body, secret, marked) == Kept(body, |secret|)
  {
    hide AllowedFrom, HasAllowMarker;
    if !marked { NothingAllowed(body, 0); }
  }

  lemma JobIsReady(cfg: Config, sr: SecretRule, all: seq<SecretRule>, body: string)
    requires LineSafe(cfg, all) && sr in all && sr.secret != "" && WellEncoded(body)
    ensures Ready(JobOf(cfg, sr, all, body))
  {
    hide Esc, WellEncoded, LineText, HasAllowMarker, Apart, Mask;
    WellEncodedClosed(body);
    MarkersApart(Mask(cfg, sr.ruleID));
  }

  lemma TurnIsGood(cfg: Config, sr: SecretRule, all: seq<SecretRule>, marked: bool, body: string)
    requires Turn(cfg, sr, all, marked, body)
    ensures var j := JobOf(cfg, sr, all, body);
      && Good(j, Begin()) && Out(j, Begin()) == StepBody(cfg, sr, marked, body)
      && Due(j, Begin()) == MarkedOf(Lines(body)) && (Bad(j, Begin()) <==> TakesBreak(body, sr.secret, marked))
  {
    hide Esc, WellEncoded, LineText, HasAllowMarker, Apart, Mask, SubstitutedAt, Kept, Spared, Text.Weave, CleanCuts,
         Lines, MarkedOf, Hits, LineStop, Occ;
    var j := JobOf(cfg, sr, all, body);
    JobIsReady(cfg, sr, all, body);
    SparedByMarkers(body, sr.secret, marked);
    assert body[0..] == body && body[..0] == "" && body[0..0] == "";
    EscNothing();
    UnmarkedNothing();
    CleanIsClosed("", "", body, sr.secret, KeepOf(j));
    forall p: nat | p <= |body| && Takes(j, 0, p) ensures !Esc(false, body[..p]) {
      assert "" + "" + body[..p] == body[..p];
    }
    assert forall p: nat :: Takes(j, 0, p) <==> SubstitutedAt(body, sr.secret, KeepOf(j), p);
    assert [] + MarkedOf(Lines(body)) == MarkedOf(Lines(body));
    assert "" + "" + Weave(body, j.sub, j.mask, KeepOf(j)) == Weave(body, j.sub, j.mask, KeepOf(j));
  }

  /** One secret, on one line or not and aligned or not: the marked lines survive its turn if and only if none of its
      substituted occurrences takes a line break from one of them. */
  lemma TurnKeepsMarkedIff(cfg: Config, sr: SecretRule, all: seq<SecretRule>, marked: bool, body: string)
    requires Turn(cfg, sr, all, marked, body)
    ensures MarkedOf(Lines(StepBody(cfg, sr, marked, body))) == MarkedOf(Lines(body)) <==>
            !TakesBreak(body, sr.secret, marked)
  {
    hide StepBody, MarkedOf, Lines, TakesBreak, Ledger, CleanCuts, WellEncoded, LineSafe, HasAllowMarker;
    TurnLedger(cfg, sr, all, marked, body);
    LedgerIff(Masks(cfg, all), MarkedOf(Lines(StepBody(cfg, sr, marked, body))), MarkedOf(Lines(body)),
              TakesBreak(body, sr.secret, marked));
  }

  lemma TurnLedger(cfg: Config, sr: SecretRule, all: seq<SecretRule>, marked: bool, body: string)
    requires Turn(cfg, sr, all, marked, body)
    ensures Ledger(Masks(cfg, all), MarkedOf(Lines(StepBody(cfg, sr, marked, body))), MarkedOf(Lines(body)),
                   TakesBreak(body, sr.secret, marked))
  {
    hide Turn, StepBody, MarkedOf, Lines, TakesBreak, Ledger, Good, Out, Due, Bad, Mask, Masks;
    TurnIsGood(cfg, sr, all, marked, body);
    Track(JobOf(cfg, sr, all, body), Begin());
  }

  /** Without taking a break, the turn clears the unmarked lines of its secret and brings no other string back. */
  lemma TurnClears(cfg: Config, sr: SecretRule, all: seq<SecretRule>, marked: bool, body: string, t: string)
    requires Turn(cfg, sr, all, marked, body) && !TakesBreak(body, sr.secret, marked)
    requires Foreign(cfg, all, t) && (t == sr.secret || Bare(Lines(body), t))
    ensures Bare(Lines(StepBody(cfg, sr, marked, body)), t)
  {
    hide StepBody, Lines, TakesBreak, Good, Out, Due, Bad, Mask, Masks, Apart, Bare, CleanCuts, WellEncoded, Contains;
    TurnIsGood(cfg, sr, all, marked, body);
    NothingHolds(t, Mask(cfg, sr.ruleID));
    assert body[0..] == body;
    TrackLacked(JobOf(cfg, sr, all, body), Begin(), t);
  }

  // ---- A list of secrets ------------------------------------------------------------------------------------

  /** At no turn does a substituted occurrence take a line break from a marked line. */
  ghost predicate NoBreakTaken(cfg: Config, secrets: seq<SecretRule>, marked: bool, body: string)
    requires NonEmpty(secrets)
    decreases |secrets|
  {
    secrets != [] ==>
      && !TakesBreak(body, secrets[0].secret, marked)
      && NoBreakTaken(cfg, secrets[1..], marked, StepBody(cfg, secrets[0], marked, body))
  }

  /** The rest of a list whose cuts are all clean. */
  ghost predicate Turns(cfg: Config, secrets: seq<SecretRule>, all: seq<SecretRule>, marked: bool, body: string) {
    && LineSafe(cfg, all) && NonEmpty(secrets) && (forall sr | sr in secrets :: sr in all)
    && WellEncoded(body) && (HasAllowMarker(body) ==> marked) && CleanThroughout(cfg, secrets, marked, body)
  }

  lemma TurnsTail(cfg: Config, secrets: seq<SecretRule>, all: seq<SecretRule>, marked: bool, body: string)
    requires secrets != [] && Turns(cfg, secrets, all, marked, body)
    ensures Turn(cfg, secrets[0], all, marked, body)
    ensures Turns(cfg, secrets[1..], all, marked, StepBody(cfg, secrets[0], marked, body))
  {
    hide Esc, WellEncoded, CleanCuts, StepBody, Apart, Spared, HasAllowMarker, LineText, Mask;
    var sr := secrets[0];
    assert sr in secrets && forall x | x in secrets[1..] :: x in secrets;
    StepStaysClean(cfg, sr, marked, body);
    assert LineSafe(cfg, secrets);
    if !HasAllowMarker(body) { StaysUnmarked(cfg, secrets, marked, body); }
  }

  lemma {:induction false} ApplyLedger(
      cfg: Config, secrets: seq<SecretRule>, all: seq<SecretRule>, marked: bool, body: string)
    requires Turns(cfg, secrets, all, marked, body)
    ensures Ledger(Masks(cfg, all), MarkedOf(Lines(Apply(cfg, secrets, marked, body).body)), MarkedOf(Lines(body)),
                   !NoBreakTaken(cfg, secrets, marked, body))
    decreases |secrets|
  {
    hide Turn, StepBody, MarkedOf, Lines, TakesBreak, Ledger, Mask, Masks, Apply, LineSafe, WellEncoded,
         CleanThroughout;
    ApplyBody(cfg, secrets, marked, body);
    if secrets == [] {
      NothingChanged(Masks(cfg, all), MarkedOf(Lines(body)));
    } else {
      var next := StepBody(cfg, secrets[0], marked, body);
      TurnsTail(cfg, secrets, all, marked, body);
      TurnLedger(cfg, secrets[0], all, marked, body);
      ApplyLedger(cfg, secrets[1..], all, marked, next);
      LedgerThen(Masks(cfg, all), MarkedOf(Lines(Apply(cfg, secrets, marked, body).body)), MarkedOf(Lines(next)),
                 MarkedOf(Lines(body)), !NoBreakTaken(cfg, secrets[1..], marked, next),
                 TakesBreak(body, secrets[0].secret, marked));
    }
  }

  lemma NothingChanged(masks: set<string>, lines: seq<string>)
    ensures Ledger(masks, lines, lines, false)
  {
    hide OccAll;
  }

  lemma {:induction false} ApplyClears(
      cfg: Config, secrets: seq<SecretRule>, all: seq<SecretRule>, marked: bool, body: string, t: string)
    requires Turns(cfg, secrets, all, marked, body) && NoBreakTaken(cfg, secrets, marked, body)
    requires Foreign(cfg, all, t) && (t in Secrets(secrets) || Bare(Lines(body), t))
    ensures Bare(Lines(Apply(cfg, secrets, marked, body).body), t)
    decreases |secrets|
  {
    hide Turn, StepBody, Lines, TakesBreak, Mask, Apply, LineSafe, WellEncoded, CleanThroughout, Bare, Apart, Contains;
    ApplyBody(cfg, secrets, marked, body);
    if secrets != [] {
      var sr, next := secrets[0], StepBody(cfg, secrets[0], marked, body);
      TurnsTail(cfg, secrets, all, marked, body);
      if t == sr.secret || Bare(Lines(body), t) {
        TurnClears(cfg, sr, all, marked, body, t);
      } else {
        assert secrets == [sr] + secrets[1..];
      }
      ApplyClears(cfg, secrets[1..], all, marked, next, t);
    }
  }

  // ---- A leaf --------------------------------------------------------------------------------------------------

  /** The marked lines of a leaf are the same before and after the pass, and no other line after it holds a pending
      secret. */
  ghost predicate MarkedLinesKept(cfg: Config, secrets: seq<SecretRule>, s: string, path: string)
    requires NonEmpty(secrets)
  {
    var before, after := Lines(Encode(s)), Lines(Encode(RedactedLeaf(cfg, secrets, s, path).out));
    MarkedOf(after) == MarkedOf(before) && forall t | t in Secrets(secrets) :: Bare(after, t)
  }

  /** The marked lines of a leaf survive the pass, and the other lines lose every pending secret, if and only if no
      substituted occurrence takes a line break from a marked line. */
  lemma MarkedLinesSurviveIff(cfg: Config, secrets: seq<SecretRule>, s: string, path: string)
    requires LineSafe(cfg, secrets) && NonEmpty(secrets) && cfg.allowMarkers && cfg.pathFilter(path)
    requires CleanThroughout(cfg, secrets, Marked(cfg, Encode(s)), Encode(s))
    ensures MarkedLinesKept(cfg, secrets, s, path) <==> NoBreakTaken(cfg, secrets, Marked(cfg, Encode(s)), Encode(s))
  {
    hide Lines, MarkedOf, Apply, CleanThroughout, NoBreakTaken, Encode, RedactedLeaf, HasAllowMarker, Separate, Ledger,
         WellEncoded, LineText, Bare;
    var body, marked := Encode(s), Marked(cfg, Encode(s));
    EncodeIsWellEncoded(s);
    CleanLeafIsRebuilt(cfg, secrets, s, path);
    ApplyLedger(cfg, secrets, secrets, marked, body);
    LedgerIff(Masks(cfg, secrets), MarkedOf(Lines(Apply(cfg, secrets, marked, body).body)), MarkedOf(Lines(body)),
              !NoBreakTaken(cfg, secrets, marked, body));
    if NoBreakTaken(cfg, secrets, marked, body) {
      forall sr | sr in secrets ensures Bare(Lines(Apply(cfg, secrets, marked, body).body), sr.secret) {
        SeparateIsForeign(cfg, secrets, sr);
        ApplyClears(cfg, secrets, secrets, marked, body, sr.secret);
      }
    }
  }

  /** With aligned secrets the leaf is rebuilt and its marked lines survive if no occurrence takes a break from them. */
  lemma MarkedLinesSurvive(cfg: Config, secrets: seq<SecretRule>, s: string, path: string)
    requires LineSafe(cfg, secrets) && NonEmpty(secrets) && cfg.allowMarkers && cfg.pathFilter(path)
    requires AllAligned(secrets, Encode(s)) && NoBreakTaken(cfg, secrets, Marked(cfg, Encode(s)), Encode(s))
    ensures MarkedLinesKept(cfg, secrets, s, path)
  {
    hide NoBreakTaken, Encode, RedactedLeaf, HasAllowMarker, Separate, CleanThroughout, AllAligned, MarkedLinesKept;
    AllAlignedIsClean(cfg, secrets, Marked(cfg, Encode(s)), Encode(s));
    MarkedLinesSurviveIff(cfg, secrets, s, path);
  }

  // ---- Occurrences that are left ---------------------------------------------------------------------------------

  /** If only marked lines hold t, then every occurrence of t lies within an allowed line. */
  lemma {:induction false} OccurrenceWithinAllowed(body: string, start: nat, i: nat, t: string)
    requires OneLine(t) && start <= |body| && Aligned(body[start..], t) && At(body[start..], i, t)
    requires Bare(Lines(body[start..]), t)
    ensures Within(AllowedFrom(body, start), start + i, start + i + |t|)
    decreases |body| - start
  {
    hide AllowedFrom, Lines, BeforeEscape, HasAllowMarker, Esc, Contains, NoBreak, Aligned;
    var text := body[start..];
    var line := BeforeEscape(text, LINE_BREAKS);
    LinesFirst(text, line);
    AlignedStart(text, i, t);
    if line != text {
      var l, brk, rest := FirstLine(text);
      assert text[..|line| + 2] == line + brk && rest == body[start + |line| + 2..];
      BesideBreak(text, |line|, i, t);
      assert text == line + (brk + rest);
      AtConcat(line, brk + rest, i, t);
      AtConcat(line + brk, rest, i, t);
      if i + |t| <= |line| {
        OnMarkedLine(body, start, line, i, t);
      } else {
        AlignedBehind(text, |line| + 2, t);
        assert Bare(Lines(rest), t) by {
          assert forall k | 0 <= k < |Lines(rest)| :: Lines(rest)[k] == Lines(text)[k + 1];
        }
        OccurrenceWithinAllowed(body, start + |line| + 2, i - |line| - 2, t);
        WithinLater(body, start, line, start + i, start + i + |t|);
      }
    } else {
      OnMarkedLine(body, start, line, i, t);
    }
  }

  lemma OnMarkedLine(body: string, start: nat, line: string, i: nat, t: string)
    requires start <= |body| && line == BeforeEscape(body[start..], LINE_BREAKS)
    requires At(line, i, t) && (Contains(line, t) ==> HasAllowMarker(line))
    ensures Within(AllowedFrom(body, start), start + i, start + i + |t|)
  {
    ContainsAt(line, i, t);
    AllowedUnfold(body, start, line);
    hide AllowedFrom, BeforeEscape, HasAllowMarker, Contains;
    var spans := AllowedFrom(body, start);
    assert spans[0] in spans;
  }

  lemma WithinLater(body: string, start: nat, line: string, i: int, j: int)
    requires start <= |body| && line == BeforeEscape(body[start..], LINE_BREAKS)
    requires Within(AllowedFrom(body, start + |line| + 2), i, j)
    ensures Within(AllowedFrom(body, start), i, j)
  {
    AllowedUnfold(body, start, line);
    hide AllowedFrom, BeforeEscape, HasAllowMarker;
    var span :| span in AllowedFrom(body, start + |line| + 2) && span.start <= i && j <= span.end;
    assert span in AllowedFrom(body, start);
  }

  /** An aligned secret with a line break is gone after the pass. */
  lemma {:induction false} SpanningSecretsGone(
      cfg: Config, secrets: seq<SecretRule>, marked: bool, body: string, sr: SecretRule)
    requires Separate(cfg, secrets) && NonEmpty(secrets) && AllAligned(secrets, body) && sr in secrets
    requires !OneLine(sr.secret)
    ensures !Contains(Apply(cfg, secrets, marked, body).body, sr.secret)
    decreases |secrets|
  {
    hide Contains, Apart, StepBody, Apply, Aligned, Esc, NoBreak, Spared, KeptCount;
    ApplyBody(cfg, secrets, marked, body);
    var next := StepBody(cfg, secrets[0], marked, body);
    SeparateTail(cfg, secrets);
    SeparateIsForeign(cfg, secrets, sr);
    if secrets[0] == sr {
      SpanningIsNotSpared(body, sr.secret, marked);
      StepEliminates(cfg, sr, marked, body);
      StaysAbsent(cfg, secrets[1..], marked, next, sr.secret);
    } else {
      AlignedTail(cfg, secrets, marked, body);
      SpanningSecretsGone(cfg, secrets[1..], marked, next, sr);
    }
  }

  lemma StepEliminates(cfg: Config, sr: SecretRule, marked: bool, body: string)
    requires sr.secret != "" && Apart(sr.secret, Mask(cfg, sr.ruleID))
    requires KeptCount(body, sr.secret, Spared(body, sr.secret, marked)) == 0
    ensures !Contains(StepBody(cfg, sr, marked, body), sr.secret)
  {
    hide Text.Weave, KeptCount, Contains, Apart, Spared, Mask;
    Eliminated(body, sr.secret, Mask(cfg, sr.ruleID), Spared(body, sr.secret, marked));
  }

  /** After the pass, every pending secret left in a leaf lies within a line that carries a marker. */
  lemma LeftoversAreAllowed(cfg: Config, secrets: seq<SecretRule>, s: string, path: string, sr: SecretRule, i: nat)
    requires LineSafe(cfg, secrets) && NonEmpty(secrets) && AllAligned(secrets, Encode(s)) && sr in secrets
    requires cfg.allowMarkers && cfg.pathFilter(path)
    requires NoBreakTaken(cfg, secrets, Marked(cfg, Encode(s)), Encode(s))
    requires At(Encode(RedactedLeaf(cfg, secrets, s, path).out), i, sr.secret)
    ensures var body := Encode(RedactedLeaf(cfg, secrets, s, path).out);
      Within(AllowedFrom(body, 0), i, i + |sr.secret|)
  {
    hide Encode, RedactedLeaf, AllowedFrom, Lines, HasAllowMarker, Contains, Separate, OneLine, NoBreakTaken, Aligned,
         Apply, MarkedOf, Bare;
    var body := Encode(RedactedLeaf(cfg, secrets, s, path).out);
    MarkedLinesSurvive(cfg, secrets, s, path);
    AlignedLeafIsRebuilt(cfg, secrets, s, path);
    assert Aligned(Encode(s), sr.secret);
    ApplyStaysAligned(cfg, secrets, Marked(cfg, Encode(s)), Encode(s), sr, secrets);
    ContainsAt(body, i, sr.secret);
    if !OneLine(sr.secret) { SpanningSecretsGone(cfg, secrets, Marked(cfg, Encode(s)), Encode(s), sr); }
    assert body[0..] == body;
    assert sr.secret in Secrets(secrets);
    OccurrenceWithinAllowed(body, 0, i, sr.secret);
  }

  lemma {:induction false} ApplyStaysAligned(
      cfg: Config, secrets: seq<SecretRule>, marked: bool, body: string, last: SecretRule, all: seq<SecretRule>)
    requires NonEmpty(secrets) && Separate(cfg, all) && last in all && Aligned(body, last.secret)
    requires AllAligned(secrets, body) && (forall sr | sr in secrets :: sr in all)
    ensures Aligned(Apply(cfg, secrets, marked, body).body, last.secret)
    decreases |secrets|
  {
    if secrets != [] {
      hide Text.Weave, Aligned, Contains, Esc, KeptCount, Count;
      var sr := secrets[0];
      var next, mask := StepBody(cfg, sr, marked, body), Mask(cfg, sr.ruleID);
      assert sr in all && Apart(last.secret, mask) && !Esc(false, sr.secret) && Aligned(body, sr.secret);
      assert "" + body == body && "" + next == next;
      StaysAligned("", body, sr.secret, mask, Spared(body, sr.secret, marked), last.secret);
      assert Separate(cfg, secrets);
      AlignedTail(cfg, secrets, marked, body);
      ApplyStaysAligned(cfg, secrets[1..], marked, next, last, all);
    }
  }
}
