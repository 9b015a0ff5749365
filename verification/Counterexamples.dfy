/** Why the conditions on placeholders are there: inputs on which the unconditional claims fail. */
module Counterexamples {
  import opened Text
  import opened Options
  import opened Escapes
  import opened StringBody
  import opened Breaks
  import opened Masking
  import opened Markers
  import opened LineWise
  import opened Order
  import opened Pending
  import opened Leaf
  import opened LeafLines
  import opened Rebuilding
  import opened Survival
  import opened LinePositions
  import opened MarkedLeaves
  import opened DecodedLines
  import opened Positions
  import opened LeafEvents
  import opened PassEvents
  import opened RunReports
  import opened Elimination
  import opened Placeholders
  import opened Tree
  import opened Redact

  /** A placeholder can complete a secret out of the text next to it. */
  lemma PlaceholderCompletesSecret()
    ensures Contains(ReplaceAll("abb", "ab", "a"), "ab")
  {
    assert At("abb", 0, "ab");
    assert Index("abb", "ab") == 0;
    assert "abb"[2..] == "b";
    IndexLeast("b", "ab");
    assert Index("b", "ab") == -1;
    assert Weave("b", "ab", "a", {}) == "b";
    assert ReplaceAll("abb", "ab", "a") == "ab";
    assert At("ab", 0, "ab");
  }

  /** A placeholder that contains the secret keeps every text that held it unredacted. */
  lemma ContainingPlaceholderKeepsSecret(body: string, secret: string, mask: string)
    requires secret != "" && Contains(mask, secret) && Contains(body, secret)
    ensures Contains(ReplaceAll(body, secret, mask), secret)
  {
    ContainsIffIndex(body, secret);
    hide Text.Weave, Contains, Index;
    var out := ReplaceAll(body, secret, mask);
    assert "" + out == out;
    var a, kept, rest, tail := WeaveStep("", body, secret, mask, {});
    ContainsConcat(a, mask, secret);
    ContainsConcat(a + mask, tail, secret);
  }

  /** A placeholder that ends in a proper start of the secret lets the text behind it complete the secret. */
  lemma OverlappingPlaceholderKeepsSecret(front: string, start: string, end: string)
    requires start != "" && end != ""
    ensures Contains(ReplaceAll(start + end + end, start + end, front + start), start + end)
  {
    hide Text.Weave, Index, Contains;
    var secret, mask := start + end, front + start;
    var body := secret + end;
    assert At(body, 0, secret);
    IndexLeast(body, secret);
    IndexLeast(end, secret);
    assert body[|secret|..] == end;
    WeaveUnfold(body, secret, mask, {}, 0, end, |body|);
    WeaveNone(end, secret, mask, {});
    assert body[..0] + mask + end == front + secret;
    ContainsAt(secret, 0, secret);
    ContainsConcat(front, secret, secret);
  }

  /** A placeholder that starts with the end of the secret continues what stood in front of it. */
  lemma ContinuingPlaceholderKeepsSecret()
    ensures Contains(ReplaceAll("aab", "ab", "bX"), "ab")
  {
    hide Text.Weave;
    assert "a" + "ab" == "aab" && "a" + "ab" + "" == "aab" && "a" + "bX" + "" == "abX";
    assert At("aab", 1, "ab");
    assert "aab"[0..2][1] == 'a' && "ab"[1] == 'b';
    assert !At("aab", 0, "ab");
    IndexLeast("aab", "ab");
    ReplacedBetween("a", "ab", "bX", "");
    assert At("abX", 0, "ab");
  }

  // ---- A secret that spans lines takes a marker with it ---------------------------------------------------

  const MARKED := "a\\ngitleaks:allow z"
  const SPANNING := SecretRule("a\\ngitleaks", RULE)
  const BESIDE := SecretRule("z", RULE)
  const UNMARKED := "[X]:allow z"

  function Bracketing(): Config {
    Config(_ => true, _ => "[X]", _ => false, true, 2, (_, _) => false)
  }

  lemma BracketingMask()
    ensures Mask(Bracketing(), RULE) == "[X]"
  {
    hide Encode;
    EncodePlain("[X]");
  }

  /** The marked line of the body is its second one. */
  lemma MarkedSecondLine()
    ensures HasAllowMarker(MARKED) && Within(AllowedFrom(MARKED, 0), 18, 19) && At(MARKED, 18, "z")
    ensures BreakAt(MARKED, 1, LINE_BREAKS)
  {
    hide AllowedFrom, BeforeEscape, HasAllowMarker, BreakAt;
    var line := GITLEAKS + " z";
    MarkedParts();
    FirstLineOfMarked();
    AllowedUnfold(MARKED, 0, "a");
    CutIsFirstBreak(line, LINE_BREAKS);
    AllowedUnfold(MARKED, 3, line);
    assert AllowedFrom(MARKED, 0) == [] + ([Span(3, 19)] + AllowedFrom(MARKED, 21));
    assert Span(3, 19) in AllowedFrom(MARKED, 0);
  }

  lemma MarkedParts()
    ensures |MARKED| == 19 && MARKED[0..] == MARKED && MARKED[3..] == GITLEAKS + " z" && At(MARKED, 18, "z")
    ensures NoBreak(GITLEAKS + " z", LINE_BREAKS)
    ensures HasAllowMarker(GITLEAKS + " z") && HasAllowMarker(MARKED) && !HasAllowMarker("a")
  {
    hide HasAllowMarker;
    var line := GITLEAKS + " z";
    assert MARKED == "a\\n" + line;
    assert line[0..14] == GITLEAKS && MARKED[3..17] == GITLEAKS && MARKED[18..19] == "z";
    NoEscapeNoBreak(line);
    MarkerHeld(line, 0);
    MarkerHeld(MARKED, 3);
    TooShort("a");
  }

  lemma TooShort(s: string)
    requires |s| < |GITLEAKS|
    ensures !HasAllowMarker(s)
  {
  }

  lemma MarkerHeld(s: string, i: nat)
    requires At(s, i, GITLEAKS)
    ensures HasAllowMarker(s)
  {
  }

  lemma NoEscapeNoBreak(line: string)
    requires '\\' !in line
    ensures NoBreak(line, LINE_BREAKS)
  {
  }

  lemma FirstLineOfMarked()
    ensures BeforeEscape(MARKED, LINE_BREAKS) == "a" && BreakAt(MARKED, 1, LINE_BREAKS)
  {
    hide BeforeEscape;
    var rest := MARKED[1..];
    assert MARKED == "a" + rest && MARKED[..1] == "a" && rest[..0] == "";
    assert !Esc(false, "a") by { EscClosedByOther(false, "a"); }
    NoEscapeNoBreak("a");
    CutBeforeBreak("a", rest, LINE_BREAKS);
  }

  /** The marker goes with the first secret, and the second one is then replaced on what was a marked line. */
  lemma SpanningSecretTakesMarker()
    ensures HasAllowMarker(MARKED) && Within(AllowedFrom(MARKED, 0), 18, 19) && At(MARKED, 18, BESIDE.secret)
    ensures !HasAllowMarker(StepBody(Bracketing(), SPANNING, true, MARKED))
    ensures NonEmpty([SPANNING, BESIDE])
    ensures Apply(Bracketing(), [SPANNING, BESIDE], true, MARKED).body == "[X]:allow [X]"
  {
    hide Text.Weave, Index, Contains, Apply, AllowedFrom, HasAllowMarker, Mask;
    var cfg, list := Bracketing(), [SPANNING, BESIDE];
    BracketingMask();
    MarkedSecondLine();
    FirstStep();
    SecondStep();
    assert list[1..] == [BESIDE] && [BESIDE][1..] == [];
    ApplyUnfold(cfg, list, true, MARKED);
    ApplyUnfold(cfg, [BESIDE], true, UNMARKED);
    ApplyNone(cfg, true, "[X]:allow [X]");
  }

  lemma FirstStep()
    ensures StepBody(Bracketing(), SPANNING, true, MARKED) == UNMARKED && !HasAllowMarker(UNMARKED)
  {
    hide Text.Weave, Index, AllowedFrom, HasAllowMarker, Mask, BreakAt;
    TooShort(UNMARKED);
    BracketingMask();
    MarkedSecondLine();
    var secret, rest := SPANNING.secret, ":allow z";
    var keep := Kept(MARKED, |secret|);
    assert MARKED[..0] == "" && MARKED[11..] == rest;
    assert At(MARKED, 0, secret);
    IndexLeast(MARKED, secret);
    IndexLeast(rest, secret);
    SpanningIsNeverAllowed(MARKED, 0, 11, 1);
    assert |MARKED| !in keep;
    WeaveUnfold(MARKED, secret, "[X]", keep, 0, rest, |MARKED|);
    WeaveNone(rest, secret, "[X]", keep);
    assert "" + "[X]" + rest == UNMARKED;
  }

  lemma SecondStep()
    ensures StepBody(Bracketing(), BESIDE, true, UNMARKED) == "[X]:allow [X]"
  {
    hide Text.Weave, Index, AllowedFrom, HasAllowMarker;
    FirstStep();
    BracketingMask();
    NothingAllowed(UNMARKED, 0);
    assert Kept(UNMARKED, 1) == {};
    var front := "[X]:allow ";
    assert UNMARKED == front + "z" && front + "z" + "" == UNMARKED;
    CharOnce(front, "", 'z');
    ReplacedBetween(front, "z", "[X]", "");
    assert front + "[X]" + "" == "[X]:allow [X]";
  }

  /** The leaf of the body, and what a pass makes of it. */
  const MARKED_LEAF := "a\ngitleaks:allow z"

  lemma EncodedMarkedLeaf()
    ensures Encode(MARKED_LEAF) == MARKED
  {
    hide Encode;
    var line := GITLEAKS + " z";
    assert MARKED_LEAF == "a" + ("\n" + line) && MARKED == "a" + ("\\n" + line);
    assert forall i | 0 <= i < |line| :: IsPlain(line[i]);
    EncodePlain("a");
    EncodePlain(line);
    NewlineEncoded();
    EncodeConcat("\n", line);
    EncodeConcat("a", "\n" + line);
  }

  lemma NewlineEncoded()
    ensures Encode("\n") == "\\n"
  {
    assert "\n"[1..] == "";
  }

  /** The pass that takes the marker, on the whole leaf: a marked line has lost its secret. */
  lemma MarkedLeafLosesLine(path: string)
    ensures NonEmpty([SPANNING, BESIDE]) && Encode(MARKED_LEAF) == MARKED
    ensures RedactedLeaf(Bracketing(), [SPANNING, BESIDE], MARKED_LEAF, path).out == "[X]:allow [X]"
  {
    hide Text.Weave, Index, Contains, Apply, AllowedFrom, HasAllowMarker, Mask, Encode, Decode;
    var cfg, list, out := Bracketing(), [SPANNING, BESIDE], "[X]:allow [X]";
    SpanningSecretTakesMarker();
    EncodedMarkedLeaf();
    EncodePlain(out);
    DecodeEncode(out);
    ContainsAt(MARKED, 18, "z");
    HeldSome(list, MARKED, BESIDE);
    assert MARKED[0] == 'a' && out[0] == '[';
    if Apply(cfg, list, true, MARKED).tally.count == 0 { ApplyNothing(cfg, list, true, MARKED); }
  }

  // ---- A secret that spans lines away from a marker takes nothing ---------------------------------------------

  const FAR := "a\\nb\\n" + (GITLEAKS + " z")
  const FAR_SECRET := "a\\nb"

  lemma FarLines()
    ensures AllowedFrom(FAR, 0) == [Span(6, 22)]
  {
    hide AllowedFrom, BeforeEscape, HasAllowMarker, BreakAt;
    var line := GITLEAKS + " z";
    MarkedParts();
    FarParts(line);
    FarLine(FAR, "a", "\\nb\\n" + line);
    FarLine(FAR[3..], "b", "\\n" + line);
    CutIsFirstBreak(line, LINE_BREAKS);
    TooShort("a");
    TooShort("b");
    AllowedUnfold(FAR, 0, "a");
    AllowedUnfold(FAR, 3, "b");
    AllowedUnfold(FAR, 6, line);
    NothingBehind(FAR, 24);
  }

  lemma FarParts(line: string)
    requires line == GITLEAKS + " z"
    ensures FAR[0..] == FAR == "a" + ("\\nb\\n" + line) && FAR[3..] == "b" + ("\\n" + line)
    ensures FAR[6..] == line && |line| == 16 && |FAR| == 22
    ensures ("\\nb\\n" + line)[..2] == "\\n" && ("\\n" + line)[..2] == "\\n"
  {
    hide HasAllowMarker;
    var start := "a\\nb\\n";
    assert start == "a" + "\\nb\\n" && start[3..] == "b" + "\\n";
    assert FAR[3..] == start[3..] + line;
  }

  lemma FarLine(text: string, line: string, rest: string)
    requires |line| == 1 && line[0] != '\\' && text == line + rest && |rest| >= 2 && rest[..2] == "\\n"
    ensures BeforeEscape(text, LINE_BREAKS) == line
  {
    hide BeforeEscape;
    assert rest[..0] == "" && rest[0] == rest[..2][0] && rest[1] == rest[..2][1];
    assert !Esc(false, line) by { EscClosedByOther(false, line); }
    NoEscapeNoBreak(line);
    CutBeforeBreak(line, rest, LINE_BREAKS);
  }

  /** The secret holds a line break, but not one next to the marked line. */
  lemma FarSecretTakesNoBreak()
    ensures !OneLine(FAR_SECRET) && !TakesBreak(FAR, FAR_SECRET, true)
  {
    hide AllowedFrom, SubstitutedAt, Spared;
    FarLines();
    assert FAR_SECRET[..1] == "a";
    assert !Esc(false, "a") by { EscClosedByOther(false, "a"); }
    assert BreakAt(FAR_SECRET, 1, LINE_BREAKS);
    forall p: nat | p <= |FAR| && SubstitutedAt(FAR, FAR_SECRET, Spared(FAR, FAR_SECRET, true), p)
      ensures !Hits(FAR, 0, p, |FAR_SECRET|)
    {
      SubstitutedInText(FAR, FAR_SECRET, Spared(FAR, FAR_SECRET, true), p);
      AtChar(FAR, p, FAR_SECRET, 0);
      AtChar(FAR, p, FAR_SECRET, 1);
      assert p == 0;
    }
  }

  // ---- Leaves that are dropped, and leaves that are not -------------------------------------------------------

  /** A secret that starts inside an escape: the leaf is dropped. */
  lemma SeveredLeafIsDropped(path: string)
    ensures NonEmpty([SecretRule("n", RULE)])
    ensures RedactedLeaf(Bracketing(), [SecretRule("n", RULE)], "\n", path).out == "[X]"
  {
    hide Text.Weave, Index, Contains, Mask, Encode, Decode, RedactedLeaf, Count, KeptCount, CleanCuts, HasAllowMarker;
    var cfg, sr, body := Bracketing(), SecretRule("n", RULE), "\\n";
    NewlineEncoded();
    BracketingMask();
    TooShort(body);
    CharOnce("\\", "", 'n');
    assert body == "\\" + "n" && body[..1] == "\\" && "" + body[..1] == "\\";
    CleanUnfold("", body, "n", {}, 1, "\\", body[2..], 1);
    OpenBackslash("\\");
    Substituted(body, sr, 1);
    EscOther("n");
    RebuiltIffClean(cfg, sr, "\n", path);
  }

  lemma EscOther(s: string)
    requires s != "" && '\\' !in s
    ensures !Esc(false, s)
  {
    EscClosedByOther(false, s);
  }

  /** A secret that occurs in an unmarked body is substituted. */
  lemma Substituted(body: string, sr: SecretRule, i: nat)
    requires At(body, i, sr.secret) && sr.secret != ""
    ensures StepTally(sr, false, body).count > 0
  {
    hide Count, KeptCount, Contains;
    ContainsAt(body, i, sr.secret);
    CountZero(body, sr.secret);
    NoneSpared(body, sr.secret);
  }

  const CODES := "1f\\u001f\\u000b"
  const CODES_LEAF := "1f\U{1f}\U{b}"
  const MISALIGNED := SecretRule("1f\\u00", RULE)

  lemma CodesEncoded()
    ensures Encode(CODES_LEAF) == CODES
  {
    hide Encode;
    assert CODES_LEAF == "1f" + ("\U{1f}" + "\U{b}") && CODES == "1f" + ("\\u001f" + "\\u000b");
    EncodePlain("1f");
    CodeEncoded('\U{1f}', "001f");
    CodeEncoded('\U{b}', "000b");
    EncodeConcat("\U{1f}", "\U{b}");
    EncodeConcat("1f", "\U{1f}" + "\U{b}");
  }

  lemma CodeEncoded(c: char, code: string)
    requires IsCoded(c) && Code(c) == code
    ensures Encode([c]) == "\\u" + code
  {
    assert [c][1..] == "";
  }

  /** Both occurrences go, and the second one starts inside a code; but the text between them is empty, so no cut is
      inside an escape and the leaf is rebuilt. */
  lemma MisalignedLeafIsRebuilt(path: string)
    ensures NonEmpty([MISALIGNED]) && !Aligned(CODES, MISALIGNED.secret)
    ensures Encode(RedactedLeaf(Bracketing(), [MISALIGNED], CODES_LEAF, path).out) == "[X][X]0b"
  {
    hide Text.Weave, Index, Contains, Mask, Encode, Decode, RedactedLeaf, Count, KeptCount, CleanCuts, HasAllowMarker,
         Aligned;
    var cfg, sub := Bracketing(), MISALIGNED.secret;
    CodesEncoded();
    BracketingMask();
    CodesUnmarked();
    CodesTurn();
    CodesMisaligned();
    Substituted(CODES, MISALIGNED, 0);
    assert !Esc(false, sub) by { SecretClosed(); }
    RebuiltIffClean(cfg, MISALIGNED, CODES_LEAF, path);
  }

  lemma SecretClosed()
    ensures !Esc(false, MISALIGNED.secret)
  {
    EscClosedByOther(false, MISALIGNED.secret);
  }

  lemma CodesUnmarked()
    ensures !HasAllowMarker(CODES)
  {
    assert 'g' !in CODES;
    forall p | 0 <= p <= |CODES| ensures !At(CODES, p, GITLEAKS) {
      if At(CODES, p, GITLEAKS) { AtChar(CODES, p, GITLEAKS, 0); }
    }
  }

  lemma CodesTurn()
    ensures At(CODES, 0, MISALIGNED.secret) && CleanCuts("", CODES, MISALIGNED.secret, {})
    ensures Weave(CODES, MISALIGNED.secret, "[X]", {}) == "[X][X]0b"
  {
    hide Text.Weave, Index, CleanCuts;
    var sub, rest, last := MISALIGNED.secret, "1f\\u000b", "0b";
    assert CODES[6..] == rest && rest[6..] == last && CODES[..0] == "" && rest[..0] == "";
    assert CODES[0..6] == sub && rest[0..6] == sub;
    IndexLeast(CODES, sub);
    IndexLeast(rest, sub);
    IndexLeast(last, sub);
    assert At(CODES, 0, sub) && At(rest, 0, sub);
    NothingInside();
    CleanUnfold("", CODES, sub, {}, 0, "", rest, |CODES|);
    CleanUnfold("", rest, sub, {}, 0, "", last, |rest|);
    CleanUnfold("", last, sub, {}, -1, "", "", 0);
    WeaveUnfold(CODES, sub, "[X]", {}, 0, rest, |CODES|);
    WeaveUnfold(rest, sub, "[X]", {}, 0, last, |rest|);
    WeaveNone(last, sub, "[X]", {});
  }

  lemma NothingInside()
    ensures !Inside("")
  {
  }

  lemma CodesMisaligned()
    ensures !Aligned(CODES, MISALIGNED.secret)
  {
    hide Esc;
    var front := CODES[..6];
    assert CODES[6..12] == MISALIGNED.secret;
    assert At(CODES, 6, MISALIGNED.secret);
    assert front == "1f\\u00" && front[..2] == "1f";
    EscOther("1f");
    assert CodeOpen(front, 2);
  }

  const CUT_CODE := "\\u001fabc"
  const CUT_LEAF := "\U{1f}abc"
  const LONGER := SecretRule("1fabc", RULE)
  const SHORTER := SecretRule("\\u00", RULE)

  /** The longer secret cuts a code open and the shorter one then takes what is left of the code: the cut was not clean,
      and the leaf is rebuilt all the same. */
  lemma LaterSecretTakesOpenCode(path: string)
    ensures Encode(CUT_LEAF) == CUT_CODE && NonEmpty([LONGER, SHORTER])
    ensures !CleanThroughout(Bracketing(), [LONGER, SHORTER], false, CUT_CODE)
    ensures RedactedLeaf(Bracketing(), [LONGER, SHORTER], CUT_LEAF, path).out == "[X][X]"
  {
    hide Text.Weave, Index, Contains, Apply, Mask, Encode, Decode, CleanCuts, HasAllowMarker, StepBody, Rebuild, Held;
    CutEncoded();
    TooShort(CUT_CODE);
    CutIsNotClean();
    CutApplied();
    ContainsAt(CUT_CODE, 4, LONGER.secret);
    HeldSome([LONGER, SHORTER], CUT_CODE, LONGER);
    CutRebuilt(Apply(Bracketing(), [LONGER, SHORTER], false, CUT_CODE));
  }

  lemma CutRebuilt(a: Applied)
    requires a.body == "[X][X]" && a.tally.count > 0
    ensures Rebuild(Bracketing(), CUT_LEAF, a) == a.body
  {
    hide Decode, Encode;
    EncodePlain(a.body);
    DecodeEncode(a.body);
  }

  lemma CutApplied()
    ensures At(CUT_CODE, 4, LONGER.secret) && NonEmpty([LONGER, SHORTER])
    ensures var a := Apply(Bracketing(), [LONGER, SHORTER], false, CUT_CODE); a.body == "[X][X]" && a.tally.count > 0
  {
    hide Text.Weave, Index, Contains, Apply, Mask, StepBody;
    var cfg, list, out := Bracketing(), [LONGER, SHORTER], "[X][X]";
    CutTurns();
    assert list[1..] == [SHORTER] && [SHORTER][1..] == [];
    ApplyUnfold(cfg, list, false, CUT_CODE);
    ApplyUnfold(cfg, [SHORTER], false, "\\u00[X]");
    ApplyNone(cfg, false, out);
    assert CUT_CODE[0] == '\\' && out[0] == '[';
    if Apply(cfg, list, false, CUT_CODE).tally.count == 0 { ApplyNothing(cfg, list, false, CUT_CODE); }
  }

  lemma CutEncoded()
    ensures Encode(CUT_LEAF) == CUT_CODE
  {
    hide Encode;
    assert CUT_LEAF == "\U{1f}" + "abc" && CUT_CODE == "\\u001f" + "abc";
    CodeEncoded('\U{1f}', "001f");
    EncodePlain("abc");
    EncodeConcat("\U{1f}", "abc");
  }

  lemma CutTurns()
    ensures At(CUT_CODE, 4, LONGER.secret)
    ensures StepBody(Bracketing(), LONGER, false, CUT_CODE) == "\\u00[X]"
    ensures StepBody(Bracketing(), SHORTER, false, "\\u00[X]") == "[X][X]"
  {
    hide Text.Weave, Index, Mask;
    BracketingMask();
    assert CUT_CODE[4..] == LONGER.secret;
    assert At(CUT_CODE, 4, LONGER.secret);
    assert "\\u00" + "1fabc" == CUT_CODE && "\\u00" + "1fabc" + "" == CUT_CODE && "\\u00" + "[X]" + "" == "\\u00[X]";
    CutIndex();
    ReplacedBetween("\\u00", "1fabc", "[X]", "");
    assert "" + "\\u00" + "[X]" == "\\u00[X]" && "" + "[X]" + "[X]" == "[X][X]";
    ReplacedBetween("", "\\u00", "[X]", "[X]");
  }

  lemma CutIndex()
    ensures Index(CUT_CODE, "1fabc") == 4
  {
    hide Index;
    assert CUT_CODE[4..] == "1fabc";
    assert At(CUT_CODE, 4, "1fabc");
    forall p | 0 <= p < 4 ensures !At(CUT_CODE, p, "1fabc") {
      if At(CUT_CODE, p, "1fabc") { AtChar(CUT_CODE, p, "1fabc", 0); }
    }
    IndexLeast(CUT_CODE, "1fabc");
  }

  lemma CutIsNotClean()
    ensures !CleanCuts("", CUT_CODE, "1fabc", {})
  {
    hide Index, Esc;
    CutIndex();
    var front := "\\u00";
    assert CUT_CODE[..4] == front && "" + front == front && front[..0] == "";
    EscNothing();
    assert CodeOpen(front, 2);
    CleanUnfold("", CUT_CODE, "1fabc", {}, 4, front, CUT_CODE[9..], 5);
  }

  // ---- A leftover across two lines --------------------------------------------------------------------------

  const STRADDLING := SecretRule("\\\\nq\\\\", RULE)
  const STRADDLED := GITLEAKS + ("\\\\nq\\\\" + "\\nq\\\\")

  /** The occurrence on the marked line is spared, and the one that overlaps with it from inside its last escape reaches
      into the next line. */
  lemma LeftoverAcrossLines()
    ensures At(STRADDLED, 19, STRADDLING.secret) && !Within(AllowedFrom(STRADDLED, 0), 19, 25)
    ensures StepBody(Bracketing(), STRADDLING, true, STRADDLED) == STRADDLED
    ensures !TakesBreak(STRADDLED, STRADDLING.secret, true)
  {
    hide AllowedFrom, Text.Weave, Index, SubstitutedAt, Mask, BreakAt, HasAllowMarker, Hits;
    var secret, rest := STRADDLING.secret, "\\nq\\\\";
    StraddledParts();
    StraddledLine();
    var keep := Kept(STRADDLED, 6);
    SpanningIsNeverAllowed(STRADDLED, 19, 25, 20);
    assert |STRADDLED| - 14 in keep;
    IndexLeast(rest, secret);
    WeaveUnfold(STRADDLED, secret, Mask(Bracketing(), RULE), keep, 14, rest, 11);
    WeaveNone(rest, secret, Mask(Bracketing(), RULE), keep);
    forall p ensures !SubstitutedAt(STRADDLED, secret, keep, p) {
      SubstitutedUnfold(STRADDLED, secret, keep, 14, rest, p);
      SubstitutedUnfold(rest, secret, keep, Index(rest, secret), "", p - 20);
    }
    assert GITLEAKS + secret + rest == STRADDLED;
  }

  lemma StraddledParts()
    ensures |STRADDLED| == 25 && STRADDLED[..14] == GITLEAKS && STRADDLED[20..] == "\\nq\\\\"
    ensures At(STRADDLED, 19, STRADDLING.secret) && Index(STRADDLED, STRADDLING.secret) == 14
  {
    hide Index;
    var secret := STRADDLING.secret;
    assert STRADDLED[14..20] == secret && STRADDLED[19..25] == secret;
    assert At(STRADDLED, 14, secret) && '\\' !in GITLEAKS;
    forall p | 0 <= p < 14 ensures !At(STRADDLED, p, secret) {
      if At(STRADDLED, p, secret) { AtChar(STRADDLED, p, secret, 0); }
    }
    IndexLeast(STRADDLED, secret);
  }

  lemma StraddledLine()
    ensures Within(AllowedFrom(STRADDLED, 0), 14, 20) && BreakAt(STRADDLED, 20, LINE_BREAKS)
  {
    hide AllowedFrom, BeforeEscape, HasAllowMarker, NoBreak;
    var line, rest := GITLEAKS + STRADDLING.secret, "\\nq\\\\";
    assert STRADDLED == line + rest && STRADDLED[0..] == STRADDLED && STRADDLED[..20] == line && rest[..0] == "";
    StraddledText();
    assert line[0..14] == GITLEAKS;
    MarkerHeld(line, 0);
    CutBeforeBreak(line, rest, LINE_BREAKS);
    AllowedUnfold(STRADDLED, 0, line);
    assert AllowedFrom(STRADDLED, 0)[0] == Span(0, 20);
  }

  lemma StraddledText()
    ensures LineText(GITLEAKS + STRADDLING.secret)
  {
    hide Esc, NoBreak;
    var pair := "\\\\";
    assert STRADDLING.secret == pair + ("nq" + pair);
    NoEscapeNoBreak(GITLEAKS);
    EscOther(GITLEAKS);
    NoEscapeNoBreak("nq");
    EscOther("nq");
    PairText(pair);
    LineTextConcat("nq", pair);
    LineTextConcat(pair, "nq" + pair);
    LineTextConcat(GITLEAKS, pair + ("nq" + pair));
  }

  lemma PairText(pair: string)
    requires pair == "\\\\"
    ensures LineText(pair)
  {
    assert pair[..1] == "\\" && pair[..0] == "" && "\\"[..0] == "";
    OpenBackslash("\\");
  }

  // ---- A placeholder that gives a body a marker -----------------------------------------------------------------

  /** A rule whose id is a marker, under the default placeholder. */
  lemma MarkerInPlaceholder(cfg: Config)
    requires cfg.placeholder(GITLEAKS) == DefaultPlaceholder(GITLEAKS)
    ensures !AddsNoMarker(cfg, GITLEAKS)
  {
    hide Contains, Mask, AddsNoMarker, Apart;
    assert Mask(cfg, GITLEAKS) == Encode(DefaultPlaceholder(GITLEAKS)) by { MaskIs(cfg, GITLEAKS); }
    assert GITLEAKS[0..14] == GITLEAKS;
    ContainsAt(GITLEAKS, 0, GITLEAKS);
    DefaultCanCarryMarker(GITLEAKS, GITLEAKS);
    AddsNoMarkerIff(cfg, GITLEAKS);
    HeldIsNotApart(GITLEAKS, Mask(cfg, GITLEAKS));
  }

  lemma MaskIs(cfg: Config, r: string)
    ensures Mask(cfg, r) == Encode(cfg.placeholder(r))
  {
    hide Encode;
  }

  lemma HeldIsNotApart(t: string, mask: string)
    requires Contains(mask, t)
    ensures !Apart(t, mask)
  {
    hide Contains;
  }

  // ---- A secret inside a longer one -------------------------------------------------------------------------

  const LONG := SecretRule("abc", RULE)
  const SHORT := SecretRule("ab", RULE)

  function Nested(): Value {
    Obj(map["a" := Str("abc")])
  }

  /** The shorter secret is in an eligible leaf and in no protected one, but only inside the longer one, which goes
      first: the pass reports it as unlocated. */
  lemma SwallowedIsLost()
    ensures NonEmpty([LONG, SHORT]) && !Absent(Nested(), SHORT.secret)
    ensures forall steps :: !ProtectedAt(Bracketing(), Nested(), "", SHORT.secret, steps)
    ensures Lost(Bracketing(), [LONG, SHORT], Nested(), SHORT.secret)
  {
    hide TurnBody, Contains, Encode;
    var cfg, pending, doc := Bracketing(), [LONG, SHORT], Nested();
    EncodePlain("abc");
    assert "abc"[0..2] == "ab";
    assert At("abc", 0, "ab");
    ContainsAt("abc", 0, "ab");
    assert !Absent(doc.fields["a"], "ab");
    forall steps, k: nat ensures !ReachedAt(cfg, pending, doc, "ab", steps, k) {
      if ReachedAt(cfg, pending, doc, "ab", steps, k) {
        OnlyLeaf(steps);
        SecondTurn();
      }
    }
  }

  lemma OnlyLeaf(steps: seq<Edge>)
    requires LeafAt(Nested(), steps).Some?
    ensures LeafAt(Nested(), steps).value == "abc"
  {
    var doc := Nested();
    if steps != [] {
      FindUnfold(doc, steps);
      assert Has(doc, steps[0]) ==> Child(doc, steps[0]) == Str("abc");
      OfString("abc", steps[1..]);
    }
  }

  lemma OfString(s: string, steps: seq<Edge>)
    ensures LeafAt(Str(s), steps) == if steps == [] then Some(s) else None
  {
    if steps != [] { FindUnfold(Str(s), steps); }
  }

  lemma SecondTurn()
    ensures NonEmpty([LONG, SHORT]) && Encode("abc") == "abc" && !Marked(Bracketing(), "abc")
    ensures !Contains(TurnBody(Bracketing(), [LONG, SHORT], false, "abc", 1), "ab")
  {
    hide Text.Weave, Index, Mask, Encode;
    EncodePlain("abc");
    TooShort("abc");
    BracketingMask();
    assert [LONG, SHORT][1..] == [SHORT];
    assert "" + "abc" + "" == "abc" && "" + "[X]" + "" == "[X]";
    ReplacedBetween("", "abc", "[X]", "");
    var now := TurnBody(Bracketing(), [LONG, SHORT], false, "abc", 1);
    assert now == StepBody(Bracketing(), LONG, false, "abc") == "[X]";
    forall p | 0 <= p <= |now| ensures !At(now, p, "ab") {
      if At(now, p, "ab") { AtChar(now, p, "ab", 0); }
    }
  }

  // ---- A marker that the encoding makes ---------------------------------------------------------------------

  const BACKSPACED := "\U{8}" + "etterleaks:allow"

  /** The letter of an escape can complete a marker that the decoded line does not carry. */
  lemma MarkerFromEscape()
    ensures !CarriesMarker(BACKSPACED) && CarriesMarker(Encode(BACKSPACED))
  {
    hide Encode, Contains;
    var tail := "etterleaks:allow";
    assert forall i | 0 <= i < |tail| :: IsPlain(tail[i]);
    EncodePlain(tail);
    EncodeConcat("\U{8}", tail);
    BackspaceEncoded();
    assert "\\b" + tail == "\\" + BETTERLEAKS;
    assert BETTERLEAKS[0..|BETTERLEAKS|] == BETTERLEAKS;
    ContainsAt(BETTERLEAKS, 0, BETTERLEAKS);
    ContainsConcat("\\", BETTERLEAKS, BETTERLEAKS);
    NoMarkerBefore();
  }

  lemma BackspaceEncoded()
    ensures Encode("\U{8}") == "\\b"
  {
    assert "\U{8}"[1..] == "";
  }

  lemma NoMarkerBefore()
    ensures !CarriesMarker(BACKSPACED)
  {
    assert |BACKSPACED| == 17 && BACKSPACED[0] == '\U{8}' && 'b' !in BACKSPACED && 'g' !in BACKSPACED;
    forall p | 0 <= p <= |BACKSPACED| ensures !At(BACKSPACED, p, "betterleaks:allow") && !At(BACKSPACED, p, GITLEAKS) {
      if At(BACKSPACED, p, "betterleaks:allow") { AtChar(BACKSPACED, p, "betterleaks:allow", 0); }
      if At(BACKSPACED, p, GITLEAKS) { AtChar(BACKSPACED, p, GITLEAKS, 0); }
    }
  }

  // ---- A placeholder that is itself detected never converges -----------------------------------------------

  const SECRET := "S"
  const RULE := "r"

  /** The placeholder is the secret, and nothing recognises it as a placeholder. */
  function Careless(maxPasses: nat): Config {
    Config(_ => true, _ => SECRET, _ => false, false, maxPasses, (_, _) => false)
  }

  function AlwaysFinds(): Scanner {
    (pass: nat, text: string) => Some([Finding(RULE, SECRET)])
  }

  function Document(): Value {
    Obj(map["a" := Str(SECRET)])
  }

  const FOUND := [SecretRule(SECRET, RULE)]

  lemma PendingIsFound(cfg: Config)
    requires !cfg.isPlaceholder(SECRET)
    ensures PendingOf(cfg, [Finding(RULE, SECRET)], {}) == FOUND
  {
    var f := [Finding(RULE, SECRET)];
    assert !Esc(false, SECRET);
    assert TrimPartialEscape(SECRET) == SECRET;
    assert f[..0] == [];
    assert FirstFindings(f, {}, cfg.isPlaceholder) == FOUND;
    PendingOfIs(cfg, f, {});
    assert FOUND[1..] == [] && Sort(FOUND[1..], ByLength) == [];
    assert Sort(FOUND, ByLength) == Insert(FOUND[0], [], ByLength);
  }

  lemma SecretAlone()
    ensures Encode(SECRET) == SECRET && Decode(SECRET) == Some(SECRET)
    ensures Contains(SECRET, SECRET) && Count(SECRET, SECRET) == 1 && ReplaceAll(SECRET, SECRET, SECRET) == SECRET
  {
    assert SECRET[1..] == "";
    assert At(SECRET, 0, SECRET);
    assert Index(SECRET, SECRET) == 0;
    IndexLeast("", SECRET);
    assert Index("", SECRET) == -1;
  }

  lemma LeafUnchanged(maxPasses: nat, path: string)
    ensures NonEmpty(FOUND)
    ensures RedactedLeaf(Careless(maxPasses), FOUND, SECRET, path) ==
            Redacted(SECRET, Tally(1, multiset{RULE}, multiset{}, {SECRET}, {}, {}))
  {
    var cfg := Careless(maxPasses);
    SecretAlone();
    NoneSpared(SECRET, SECRET);
    assert FOUND[0] in FOUND && SECRET in Held(FOUND, SECRET);
    var next := StepBody(cfg, FOUND[0], false, SECRET);
    assert next == SECRET;
    assert FOUND[1..] == [];
    assert Apply(cfg, FOUND[1..], false, SECRET) == Applied(SECRET, ZERO, "");
    var t := StepTally(FOUND[0], false, SECRET);
    assert t == TallyOf(FOUND[0], 1, 0);
    PlusLaws(t, ZERO, ZERO);
    assert multiset{}[RULE := 1] == multiset{RULE};
    assert multiset{}[RULE := 0] == multiset{};
  }

  lemma PassChangesNothing(maxPasses: nat)
    ensures NonEmpty(FOUND)
    ensures Rewritten(Careless(maxPasses), FOUND, Document(), "") == Document()
    ensures Effect(Careless(maxPasses), FOUND, Document(), "") == Tally(1, multiset{RULE}, multiset{}, {SECRET}, {}, {})
  {
    var cfg, v := Careless(maxPasses), Document();
    LeafUnchanged(maxPasses, KeyPath("", "a"));
    hide RedactedLeaf;
    assert v.fields.Keys == {"a"};
    EffectKeysAnyOrder(cfg, FOUND, v, "", v.fields.Keys, "a");
    assert v.fields.Keys - {"a"} == {};
    PlusLaws(Effect(cfg, FOUND, v.fields["a"], KeyPath("", "a")), ZERO, ZERO);
    assert Rewritten(cfg, FOUND, v, "").fields == v.fields;
  }

  /** Without a recogniser for its own placeholder the loop rewrites it forever, however many passes it is
      allowed: each pass substitutes the placeholder for itself. */
  lemma {:induction false} NeverConverges(maxPasses: nat, render: Value -> string, report: Report, pass: nat)
    ensures Passes(Careless(maxPasses), render, AlwaysFinds(), State(Document(), {}, report), pass) == NotConverged
    decreases maxPasses + 1 - pass
  {
    hide Passes, Effect, Rewritten, PendingOf;
    var cfg, st := Careless(maxPasses), State(Document(), {}, report);
    PassesAt(cfg, render, AlwaysFinds(), st, pass);
    if pass <= maxPasses {
      PendingIsFound(cfg);
      PassChangesNothing(maxPasses);
      var next := AfterPass(cfg, st, FOUND, pass);
      assert Dropped(FOUND, Effect(cfg, FOUND, st.root, "")) == {};
      assert next == State(Document(), {}, next.report);
      NeverConverges(maxPasses, render, next.report, pass + 1);
    }
  }
}
