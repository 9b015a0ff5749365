/** The conditions under which a leaf is read line by line, and what the steps of a fold keep of them. */
module LeafLines {
  import opened Text
  import opened Escapes
  import opened StringBody
  import opened Breaks
  import opened Masking
  import opened Markers
  import opened LineWise
  import opened Pending
  import opened Leaf

  /** Every pending secret occurs in body only outside escapes. */
  ghost predicate AllAligned(secrets: seq<SecretRule>, body: string) {
    forall sr | sr in secrets :: Aligned(body, sr.secret)
  }

  lemma AlignedTail(cfg: Config, secrets: seq<SecretRule>, marked: bool, body: string)
    requires secrets != [] && Separate(cfg, secrets) && NonEmpty(secrets) && AllAligned(secrets, body)
    ensures AllAligned(secrets[1..], StepBody(cfg, secrets[0], marked, body))
  {
    hide Text.Weave, Aligned, Contains, Esc;
    var sr := secrets[0];
    var next, spared := StepBody(cfg, sr, marked, body), Spared(body, sr.secret, marked);
    forall t | t in secrets[1..] ensures Aligned(next, t.secret) {
      assert t in secrets && sr in secrets;
      assert Apart(t.secret, Mask(cfg, sr.ruleID));
      assert "" + body == body && "" + next == next;
      StaysAligned("", body, sr.secret, Mask(cfg, sr.ruleID), spared, t.secret);
    }
  }

  // ---- Marked and unmarked lines ----------------------------------------------------------------------

  /** A pending list that meets the conditions of the line-by-line reading: a placeholder has neither a line break nor
      a marker. */
  ghost predicate LineSafe(cfg: Config, secrets: seq<SecretRule>) {
    && Separate(cfg, secrets)
    && (forall sr | sr in secrets :: LineText(Mask(cfg, sr.ruleID)) && !HasAllowMarker(Mask(cfg, sr.ruleID)))
  }

  lemma MarkersApart(mask: string)
    requires Bracketed(mask) && !HasAllowMarker(mask)
    ensures Apart(BETTERLEAKS, mask) && Apart(GITLEAKS, mask)
  {
    hide Contains, Apart;
    BracketsKeepApart(BETTERLEAKS, mask);
    BracketsKeepApart(GITLEAKS, mask);
  }

  /** A text without a marker anywhere has no allowed line. */
  lemma {:induction false} NothingAllowed(body: string, start: nat)
    requires !HasAllowMarker(body)
    ensures AllowedFrom(body, start) == []
    decreases |body| + 2 - start
  {
    if start <= |body| {
      var line := BeforeEscape(body[start..], LINE_BREAKS);
      assert body == body[..start] + body[start..] && body[start..] == line + body[start..][|line|..];
      ContainsConcat(line, body[start..][|line|..], BETTERLEAKS);
      ContainsConcat(line, body[start..][|line|..], GITLEAKS);
      ContainsConcat(body[..start], body[start..], BETTERLEAKS);
      ContainsConcat(body[..start], body[start..], GITLEAKS);
      NothingAllowed(body, start + |line| + 2);
    }
  }

  /** A body without markers stays without. */
  lemma StaysUnmarked(cfg: Config, secrets: seq<SecretRule>, marked: bool, body: string)
    requires secrets != [] && LineSafe(cfg, secrets) && NonEmpty(secrets) && !HasAllowMarker(body)
    ensures !HasAllowMarker(StepBody(cfg, secrets[0], marked, body))
  {
    hide Text.Weave;
    var sr := secrets[0];
    assert sr in secrets;
    var next, mask := StepBody(cfg, sr, marked, body), Mask(cfg, sr.ruleID);
    assert "" + body == body && "" + next == next;
    MarkersApart(mask);
    NoNewOccurrence("", body, sr.secret, mask, Spared(body, sr.secret, marked), BETTERLEAKS);
    NoNewOccurrence("", body, sr.secret, mask, Spared(body, sr.secret, marked), GITLEAKS);
  }

  lemma ApplyBody(cfg: Config, secrets: seq<SecretRule>, marked: bool, body: string)
    requires NonEmpty(secrets)
    ensures secrets == [] ==> Apply(cfg, secrets, marked, body).body == body
    ensures secrets != [] ==>
      && NonEmpty(secrets[1..])
      && Apply(cfg, secrets, marked, body).body ==
         Apply(cfg, secrets[1..], marked, StepBody(cfg, secrets[0], marked, body)).body
  {
    if secrets != [] {
      hide StepBody, StepTally, Plus, Apply;
      ApplyUnfold(cfg, secrets, marked, body);
    }
  }

  /** A secret that does not occur changes nothing. */
  lemma AbsentStep(cfg: Config, sr: SecretRule, marked: bool, body: string)
    requires sr.secret != "" && !Contains(body, sr.secret)
    ensures StepBody(cfg, sr, marked, body) == body && StepTally(sr, marked, body) == ZERO
  {
    ContainsIffIndex(body, sr.secret);
    hide Contains, AllowedFrom, Encode;
    WeaveNone(body, sr.secret, Mask(cfg, sr.ruleID), Spared(body, sr.secret, marked));
  }

  lemma HeldTail(secrets: seq<SecretRule>, body: string)
    requires secrets != [] && Held(secrets, body) == {}
    ensures Held(secrets[1..], body) == {} && !Contains(body, secrets[0].secret)
  {
    hide Contains;
    assert forall sr | sr in secrets && Contains(body, sr.secret) :: sr.secret in Held(secrets, body);
    forall x | x in secrets[1..] && Contains(body, x.secret) ensures x.secret in Held(secrets, body) {
      assert x in secrets;
    }
  }

  lemma {:induction false} NothingHeld(cfg: Config, secrets: seq<SecretRule>, marked: bool, body: string)
    requires NonEmpty(secrets) && Held(secrets, body) == {}
    ensures Apply(cfg, secrets, marked, body) == Applied(body, ZERO, "")
    decreases |secrets|
  {
    hide Contains, Text.Weave, StepBody, StepTally, Held, Plus;
    if secrets != [] {
      HeldTail(secrets, body);
      AbsentStep(cfg, secrets[0], marked, body);
      PlusLaws(ZERO, ZERO, ZERO);
      NothingHeld(cfg, secrets[1..], marked, body);
    }
  }

  lemma LinesFirst(text: string, line: string)
    requires line == BeforeEscape(text, LINE_BREAKS)
    ensures Lines(text)[0] == line
    ensures line != text ==> Lines(text) == [line] + Lines(text[|line| + 2..])
  {
  }
}
