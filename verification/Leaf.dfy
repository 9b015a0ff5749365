/** Redacting one string leaf: every pending secret is substituted in the encoded body of the leaf, and
    what could not be substituted is recorded. */
module Leaf {
  import opened Text
  import opened Options
  import opened Escapes
  import opened StringBody
  import opened Masking
  import opened Markers
  import opened Pending

  /** The options of a Redactor. Whether a string is opaque depends on the path of its object and on its key. */
  datatype Config = Config(
    pathFilter: string -> bool,
    placeholder: string -> string,
    isPlaceholder: string -> bool,
    allowMarkers: bool,
    maxPasses: nat,
    isOpaque: (string, string) -> bool)

  /** What one pass counts: substitutions in all and per rule, occurrences kept per rule, and the secrets
      that were substituted somewhere, kept somewhere, or found in a protected leaf. A per-rule counter is
      the multiplicity of the rule. */
  datatype Tally = Tally(
    count: nat,
    byRule: multiset<string>,
    allowed: multiset<string>,
    located: set<string>,
    kept: set<string>,
    protected: set<string>)

  const ZERO := Tally(0, multiset{}, multiset{}, {}, {}, {})

  function Plus(a: Tally, b: Tally): Tally {
    Tally(a.count + b.count, a.byRule + b.byRule, a.allowed + b.allowed,
          a.located + b.located, a.kept + b.kept, a.protected + b.protected)
  }

  lemma PlusLaws(a: Tally, b: Tally, c: Tally)
    ensures Plus(a, b) == Plus(b, a)
    ensures Plus(Plus(a, b), c) == Plus(a, Plus(b, c))
    ensures Plus(a, ZERO) == a && Plus(ZERO, a) == a
  {
    assert a.byRule + b.byRule == b.byRule + a.byRule;
  }

  // ---- One secret ------------------------------------------------------------------------------------

  /** The encoded placeholder for a rule. */
  function Mask(cfg: Config, ruleID: string): string {
    Encode(cfg.placeholder(ruleID))
  }

  /** The occurrences of secret that stay in body. */
  function Spared(body: string, secret: string, marked: bool): set<int> {
    if marked then Kept(body, |secret|) else {}
  }

  function StepBody(cfg: Config, sr: SecretRule, marked: bool, body: string): string
    requires sr.secret != ""
  {
    Weave(body, sr.secret, Mask(cfg, sr.ruleID), Spared(body, sr.secret, marked))
  }

  function StepTally(sr: SecretRule, marked: bool, body: string): Tally
    requires sr.secret != ""
  {
    var kept := KeptCount(body, sr.secret, Spared(body, sr.secret, marked));
    TallyOf(sr, Count(body, sr.secret) - kept, kept)
  }

  function TallyOf(sr: SecretRule, replaced: nat, kept: nat): Tally {
    Tally(replaced, multiset{}[sr.ruleID := replaced], multiset{}[sr.ruleID := kept],
          if replaced > 0 then {sr.secret} else {}, if kept > 0 then {sr.secret} else {}, {})
  }

  // ---- All secrets -----------------------------------------------------------------------------------

  /** The body after all secrets, what was counted, and the rule of the last substitution. */
  datatype Applied = Applied(body: string, tally: Tally, last: string)

  predicate NonEmpty(secrets: seq<SecretRule>) {
    forall sr | sr in secrets :: sr.secret != ""
  }

  function Apply(cfg: Config, secrets: seq<SecretRule>, marked: bool, body: string): Applied
    requires NonEmpty(secrets)
    decreases |secrets|
  {
    if secrets == [] then Applied(body, ZERO, "")
    else
      var sr := secrets[0];
      Before(StepTally(sr, marked, body), sr.ruleID, Apply(cfg, secrets[1..], marked, StepBody(cfg, sr, marked, body)))
  }

  /** Puts what an earlier substitution counted in front of the rest. */
  function Before(t: Tally, rule: string, rest: Applied): Applied {
    Applied(rest.body, Plus(t, rest.tally),
            if rest.tally.count > 0 then rest.last else if t.count > 0 then rule else "")
  }

  lemma ApplyUnfold(cfg: Config, secrets: seq<SecretRule>, marked: bool, body: string)
    requires secrets != [] && NonEmpty(secrets)
    ensures NonEmpty(secrets[1..])
    ensures var sr := secrets[0];
      Apply(cfg, secrets, marked, body) ==
      Before(StepTally(sr, marked, body), sr.ruleID, Apply(cfg, secrets[1..], marked, StepBody(cfg, sr, marked, body)))
  {
    hide StepBody, StepTally;
    assert forall x | x in secrets[1..] :: x in secrets;
  }

  lemma ApplyNone(cfg: Config, marked: bool, body: string)
    ensures Apply(cfg, [], marked, body) == Applied(body, ZERO, "")
  {
  }

  /** The pending secrets that occur in body. */
  function Held(secrets: seq<SecretRule>, body: string): set<string> {
    set sr | sr in secrets && Contains(body, sr.secret) :: sr.secret
  }

  lemma HeldSome(secrets: seq<SecretRule>, body: string, sr: SecretRule)
    requires sr in secrets && Contains(body, sr.secret)
    ensures Held(secrets, body) != {}
  {
    hide Contains;
    assert sr.secret in Held(secrets, body);
  }

  datatype Redacted = Redacted(out: string, tally: Tally)

  predicate Marked(cfg: Config, body: string) {
    cfg.allowMarkers && HasAllowMarker(body)
  }

  /** The leaf rebuilt from its body, or the bare placeholder when the body no longer decodes. */
  function Rebuild(cfg: Config, s: string, a: Applied): string {
    if a.tally.count == 0 then s
    else match Decode(a.body)
      case Some(out) => out
      case None => cfg.placeholder(a.last)
  }

  /** What redactLeaf returns and counts. */
  function RedactedLeaf(cfg: Config, secrets: seq<SecretRule>, s: string, path: string): Redacted
    requires NonEmpty(secrets)
  {
    var body := Encode(s);
    if Held(secrets, body) == {} then Redacted(s, ZERO)
    else if !cfg.pathFilter(path) then Redacted(s, ZERO.(protected := Held(secrets, body)))
    else
      var a := Apply(cfg, secrets, Marked(cfg, body), body);
      Redacted(Rebuild(cfg, s, a), a.tally)
  }

  // ---- Survivors -------------------------------------------------------------------------------------

  /** Trimmed secrets that no placeholder of the run can complete or contain. */
  ghost predicate Separate(cfg: Config, secrets: seq<SecretRule>) {
    forall a, b | a in secrets && b in secrets ::
      !Esc(false, a.secret) && Bracketed(Mask(cfg, b.ruleID)) && Apart(a.secret, Mask(cfg, b.ruleID))
  }

  function Masks(cfg: Config, secrets: seq<SecretRule>): set<string> {
    set sr | sr in secrets :: Mask(cfg, sr.ruleID)
  }

  lemma SeparateTail(cfg: Config, secrets: seq<SecretRule>)
    requires secrets != [] && Separate(cfg, secrets)
    ensures Separate(cfg, secrets[1..]) && NonEmpty(secrets) && NonEmpty(secrets[1..])
  {
    assert forall sr | sr in secrets[1..] :: sr in secrets;
  }

  /** t cannot appear in a text through the placeholders of secrets. */
  ghost predicate Foreign(cfg: Config, secrets: seq<SecretRule>, t: string) {
    forall sr | sr in secrets :: Apart(t, Mask(cfg, sr.ruleID))
  }

  /** No secret reappears once it is gone. */
  lemma {:induction false} StaysAbsent(cfg: Config, secrets: seq<SecretRule>, marked: bool, body: string, t: string)
    requires NonEmpty(secrets) && Foreign(cfg, secrets, t) && !Contains(body, t)
    ensures !Contains(Apply(cfg, secrets, marked, body).body, t)
    decreases |secrets|
  {
    if secrets != [] {
      hide Text.Weave, Contains;
      var sr := secrets[0];
      var next := StepBody(cfg, sr, marked, body);
      assert "" + body == body && "" + next == next;
      NoNewOccurrence("", body, sr.secret, Mask(cfg, sr.ruleID), Spared(body, sr.secret, marked), t);
      StaysAbsent(cfg, secrets[1..], marked, next, t);
    }
  }

  /** A pending secret that no placeholder of the list touches is gone from the body, or one of its occurrences was
      kept and recorded. */
  lemma {:induction false} ApplyEliminates(
      cfg: Config, secrets: seq<SecretRule>, marked: bool, body: string, sr: SecretRule)
    requires Foreign(cfg, secrets, sr.secret) && sr in secrets && NonEmpty(secrets)
    ensures var a := Apply(cfg, secrets, marked, body);
      sr.secret in a.tally.kept || !Contains(a.body, sr.secret)
    decreases |secrets|
  {
    hide Text.Weave, Contains, KeptCount, Count, Apart;
    var first := secrets[0];
    var next := StepBody(cfg, first, marked, body);
    assert forall x | x in secrets[1..] :: x in secrets;
    if first == sr {
      var spared := Spared(body, sr.secret, marked);
      if KeptCount(body, sr.secret, spared) == 0 {
        Eliminated(body, sr.secret, Mask(cfg, sr.ruleID), spared);
        StaysAbsent(cfg, secrets[1..], marked, next, sr.secret);
      }
    } else {
      ApplyEliminates(cfg, secrets[1..], marked, next, sr);
    }
  }

  lemma SeparateIsForeign(cfg: Config, secrets: seq<SecretRule>, sr: SecretRule)
    requires Separate(cfg, secrets) && sr in secrets
    ensures Foreign(cfg, secrets, sr.secret) && Foreign(cfg, secrets[1..], sr.secret)
    ensures Apart(sr.secret, Mask(cfg, sr.ruleID)) && !Esc(false, sr.secret) && Bracketed(Mask(cfg, sr.ruleID))
  {
    assert forall x | x in secrets[1..] :: x in secrets;
  }

  /** The body keeps the encoder's units but for codes cut short, or an escape is severed and stays so. */
  lemma {:induction false} ApplyPatchedOrSevered(
      cfg: Config, secrets: seq<SecretRule>, marked: bool, body: string, all: seq<SecretRule>)
    requires Separate(cfg, all) && NonEmpty(secrets) && forall sr | sr in secrets :: sr in all
    requires Patched(body) || Severed(body, Masks(cfg, all))
    ensures var out := Apply(cfg, secrets, marked, body).body; Patched(out) || Severed(out, Masks(cfg, all))
    decreases |secrets|
  {
    if secrets != [] {
      hide Text.Weave, WellEncoded, Patched, Severed, Contains, KeptCount, Count, Separate, Masks;
      var sr := secrets[0];
      var next, mask := StepBody(cfg, sr, marked, body), Mask(cfg, sr.ruleID);
      var spared := Spared(body, sr.secret, marked);
      SeparateIsForeign(cfg, all, sr);
      SeparateIsClear(cfg, all, sr);
      assert "" + body == body && "" + next == next;
      EncodeIsWellEncoded(cfg.placeholder(sr.ruleID));
      WellEncodedIsPatched(mask);
      if Patched(body) {
        StaysPatchedOrSevered("", body, sr.secret, mask, spared, Masks(cfg, all));
      } else {
        StaysSevered("", body, sr.secret, mask, spared, Masks(cfg, all));
      }
      ApplyPatchedOrSevered(cfg, secrets[1..], marked, next, all);
    }
  }

  lemma SeparateIsClear(cfg: Config, secrets: seq<SecretRule>, sr: SecretRule)
    requires Separate(cfg, secrets) && sr in secrets
    ensures Clear(sr.secret, Masks(cfg, secrets)) && Mask(cfg, sr.ruleID) in Masks(cfg, secrets)
  {
    hide Apart, Bracketed;
  }

  /** A leaf in which nothing was substituted keeps its body. */
  lemma {:induction false} ApplyNothing(cfg: Config, secrets: seq<SecretRule>, marked: bool, body: string)
    requires NonEmpty(secrets) && Apply(cfg, secrets, marked, body).tally.count == 0
    ensures Apply(cfg, secrets, marked, body).body == body
    decreases |secrets|
  {
    if secrets != [] {
      var sr := secrets[0];
      AllKept(body, sr.secret, Mask(cfg, sr.ruleID), Spared(body, sr.secret, marked));
      hide Text.Weave, KeptCount, Count;
      ApplyNothing(cfg, secrets[1..], marked, StepBody(cfg, sr, marked, body));
    }
  }

  lemma {:induction false} AllKept(body: string, sub: string, mask: string, keep: set<int>)
    requires sub != "" && KeptCount(body, sub, keep) == Count(body, sub)
    ensures Weave(body, sub, mask, keep) == body
    decreases |body|
  {
    var i := Index(body, sub);
    if i >= 0 {
      IndexLeast(body, sub);
      CutAt(body, i, sub);
      AllKept(body[i + |sub|..], sub, mask, keep);
    }
  }

  /** The rule of the last substitution is one of the pending rules. */
  lemma {:induction false} LastRule(cfg: Config, secrets: seq<SecretRule>, marked: bool, body: string)
    requires NonEmpty(secrets) && Apply(cfg, secrets, marked, body).tally.count > 0
    ensures exists sr | sr in secrets :: sr.ruleID == Apply(cfg, secrets, marked, body).last
    decreases |secrets|
  {
    hide Text.Weave, KeptCount, Count;
    var next := StepBody(cfg, secrets[0], marked, body);
    if Apply(cfg, secrets[1..], marked, next).tally.count > 0 {
      LastRule(cfg, secrets[1..], marked, next);
      var sr :| sr in secrets[1..] && sr.ruleID == Apply(cfg, secrets, marked, body).last;
      assert sr in secrets;
    } else {
      assert secrets[0] in secrets;
    }
  }

  /** The heart of convergence: a pending secret that still occurs in a leaf after the pass is recorded as
      kept or as protected, whatever the markers, the path filter and the fallback did. */
  lemma SurvivorsAreRecorded(cfg: Config, secrets: seq<SecretRule>, s: string, path: string, sr: SecretRule)
    requires Separate(cfg, secrets) && NonEmpty(secrets) && sr in secrets
    ensures var r := RedactedLeaf(cfg, secrets, s, path);
      Contains(Encode(r.out), sr.secret) ==> sr.secret in r.tally.kept || sr.secret in r.tally.protected
  {
    var body := Encode(s);
    var r := RedactedLeaf(cfg, secrets, s, path);
    assert Contains(body, sr.secret) ==> sr.secret in Held(secrets, body);
    if Held(secrets, body) != {} && cfg.pathFilter(path) {
      hide Contains, Encode, Decode, WellEncoded, Patched, Severed, Separate, HasAllowMarker, Held;
      var marked := Marked(cfg, body);
      var a := Apply(cfg, secrets, marked, body);
      SeparateIsForeign(cfg, secrets, sr);
      ApplyEliminates(cfg, secrets, marked, body, sr);
      if a.tally.count == 0 {
        ApplyNothing(cfg, secrets, marked, body);
      } else {
        EncodeIsWellEncoded(s);
        WellEncodedIsPatched(body);
        ApplyPatchedOrSevered(cfg, secrets, marked, body, secrets);
        RebuildSpec(cfg, secrets, s, marked, sr.secret);
      }
    }
  }

  /** A rebuilt leaf encodes to the substituted body, and a dropped one to a placeholder, in which nothing
      foreign to the placeholders occurs. */
  lemma RebuildSpec(cfg: Config, secrets: seq<SecretRule>, s: string, marked: bool, t: string)
    requires Separate(cfg, secrets) && NonEmpty(secrets) && Foreign(cfg, secrets, t)
    requires Apply(cfg, secrets, marked, Encode(s)).tally.count > 0
    requires var out := Apply(cfg, secrets, marked, Encode(s)).body; Patched(out) || Severed(out, Masks(cfg, secrets))
    ensures var a := Apply(cfg, secrets, marked, Encode(s));
      Encode(Rebuild(cfg, s, a)) == a.body || !Contains(Encode(Rebuild(cfg, s, a)), t)
  {
    hide Apply, Encode, Decode, WellEncoded, Patched, Severed, Contains, Separate, Apart, Masks;
    var a := Apply(cfg, secrets, marked, Encode(s));
    if Decode(a.body).Some? {
      NotSevered(a.body, Masks(cfg, secrets));
      DecodablePatched(a.body);
      EncodeDecode(a.body);
    } else {
      LastRule(cfg, secrets, marked, Encode(s));
      var last :| last in secrets && last.ruleID == a.last;
      NotInMask(t, Mask(cfg, last.ruleID));
    }
  }

  /** A string that no placeholder of the list touches and that a leaf does not hold stays out of the leaf. */
  lemma LeafStaysWithout(cfg: Config, secrets: seq<SecretRule>, s: string, path: string, t: string)
    requires Separate(cfg, secrets) && NonEmpty(secrets) && Foreign(cfg, secrets, t) && !Contains(Encode(s), t)
    ensures !Contains(Encode(RedactedLeaf(cfg, secrets, s, path).out), t)
  {
    var body := Encode(s);
    if Held(secrets, body) != {} && cfg.pathFilter(path) {
      hide Contains, Encode, Decode, WellEncoded, Patched, Severed, Separate, HasAllowMarker, Held, Foreign;
      var marked := Marked(cfg, body);
      StaysAbsent(cfg, secrets, marked, body, t);
      EncodeIsWellEncoded(s);
      WellEncodedIsPatched(body);
      ApplyPatchedOrSevered(cfg, secrets, marked, body, secrets);
      if Apply(cfg, secrets, marked, body).tally.count > 0 { RebuildSpec(cfg, secrets, s, marked, t); }
    }
  }

  lemma NotSevered(body: string, masks: set<string>)
    requires Decode(body).Some?
    ensures !Severed(body, masks)
  {
    hide Decode, SeveredAt;
    forall mask, i | mask in masks && 0 <= i < |body| ensures !SeveredBy(body, i, mask) {
      if SeveredAt(body, i) { SeveredIsUndecodable(body, i); }
    }
  }

  lemma NotInMask(t: string, mask: string)
    requires Apart(t, mask)
    ensures !Contains(mask, t)
  {
    hide Contains;
  }

  // ---- Elimination ------------------------------------------------------------------------------------

  /** Without markers nothing is kept. */
  lemma {:induction false} UnmarkedKeepsNothing(cfg: Config, secrets: seq<SecretRule>, body: string)
    requires NonEmpty(secrets)
    ensures Apply(cfg, secrets, false, body).tally.kept == {} && Apply(cfg, secrets, false, body).tally.protected == {}
    decreases |secrets|
  {
    hide Text.Weave, KeptCount, Count;
    if secrets != [] {
      NoneSpared(body, secrets[0].secret);
      UnmarkedKeepsNothing(cfg, secrets[1..], StepBody(cfg, secrets[0], false, body));
    }
  }

  lemma {:induction false} NoneSpared(s: string, sub: string)
    requires sub != ""
    ensures KeptCount(s, sub, {}) == 0
    decreases |s|
  {
    if Index(s, sub) >= 0 { NoneSpared(s[Index(s, sub) + |sub|..], sub); }
  }

  /** In an eligible leaf without markers, no pending secret is left in the encoded body, although shorter secrets
      are substituted after longer ones and the whole leaf may have been dropped. */
  lemma EligibleLeafIsFree(cfg: Config, secrets: seq<SecretRule>, s: string, path: string, sr: SecretRule)
    requires Separate(cfg, secrets) && NonEmpty(secrets) && sr in secrets
    requires cfg.pathFilter(path) && !Marked(cfg, Encode(s))
    ensures !Contains(Encode(RedactedLeaf(cfg, secrets, s, path).out), sr.secret)
  {
    hide Apply, Separate, Encode, Contains, Rebuild;
    SurvivorsAreRecorded(cfg, secrets, s, path, sr);
    UnmarkedKeepsNothing(cfg, secrets, Encode(s));
  }
}
