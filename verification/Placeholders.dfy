/** The default placeholder, and how it is recognised. */
module Placeholders {
  import opened Text
  import opened Escapes
  import opened StringBody
  import opened Masking
  import opened Markers
  import opened Pending
  import opened Leaf

  const PREFIX := "[CHAINLOOP_TRACE_REDACTED"

  /** DefaultPlaceholder */
  function DefaultPlaceholder(ruleID: string): string {
    if ruleID == "" then PREFIX + "]" else PREFIX + ":" + ruleID + "]"
  }

  /** A character the recogniser allows in a rule id: anything but a closing bracket and white space. */
  predicate InRule(c: char) {
    c !in [']', '\t', '\n', '\U{C}', '\r', ' ']
  }

  /** IsDefaultPlaceholder: the prefix, optionally a colon and a rule id, and a closing bracket. */
  predicate IsDefaultPlaceholder(s: string) {
    && PREFIX <= s && |s| > |PREFIX| && s[|s| - 1] == ']'
    && var middle := s[|PREFIX|..|s| - 1];
      middle == "" || (middle[0] == ':' && forall i | 1 <= i < |middle| :: InRule(middle[i]))
  }

  predicate AllInRule(s: string) {
    forall i | 0 <= i < |s| :: InRule(s[i])
  }

  /** Behind the colon the pattern allows exactly the characters of a rule id. */
  lemma RecognisedBehindColon(code: string)
    ensures IsDefaultPlaceholder(PREFIX + (":" + code + "]")) <==> AllInRule(code)
  {
    hide InRule;
    var s := PREFIX + (":" + code + "]");
    var middle := s[|PREFIX|..|s| - 1];
    assert s[..|PREFIX|] == PREFIX;
    assert middle == ":" + code;
    assert forall i | 1 <= i < |middle| :: middle[i] == code[i - 1];
    assert forall i | 0 <= i < |code| :: code[i] == middle[i + 1];
  }

  lemma RecognisedBare()
    ensures IsDefaultPlaceholder(PREFIX + "]")
  {
    var s := PREFIX + "]";
    assert s[..|PREFIX|] == PREFIX && s[|PREFIX|..|s| - 1] == "";
  }

  /** The recogniser knows the placeholder of a rule exactly when the rule id has neither a closing bracket nor
      white space. */
  lemma RecognisedIff(ruleID: string)
    ensures IsDefaultPlaceholder(DefaultPlaceholder(ruleID)) <==> forall i | 0 <= i < |ruleID| :: InRule(ruleID[i])
  {
    hide IsDefaultPlaceholder, InRule;
    RecognisedBare();
    RecognisedBehindColon(ruleID);
    assert PREFIX + ":" + ruleID + "]" == PREFIX + (":" + ruleID + "]");
  }

  /** A rule id with a space: its placeholder is not recognised, whatever the documentation of the pattern says
      about any rule id. */
  lemma UnrecognisedPlaceholder()
    ensures !IsDefaultPlaceholder(DefaultPlaceholder("my rule"))
  {
    RecognisedIff("my rule");
    assert !InRule("my rule"[2]);
  }

  /** In its encoded form the default placeholder is delimited by brackets. */
  lemma DefaultIsBracketed(ruleID: string)
    ensures Bracketed(Encode(DefaultPlaceholder(ruleID)))
  {
    hide Encode;
    var s := DefaultPlaceholder(ruleID);
    var init := s[..|s| - 1];
    assert s == init + "]" && s[0] == '[';
    EncodeConcat(init, "]");
    EncodePlain("]");
    assert init == "[" + init[1..];
    EncodeConcat("[", init[1..]);
    EncodePlain("[");
  }

  // ---- The encoded form -----------------------------------------------------------------------------------

  /** The placeholder of a rule as it stands in a document. */
  lemma DefaultEncoded(ruleID: string)
    requires ruleID != ""
    ensures Encode(DefaultPlaceholder(ruleID)) == "[CHAINLOOP_TRACE_REDACTED" + (":" + Encode(ruleID) + "]")
  {
    hide Encode;
    var front := PREFIX + ":";
    assert forall i | 0 <= i < |front| :: IsPlain(front[i]);
    EncodePlain(front);
    EncodePlain("]");
    EncodeConcat(front, ruleID);
    EncodeConcat(front + ruleID, "]");
    assert PREFIX + ":" + Encode(ruleID) + "]" == PREFIX + (":" + Encode(ruleID) + "]");
  }

  lemma AllInRuleConcat(a: string, b: string)
    ensures AllInRule(a + b) <==> AllInRule(a) && AllInRule(b)
  {
    hide InRule;
    if AllInRule(a + b) {
      assert forall i | 0 <= i < |a| :: a[i] == (a + b)[i];
      assert forall i | 0 <= i < |b| :: b[i] == (a + b)[|a| + i];
    }
  }

  /** Of what ends the rule id in the pattern, the encoder leaves two characters as they are. */
  lemma CharInRule(c: char)
    ensures AllInRule(EncodeChar(c)) <==> c != ' ' && c != ']'
  {
    if EscapeLetter(c).Some? {
      assert InRule('\\') && InRule(EscapeLetter(c).value);
    } else if IsCoded(c) {
      var code := Code(c);
      assert forall i | 0 <= i < 4 :: InRule(code[i]);
      AllInRuleConcat("\\u", code);
    } else {
      assert AllInRule([c]) <==> InRule([c][0]);
    }
  }

  lemma {:induction false} EncodedInRule(s: string)
    ensures AllInRule(Encode(s)) <==> ' ' !in s && ']' !in s
  {
    if s != "" {
      hide AllInRule, EncodeChar;
      CharInRule(s[0]);
      EncodedInRule(s[1..]);
      AllInRuleConcat(EncodeChar(s[0]), Encode(s[1..]));
      assert s == [s[0]] + s[1..];
    }
  }

  /** The recogniser sees placeholders as they stand in a document, with their white space escaped: it knows the one of
      a rule exactly when the rule id has neither a closing bracket nor a space. */
  lemma RecognisedEncodedIff(ruleID: string)
    ensures IsDefaultPlaceholder(Encode(DefaultPlaceholder(ruleID))) <==> ' ' !in ruleID && ']' !in ruleID
  {
    hide Encode, InRule, IsDefaultPlaceholder, AllInRule;
    if ruleID == "" {
      BareIsPlain();
      RecognisedBare();
    } else {
      DefaultEncoded(ruleID);
      EncodedInRule(ruleID);
      RecognisedBehindColon(Encode(ruleID));
    }
  }

  lemma BareIsPlain()
    ensures Encode(PREFIX + "]") == PREFIX + "]"
  {
    hide Encode;
    var s := PREFIX + "]";
    assert forall i | 0 <= i < |s| :: IsPlain(s[i]);
    EncodePlain(s);
  }

  /** A rule id with a marker in it makes a placeholder with a marker in it. */
  lemma DefaultCanCarryMarker(ruleID: string, t: string)
    requires t in [BETTERLEAKS, GITLEAKS] && Contains(ruleID, t)
    ensures Contains(Encode(DefaultPlaceholder(ruleID)), t)
  {
    hide Encode, Contains;
    var i := FoundAt(ruleID, t);
    CutAt(ruleID, i, t);
    var a, b := ruleID[..i], ruleID[i + |t|..];
    MarkerIsPlain(t);
    EncodePlain(t);
    EncodeConcat(a + t, b);
    EncodeConcat(a, t);
    DefaultEncoded(ruleID);
    ContainsAt(t, 0, t);
    ContainsConcat(Encode(a), t, t);
    ContainsConcat(Encode(a) + t, Encode(b), t);
    ContainsConcat(":", Encode(ruleID), t);
    ContainsConcat(":" + Encode(ruleID), "]", t);
    ContainsConcat(PREFIX, ":" + Encode(ruleID) + "]", t);
  }

  lemma FoundAt(s: string, t: string) returns (i: nat)
    requires t != "" && Contains(s, t)
    ensures At(s, i, t)
  {
    i :| 0 <= i <= |s| && At(s, i, t);
  }

  lemma MarkerIsPlain(t: string)
    requires t in [BETTERLEAKS, GITLEAKS]
    ensures forall i | 0 <= i < |t| :: IsPlain(t[i])
  {
  }

  /** With the default placeholder, pending secrets are separate from all placeholders when they hold no bracket and
      do not occur in one. */
  lemma DefaultSeparate(cfg: Config, findings: seq<Finding>, skip: set<string>)
    requires forall r :: cfg.placeholder(r) == DefaultPlaceholder(r)
    requires var list := PendingList(findings, skip, cfg.isPlaceholder);
      forall a, b | a in list && b in list ::
        Unbracketed(a.secret) && !Contains(Encode(DefaultPlaceholder(b.ruleID)), a.secret)
    ensures Separate(cfg, PendingList(findings, skip, cfg.isPlaceholder))
  {
    hide PendingList, Encode, Contains, Unbracketed, Esc, DefaultPlaceholder, Apart, Bracketed;
    PendingWanted(findings, skip, cfg.isPlaceholder);
    var list := PendingList(findings, skip, cfg.isPlaceholder);
    forall a, b | a in list && b in list
      ensures !Esc(false, a.secret) && Bracketed(Mask(cfg, b.ruleID)) && Apart(a.secret, Mask(cfg, b.ruleID))
    {
      DefaultIsBracketed(b.ruleID);
      BracketsKeepApart(a.secret, Mask(cfg, b.ruleID));
    }
  }
}
