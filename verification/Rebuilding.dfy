/** Exactly when a leaf is rebuilt from its substituted body, and not dropped. */
module Rebuilding {
  import opened Options
  import opened Text
  import opened Escapes
  import opened StringBody
  import opened Masking
  import opened Markers
  import opened LineWise
  import opened Pending
  import opened Leaf
  import opened LeafLines

  /** The text in front of each substituted occurrence, from the one substituted before it on, ends outside an escape.
      The prefix u is the text already written since then. */
  ghost predicate CleanCuts(u: string, s: string, sub: string, keep: set<int>)
    requires sub != ""
    decreases |s|
  {
    var i := Index(s, sub);
    i >= 0 ==>
      var a, rest := u + s[..i], s[i + |sub|..];
      if |s| - i in keep then CleanCuts(a + sub, rest, sub, keep) else !Inside(a) && CleanCuts("", rest, sub, keep)
  }

  lemma CleanUnfold(u: string, s: string, sub: string, keep: set<int>, i: int, a: string, rest: string, d: int)
    requires sub != "" && i == Index(s, sub)
    ensures i < 0 ==> CleanCuts(u, s, sub, keep)
    ensures i >= 0 && a == u + s[..i] && rest == s[i + |sub|..] && d == |s| - i ==>
      (CleanCuts(u, s, sub, keep) <==>
       if d in keep then CleanCuts(a + sub, rest, sub, keep) else !Inside(a) && CleanCuts("", rest, sub, keep))
  {
    hide Inside, Index;
  }

  // ---- Decoding behind a prefix --------------------------------------------------------------------------

  /** Behind a well-encoded text, decoding depends on the rest alone. */
  lemma {:induction false} DecodeBehind(p: string, x: string)
    requires WellEncoded(p)
    ensures Decode(p + x).Some? <==> Decode(x).Some?
    decreases |p|
  {
    if p == "" {
      assert p + x == x;
    } else {
      var n := UnitSize(p);
      if n == 6 {
        BehindCode(p);
        assert (p + x)[2..][..4] == p[2..][..4];
      }
      assert (p + x)[n..] == p[n..] + x;
      DecodeBehind(p[n..], x);
    }
  }

  /** Where no escape is open, a text that starts one is decoded on its own. */
  lemma {:induction false} DecodeEscapeBehind(p: string, x: string)
    requires !Esc(false, p) && x != "" && x[0] == '\\' && Decode(p + x).Some?
    ensures Decode(x).Some?
    decreases |p|
  {
    var s := p + x;
    if p == "" {
      assert s == x;
    } else {
      if p == "\\" { OpenBackslash(p); }
      var n := UnitSize(p);
      assert s[|p|] == '\\';
      assert n == 6 ==> forall k | 2 <= k < 6 :: s[k] == s[2..][..4][k - 2];
      assert UnitHead(p, n);
      EscBehindUnit(p, n);
      assert s[n..] == p[n..] + x;
      DecodeEscapeBehind(p[n..], x);
    }
  }

  /** A bracket where a digit of a code belongs makes the text undecodable. */
  lemma OpenCodeUndecodable(a: string, k: nat, b: string)
    requires CodeOpen(a, k) && b != "" && b[0] == '['
    ensures Decode(a + b).None?
  {
    hide Esc;
    var p, x := a[..|a| - k - 2], a[|a| - k - 2..] + b;
    assert a + b == p + x;
    assert x[2..][k] == '[';
    assert |x[2..]| >= 4 ==> x[2..][..4][k] == '[';
    assert Decode(x).None?;
    if Decode(a + b).Some? { DecodeEscapeBehind(p, x); }
  }

  lemma InsideUndecodable(a: string, b: string)
    requires Inside(a) && b != "" && b[0] == '['
    ensures Decode(a + b).None?
  {
    hide CodeOpen, Decode, Esc;
    if Esc(false, a) {
      assert (a + b)[..|a|] == a;
      SeveredIsUndecodable(a + b, |a|);
    } else {
      var k :| 0 <= k < 4 && CodeOpen(a, k);
      OpenCodeUndecodable(a, k, b);
    }
  }

  // ---- One secret ------------------------------------------------------------------------------------------

  /** The substituted body decodes if and only if all cuts are clean, and then it is well encoded. */
  lemma {:induction false} DecodesIffClean(u: string, s: string, sub: string, mask: string, keep: set<int>)
    requires sub != "" && !Esc(false, sub) && Bracketed(mask) && WellEncoded(mask) && WellEncoded(u + s)
    ensures Decode(u + Weave(s, sub, mask, keep)).Some? <==> CleanCuts(u, s, sub, keep)
    ensures CleanCuts(u, s, sub, keep) ==> WellEncoded(u + Weave(s, sub, mask, keep))
    decreases |s|
  {
    hide Text.Weave, Text.Index, Esc, WellEncoded, KeptCount, Decode, Inside, CleanCuts;
    var i := Index(s, sub);
    if i < 0 {
      WeaveNone(s, sub, mask, keep);
      CleanUnfold(u, s, sub, keep, i, "", "", 0);
      EncodeDecode(u + s);
    } else {
      IndexLeast(s, sub);
      CutAt(s, i, sub);
      var a, rest := u + s[..i], s[i + |sub|..];
      var d := |sub| + |rest|;
      var tail := Weave(rest, sub, mask, keep);
      WeaveUnfold(s, sub, mask, keep, i, rest, d);
      CleanUnfold(u, s, sub, keep, i, a, rest, d);
      Reassociate(u, s[..i], sub, rest);
      Reassociate(u, s[..i], if d in keep then sub else mask, tail);
      if d in keep {
        DecodesIffClean(a + sub, rest, sub, mask, keep);
      } else if Inside(a) {
        assert a + mask + tail == a + (mask + tail);
        InsideUndecodable(a, mask + tail);
      } else {
        CleanCut(a, sub, mask, rest, tail);
        assert "" + rest == rest && "" + tail == tail;
        DecodesIffClean("", rest, sub, mask, keep);
        if WellEncoded(tail) { WellEncodedConcat(a + mask, tail); }
      }
    }
  }

  lemma CleanCut(a: string, sub: string, mask: string, rest: string, tail: string)
    requires WellEncoded(a + sub + rest) && !Inside(a) && !Esc(false, sub) && WellEncoded(mask)
    ensures WellEncoded(rest) && WellEncoded(a + mask)
    ensures Decode(a + mask + tail).Some? <==> Decode(tail).Some?
  {
    hide Esc, WellEncoded, Decode, MidCode;
    assert a + sub + rest == a + (sub + rest);
    WellEncodedFront(a, sub + rest);
    WellEncodedBehind(a, sub + rest);
    WellEncodedBehind(sub, rest);
    WellEncodedConcat(a, mask);
    DecodeBehind(a + mask, tail);
  }

  /** One secret in a leaf: the leaf is rebuilt from the substituted body if all cuts are clean, and replaced by the
      bare placeholder otherwise. */
  lemma RebuiltIffClean(cfg: Config, sr: SecretRule, s: string, path: string)
    requires sr.secret != "" && !Esc(false, sr.secret) && Bracketed(Mask(cfg, sr.ruleID)) && cfg.pathFilter(path)
    requires StepTally(sr, Marked(cfg, Encode(s)), Encode(s)).count > 0
    ensures NonEmpty([sr])
    ensures var body, marked := Encode(s), Marked(cfg, Encode(s));
      var out := RedactedLeaf(cfg, [sr], s, path).out;
      if CleanCuts("", body, sr.secret, Spared(body, sr.secret, marked)) then
        Encode(out) == StepBody(cfg, sr, marked, body)
      else out == cfg.placeholder(sr.ruleID)
  {
    hide Text.Weave, Text.Index, Esc, WellEncoded, KeptCount, Count, Decode, Inside, CleanCuts, Encode, HasAllowMarker,
         Contains, Apply, Spared;
    var body, marked := Encode(s), Marked(cfg, Encode(s));
    var next := StepBody(cfg, sr, marked, body);
    EncodeIsWellEncoded(s);
    EncodeIsWellEncoded(cfg.placeholder(sr.ruleID));
    assert "" + body == body && "" + next == next;
    DecodesIffClean("", body, sr.secret, Mask(cfg, sr.ruleID), Spared(body, sr.secret, marked));
    assert [sr][1..] == [];
    ApplyUnfold(cfg, [sr], marked, body);
    ApplyNone(cfg, marked, next);
    CountZero(body, sr.secret);
    if Contains(body, sr.secret) { HeldSome([sr], body, sr); }
    if Decode(next).Some? { EncodeDecode(next); }
  }

  // ---- A list of secrets ------------------------------------------------------------------------------------

  ghost predicate CleanThroughout(cfg: Config, secrets: seq<SecretRule>, marked: bool, body: string)
    requires NonEmpty(secrets)
    decreases |secrets|
  {
    secrets != [] ==>
      && CleanCuts("", body, secrets[0].secret, Spared(body, secrets[0].secret, marked))
      && CleanThroughout(cfg, secrets[1..], marked, StepBody(cfg, secrets[0], marked, body))
  }

  lemma StepStaysClean(cfg: Config, sr: SecretRule, marked: bool, body: string)
    requires sr.secret != "" && !Esc(false, sr.secret) && Bracketed(Mask(cfg, sr.ruleID)) && WellEncoded(body)
    requires CleanCuts("", body, sr.secret, Spared(body, sr.secret, marked))
    ensures WellEncoded(StepBody(cfg, sr, marked, body))
  {
    hide Text.Weave, Esc, WellEncoded, CleanCuts, Encode, Spared;
    var next := StepBody(cfg, sr, marked, body);
    EncodeIsWellEncoded(cfg.placeholder(sr.ruleID));
    assert "" + body == body && "" + next == next;
    DecodesIffClean("", body, sr.secret, Mask(cfg, sr.ruleID), Spared(body, sr.secret, marked));
  }

  lemma {:induction false} ApplyStaysClean(cfg: Config, secrets: seq<SecretRule>, marked: bool, body: string)
    requires Separate(cfg, secrets) && NonEmpty(secrets) && WellEncoded(body)
    requires CleanThroughout(cfg, secrets, marked, body)
    ensures WellEncoded(Apply(cfg, secrets, marked, body).body)
    decreases |secrets|
  {
    hide Esc, WellEncoded, CleanCuts, StepBody, Apply, Apart, Spared;
    ApplyBody(cfg, secrets, marked, body);
    if secrets != [] {
      assert secrets[0] in secrets;
      StepStaysClean(cfg, secrets[0], marked, body);
      SeparateTail(cfg, secrets);
      ApplyStaysClean(cfg, secrets[1..], marked, StepBody(cfg, secrets[0], marked, body));
    }
  }

  /** When all cuts of all secrets are clean, the encoded leaf after the pass is the folded body. */
  lemma CleanLeafIsRebuilt(cfg: Config, secrets: seq<SecretRule>, s: string, path: string)
    requires Separate(cfg, secrets) && NonEmpty(secrets) && cfg.pathFilter(path)
    requires CleanThroughout(cfg, secrets, Marked(cfg, Encode(s)), Encode(s))
    ensures Encode(RedactedLeaf(cfg, secrets, s, path).out) ==
            Apply(cfg, secrets, Marked(cfg, Encode(s)), Encode(s)).body
  {
    hide HasAllowMarker, Apply, Decode, WellEncoded, Separate, CleanThroughout, Encode;
    var body, marked := Encode(s), Marked(cfg, Encode(s));
    EncodeIsWellEncoded(s);
    ApplyStaysClean(cfg, secrets, marked, body);
    var a := Apply(cfg, secrets, marked, body);
    EncodeDecode(a.body);
    if a.tally.count == 0 { ApplyNothing(cfg, secrets, marked, body); }
    if Held(secrets, body) == {} { NothingHeld(cfg, secrets, marked, body); }
  }

  /** Aligned occurrences have clean cuts. */
  lemma {:induction false} AlignedIsClean(u: string, s: string, sub: string, keep: set<int>)
    requires sub != "" && !Esc(false, sub) && Aligned(u + s, sub)
    ensures CleanCuts(u, s, sub, keep)
    decreases |s|
  {
    hide Text.Index, Esc, Aligned, Inside, CleanCuts;
    var i := Index(s, sub);
    if i < 0 {
      CleanUnfold(u, s, sub, keep, i, "", "", 0);
    } else {
      IndexLeast(s, sub);
      CutAt(s, i, sub);
      var a, rest := u + s[..i], s[i + |sub|..];
      CleanUnfold(u, s, sub, keep, i, a, rest, |s| - i);
      Reassociate(u, s[..i], sub, rest);
      ClosedBehind(a, sub, rest);
      if |s| - i in keep {
        AlignedIsClean(a + sub, rest, sub, keep);
      } else {
        AlignedBehindConcat(a + sub, rest, sub);
        assert "" + rest == rest;
        AlignedIsClean("", rest, sub, keep);
      }
    }
  }

  lemma {:induction false} AllAlignedIsClean(cfg: Config, secrets: seq<SecretRule>, marked: bool, body: string)
    requires Separate(cfg, secrets) && NonEmpty(secrets) && AllAligned(secrets, body)
    ensures CleanThroughout(cfg, secrets, marked, body)
    decreases |secrets|
  {
    hide Esc, CleanCuts, StepBody, Apart, Spared, Aligned;
    if secrets != [] {
      assert secrets[0] in secrets;
      assert "" + body == body;
      AlignedIsClean("", body, secrets[0].secret, Spared(body, secrets[0].secret, marked));
      AlignedTail(cfg, secrets, marked, body);
      SeparateTail(cfg, secrets);
      AllAlignedIsClean(cfg, secrets[1..], marked, StepBody(cfg, secrets[0], marked, body));
    }
  }

  /** With aligned secrets the leaf is rebuilt from the substituted body, never dropped. */
  lemma AlignedLeafIsRebuilt(cfg: Config, secrets: seq<SecretRule>, s: string, path: string)
    requires Separate(cfg, secrets) && NonEmpty(secrets) && AllAligned(secrets, Encode(s)) && cfg.pathFilter(path)
    ensures Encode(RedactedLeaf(cfg, secrets, s, path).out) ==
            Apply(cfg, secrets, Marked(cfg, Encode(s)), Encode(s)).body
  {
    hide HasAllowMarker, Apply, AllAligned, Separate, CleanThroughout, Encode, RedactedLeaf;
    AllAlignedIsClean(cfg, secrets, Marked(cfg, Encode(s)), Encode(s));
    CleanLeafIsRebuilt(cfg, secrets, s, path);
  }
}
