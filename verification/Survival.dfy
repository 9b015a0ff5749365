/** Exactly which strings a substitution leaves in a text. */
module Survival {
  import opened Text
  import opened Masking
  import opened Markers
  import opened Pending
  import opened Leaf

  /** The occurrence of sub at p is substituted: it is one of those taken from the left, and it is not kept. */
  predicate SubstitutedAt(s: string, sub: string, keep: set<int>, p: int)
    requires sub != ""
    decreases |s|
  {
    var i := Index(s, sub);
    i >= 0 && ((p == i && |s| - i !in keep) || SubstitutedAt(s[i + |sub|..], sub, keep, p - i - |sub|))
  }

  lemma SubstitutedUnfold(s: string, sub: string, keep: set<int>, i: int, rest: string, p: int)
    requires sub != "" && i == Index(s, sub)
    ensures i < 0 ==> !SubstitutedAt(s, sub, keep, p)
    ensures i >= 0 && rest == s[i + |sub|..] ==>
      (SubstitutedAt(s, sub, keep, p) <==>
       (p == i && |sub| + |rest| !in keep) || SubstitutedAt(rest, sub, keep, p - i - |sub|))
  {
  }

  lemma {:induction false} SubstitutedInText(s: string, sub: string, keep: set<int>, p: int)
    requires sub != "" && SubstitutedAt(s, sub, keep, p)
    ensures At(s, p, sub)
    decreases |s|
  {
    hide Index;
    var i := Index(s, sub);
    IndexLeast(s, sub);
    if p != i {
      SubstitutedInText(s[i + |sub|..], sub, keep, p - i - |sub|);
      assert s == s[..i + |sub|] + s[i + |sub|..];
      AtConcat(s[..i + |sub|], s[i + |sub|..], p - i - |sub|, sub);
    }
  }

  /** No substituted occurrence in s, which stands behind u, shares a character with the n characters at i. */
  ghost predicate MeetsNone(u: string, s: string, sub: string, keep: set<int>, i: int, n: nat)
    requires sub != ""
  {
    forall p | SubstitutedAt(s, sub, keep, p) :: |u| + p + |sub| <= i || i + n <= |u| + p
  }

  ghost predicate Survivor(u: string, s: string, sub: string, keep: set<int>, t: string)
    requires sub != ""
  {
    exists i :: At(u + s, i, t) && MeetsNone(u, s, sub, keep, i, |t|)
  }

  /** A string that the placeholder cannot touch is in the substituted text if and only if one of its occurrences in the
      text before meets no substituted occurrence. The prefix u is the text already written. */
  lemma {:induction false} SurvivesIff(u: string, s: string, sub: string, mask: string, keep: set<int>, t: string)
    requires sub != "" && t != "" && Apart(t, mask)
    ensures Contains(u + Weave(s, sub, mask, keep), t) <==> Survivor(u, s, sub, keep, t)
    decreases |s|
  {
    hide Text.Weave, KeptCount, Apart, SubstitutedAt, Contains, Index;
    var i := Index(s, sub);
    if i < 0 {
      WeaveNone(s, sub, mask, keep);
      NoneSubstituted(u, s, sub, keep, t);
    } else {
      IndexLeast(s, sub);
      CutAt(s, i, sub);
      var a, rest := u + s[..i], s[i + |sub|..];
      var d := |sub| + |rest|;
      var tail := Weave(rest, sub, mask, keep);
      WeaveUnfold(s, sub, mask, keep, i, rest, d);
      Reassociate(u, s[..i], sub, rest);
      Reassociate(u, s[..i], if d in keep then sub else mask, tail);
      if d in keep {
        SurvivesIff(a + sub, rest, sub, mask, keep, t);
        SameSurvivor(u, s, sub, keep, t, i, a, rest);
      } else {
        assert "" + rest == rest && "" + tail == tail;
        SurvivesIff("", rest, sub, mask, keep, t);
        ContainsAround(a, mask, tail, t);
        SplitSurvivor(u, s, sub, keep, t, i, a, rest);
      }
    }
  }

  lemma NoneSubstituted(u: string, s: string, sub: string, keep: set<int>, t: string)
    requires sub != "" && Index(s, sub) < 0
    ensures Contains(u + s, t) <==> Survivor(u, s, sub, keep, t)
  {
    forall i ensures MeetsNone(u, s, sub, keep, i, |t|) {}
    if Contains(u + s, t) {
      var i :| 0 <= i <= |u + s| && At(u + s, i, t);
      assert MeetsNone(u, s, sub, keep, i, |t|);
    }
  }

  lemma ContainsAround(a: string, mask: string, b: string, t: string)
    requires Apart(t, mask)
    ensures Contains(a + mask + b, t) <==> Contains(a, t) || Contains(b, t)
  {
    ContainsConcat(a, mask, t);
    ContainsConcat(a + mask, b, t);
    if !Contains(a, t) && !Contains(b, t) { NoneAround(a, mask, b, t); }
  }

  /** Behind a kept occurrence only the later substitutions matter. */
  lemma SameSurvivor(u: string, s: string, sub: string, keep: set<int>, t: string, i: nat, a: string, rest: string)
    requires sub != "" && i == Index(s, sub) && rest == s[i + |sub|..] && |sub| + |rest| in keep
    requires a == u + s[..i] && u + s == a + sub + rest
    ensures Survivor(u, s, sub, keep, t) <==> Survivor(a + sub, rest, sub, keep, t)
  {
    hide SubstitutedAt, Index;
    forall j ensures MeetsNone(u, s, sub, keep, j, |t|) <==> MeetsNone(a + sub, rest, sub, keep, j, |t|) {
      forall p ensures SubstitutedAt(s, sub, keep, p) <==> SubstitutedAt(rest, sub, keep, p - i - |sub|) {
        SubstitutedUnfold(s, sub, keep, i, rest, p);
      }
      forall q ensures SubstitutedAt(rest, sub, keep, q) <==> SubstitutedAt(s, sub, keep, q + i + |sub|) {
        SubstitutedUnfold(s, sub, keep, i, rest, q + i + |sub|);
      }
    }
  }

  /** A survivor lies in front of a substituted occurrence, or survives behind it. */
  lemma SplitSurvivor(u: string, s: string, sub: string, keep: set<int>, t: string, i: nat, a: string, rest: string)
    requires sub != "" && t != "" && i == Index(s, sub) && rest == s[i + |sub|..] && |sub| + |rest| !in keep
    requires a == u + s[..i] && u + s == a + sub + rest
    ensures Survivor(u, s, sub, keep, t) <==> Contains(a, t) || Survivor("", rest, sub, keep, t)
  {
    hide SubstitutedAt, Index;
    var text := u + s;
    if Survivor(u, s, sub, keep, t) {
      var j :| At(text, j, t) && MeetsNone(u, s, sub, keep, j, |t|);
      SubstitutedUnfold(s, sub, keep, i, rest, i);
      SurvivorBeside(u, s, sub, keep, t, i, a, rest, j);
    }
    if Contains(a, t) {
      var j :| 0 <= j <= |a| && At(a, j, t);
      assert text == a + (sub + rest);
      AtConcat(a, sub + rest, j, t);
      forall p | SubstitutedAt(s, sub, keep, p) ensures j + |t| <= |u| + p {
        SubstitutedUnfold(s, sub, keep, i, rest, p);
        if p != i { SubstitutedInText(rest, sub, keep, p - i - |sub|); }
      }
      assert MeetsNone(u, s, sub, keep, j, |t|);
    }
    if Survivor("", rest, sub, keep, t) {
      assert "" + rest == rest;
      var q :| At(rest, q, t) && MeetsNone("", rest, sub, keep, q, |t|);
      var j := q + |a + sub|;
      AtConcat(a + sub, rest, q, t);
      forall p | SubstitutedAt(s, sub, keep, p) ensures |u| + p + |sub| <= j || j + |t| <= |u| + p {
        SubstitutedUnfold(s, sub, keep, i, rest, p);
      }
      assert MeetsNone(u, s, sub, keep, j, |t|);
    }
  }

  lemma SurvivorBeside(
      u: string, s: string, sub: string, keep: set<int>, t: string, i: nat, a: string, rest: string, j: int)
    requires sub != "" && t != "" && i == Index(s, sub) && rest == s[i + |sub|..] && |sub| + |rest| !in keep
    requires a == u + s[..i] && u + s == a + sub + rest
    requires At(u + s, j, t) && MeetsNone(u, s, sub, keep, j, |t|) && SubstitutedAt(s, sub, keep, i)
    ensures Contains(a, t) || Survivor("", rest, sub, keep, t)
  {
    hide SubstitutedAt, Index, Contains, At, MeetsNone, Survivor;
    var text := u + s;
    assert text == a + (sub + rest);
    AtConcat(a, sub + rest, j, t);
    AtConcat(a + sub, rest, j, t);
    MeetsNoneAt(u, s, sub, keep, j, |t|, i);
    if j + |t| <= |a| {
      ContainsAt(a, j, t);
    } else {
      MeetsNoneBehind(u, s, sub, keep, j, |t|, i, rest);
      SurvivorAt("", rest, sub, keep, t, j - |a + sub|);
    }
  }

  lemma SurvivorAt(u: string, s: string, sub: string, keep: set<int>, t: string, i: int)
    requires sub != "" && |u| == 0 && At(s, i, t) && MeetsNone(u, s, sub, keep, i, |t|)
    ensures Survivor(u, s, sub, keep, t)
  {
    hide MeetsNone;
    assert u + s == s;
  }

  lemma MeetsNoneAt(u: string, s: string, sub: string, keep: set<int>, j: int, n: nat, p: int)
    requires sub != "" && MeetsNone(u, s, sub, keep, j, n) && SubstitutedAt(s, sub, keep, p)
    ensures |u| + p + |sub| <= j || j + n <= |u| + p
  {
    hide SubstitutedAt;
  }

  lemma MeetsNoneBehind(u: string, s: string, sub: string, keep: set<int>, j: int, n: nat, i: nat, rest: string)
    requires sub != "" && MeetsNone(u, s, sub, keep, j, n) && i == Index(s, sub) && rest == s[i + |sub|..]
    ensures MeetsNone("", rest, sub, keep, j - |u| - i - |sub|, n)
  {
    hide SubstitutedAt, Index;
    var q := j - |u| - i - |sub|;
    forall p | SubstitutedAt(rest, sub, keep, p) ensures p + |sub| <= q || q + n <= p {
      SubstitutedUnfold(s, sub, keep, i, rest, p + i + |sub|);
    }
  }

  // ---- Markers ---------------------------------------------------------------------------------------

  /** Some marker of the body meets no substituted occurrence of the secret. */
  ghost predicate MarkerUnmet(body: string, secret: string, keep: set<int>)
    requires secret != ""
  {
    Survivor("", body, secret, keep, BETTERLEAKS) || Survivor("", body, secret, keep, GITLEAKS)
  }

  /** For every body and secret, aligned or not and on one line or not: after the substitution the body carries a marker
      if and only if a marker of the body before meets no substituted occurrence. */
  lemma MarkerSurvivesIff(cfg: Config, sr: SecretRule, marked: bool, body: string)
    requires sr.secret != "" && Apart(BETTERLEAKS, Mask(cfg, sr.ruleID)) && Apart(GITLEAKS, Mask(cfg, sr.ruleID))
    ensures HasAllowMarker(StepBody(cfg, sr, marked, body)) <==>
            MarkerUnmet(body, sr.secret, Spared(body, sr.secret, marked))
  {
    hide Text.Weave, Contains, Apart, Survivor, Mask;
    var next, mask, keep := StepBody(cfg, sr, marked, body), Mask(cfg, sr.ruleID), Spared(body, sr.secret, marked);
    assert "" + next == next;
    SurvivesIff("", body, sr.secret, mask, keep, BETTERLEAKS);
    SurvivesIff("", body, sr.secret, mask, keep, GITLEAKS);
  }

  /** The body carries a marker in front of every secret of the list and behind the last. */
  ghost predicate FlagStays(cfg: Config, secrets: seq<SecretRule>, body: string)
    requires NonEmpty(secrets)
    decreases |secrets|
  {
    HasAllowMarker(body) && (secrets != [] ==> FlagStays(cfg, secrets[1..], StepBody(cfg, secrets[0], true, body)))
  }

  ghost predicate UnmetThroughout(cfg: Config, secrets: seq<SecretRule>, body: string)
    requires NonEmpty(secrets)
    decreases |secrets|
  {
    secrets != [] ==>
      && MarkerUnmet(body, secrets[0].secret, Spared(body, secrets[0].secret, true))
      && UnmetThroughout(cfg, secrets[1..], StepBody(cfg, secrets[0], true, body))
  }

  /** What redactLeaf decides once, before the first secret, stays true up to the last if and only if at each secret
      some marker is out of reach of the substitutions. */
  lemma {:induction false} FlagStaysIff(cfg: Config, secrets: seq<SecretRule>, body: string)
    requires NonEmpty(secrets) && HasAllowMarker(body)
    requires forall r :: Apart(BETTERLEAKS, Mask(cfg, r)) && Apart(GITLEAKS, Mask(cfg, r))
    ensures FlagStays(cfg, secrets, body) <==> UnmetThroughout(cfg, secrets, body)
    decreases |secrets|
  {
    if secrets != [] {
      hide StepBody, MarkerUnmet, Apart, HasAllowMarker, Mask, Spared;
      MarkerSurvivesIff(cfg, secrets[0], true, body);
      var next := StepBody(cfg, secrets[0], true, body);
      if HasAllowMarker(next) { FlagStaysIff(cfg, secrets[1..], next); }
    }
  }
}
