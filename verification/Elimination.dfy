/** Exactly when substitution removes a secret for good, whatever the text around it. */
module Elimination {
  import opened Text
  import opened Escapes
  import opened Order
  import opened StringBody
  import opened Masking
  import opened Markers
  import opened Pending
  import opened Leaf
  import opened LeafLines
  import opened Survival

  // ---- One secret ------------------------------------------------------------------------------------

  /** The first occurrence of s behind a copy of its first k characters is the one at k. */
  predicate FirstBehind(s: string, k: nat) {
    k <= |s| && Index(s[..k] + s, s) == k
  }

  /** The placeholder for s can bring s back: it holds s, it ends in a start of s, or it continues a start of s that
      stood in front of an occurrence. */
  predicate Recreates(s: string, mask: string) {
    || Contains(mask, s)
    || (exists k | 0 < k < |s| :: StartEnds(s, mask, k))
    || (exists k | 0 < k < |s| :: FirstBehind(s, k) && (EndStarts(s, mask, k) || mask <= s[k..]))
  }

  ghost predicate Removed(s: string, mask: string)
    requires s != ""
  {
    forall body :: !Contains(ReplaceAll(body, s, mask), s)
  }

  /** strings.ReplaceAll removes s from every text if and only if the placeholder cannot bring it back. */
  lemma RemovedIff(s: string, mask: string)
    requires s != ""
    ensures Removed(s, mask) <==> !Recreates(s, mask)
  {
    hide Contains, ReplaceAll, Recreates;
    if Recreates(s, mask) {
      var body := Recreated(s, mask);
    } else {
      forall body ensures !Contains(ReplaceAll(body, s, mask), s) { NotRecreated(body, s, mask); }
    }
  }

  lemma {:induction false} NotRecreated(body: string, s: string, mask: string)
    requires s != "" && !Recreates(s, mask)
    ensures !Contains(ReplaceAll(body, s, mask), s)
    decreases |body|
  {
    hide Text.Weave, Index, Recreates, KeptCount;
    if Index(body, s) < 0 {
      ContainsIffIndex(body, s);
      WeaveNone(body, s, mask, {});
    } else {
      var i := Index(body, s);
      IndexLeast(body, s);
      var a, rest := body[..i], body[i + |s|..];
      WeaveUnfold(body, s, mask, {}, i, rest, |body| - i);
      var tail := ReplaceAll(rest, s, mask);
      NotRecreated(rest, s, mask);
      forall j | 0 <= j <= |a + mask + tail| ensures !At(a + mask + tail, j, s) {
        if At(a + mask + tail, j, s) {
          assert body[..i + |s|] == a + s;
          NotAcross(body, s, mask, i, a, tail, j);
        }
      }
    }
  }

  /** An occurrence in the substituted text lies in the tail, or the placeholder brings s back. */
  lemma NotAcross(body: string, s: string, mask: string, i: nat, a: string, tail: string, j: int)
    requires s != "" && i + |s| <= |body| && a == body[..i] && body[..i + |s|] == a + s
    requires forall p :: 0 <= p < i ==> !At(body, p, s)
    requires At(a + mask + tail, j, s)
    ensures At(tail, j - |a| - |mask|, s) || Recreates(s, mask)
  {
    var out := a + mask + tail;
    var lo, hi, end := |a|, |a| + |mask|, j + |s|;
    assert out == a + (mask + tail);
    AtConcat(a + mask, tail, j, s);
    if hi <= j {
    } else if lo <= j {
      if end <= hi {
        assert At(out, lo, mask) by { assert out[lo..hi] == mask; }
        AtInside(out, lo, mask, j, s);
      } else {
        assert out[j..hi] == s[..hi - j] == mask[|mask| - (hi - j)..];
        assert StartEnds(s, mask, hi - j);
      }
    } else {
      Continued(body, s, mask, i, a, tail, j);
    }
  }

  /** The case of an occurrence that starts in front of the placeholder. */
  lemma Continued(body: string, s: string, mask: string, i: nat, a: string, tail: string, j: int)
    requires s != "" && i + |s| <= |body| && a == body[..i] && body[..i + |s|] == a + s
    requires forall p :: 0 <= p < i ==> !At(body, p, s)
    requires At(a + mask + tail, j, s) && j < |a|
    ensures Recreates(s, mask)
  {
    var out := a + mask + tail;
    var k := |a| - j;
    assert out == a + (mask + tail);
    AtConcat(a, mask + tail, j, s);
    AtConcat(body[..i], body[i..], j, s);
    assert body == body[..i] + body[i..];
    assert j + |s| > |a|;
    assert out[j..|a|] == s[..k] == a[j..];
    assert FirstBehind(s, k) by { FirstOne(body, s, i, j, k); }
    var n := |s| - k;
    if n <= |mask| {
      assert out[|a|..|a| + n] == mask[..n] == s[k..];
      assert EndStarts(s, mask, k);
    } else {
      assert out[|a|..|a| + |mask|] == mask == s[k..][..|mask|];
    }
  }

  lemma FirstOne(body: string, s: string, i: nat, j: nat, k: nat)
    requires s != "" && i + |s| <= |body| && body[i..i + |s|] == s && j < i && k == i - j <= |s|
    requires body[j..i] == s[..k] && forall p :: 0 <= p < i ==> !At(body, p, s)
    ensures FirstBehind(s, k)
  {
    var part := s[..k] + s;
    assert part == body[j..i + |s|];
    assert part[k..k + |s|] == s;
    assert At(part, k, s);
    forall p | 0 <= p < k ensures !At(part, p, s) { AtSlice(body, j, i + |s|, p, s); }
    IndexLeast(part, s);
  }

  /** A text in which the placeholder brings s back. */
  lemma Recreated(s: string, mask: string) returns (body: string)
    requires s != "" && Recreates(s, mask)
    ensures Contains(ReplaceAll(body, s, mask), s)
  {
    hide Text.Weave, Index, FirstBehind, Contains;
    if Contains(mask, s) {
      body := s;
      ReplacedBetween("", s, mask, "");
      assert "" + s + "" == s && "" + mask + "" == mask;
    } else if k :| 0 < k < |s| && StartEnds(s, mask, k) {
      body := "" + s + s[k..];
      ReplacedBetween("", s, mask, s[k..]);
      assert "" + mask + s[k..] == mask[..|mask| - k] + s;
      HoldsBehind(mask[..|mask| - k], s, "");
    } else {
      var k :| 0 < k < |s| && FirstBehind(s, k) && (EndStarts(s, mask, k) || mask <= s[k..]);
      var rest := if EndStarts(s, mask, k) then "" else s[k + |mask|..];
      body := s[..k] + s + rest;
      FirstBehindIndex(s, k);
      ReplacedBetween(s[..k], s, mask, rest);
      if EndStarts(s, mask, k) {
        assert s[..k] + mask + rest == "" + s + mask[|s| - k..];
        HoldsBehind("", s, mask[|s| - k..]);
      } else {
        assert s[..k] + mask + rest == "" + s + "";
        HoldsBehind("", s, "");
      }
    }
  }

  lemma FirstBehindIndex(s: string, k: nat)
    requires FirstBehind(s, k)
    ensures Index(s[..k] + s, s) == k
  {
  }

  lemma HoldsBehind(a: string, s: string, b: string)
    ensures Contains(a + s + b, s) && Contains(a + s, s)
  {
    assert (a + s)[|a|..|a| + |s|] == s && (a + s + b)[|a|..|a| + |s|] == s;
    assert At(a + s, |a|, s) && At(a + s + b, |a|, s);
  }

  /** The only occurrence of s, in front of a rest that does not hold another. */
  lemma ReplacedBetween(a: string, s: string, mask: string, rest: string)
    requires s != "" && (|rest| < |s| || !Contains(rest, s)) && (a == "" || Index(a + s, s) == |a|)
    ensures ReplaceAll(a + s + rest, s, mask) == a + mask + rest
  {
    var body := a + s + rest;
    IndexLeast(a + s, s);
    IndexLeast(body, s);
    assert body[|a|..|a| + |s|] == s;
    assert At(body, |a|, s);
    forall p | 0 <= p < |a| ensures !At(body, p, s) { AtConcat(a + s, rest, p, s); }
    ContainsIffIndex(rest, s);
    hide Text.Weave, Index, Contains;
    assert body[|a| + |s|..] == rest && body[..|a|] == a;
    WeaveUnfold(body, s, mask, {}, |a|, rest, |s| + |rest|);
    IndexLeast(rest, s);
    WeaveNone(rest, s, mask, {});
  }

  // ---- A list of secrets -------------------------------------------------------------------------------

  /** x is a start of t, y an end of it, and with mask between them they hold t. */
  ghost predicate Surround(t: string, mask: string, x: string, y: string) {
    && |x| < |t| && x == t[..|x|] && |y| < |t| && y == t[|t| - |y|..] && Contains(x + mask + y, t)
    && (x != "" && mask != "" ==> t[|x|] == mask[0])
    && (y != "" && mask != "" ==> t[|t| - |y| - 1] == mask[|mask| - 1])
  }

  /** The text around a placeholder that together with it holds t. */
  lemma Surroundings(t: string, mask: string) returns (x: string, y: string)
    requires t != "" && Touches(t, mask)
    ensures Surround(t, mask, x, y)
  {
    hide Contains, Surround, StartEnds, EndStarts, At;
    if Contains(mask, t) {
      x, y := "", "";
      HeldInside(t, mask);
    } else if k :| 0 < k < |t| && StartEnds(t, mask, k) {
      x, y := "", t[k..];
      HeldBehind(t, mask, k);
    } else if k :| 0 < k < |t| && EndStarts(t, mask, k) {
      x, y := t[..k], "";
      HeldBefore(t, mask, k);
    } else {
      var k :| 0 < k < |t| - |mask| && At(t, k, mask);
      x, y := t[..k], t[k + |mask|..];
      HeldAround(t, mask, k);
    }
  }

  lemma HeldInside(t: string, mask: string)
    requires t != "" && Contains(mask, t)
    ensures Surround(t, mask, "", "")
  {
    hide Contains;
    assert "" + mask + "" == mask;
  }

  lemma HeldBehind(t: string, mask: string, k: nat)
    requires 0 < k < |t| && StartEnds(t, mask, k)
    ensures Surround(t, mask, "", t[k..])
  {
    hide Contains;
    assert "" + mask + t[k..] == mask[..|mask| - k] + t;
    HoldsBehind(mask[..|mask| - k], t, "");
    assert t[k - 1] == t[..k][k - 1] == mask[|mask| - k..][k - 1];
  }

  lemma HeldBefore(t: string, mask: string, k: nat)
    requires 0 < k < |t| && EndStarts(t, mask, k)
    ensures Surround(t, mask, t[..k], "")
  {
    hide Contains;
    assert t[..k] + mask + "" == "" + t + mask[|t| - k..];
    HoldsBehind("", t, mask[|t| - k..]);
    assert t[k] == t[k..][0];
  }

  lemma HeldAround(t: string, mask: string, k: nat)
    requires 0 < k < |t| - |mask| && At(t, k, mask)
    ensures Surround(t, mask, t[..k], t[k + |mask|..])
  {
    hide Contains;
    assert t[..k] + mask + t[k + |mask|..] == "" + t + "";
    HoldsBehind("", t, "");
    if mask != "" {
      AtChar(t, k, mask, 0);
      AtChar(t, k, mask, |mask| - 1);
    }
  }

  /** One character less than t of c only. */
  function Spacer(t: string, c: char): (run: string)
    requires t != ""
    ensures |run| == |t| - 1 && forall i | 0 <= i < |run| :: run[i] == c
  {
    seq(|t| - 1, _ => c)
  }

  /** A spacer between x and y: none of the ends it can meet is its character. */
  ghost predicate Spaced(t: string, x: string, y: string, c: char) {
    && |t| >= 2 && c != t[0] && c != t[|t| - 1] && |x| < |t| && |y| < |t|
    && (x != "" ==> c != x[|x| - 1]) && (y != "" ==> y[|y| - 1] == t[|t| - 1])
  }

  /** The spacer occurs once between x and y. */
  lemma SpacerOnce(t: string, x: string, y: string, c: char)
    requires Spaced(t, x, y, c)
    ensures var run := Spacer(t, c); Index(x + run, run) == |x| && !Contains(y, run)
  {
    var run := Spacer(t, c);
    var text := x + run;
    assert text[|x|..|x| + |run|] == run;
    assert At(text, |x|, run);
    forall p | 0 <= p < |x| ensures !At(text, p, run) {
      if At(text, p, run) { AtChar(text, p, run, |x| - 1 - p); }
    }
    IndexLeast(text, run);
    forall p | 0 <= p <= |y| ensures !At(y, p, run) {
      if At(y, p, run) { AtChar(y, p, run, |y| - 1 - p); }
    }
  }

  /** It keeps its neighbours from forming t. */
  lemma SpacerHides(t: string, x: string, y: string, c: char)
    requires Spaced(t, x, y, c)
    ensures !Contains(x + Spacer(t, c) + y, t)
  {
    var run := Spacer(t, c);
    var text := x + run + y;
    assert forall i | |x| <= i < |x| + |run| :: text[i] == run[i - |x|];
    forall p | 0 <= p <= |text| ensures !At(text, p, t) {
      if At(text, p, t) {
        AtChar(text, p, t, 0);
        AtChar(text, p, t, |t| - 1);
      }
    }
  }

  /** A letter that is neither end of t and not the end of x. */
  function Letter(t: string, x: string): (c: char)
    requires t != ""
    ensures c != t[0] && c != t[|t| - 1] && (x != "" ==> c != x[|x| - 1])
  {
    var ends := [t[0], t[|t| - 1], if x == "" then t[0] else x[|x| - 1]];
    if 'a' !in ends then 'a' else if 'b' !in ends then 'b' else if 'c' !in ends then 'c' else 'd'
  }

  /** A list as pendingSecrets orders it. */
  ghost predicate InOrder(secrets: seq<SecretRule>) {
    NonEmpty(secrets) && Ascending(secrets, ByLength)
  }

  ghost predicate FoldRemoves(cfg: Config, t: string) {
    forall secrets: seq<SecretRule>, body: string | InOrder(secrets) && t in Secrets(secrets) ::
      !Contains(Apply(cfg, secrets, false, body).body, t)
  }

  /** t alone when it is one character, and otherwise t in front of its spacer. */
  function Chased(t: string, c: char, rule: string): seq<SecretRule>
    requires t != ""
  {
    [SecretRule(t, rule)] + if |t| == 1 then [] else [SecretRule(Spacer(t, c), rule)]
  }

  lemma ChasedInOrder(t: string, c: char, rule: string)
    requires t != ""
    ensures InOrder(Chased(t, c, rule)) && t in Secrets(Chased(t, c, rule))
  {
    assert Chased(t, c, rule)[0].secret in Secrets(Chased(t, c, rule));
  }

  /** The text in which the chase of t writes the placeholder between x and y. */
  function Trap(t: string, x: string, y: string, c: char): string
    requires t != ""
  {
    if |t| == 1 then t else x + Spacer(t, c) + y
  }

  /** Two turns: t, which is absent, and its spacer. For one character, a single turn. */
  lemma TrapApplied(cfg: Config, t: string, rule: string, x: string, y: string, c: char)
    requires t != "" && (|t| == 1 ==> x == "" && y == "") && (|t| >= 2 ==> Spaced(t, x, y, c))
    ensures NonEmpty(Chased(t, c, rule)) && Held(Chased(t, c, rule), Trap(t, x, y, c)) != {}
    ensures var a := Apply(cfg, Chased(t, c, rule), false, Trap(t, x, y, c));
      a.body == x + Mask(cfg, rule) + y && a.tally.count > 0
  {
    hide Text.Weave, Contains, Index, Count, KeptCount, Mask, Apply, Trap, Spacer;
    if |t| == 1 {
      TrapOfOne(t, x, y, c, rule);
      OneTurn(cfg, SecretRule(t, rule), "", "");
      HoldsBehind("", t, "");
      HeldSome(Chased(t, c, rule), Trap(t, x, y, c), SecretRule(t, rule));
    } else {
      var run := Spacer(t, c);
      var list, body := Chased(t, c, rule), x + run + y;
      SpacerOnce(t, x, y, c);
      SpacerHides(t, x, y, c);
      TrapOfMany(t, x, y, c, rule);
      ApplyUnfold(cfg, list, false, body);
      AbsentStep(cfg, list[0], false, body);
      OneTurn(cfg, list[1], x, y);
      HoldsBehind(x, run, y);
      HeldSome(list, body, list[1]);
    }
  }

  lemma TrapOfOne(t: string, x: string, y: string, c: char, rule: string)
    requires |t| == 1 && x == "" && y == ""
    ensures !Contains("", t) && Trap(t, x, y, c) == "" + t + "" && Chased(t, c, rule) == [SecretRule(t, rule)]
  {
  }

  lemma TrapOfMany(t: string, x: string, y: string, c: char, rule: string)
    requires |t| >= 2
    ensures Trap(t, x, y, c) == x + Spacer(t, c) + y && |Chased(t, c, rule)| == 2
    ensures Chased(t, c, rule)[0] == SecretRule(t, rule)
    ensures Chased(t, c, rule)[1..] == [SecretRule(Spacer(t, c), rule)]
  {
  }

  lemma OneTurn(cfg: Config, sr: SecretRule, x: string, y: string)
    requires sr.secret != "" && !Contains(y, sr.secret) && (x == "" || Index(x + sr.secret, sr.secret) == |x|)
    ensures NonEmpty([sr])
    ensures var a := Apply(cfg, [sr], false, x + sr.secret + y);
      a.body == x + Mask(cfg, sr.ruleID) + y && a.tally.count > 0
  {
    hide Text.Weave, Contains, Index, Count, KeptCount, Mask, Apply;
    var body := x + sr.secret + y;
    assert [sr][1..] == [];
    ApplyUnfold(cfg, [sr], false, body);
    ApplyNone(cfg, false, StepBody(cfg, sr, false, body));
    ReplacedBetween(x, sr.secret, Mask(cfg, sr.ruleID), y);
    HoldsBehind(x, sr.secret, y);
    CountZero(body, sr.secret);
    NoneSpared(body, sr.secret);
  }

  /** Only a placeholder that holds it touches a single character. */
  lemma OneCharacterTouched(t: string, mask: string)
    requires |t| == 1 && Touches(t, mask)
    ensures Surround(t, mask, "", "")
  {
    hide Contains;
    HeldInside(t, mask);
  }

  /** The text around a placeholder that touches t, with nothing around it when t is one character. */
  lemma Bait(t: string, mask: string) returns (x: string, y: string)
    requires t != "" && Touches(t, mask)
    ensures Surround(t, mask, x, y) && (|t| == 1 ==> x == "" && y == "")
  {
    hide Surround, Touches;
    if |t| == 1 {
      x, y := "", "";
      OneCharacterTouched(t, mask);
    } else {
      x, y := Surroundings(t, mask);
    }
  }

  /** Folding a list of secrets through a body, in the order the loop takes them, removes t, whatever the list and the
      body, if and only if no placeholder touches t. */
  lemma FoldRemovesIff(cfg: Config, t: string)
    requires t != ""
    ensures FoldRemoves(cfg, t) <==> forall r :: Apart(t, Mask(cfg, r))
  {
    hide Contains, Apply, Mask, Touches, Ascending, Chased, Trap;
    if forall r :: Apart(t, Mask(cfg, r)) {
      forall secrets: seq<SecretRule>, body: string | InOrder(secrets) && t in Secrets(secrets)
        ensures !Contains(Apply(cfg, secrets, false, body).body, t)
      {
        var sr: SecretRule :| sr in secrets && sr.secret == t;
        ApplyEliminates(cfg, secrets, false, body, sr);
        UnmarkedKeepsNothing(cfg, secrets, body);
      }
    } else {
      var r :| !Apart(t, Mask(cfg, r));
      var x, y := Bait(t, Mask(cfg, r));
      var c := Letter(t, x);
      ChasedInOrder(t, c, r);
      TrapApplied(cfg, t, r, x, y, c);
    }
  }

  // ---- A whole leaf --------------------------------------------------------------------------------------

  /** A pending list of trimmed secrets with t among them, the others out of reach of the placeholders of the list. */
  ghost predicate Joins(cfg: Config, secrets: seq<SecretRule>, t: string) {
    && InOrder(secrets) && t in Secrets(secrets)
    && forall a | a in secrets :: !Esc(false, a.secret) && (a.secret == t || Foreign(cfg, secrets, a.secret))
  }

  ghost predicate LeavesFree(cfg: Config, t: string) {
    forall secrets, s, path | Joins(cfg, secrets, t) && cfg.pathFilter(path) :: FreeOf(cfg, secrets, s, path, t)
  }

  ghost predicate FreeOf(cfg: Config, secrets: seq<SecretRule>, s: string, path: string, t: string) {
    NonEmpty(secrets) && !Contains(Encode(RedactedLeaf(cfg, secrets, s, path).out), t)
  }

  /** A plain character that neither the secret nor the placeholder uses. */
  predicate Unused(c: char, t: string, mask: string) {
    IsPlain(c) && c != '[' && c != ']' && c !in t && c !in mask
  }

  /** In front of a bracket a well-encoded text is well encoded. */
  lemma {:induction false} BeforeBracket(a: string, b: string)
    requires WellEncoded(a + b) && b != "" && b[0] == '['
    ensures WellEncoded(a)
    decreases |a|
  {
    if a != "" {
      var unit := if a[0] == '\\' then 2 else 1;
      assert (a + b)[|a|] == '[';
      assert (a + b)[unit..] == a[unit..] + b;
      if unit == 2 && a[1] == 'u' { CodeBeforeBracket(a[2..], b); }
      BeforeBracket(a[unit..], b);
    }
  }

  lemma CodeBeforeBracket(t: string, b: string)
    requires CodeAt(t + b) && b != "" && b[0] == '['
    ensures CodeAt(t)
  {
    assert (t + b)[|t|] == '[' && forall i | 0 <= i < 4 :: (t + b)[..4][i] == (t + b)[i];
    assert (t + b)[..4] == t[..4];
  }

  lemma {:induction false} PlainIsWellEncoded(s: string)
    requires forall i | 0 <= i < |s| :: IsPlain(s[i])
    ensures WellEncoded(s)
  {
    if s != "" { PlainIsWellEncoded(s[1..]); }
  }

  /** Behind a bracket a well-encoded text is well encoded. */
  lemma BehindBracket(a: string, b: string)
    requires WellEncoded(a + b) && a != "" && a[|a| - 1] == ']'
    ensures WellEncoded(b)
  {
    hide WellEncoded, Esc;
    EscClosedByOther(false, a);
    WellEncodedBehind(a, b);
  }

  /** A bracketed placeholder and the texts around it that form a well-encoded t are well encoded. */
  lemma SurroundingsEncoded(t: string, mask: string, x: string, y: string)
    requires WellEncoded(t) && Bracketed(mask)
    requires |x| < |t| && x == t[..|x|] && |y| < |t| && y == t[|t| - |y|..]
    requires (x != "" ==> t[|x|] == mask[0]) && (y != "" ==> t[|t| - |y| - 1] == mask[|mask| - 1])
    ensures WellEncoded(x) && WellEncoded(y)
  {
    hide WellEncoded;
    NothingEncoded();
    var behind, front := t[|x|..], t[..|t| - |y|];
    assert t == x + behind && t == front + y;
    if x != "" { BeforeBracket(x, behind); }
    if y != "" { BehindBracket(front, y); }
  }

  lemma NothingEncoded()
    ensures WellEncoded("")
  {
  }

  lemma SpacerIsPlain(t: string, c: char)
    requires t != "" && IsPlain(c)
    ensures WellEncoded(Spacer(t, c)) && !Esc(false, Spacer(t, c))
  {
    PlainIsWellEncoded(Spacer(t, c));
    WellEncodedClosed(Spacer(t, c));
  }

  lemma ChasedJoins(cfg: Config, t: string, c: char, r: string)
    requires t != "" && WellEncoded(t) && Bracketed(Mask(cfg, r)) && Unused(c, t, Mask(cfg, r))
    ensures Joins(cfg, Chased(t, c, r), t)
  {
    hide Apart, Esc, Mask, WellEncoded, Ascending;
    WellEncodedClosed(t);
    ChasedInOrder(t, c, r);
    if |t| >= 2 {
      var run := Spacer(t, c);
      SpacerIsPlain(t, c);
      UnusedIsApart(run, Mask(cfg, r), c);
    }
  }

  lemma UnusedIsApart(run: string, mask: string, c: char)
    requires run != "" && (forall i | 0 <= i < |run| :: run[i] == c) && Bracketed(mask)
    requires c != '[' && c != ']' && c !in mask
    ensures Apart(run, mask)
  {
    hide Touches;
    forall p | 0 <= p <= |mask| ensures !At(mask, p, run) {
      if At(mask, p, run) { AtChar(mask, p, run, 0); }
    }
    BracketsKeepApart(run, mask);
  }

  lemma TrapIsEncoded(t: string, mask: string, x: string, y: string, c: char)
    requires t != "" && WellEncoded(t) && Bracketed(mask) && WellEncoded(mask) && Surround(t, mask, x, y) && IsPlain(c)
    ensures WellEncoded(Trap(t, x, y, c)) && WellEncoded(x + mask + y)
  {
    hide WellEncoded, Contains, Spacer;
    SurroundingsEncoded(t, mask, x, y);
    SpacerIsPlain(t, c);
    WellEncodedConcat(x, Spacer(t, c));
    WellEncodedConcat(x + Spacer(t, c), y);
    WellEncodedConcat(x, mask);
    WellEncodedConcat(x + mask, y);
  }

  /** A leaf with t in it after the pass, from a placeholder that touches t. */
  lemma Returned(cfg: Config, t: string, r: string, path: string) returns (secrets: seq<SecretRule>, s: string)
    requires t != "" && WellEncoded(t) && !cfg.allowMarkers && cfg.pathFilter(path)
    requires Bracketed(Mask(cfg, r)) && Touches(t, Mask(cfg, r)) && exists c :: Unused(c, t, Mask(cfg, r))
    ensures Joins(cfg, secrets, t) && NonEmpty(secrets)
    ensures Contains(Encode(RedactedLeaf(cfg, secrets, s, path).out), t)
  {
    hide Contains, Apply, Touches, WellEncoded, Encode, Decode, Esc, Index, HasAllowMarker, Trap, Chased, Joins;
    var mask := Mask(cfg, r);
    var c :| Unused(c, t, mask);
    var x, y := Bait(t, mask);
    secrets := Chased(t, c, r);
    ChasedJoins(cfg, t, c, r);
    TrapApplied(cfg, t, r, x, y, c);
    EncodeIsWellEncoded(cfg.placeholder(r));
    TrapIsEncoded(t, mask, x, y, c);
    EncodeDecode(Trap(t, x, y, c));
    s := Decode(Trap(t, x, y, c)).value;
    EncodeDecode(x + mask + y);
  }

  /** Without markers, with bracketed placeholders and a character to spare: a well-encoded secret is gone from every
      eligible leaf, whatever the leaf and the other pending secrets, if and only if no placeholder touches it. */
  lemma LeavesFreeIff(cfg: Config, t: string)
    requires t != "" && WellEncoded(t) && !cfg.allowMarkers && (exists path :: cfg.pathFilter(path))
    requires forall r :: Bracketed(Mask(cfg, r)) && exists c :: Unused(c, t, Mask(cfg, r))
    ensures LeavesFree(cfg, t) <==> forall r :: Apart(t, Mask(cfg, r))
  {
    hide Contains, Encode, RedactedLeaf, Touches, WellEncoded, Esc, Mask, Unused, Ascending;
    if forall r :: Apart(t, Mask(cfg, r)) {
      forall secrets, s, path | Joins(cfg, secrets, t) && cfg.pathFilter(path)
        ensures FreeOf(cfg, secrets, s, path, t)
      {
        var sr: SecretRule :| sr in secrets && sr.secret == t;
        EligibleLeafIsFree(cfg, secrets, s, path, sr);
      }
    } else {
      var r :| !Apart(t, Mask(cfg, r));
      var path :| cfg.pathFilter(path);
      var secrets, s := Returned(cfg, t, r, path);
      assert !FreeOf(cfg, secrets, s, path, t);
    }
  }

  // ---- Markers a placeholder adds ----------------------------------------------------------------------------

  /** The placeholder for rule r gives no body a marker that has none. */
  ghost predicate AddsNoMarker(cfg: Config, r: string) {
    forall body: string, secret: string, marked: bool | secret != "" && !HasAllowMarker(body) ::
      !HasAllowMarker(StepBody(cfg, SecretRule(secret, r), marked, body))
  }

  lemma CharApart(t: string, c: char)
    requires t != "" && c !in t
    ensures Apart(t, [c])
  {
    forall k | 0 < k < |t| ensures !StartEnds(t, [c], k) && !EndStarts(t, [c], k) {
      assert t[..k][0] == t[0] && t[k..][0] == t[k];
    }
    forall k | 0 <= k < |t| ensures !At(t, k, [c]) {
      if At(t, k, [c]) { AtChar(t, k, [c], 0); }
    }
    forall k | 0 <= k <= 1 ensures !At([c], k, t) {
      if At([c], k, t) { AtChar([c], k, t, 0); }
    }
  }

  lemma CharOnce(x: string, y: string, c: char)
    requires c !in x && c !in y
    ensures Index(x + [c], [c]) == |x| && !Contains(y, [c])
  {
    hide Index;
    var s := x + [c];
    assert s[|x|..] == [c] && At(s, |x|, [c]);
    forall p | 0 <= p < |x| ensures !At(s, p, [c]) {
      if At(s, p, [c]) { AtChar(s, p, [c], 0); }
    }
    IndexLeast(s, [c]);
    forall p | 0 <= p <= |y| ensures !At(y, p, [c]) {
      if At(y, p, [c]) { AtChar(y, p, [c], 0); }
    }
  }

  /** A proper part of a marker carries none. */
  lemma PartIsUnmarked(t: string, i: nat, j: nat)
    requires t in [BETTERLEAKS, GITLEAKS] && i <= j <= |t| && j - i < |t|
    ensures !HasAllowMarker(t[i..j]) && '#' !in t[i..j]
  {
    var part := t[i..j];
    if t == BETTERLEAKS {
      assert 'g' !in part;
      forall p | 0 <= p <= |part| ensures !At(part, p, GITLEAKS) {
        if At(part, p, GITLEAKS) { AtChar(part, p, GITLEAKS, 0); }
      }
    }
  }

  lemma SplitIsUnmarked(x: string, y: string)
    requires !HasAllowMarker(x) && !HasAllowMarker(y)
    ensures !HasAllowMarker(x + "#" + y)
  {
    hide Contains, Apart;
    assert '#' !in BETTERLEAKS && '#' !in GITLEAKS;
    CharApart(BETTERLEAKS, '#');
    CharApart(GITLEAKS, '#');
    ContainsAround(x, "#", y, BETTERLEAKS);
    ContainsAround(x, "#", y, GITLEAKS);
  }

  /** A body without a marker that a placeholder which touches one gives a marker. */
  lemma MarkerAdded(cfg: Config, r: string, t: string) returns (body: string)
    requires t in [BETTERLEAKS, GITLEAKS] && Touches(t, Mask(cfg, r))
    ensures !HasAllowMarker(body) && HasAllowMarker(StepBody(cfg, SecretRule("#", r), false, body))
  {
    hide Contains, Touches, Mask, Text.Weave, Index;
    var x, y := Surroundings(t, Mask(cfg, r));
    assert x == t[0..|x|] && y == t[|t| - |y|..|t|];
    PartIsUnmarked(t, 0, |x|);
    PartIsUnmarked(t, |t| - |y|, |t|);
    body := x + "#" + y;
    SplitIsUnmarked(x, y);
    CharOnce(x, y, '#');
    ReplacedBetween(x, "#", Mask(cfg, r), y);
  }

  /** A placeholder gives no body a marker, whatever the secret it stands for, if and only if it touches neither. */
  lemma AddsNoMarkerIff(cfg: Config, r: string)
    ensures AddsNoMarker(cfg, r) <==> Apart(BETTERLEAKS, Mask(cfg, r)) && Apart(GITLEAKS, Mask(cfg, r))
  {
    hide Contains, Touches, Mask, Text.Weave;
    var mask := Mask(cfg, r);
    if Touches(BETTERLEAKS, mask) {
      var body := MarkerAdded(cfg, r, BETTERLEAKS);
    } else if Touches(GITLEAKS, mask) {
      var body := MarkerAdded(cfg, r, GITLEAKS);
    } else {
      forall body: string, secret: string, marked: bool | secret != "" && !HasAllowMarker(body)
        ensures !HasAllowMarker(StepBody(cfg, SecretRule(secret, r), marked, body))
      {
        var next := StepBody(cfg, SecretRule(secret, r), marked, body);
        assert "" + body == body && "" + next == next;
        NoNewOccurrence("", body, secret, mask, Spared(body, secret, marked), BETTERLEAKS);
        NoNewOccurrence("", body, secret, mask, Spared(body, secret, marked), GITLEAKS);
      }
    }
  }
}
