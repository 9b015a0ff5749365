/** What a left-to-right substitution of placeholders does to a text: it creates no occurrence of a string that no
    placeholder can touch, it removes the string it substitutes, and it leaves a JSON string body in which codes may be
    cut short, or severs an escape for good. */
module Masking {
  import opened Text
  import opened Escapes
  import opened StringBody

  predicate Bracketed(mask: string) {
    |mask| >= 2 && mask[0] == '[' && mask[|mask| - 1] == ']'
  }

  predicate Unbracketed(t: string) {
    '[' !in t && ']' !in t
  }

  /** The first k characters of t are the end of mask. */
  predicate StartEnds(t: string, mask: string, k: nat) {
    k <= |t| && k <= |mask| && mask[|mask| - k..] == t[..k]
  }

  /** The characters of t from k on are a start of mask. */
  predicate EndStarts(t: string, mask: string, k: nat) {
    k <= |t| && t[k..] <= mask
  }

  /** A text with mask in it can hold an occurrence of t that lies in mask, reaches into it or surrounds it. */
  predicate Touches(t: string, mask: string) {
    || Contains(mask, t)
    || (exists k | 0 < k < |t| :: StartEnds(t, mask, k))
    || (exists k | 0 < k < |t| :: EndStarts(t, mask, k))
    || (exists k | 0 < k < |t| - |mask| :: At(t, k, mask))
  }

  /** A string no placeholder can complete or contain. */
  predicate Apart(t: string, mask: string) {
    t != "" && !Touches(t, mask)
  }

  /** Delimiters keep a placeholder apart from every string that holds none of them and does not occur in it. */
  lemma BracketsKeepApart(t: string, mask: string)
    requires t != "" && Unbracketed(t) && Bracketed(mask) && !Contains(mask, t)
    ensures Apart(t, mask)
  {
    forall k | 0 < k < |t| ensures !StartEnds(t, mask, k) && !EndStarts(t, mask, k) {
      assert k <= |mask| ==> mask[|mask| - k..][k - 1] == ']';
      assert t[..k][k - 1] in t && t[k..][0] == t[k];
    }
    forall k | 0 < k < |t| - |mask| ensures !At(t, k, mask) {
      if At(t, k, mask) { AtChar(t, k, mask, 0); }
    }
  }

  /** An occurrence next to a placeholder lies on one side of it, unless it touches it. */
  lemma BesideOrTouches(a: string, mask: string, b: string, j: int, t: string)
    requires t != "" && At(a + mask + b, j, t)
    ensures At(a, j, t) || At(b, j - |a| - |mask|, t) || Touches(t, mask)
  {
    var s := a + mask + b;
    var lo, hi, end := |a|, |a| + |mask|, j + |t|;
    assert s == a + (mask + b);
    AtConcat(a, mask + b, j, t);
    AtConcat(a + mask, b, j, t);
    assert At(s, lo, mask) by { assert s[lo..hi] == mask; }
    if lo < end && j < hi {
      if lo <= j && end <= hi {
        AtInside(s, lo, mask, j, t);
      } else if lo <= j {
        assert s[j..hi] == t[..hi - j] == mask[|mask| - (hi - j)..];
        assert StartEnds(t, mask, hi - j);
      } else if end <= hi {
        assert s[lo..end] == t[lo - j..] == mask[..end - lo];
        assert EndStarts(t, mask, lo - j);
      } else {
        AtInside(s, j, t, lo, mask);
      }
    }
  }

  lemma Beside(a: string, mask: string, b: string, j: int, t: string)
    requires Apart(t, mask) && At(a + mask + b, j, t)
    ensures At(a, j, t) || At(b, j - |a| - |mask|, t)
  {
    hide Touches;
    BesideOrTouches(a, mask, b, j, t);
  }

  /** One Weave step after the prefix u: the text up to the first occurrence, whether that one is kept,
      and what follows it. */
  lemma WeaveStep(u: string, s: string, sub: string, mask: string, keep: set<int>)
    returns (a: string, kept: bool, rest: string, tail: string)
    requires sub != "" && Index(s, sub) >= 0
    ensures u + s == a + sub + rest && |rest| < |s|
    ensures u == "" ==> !Contains(a, sub)
    ensures kept == (|sub| + |rest| in keep)
    ensures tail == Weave(rest, sub, mask, keep)
    ensures u + Weave(s, sub, mask, keep) == a + (if kept then sub else mask) + tail
    ensures KeptCount(s, sub, keep) == (if kept then 1 else 0) + KeptCount(rest, sub, keep)
  {
    hide Text.Weave, KeptCount, Index, Contains;
    var i := Index(s, sub);
    IndexLeast(s, sub);
    CutAt(s, i, sub);
    a, rest := u + s[..i], s[i + |sub|..];
    var d := |sub| + |rest|;
    kept, tail := d in keep, Weave(rest, sub, mask, keep);
    WeaveUnfold(s, sub, mask, keep, i, rest, d);
    CountUnfold(s, sub, keep, i, rest, d);
    Reassociate(u, s[..i], sub, rest);
    Reassociate(u, s[..i], if kept then sub else mask, tail);
    NoneBefore(s, sub);
    assert u == "" ==> a == s[..i];
  }

  lemma Reassociate(a: string, b: string, c: string, d: string)
    ensures a + (b + c + d) == (a + b) + c + d
  {
  }

  lemma CutAt(s: string, i: int, sub: string)
    requires At(s, i, sub)
    ensures s == s[..i] + sub + s[i + |sub|..]
  {
  }

  lemma NoneBefore(s: string, sub: string)
    requires sub != "" && Index(s, sub) >= 0
    ensures !Contains(s[..Index(s, sub)], sub)
  {
    var i := Index(s, sub);
    IndexLeast(s, sub);
    assert s[0..i] == s[..i];
    forall j | 0 <= j <= i ensures !At(s[..i], j, sub) {
      AtSlice(s, 0, i, j, sub);
    }
  }

  /** Substitution creates no occurrence of t: each one stood in the text before. The prefix u is the
      text already written. */
  lemma {:induction false} NoNewOccurrence(
      u: string, s: string, sub: string, mask: string, keep: set<int>, t: string)
    requires sub != "" && Apart(t, mask) && !Contains(u + s, t)
    ensures !Contains(u + Weave(s, sub, mask, keep), t)
    decreases |s|
  {
    hide Text.Weave, KeptCount;
    if Index(s, sub) < 0 {
      WeaveNone(s, sub, mask, keep);
    } else {
      var a, kept, rest, tail := WeaveStep(u, s, sub, mask, keep);
      if kept {
        NoNewOccurrence(a + sub, rest, sub, mask, keep, t);
      } else {
        ContainsConcat(a, sub, t);
        ContainsConcat(a + sub, rest, t);
        assert "" + rest == rest && "" + tail == tail;
        NoNewOccurrence("", rest, sub, mask, keep, t);
        NoneAround(a, mask, tail, t);
      }
    }
  }

  lemma NoneAround(a: string, mask: string, b: string, t: string)
    requires Apart(t, mask) && !Contains(a, t) && !Contains(b, t)
    ensures !Contains(a + mask + b, t)
  {
    forall j | 0 <= j <= |a + mask + b| ensures !At(a + mask + b, j, t) {
      if At(a + mask + b, j, t) { Beside(a, mask, b, j, t); }
    }
  }

  /** Substituting every occurrence leaves none. */
  lemma {:induction false} Eliminated(s: string, sub: string, mask: string, keep: set<int>)
    requires Apart(sub, mask) && KeptCount(s, sub, keep) == 0
    ensures !Contains(Weave(s, sub, mask, keep), sub)
    decreases |s|
  {
    ContainsIffIndex(s, sub);
    if Index(s, sub) >= 0 {
      var a, kept, rest, tail := WeaveStep("", s, sub, mask, keep);
      Eliminated(rest, sub, mask, keep);
      NoneAround(a, mask, tail, sub);
      assert "" + Weave(s, sub, mask, keep) == Weave(s, sub, mask, keep);
    }
  }

  /** A placeholder at i stands where an escape is open. */
  predicate SeveredBy(s: string, i: int, mask: string) {
    At(s, i, mask) && SeveredAt(s, i)
  }

  /** One of the placeholders severed an escape. */
  predicate Severed(s: string, masks: set<string>) {
    exists mask, i | mask in masks && 0 <= i < |s| :: SeveredBy(s, i, mask)
  }

  /** Placeholders that sub cannot touch. */
  ghost predicate Clear(sub: string, masks: set<string>) {
    forall mask | mask in masks :: Bracketed(mask) && Apart(sub, mask)
  }

  /** Once severed, always severed: no later substitution of trimmed secrets repairs the escape. */
  lemma {:induction false} StaysSevered(
      u: string, s: string, sub: string, mask: string, keep: set<int>, masks: set<string>)
    requires sub != "" && !Esc(false, sub) && mask in masks && Clear(sub, masks)
    requires Severed(u + s, masks)
    ensures Severed(u + Weave(s, sub, mask, keep), masks)
    decreases |s|
  {
    hide Text.Weave, KeptCount, Severed, Apart;
    if Index(s, sub) < 0 {
      WeaveNone(s, sub, mask, keep);
    } else {
      var a, kept, rest, tail := WeaveStep(u, s, sub, mask, keep);
      if kept {
        StaysSevered(a + sub, rest, sub, mask, keep, masks);
      } else if Esc(false, a) {
        SeveredAtMask(a, mask, tail, masks);
      } else {
        SeveredAroundSecret(a, sub, rest, masks);
        if Severed(rest, masks) {
          assert "" + rest == rest && "" + tail == tail;
          StaysSevered("", rest, sub, mask, keep, masks);
          SeveredBehind(a, mask, tail, masks);
        } else {
          SeveredBefore(a, mask, tail, masks);
        }
      }
    }
  }

  /** A secret that leaves no escape open neither holds a severed escape nor hides one behind it. */
  lemma SeveredAroundSecret(a: string, sub: string, rest: string, masks: set<string>)
    requires Severed(a + sub + rest, masks) && sub != "" && !Esc(false, sub) && !Esc(false, a) && Clear(sub, masks)
    ensures Severed(a, masks) || Severed(rest, masks)
  {
    hide Apart;
    var s := a + sub + rest;
    var mask, k :| mask in masks && 0 <= k < |s| && SeveredBy(s, k, mask);
    Disjoint(a, sub, rest, k, mask);
    EscConcat(false, a, sub);
    AtConcat(a, sub + rest, k, mask);
    AtConcat(a + sub, rest, k, mask);
    assert s == a + (sub + rest);
    if k + |mask| <= |a| {
      assert s[..k] == a[..k];
      assert SeveredBy(a, k, mask);
    } else {
      SeveredShift(a + sub, rest, k - |a| - |sub|);
      assert SeveredBy(rest, k - |a| - |sub|, mask);
    }
  }

  /** A placeholder lies on one side of an occurrence of a string it cannot touch. */
  lemma Disjoint(a: string, sub: string, rest: string, k: int, mask: string)
    requires Apart(sub, mask) && At(a + sub + rest, k, mask)
    ensures k + |mask| <= |a| || |a| + |sub| <= k
  {
    hide Apart;
    var s := a + sub + rest;
    var before, behind := s[..k], s[k + |mask|..];
    CutAt(s, k, mask);
    assert At(s, |a|, sub) by { assert s[|a|..|a| + |sub|] == sub; }
    Beside(before, mask, behind, |a|, sub);
  }

  lemma SeveredBefore(a: string, mask: string, b: string, masks: set<string>)
    requires Severed(a, masks)
    ensures Severed(a + mask + b, masks)
  {
    var m, k :| m in masks && 0 <= k < |a| && SeveredBy(a, k, m);
    SeveredPrefix(a, mask, k);
    SeveredPrefix(a + mask, b, k);
    AtConcat(a, mask, k, m);
    AtConcat(a + mask, b, k, m);
    assert SeveredBy(a + mask + b, k, m);
  }

  /** A placeholder written where an escape is open severs that escape. */
  lemma SeveredAtMask(a: string, mask: string, b: string, masks: set<string>)
    requires Esc(false, a) && Bracketed(mask) && mask in masks
    ensures Severed(a + mask + b, masks)
  {
    var s := a + mask + b;
    assert s[..|a|] == a && s[|a|..|a| + |mask|] == mask;
    assert SeveredBy(s, |a|, mask);
  }

  lemma SeveredBehind(a: string, mask: string, b: string, masks: set<string>)
    requires Bracketed(mask) && Severed(b, masks)
    ensures Severed(a + mask + b, masks)
  {
    var m, j :| m in masks && 0 <= j < |b| && SeveredBy(b, j, m);
    EscClosedByOther(false, a + mask);
    SeveredShift(a + mask, b, j);
    AtConcat(a + mask, b, j, m);
    assert SeveredBy(a + mask + b, |a + mask| + j, m);
  }

  /** One substitution in a body leaves every unit as the encoder writes it but for codes cut short, or severs an
      escape. */
  lemma {:induction false} StaysPatchedOrSevered(
      u: string, s: string, sub: string, mask: string, keep: set<int>, masks: set<string>)
    requires sub != "" && !Esc(false, sub) && Bracketed(mask) && Patched(mask) && mask in masks
    requires Patched(u + s)
    ensures Patched(u + Weave(s, sub, mask, keep)) || Severed(u + Weave(s, sub, mask, keep), masks)
    decreases |s|
  {
    hide Text.Weave, KeptCount, Patched, Esc, Severed;
    if Index(s, sub) < 0 {
      WeaveNone(s, sub, mask, keep);
    } else {
      var a, kept, rest, tail := WeaveStep(u, s, sub, mask, keep);
      if kept {
        StaysPatchedOrSevered(a + sub, rest, sub, mask, keep, masks);
      } else if Esc(false, a) {
        SeveredAtMask(a, mask, tail, masks);
      } else {
        assert a + sub + rest == a + (sub + rest);
        PatchedBehind(a, sub + rest);
        PatchedBehind(sub, rest);
        assert "" + rest == rest && "" + tail == tail;
        StaysPatchedOrSevered("", rest, sub, mask, keep, masks);
        if Patched(tail) {
          PatchedConcat(mask, tail);
          PatchedFront(a, sub + rest, mask + tail);
          assert a + mask + tail == a + (mask + tail);
        } else {
          SeveredBehind(a, mask, tail, masks);
        }
      }
    }
  }
}
