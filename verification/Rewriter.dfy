/** The object that walks a decoded document and rewrites it, counting as it goes. */
module Rewriter {
  import opened Text
  import opened Options
  import opened StringBody
  import opened Markers
  import opened Pending
  import opened Leaf
  import opened LeafLines
  import opened Tree

  class Rewriter {
    const cfg: Config
    const secrets: seq<SecretRule>
    var byRule: multiset<string>
    var allowed: multiset<string>
    var located: set<string>
    var kept: set<string>
    var protected: set<string>
    var count: nat

    ghost predicate Valid() {
      NonEmpty(secrets)
    }

    ghost function Totals(): Tally
      reads this
    {
      Tally(count, byRule, allowed, located, kept, protected)
    }

    constructor (cfg: Config, secrets: seq<SecretRule>)
      requires NonEmpty(secrets)
      ensures Valid() && this.cfg == cfg && this.secrets == secrets && Totals() == ZERO
    {
      this.cfg, this.secrets := cfg, secrets;
      byRule, allowed, located, kept, protected, count := multiset{}, multiset{}, {}, {}, {}, 0;
    }

    /** rewriteMap. The keys are taken in any order. */
    method RewriteMap(m: map<string, Value>, path: string) returns (out: map<string, Value>)
      requires Valid()
      modifies this
      ensures Obj(out) == Rewritten(cfg, secrets, Obj(m), path)
      ensures Totals() == Plus(old(Totals()), Effect(cfg, secrets, Obj(m), path))
      decreases Obj(m), 0
    {
      hide Plus, Effect, Rewritten, EffectKeys, NonEmpty, KeyPath;
      ghost var v := Obj(m);
      out := m;
      var rest := m.Keys;
      while rest != {}
        invariant rest <= m.Keys && out.Keys == m.Keys
        invariant forall k | k in rest :: out[k] == m[k]
        invariant forall k | k in m.Keys - rest :: out[k] == Rewritten(cfg, secrets, m[k], KeyPath(path, k))
        invariant Plus(Totals(), EffectKeys(cfg, secrets, v, path, rest)) ==
                  Plus(old(Totals()), EffectKeys(cfg, secrets, v, path, m.Keys))
        decreases |rest|
      {
        var k :| k in rest;
        EffectKeysAnyOrder(cfg, secrets, v, path, rest, k);
        ghost var before, child := Totals(), Effect(cfg, secrets, m[k], KeyPath(path, k));
        var w := Rewrite(out[k], KeyPath(path, k));
        PlusLaws(before, child, EffectKeys(cfg, secrets, v, path, rest - {k}));
        out := out[k := w];
        rest := rest - {k};
      }
      PlusLaws(Totals(), ZERO, ZERO);
      ObjectDone(cfg, secrets, m, path, out);
    }

    /** rewrite */
    method Rewrite(node: Value, path: string) returns (out: Value)
      requires Valid()
      modifies this
      ensures out == Rewritten(cfg, secrets, node, path)
      ensures Totals() == Plus(old(Totals()), Effect(cfg, secrets, node, path))
      decreases node, 1
    {
      match node {
        case Obj(fields) =>
          var m := RewriteMap(fields, path);
          out := Obj(m);
        case Arr(items) =>
          var list := RewriteItems(node, path);
          out := Arr(list);
        case Str(s) =>
          var leaf := RedactLeaf(s, path);
          out := Str(leaf);
        case Scalar(_) =>
          PlusLaws(Totals(), ZERO, ZERO);
          out := node;
      }
    }

    /** The array case of rewrite. */
    method RewriteItems(node: Value, path: string) returns (out: seq<Value>)
      requires Valid() && node.Arr?
      modifies this
      ensures Arr(out) == Rewritten(cfg, secrets, node, path)
      ensures Totals() == Plus(old(Totals()), Effect(cfg, secrets, node, path))
      decreases node, 0
    {
      hide Plus, Effect, Rewritten, EffectItems, NonEmpty, ItemPath;
      out := node.items;
      PlusLaws(Totals(), ZERO, ZERO);
      NoItems(cfg, secrets, node, path);
      for i := 0 to |node.items|
        invariant |out| == |node.items|
        invariant forall j | 0 <= j < i :: out[j] == Rewritten(cfg, secrets, node.items[j], ItemPath(path, j))
        invariant forall j | i <= j < |out| :: out[j] == node.items[j]
        invariant Totals() == Plus(old(Totals()), EffectItems(cfg, secrets, node, path, i))
      {
        ghost var done := EffectItems(cfg, secrets, node, path, i);
        ghost var item := Effect(cfg, secrets, node.items[i], ItemPath(path, i));
        var w := Rewrite(out[i], ItemPath(path, i));
        PlusLaws(old(Totals()), done, item);
        ItemsSnoc(cfg, secrets, node, path, i);
        out := out[i := w];
      }
      ArrayDone(cfg, secrets, node, path, out);
    }

    /** redactLeaf. A leaf without pending secrets never reaches the path filter. */
    method RedactLeaf(s: string, path: string) returns (out: string)
      requires Valid()
      modifies this
      ensures out == RedactedLeaf(cfg, secrets, s, path).out
      ensures Totals() == Plus(old(Totals()), RedactedLeaf(cfg, secrets, s, path).tally)
    {
      hide Text.Weave, KeptCount, Count, Contains, Encode, HasAllowMarker, Plus, Apply, RedactedLeaf, Held,
           StepBody, StepTally, Resumed, AbsentUpTo, Decode;
      ghost var start := Totals();
      var encoded := Encode(s);
      var body := encoded;
      var marked := cfg.allowMarkers && HasAllowMarker(body);
      var n, eligible, lastRule := 0, false, "";
      ghost var acc := ZERO;
      PlusLaws(start, ZERO, ZERO);
      assert secrets[0..] == secrets;
      ResumedNothing(Apply(cfg, secrets, marked, encoded), cfg, secrets, marked, encoded);
      NoneYet(secrets, encoded);
      for i := 0 to |secrets|
        invariant Totals() == Plus(start, acc).(count := start.count) && acc.count == n
        invariant !eligible ==> body == encoded && acc == ZERO && AbsentUpTo(secrets, i, encoded)
        invariant eligible ==> Held(secrets, encoded) != {} && cfg.pathFilter(path)
        invariant NonEmpty(secrets[i..])
        invariant Apply(cfg, secrets, marked, encoded) == Resumed(acc, lastRule, Apply(cfg, secrets[i..], marked, body))
      {
        var sr := secrets[i];
        ResumeStep(cfg, secrets, i, marked, body, acc, lastRule);
        CountZero(body, sr.secret);
        var c := Count(body, sr.secret);
        if c == 0 {
          AbsentNext(secrets, i, encoded);
          AbsentStep(cfg, sr, marked, body);
          PlusLaws(acc, ZERO, ZERO);
          continue;
        }
        if !eligible {
          HeldIfContains(secrets, i, encoded);
          if !cfg.pathFilter(path) {
            RecordProtected(i, body);
            ProtectedLeaf(cfg, secrets, s, path, i, start);
            return s;
          }
          eligible := true;
        }
        ghost var t := StepTally(sr, marked, body);
        var replaced;
        body, replaced := Substitute(sr, body, marked, c);
        AddStep(start, acc, t);
        acc := Plus(acc, t);
        if replaced > 0 {
          n := n + replaced;
          lastRule := sr.ruleID;
        }
      }
      assert secrets[|secrets|..] == [];
      ResumedAll(cfg, secrets, marked, body, acc, lastRule);
      LeafByCases(cfg, secrets, s, path);
      if !eligible {
        NoneHeld(secrets, encoded);
      }
      PlusCount(start, acc);
      if n == 0 {
        return s;
      }
      count := count + n;
      match Decode(body) {
        case Some(decoded) => out := decoded;
        case None => out := cfg.placeholder(lastRule);
      }
    }

    /** One secret of redactLeaf: substitutes it in the body and counts, except for the total. */
    method Substitute(sr: SecretRule, body: string, marked: bool, c: nat) returns (out: string, replaced: nat)
      requires sr.secret != "" && c == Count(body, sr.secret)
      modifies this
      ensures out == StepBody(cfg, sr, marked, body)
      ensures replaced == StepTally(sr, marked, body).count
      ensures Totals() == Plus(old(Totals()), StepTally(sr, marked, body)).(count := old(count))
    {
      hide Text.Weave, KeptCount, Count, Encode, Kept, Plus, TallyOf, StepBody, StepTally;
      // The body is JSON text, so what is put into it must be JSON text as well.
      var placeholder := Encode(cfg.placeholder(sr.ruleID));
      var keptHere := 0;
      if marked {
        out, replaced, keptHere := ReplaceOutsideAllowedLines(body, sr.secret, placeholder);
      } else {
        NoneSpared(body, sr.secret);
        out, replaced := ReplaceAll(body, sr.secret, placeholder), c;
      }
      StepAs(cfg, sr, marked, body, out, replaced, keptHere);
      Record(sr, replaced, keptHere);
    }

    method Record(sr: SecretRule, replaced: nat, keptHere: nat)
      modifies this
      ensures Totals() == Plus(old(Totals()), TallyOf(sr, replaced, keptHere)).(count := old(count))
    {
      AddedTally(Totals(), sr, replaced, keptHere);
      hide Plus, TallyOf;
      if keptHere > 0 {
        allowed := allowed[sr.ruleID := allowed[sr.ruleID] + keptHere];
        kept := kept + {sr.secret};
      }
      if replaced > 0 {
        byRule := byRule[sr.ruleID := byRule[sr.ruleID] + replaced];
        located := located + {sr.secret};
      }
    }

    /** The protected case of redactLeaf: records the secrets from i on that the leaf holds. */
    method RecordProtected(i: nat, body: string)
      requires i <= |secrets|
      modifies this`protected
      ensures protected == old(protected) + Held(secrets[i..], body)
    {
      hide Contains;
      for j := i to |secrets|
        invariant protected == old(protected) + Held(secrets[i..j], body)
      {
        assert secrets[i..j + 1] == secrets[i..j] + [secrets[j]];
        HeldSnoc(secrets[i..j], secrets[j], body);
        if Contains(body, secrets[j].secret) {
          protected := protected + {secrets[j].secret};
        }
      }
      assert secrets[i..|secrets|] == secrets[i..];
    }
  }

  /** What was counted so far, followed by the rest. */
  ghost function Resumed(acc: Tally, lastRule: string, rest: Applied): Applied {
    Applied(rest.body, Plus(acc, rest.tally), if rest.tally.count > 0 then rest.last else lastRule)
  }

  ghost predicate AbsentUpTo(secrets: seq<SecretRule>, i: nat, body: string)
    requires i <= |secrets|
  {
    forall j | 0 <= j < i :: !Contains(body, secrets[j].secret)
  }

  lemma NoneYet(secrets: seq<SecretRule>, body: string)
    ensures AbsentUpTo(secrets, 0, body)
  {
  }

  lemma AbsentNext(secrets: seq<SecretRule>, i: nat, body: string)
    requires i < |secrets|
    ensures AbsentUpTo(secrets, i, body) && !Contains(body, secrets[i].secret) ==> AbsentUpTo(secrets, i + 1, body)
  {
    hide Contains;
  }

  lemma ResumedNothing(a: Applied, cfg: Config, secrets: seq<SecretRule>, marked: bool, body: string)
    requires NonEmpty(secrets) && a == Apply(cfg, secrets, marked, body)
    ensures a == Resumed(ZERO, "", a)
  {
    hide Apply, StepBody, StepTally, Plus;
    PlusLaws(a.tally, ZERO, ZERO);
    NothingLast(cfg, secrets, marked, body);
  }

  /** Where nothing was substituted, no rule was last. */
  lemma NothingLast(cfg: Config, secrets: seq<SecretRule>, marked: bool, body: string)
    requires NonEmpty(secrets)
    ensures Apply(cfg, secrets, marked, body).tally.count == 0 ==> Apply(cfg, secrets, marked, body).last == ""
  {
    hide Apply, StepBody, StepTally;
    if secrets == [] { ApplyNone(cfg, marked, body); } else { ApplyUnfold(cfg, secrets, marked, body); }
  }

  lemma ResumedAll(cfg: Config, secrets: seq<SecretRule>, marked: bool, body: string, acc: Tally, lastRule: string)
    ensures Resumed(acc, lastRule, Apply(cfg, [], marked, body)) == Applied(body, acc, lastRule)
  {
    PlusLaws(acc, ZERO, ZERO);
  }

  lemma ResumeStep(
      cfg: Config, secrets: seq<SecretRule>, i: nat, marked: bool, body: string, acc: Tally, lastRule: string)
    requires i < |secrets| && NonEmpty(secrets)
    ensures NonEmpty(secrets[i..]) && NonEmpty(secrets[i + 1..])
    ensures var sr := secrets[i]; var t := StepTally(sr, marked, body);
      Resumed(acc, lastRule, Apply(cfg, secrets[i..], marked, body)) ==
      Resumed(Plus(acc, t), if t.count > 0 then sr.ruleID else lastRule,
              Apply(cfg, secrets[i + 1..], marked, StepBody(cfg, sr, marked, body)))
  {
    hide StepBody, StepTally, Apply, Plus;
    var sr := secrets[i];
    var t, rest := StepTally(sr, marked, body), secrets[i..];
    assert forall x | x in rest :: x in secrets;
    assert forall x | x in secrets[i + 1..] :: x in secrets;
    assert rest[1..] == secrets[i + 1..] && rest[0] == sr;
    var r := Apply(cfg, secrets[i + 1..], marked, StepBody(cfg, sr, marked, body));
    ApplyUnfold(cfg, rest, marked, body);
    PlusCount(t, r.tally);
    PlusLaws(acc, t, r.tally);
  }

  /** Adding a step to all counters but the total, and the total apart. */
  lemma AddStep(start: Tally, acc: Tally, t: Tally)
    ensures Plus(Plus(start, acc).(count := start.count), t).(count := start.count) ==
            Plus(start, Plus(acc, t)).(count := start.count)
    ensures Plus(acc, t).count == acc.count + t.count
  {
    PlusLaws(start, acc, t);
  }

  lemma ObjectDone(cfg: Config, secrets: seq<SecretRule>, m: map<string, Value>, path: string, out: map<string, Value>)
    requires NonEmpty(secrets) && out.Keys == m.Keys
    requires forall k | k in m :: out[k] == Rewritten(cfg, secrets, m[k], KeyPath(path, k))
    ensures Obj(out) == Rewritten(cfg, secrets, Obj(m), path)
    ensures Effect(cfg, secrets, Obj(m), path) == EffectKeys(cfg, secrets, Obj(m), path, m.Keys)
    ensures EffectKeys(cfg, secrets, Obj(m), path, {}) == ZERO
  {
    hide KeyPath;
    assert Rewritten(cfg, secrets, Obj(m), path).fields == out;
  }

  lemma ArrayDone(cfg: Config, secrets: seq<SecretRule>, v: Value, path: string, out: seq<Value>)
    requires NonEmpty(secrets) && v.Arr? && |out| == |v.items|
    requires forall i | 0 <= i < |out| :: out[i] == Rewritten(cfg, secrets, v.items[i], ItemPath(path, i))
    ensures Arr(out) == Rewritten(cfg, secrets, v, path)
    ensures Effect(cfg, secrets, v, path) == EffectItems(cfg, secrets, v, path, |v.items|)
  {
    hide ItemPath;
    assert Rewritten(cfg, secrets, v, path).items == out;
  }

  lemma NoItems(cfg: Config, secrets: seq<SecretRule>, v: Value, path: string)
    requires NonEmpty(secrets) && v.Arr?
    ensures EffectItems(cfg, secrets, v, path, 0) == ZERO
  {
  }

  lemma ItemsSnoc(cfg: Config, secrets: seq<SecretRule>, v: Value, path: string, i: nat)
    requires NonEmpty(secrets) && v.Arr? && i < |v.items|
    ensures EffectItems(cfg, secrets, v, path, i + 1) ==
      Plus(EffectItems(cfg, secrets, v, path, i), Effect(cfg, secrets, v.items[i], ItemPath(path, i)))
  {
  }

  lemma PlusCount(a: Tally, b: Tally)
    ensures Plus(a, b).count == a.count + b.count
  {
  }

  lemma StepAs(
      cfg: Config, sr: SecretRule, marked: bool, body: string, out: string, replaced: nat, kept: nat)
    requires sr.secret != "" && replaced + kept == Count(body, sr.secret)
    requires kept == KeptCount(body, sr.secret, Spared(body, sr.secret, marked))
    requires out == Weave(body, sr.secret, Mask(cfg, sr.ruleID), Spared(body, sr.secret, marked))
    ensures out == StepBody(cfg, sr, marked, body)
    ensures StepTally(sr, marked, body) == TallyOf(sr, replaced, kept) && StepTally(sr, marked, body).count == replaced
  {
    hide Text.Weave, KeptCount, Count, Encode, Kept;
  }

  lemma AddedTally(t: Tally, sr: SecretRule, replaced: nat, kept: nat)
    ensures TallyOf(sr, replaced, kept).count == replaced
    ensures Plus(t, TallyOf(sr, replaced, kept)) == Tally(
      t.count + replaced,
      if replaced > 0 then t.byRule[sr.ruleID := t.byRule[sr.ruleID] + replaced] else t.byRule,
      if kept > 0 then t.allowed[sr.ruleID := t.allowed[sr.ruleID] + kept] else t.allowed,
      if replaced > 0 then t.located + {sr.secret} else t.located,
      if kept > 0 then t.kept + {sr.secret} else t.kept,
      t.protected)
  {
    assert t.byRule + multiset{}[sr.ruleID := replaced] == t.byRule[sr.ruleID := t.byRule[sr.ruleID] + replaced];
    assert t.allowed + multiset{}[sr.ruleID := kept] == t.allowed[sr.ruleID := t.allowed[sr.ruleID] + kept];
  }

  lemma HeldSnoc(list: seq<SecretRule>, sr: SecretRule, body: string)
    ensures Held(list + [sr], body) == Held(list, body) + (if Contains(body, sr.secret) then {sr.secret} else {})
  {
    hide Contains;
  }

  lemma HeldIfContains(secrets: seq<SecretRule>, i: nat, body: string)
    requires i < |secrets| && Contains(body, secrets[i].secret)
    ensures Held(secrets, body) != {}
  {
    hide Contains;
    assert secrets[i].secret in Held(secrets, body);
  }

  lemma NoneHeld(secrets: seq<SecretRule>, body: string)
    requires AbsentUpTo(secrets, |secrets|, body)
    ensures Held(secrets, body) == {}
  {
    hide Contains;
  }

  lemma LeafByCases(cfg: Config, secrets: seq<SecretRule>, s: string, path: string)
    requires NonEmpty(secrets)
    ensures var body := Encode(s); var r := RedactedLeaf(cfg, secrets, s, path);
      if Held(secrets, body) == {} then r == Redacted(s, ZERO)
      else if !cfg.pathFilter(path) then r == Redacted(s, ZERO.(protected := Held(secrets, body)))
      else var a := Apply(cfg, secrets, Marked(cfg, body), body); r == Redacted(Rebuild(cfg, s, a), a.tally)
  {
  }

  /** The secrets in front of the first one the leaf holds are not in the leaf. */
  lemma ProtectedLeaf(cfg: Config, secrets: seq<SecretRule>, s: string, path: string, i: nat, t: Tally)
    requires NonEmpty(secrets) && i < |secrets| && AbsentUpTo(secrets, i, Encode(s)) && !cfg.pathFilter(path)
    requires Contains(Encode(s), secrets[i].secret)
    ensures RedactedLeaf(cfg, secrets, s, path).out == s
    ensures Plus(t, RedactedLeaf(cfg, secrets, s, path).tally) ==
            t.(protected := t.protected + Held(secrets[i..], Encode(s)))
  {
    hide Contains, Encode, Apply, RedactedLeaf;
    var body := Encode(s);
    LeafByCases(cfg, secrets, s, path);
    HeldIfContains(secrets, i, body);
    assert Held(secrets, body) == Held(secrets[i..], body) by {
      forall x | x in secrets && Contains(body, x.secret) ensures x in secrets[i..] {
        var j :| 0 <= j < |secrets| && secrets[j] == x;
        assert secrets[i..][j - i] == x;
      }
      assert forall x | x in secrets[i..] :: x in secrets;
    }
    PlusLaws(t, ZERO, ZERO);
  }
}
