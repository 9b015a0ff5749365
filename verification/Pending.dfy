/** The list of secrets one pass rewrites, computed from the scanner's findings. */
module Pending {
  import opened Text
  import opened Escapes
  import opened Order

  datatype Finding = Finding(ruleID: string, secret: string)
  datatype SecretRule = SecretRule(secret: string, ruleID: string)

  /** Longest secret first, then by bytes. */
  predicate Earlier(a: string, b: string) {
    |a| > |b| || (|a| == |b| && Below(a, b))
  }

  predicate ByLength(a: SecretRule, b: SecretRule) {
    Earlier(a.secret, b.secret)
  }

  /** The loop chases the finding's secret. */
  predicate Wanted(f: Finding, skip: set<string>, isPlaceholder: string -> bool) {
    var secret := TrimPartialEscape(f.secret);
    secret != "" && secret !in skip && !isPlaceholder(secret)
  }

  /** f is a finding of secret that the loop chases. */
  predicate Names(f: Finding, secret: string, skip: set<string>, isPlaceholder: string -> bool) {
    Wanted(f, skip, isPlaceholder) && TrimPartialEscape(f.secret) == secret
  }

  function Secrets(list: seq<SecretRule>): set<string> {
    set sr | sr in list :: sr.secret
  }

  /** The wanted secrets in the order they are first found, each with the rule that found it first. */
  function FirstFindings(findings: seq<Finding>, skip: set<string>, isPlaceholder: string -> bool): seq<SecretRule> {
    if findings == [] then []
    else
      var f := findings[|findings| - 1];
      var earlier := FirstFindings(findings[..|findings| - 1], skip, isPlaceholder);
      if !Wanted(f, skip, isPlaceholder) || TrimPartialEscape(f.secret) in Secrets(earlier) then earlier
      else earlier + [SecretRule(TrimPartialEscape(f.secret), f.ruleID)]
  }

  function PendingList(findings: seq<Finding>, skip: set<string>, isPlaceholder: string -> bool): seq<SecretRule> {
    Sort(FirstFindings(findings, skip, isPlaceholder), ByLength)
  }

  /** pendingSecrets */
  method PendingSecrets(findings: seq<Finding>, skip: set<string>, isPlaceholder: string -> bool)
    returns (out: seq<SecretRule>)
    ensures out == PendingList(findings, skip, isPlaceholder)
  {
    var seen: set<string> := {};
    out := [];
    for n := 0 to |findings|
      invariant out == FirstFindings(findings[..n], skip, isPlaceholder)
      invariant seen == Secrets(out)
    {
      var f := findings[n];
      assert findings[..n + 1][..n] == findings[..n];
      var secret := TrimPartialEscape(f.secret);
      if secret == "" || secret in skip || isPlaceholder(secret) || secret in seen {
        continue;
      }
      seen := seen + {secret};
      out := out + [SecretRule(secret, f.ruleID)];
    }
    assert findings[..|findings|] == findings;
    out := Sort(out, ByLength);
  }

  /** sr carries the rule of the first finding of its secret. */
  ghost predicate FirstRule(findings: seq<Finding>, skip: set<string>, isPlaceholder: string -> bool, sr: SecretRule) {
    exists k | 0 <= k < |findings| ::
      && Names(findings[k], sr.secret, skip, isPlaceholder)
      && findings[k].ruleID == sr.ruleID
      && forall j | 0 <= j < k :: !Names(findings[j], sr.secret, skip, isPlaceholder)
  }

  lemma {:induction false} FirstFindingsRules(
      findings: seq<Finding>, skip: set<string>, isPlaceholder: string -> bool, sr: SecretRule)
    requires sr in FirstFindings(findings, skip, isPlaceholder)
    ensures FirstRule(findings, skip, isPlaceholder, sr)
  {
    var n := |findings| - 1;
    var init, f := findings[..n], findings[n];
    var earlier := FirstFindings(init, skip, isPlaceholder);
    if sr in earlier {
      FirstFindingsRules(init, skip, isPlaceholder, sr);
      FirstRuleExtends(init, f, skip, isPlaceholder, sr);
      assert findings == init + [f];
    } else {
      forall j | 0 <= j < n ensures !Names(findings[j], sr.secret, skip, isPlaceholder) {
        if Names(findings[j], sr.secret, skip, isPlaceholder) {
          assert init[j] == findings[j];
          FirstFindingsCover(init, skip, isPlaceholder, j);
        }
      }
      assert Names(findings[n], sr.secret, skip, isPlaceholder);
    }
  }

  lemma FirstRuleExtends(
      init: seq<Finding>, f: Finding, skip: set<string>, isPlaceholder: string -> bool, sr: SecretRule)
    requires FirstRule(init, skip, isPlaceholder, sr)
    ensures FirstRule(init + [f], skip, isPlaceholder, sr)
  {
    var k :| 0 <= k < |init| && Names(init[k], sr.secret, skip, isPlaceholder) && init[k].ruleID == sr.ruleID
          && forall j | 0 <= j < k :: !Names(init[j], sr.secret, skip, isPlaceholder);
    assert (init + [f])[k] == init[k];
  }

  lemma {:induction false} FirstFindingsCover(
      findings: seq<Finding>, skip: set<string>, isPlaceholder: string -> bool, j: nat)
    requires j < |findings| && Wanted(findings[j], skip, isPlaceholder)
    ensures TrimPartialEscape(findings[j].secret) in Secrets(FirstFindings(findings, skip, isPlaceholder))
  {
    var n := |findings| - 1;
    var list := FirstFindings(findings, skip, isPlaceholder);
    if j < n {
      FirstFindingsCover(findings[..n], skip, isPlaceholder, j);
    } else if list != FirstFindings(findings[..n], skip, isPlaceholder) {
      assert list[|list| - 1] in list;
    }
  }

  ghost predicate DistinctSecrets(list: seq<SecretRule>) {
    forall i, j | 0 <= i < j < |list| :: list[i].secret != list[j].secret
  }

  lemma {:induction false} FirstFindingsDistinct(
      findings: seq<Finding>, skip: set<string>, isPlaceholder: string -> bool)
    ensures DistinctSecrets(FirstFindings(findings, skip, isPlaceholder))
  {
    if findings != [] {
      FirstFindingsDistinct(findings[..|findings| - 1], skip, isPlaceholder);
      var earlier := FirstFindings(findings[..|findings| - 1], skip, isPlaceholder);
      assert forall i | 0 <= i < |earlier| :: earlier[i].secret in Secrets(earlier);
    }
  }

  lemma ByLengthIsOrder()
    ensures StrictOrder(ByLength)
  {
    forall a ensures !ByLength(a, a) { BelowIrreflexive(a.secret); }
    forall a, b, c | ByLength(a, b) && ByLength(b, c) ensures ByLength(a, c) {
      if |a.secret| == |b.secret| == |c.secret| { BelowTransitive(a.secret, b.secret, c.secret); }
    }
  }

  /** The list is strictly ordered, so free of duplicates; it holds exactly the wanted secrets, each with
      the rule of its first finding. */
  lemma CanonicalList(findings: seq<Finding>, skip: set<string>, isPlaceholder: string -> bool)
    ensures var list := PendingList(findings, skip, isPlaceholder);
      && (forall i, j | 0 <= i < j < |list| :: Earlier(list[i].secret, list[j].secret))
      && (forall sr | sr in list :: FirstRule(findings, skip, isPlaceholder, sr))
      && (forall f | f in findings && Wanted(f, skip, isPlaceholder) ::
            exists sr | sr in list :: sr.secret == TrimPartialEscape(f.secret))
  {
    var firsts := FirstFindings(findings, skip, isPlaceholder);
    FirstFindingsDistinct(findings, skip, isPlaceholder);
    ByLengthIsOrder();
    forall i, j | 0 <= i < j < |firsts|
      ensures ByLength(firsts[i], firsts[j]) || ByLength(firsts[j], firsts[i])
    {
      assert firsts[i].secret != firsts[j].secret;
      BelowTotal(firsts[i].secret, firsts[j].secret);
    }
    SortAscending(firsts, ByLength);
    SortElements(firsts, ByLength);
    forall sr | sr in firsts ensures FirstRule(findings, skip, isPlaceholder, sr) {
      FirstFindingsRules(findings, skip, isPlaceholder, sr);
    }
    forall f | f in findings && Wanted(f, skip, isPlaceholder)
      ensures TrimPartialEscape(f.secret) in Secrets(firsts)
    {
      var j :| 0 <= j < |findings| && findings[j] == f;
      FirstFindingsCover(findings, skip, isPlaceholder, j);
    }
  }

  /** Every pending secret is one the loop still chases: trimmed, not empty, not skipped, not a
      placeholder. */
  lemma PendingWanted(findings: seq<Finding>, skip: set<string>, isPlaceholder: string -> bool)
    ensures var wanted := set f | f in findings && Wanted(f, skip, isPlaceholder) :: TrimPartialEscape(f.secret);
      Secrets(PendingList(findings, skip, isPlaceholder)) == wanted
    ensures forall sr | sr in PendingList(findings, skip, isPlaceholder) ::
      sr.secret != "" && sr.secret !in skip && !isPlaceholder(sr.secret) && !Esc(false, sr.secret)
  {
    CanonicalList(findings, skip, isPlaceholder);
    var list := PendingList(findings, skip, isPlaceholder);
    forall sr | sr in list
      ensures exists f | f in findings && Wanted(f, skip, isPlaceholder) :: TrimPartialEscape(f.secret) == sr.secret
    {
      assert FirstRule(findings, skip, isPlaceholder, sr);
      var k :| 0 <= k < |findings| && Names(findings[k], sr.secret, skip, isPlaceholder);
      assert findings[k] in findings;
    }
  }

  /** A secret is never processed before a longer pending secret that contains it. */
  lemma ContainingSecretFirst(findings: seq<Finding>, skip: set<string>, isPlaceholder: string -> bool, i: nat, j: nat)
    requires var list := PendingList(findings, skip, isPlaceholder);
      i < |list| && j < |list| && i != j && Contains(list[i].secret, list[j].secret)
    ensures i < j
  {
    CanonicalList(findings, skip, isPlaceholder);
    var list := PendingList(findings, skip, isPlaceholder);
    if j < i {
      var big, small := list[i].secret, list[j].secret;
      var at :| 0 <= at <= |big| && At(big, at, small);
      assert |big| == |small| ==> big[0..|small|] == big;
      BelowIrreflexive(big);
    }
  }

  /** The secrets, and their order, depend only on which secrets are wanted: reordering or repeating
      findings can change rule ids and nothing else. */
  lemma OrderIndependent(f1: seq<Finding>, f2: seq<Finding>, skip: set<string>, isPlaceholder: string -> bool)
    requires forall f :: f in f1 <==> f in f2
    ensures var a, b := PendingList(f1, skip, isPlaceholder), PendingList(f2, skip, isPlaceholder);
      |a| == |b| && forall i | 0 <= i < |a| :: a[i].secret == b[i].secret
  {
    var a, b := PendingList(f1, skip, isPlaceholder), PendingList(f2, skip, isPlaceholder);
    CanonicalList(f1, skip, isPlaceholder);
    CanonicalList(f2, skip, isPlaceholder);
    PendingWanted(f1, skip, isPlaceholder);
    PendingWanted(f2, skip, isPlaceholder);
    var sa, sb := seq(|a|, i requires 0 <= i < |a| => a[i].secret), seq(|b|, i requires 0 <= i < |b| => b[i].secret);
    assert Secrets(a) == Secrets(b);
    SameSecrets(a, sa);
    SameSecrets(b, sb);
    EarlierIsOrder();
    AscendingUnique(sa, sb, Earlier);
    assert forall i | 0 <= i < |a| :: a[i].secret == sa[i] == sb[i] == b[i].secret;
  }

  lemma SameSecrets(list: seq<SecretRule>, secrets: seq<string>)
    requires |list| == |secrets| && forall i | 0 <= i < |list| :: list[i].secret == secrets[i]
    ensures forall s :: s in secrets <==> s in Secrets(list)
  {
    forall s | s in Secrets(list) ensures s in secrets {
      var sr :| sr in list && sr.secret == s;
      var i :| 0 <= i < |list| && list[i] == sr;
      assert secrets[i] == s;
    }
    forall s | s in secrets ensures s in Secrets(list) {
      var i :| 0 <= i < |secrets| && secrets[i] == s;
      assert list[i] in list;
    }
  }

  lemma EarlierIsOrder()
    ensures StrictOrder(Earlier)
  {
    forall a ensures !Earlier(a, a) { BelowIrreflexive(a); }
    forall a, b, c | Earlier(a, b) && Earlier(b, c) ensures Earlier(a, c) {
      if |a| == |b| == |c| { BelowTransitive(a, b, c); }
    }
  }
}
