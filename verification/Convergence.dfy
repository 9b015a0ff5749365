/** What the convergence loop guarantees over whole runs. */
module Convergence {
  import opened Options
  import opened Escapes
  import opened Pending
  import opened Leaf
  import opened Tree
  import opened OpaqueLeaves
  import opened Redact

  // ---- Two passes suffice --------------------------------------------------------------------------------

  /** A secret that is not dropped after a pass is gone from the document. */
  lemma ChasedIsAbsent(cfg: Config, st: State, pending: seq<SecretRule>, pass: nat, sr: SecretRule)
    requires NonEmpty(pending) && Separate(cfg, pending) && sr in pending
    requires sr.secret !in AfterPass(cfg, st, pending, pass).skip
    ensures Absent(AfterPass(cfg, st, pending, pass).root, sr.secret)
  {
    hide Effect, Rewritten, Separate, Absent, MissingRules;
    var t := Effect(cfg, pending, st.root, "");
    assert sr.secret !in Dropped(pending, t);
    assert !Missing(sr, t) && sr.secret !in t.kept;
    TreeSurvivorsRecorded(cfg, pending, st.root, "", sr);
  }

  /** The scan of a rewritten document reports nothing new: every secret it would chase was already pending
      in the pass before. */
  ghost predicate NothingNew(cfg: Config, findings: seq<Finding>, pending: seq<SecretRule>) {
    forall f | f in findings && Wanted(f, {}, cfg.isPlaceholder) :: TrimPartialEscape(f.secret) in Secrets(pending)
  }

  lemma PendingAgain(cfg: Config, findings: seq<Finding>, skip: set<string>, pending: seq<SecretRule>, sr: SecretRule)
    requires NothingNew(cfg, findings, pending) && sr in PendingOf(cfg, findings, skip)
    ensures sr.secret in Secrets(pending) && sr.secret !in skip
  {
    PendingWanted(findings, skip, cfg.isPlaceholder);
    assert sr.secret in Secrets(PendingOf(cfg, findings, skip));
    var f :| f in findings && Wanted(f, skip, cfg.isPlaceholder) && TrimPartialEscape(f.secret) == sr.secret;
  }

  /** A pass that follows a rewrite and finds nothing new has nothing to do. */
  lemma SecondPassIsIdle(
      cfg: Config, st: State, pending: seq<SecretRule>, pass: nat, findings: seq<Finding>)
    requires NonEmpty(pending) && Separate(cfg, pending) && NothingNew(cfg, findings, pending)
    ensures var next := AfterPass(cfg, st, pending, pass);
      var again := PendingOf(cfg, findings, next.skip);
      Effect(cfg, again, next.root, "") == ZERO && Rewritten(cfg, again, next.root, "") == next.root
  {
    hide Effect, Rewritten, Separate, Absent, AfterPass, PendingOf, NothingNew, Wanted;
    var next := AfterPass(cfg, st, pending, pass);
    var again := PendingOf(cfg, findings, next.skip);
    forall sr | sr in again ensures Absent(next.root, sr.secret) {
      PendingAgain(cfg, findings, next.skip, pending, sr);
      var first :| first in pending && first.secret == sr.secret;
      ChasedIsAbsent(cfg, st, pending, pass, first);
    }
    NothingToDo(cfg, again, next.root, "");
  }

  /** For every document, path filter and set of markers: when no secret of the first pass can be completed by
      or found in a placeholder, and the second scan reports nothing new, the loop stops within two passes. */
  lemma TwoPassesSuffice(cfg: Config, render: Value -> string, scan: Scanner, root: Value)
    requires cfg.maxPasses >= 2
    requires scan(1, render(root)).Some? ==>
      var pending := PendingOf(cfg, scan(1, render(root)).value, {});
      var text := render(Rewritten(cfg, pending, root, ""));
      Separate(cfg, pending) && (scan(2, text).Some? ==> NothingNew(cfg, scan(2, text).value, pending))
    ensures var outcome := Passes(cfg, render, scan, Start(root), 1);
      !outcome.NotConverged? && (outcome.Done? ==> 1 <= outcome.end.report.passes <= 2)
  {
    hide Passes, Effect, Rewritten, Separate, PendingOf, NothingNew, MissingRules, Dropped;
    PassesAt(cfg, render, scan, Start(root), 1);
    var first := scan(1, render(root));
    if first.Some? {
      var pending := PendingOf(cfg, first.value, {});
      var next := AfterPass(cfg, Start(root), pending, 1);
      PassesAt(cfg, render, scan, next, 2);
      var second := scan(2, render(next.root));
      if pending != [] && second.Some? {
        SecondPassIsIdle(cfg, Start(root), pending, 1, second.value);
      }
    }
  }

  // ---- Invariants of every run -----------------------------------------------------------------------------

  /** What holds between the state a run starts from and the one it ends in. */
  ghost predicate RunKeeps(cfg: Config, st: State, end: State) {
    && Framed(cfg, st.root, end.root, "")
    && st.skip <= end.skip
    && st.report.unlocated <= end.report.unlocated
    && st.report.allowed <= end.report.allowed
    && (st.report.replacements == |st.report.byRule| ==> end.report.replacements == |end.report.byRule|)
  }

  lemma PassKeeps(cfg: Config, st: State, pending: seq<SecretRule>, pass: nat)
    requires NonEmpty(pending)
    ensures RunKeeps(cfg, st, AfterPass(cfg, st, pending, pass))
  {
    hide Effect, Rewritten, Framed, Touched;
    PassTouches(cfg, pending, st.root, "");
    TouchedIsFramed(cfg, pending, st.root, Rewritten(cfg, pending, st.root, ""), "");
    EffectConsistent(cfg, pending, st.root, "");
    var t := Effect(cfg, pending, st.root, "");
    assert |st.report.byRule + t.byRule| == |st.report.byRule| + |t.byRule|;
  }

  lemma RunKeepsTransitive(cfg: Config, a: State, b: State, c: State)
    requires RunKeeps(cfg, a, b) && RunKeeps(cfg, b, c)
    ensures RunKeeps(cfg, a, c)
  {
    hide Framed;
    FramedTransitive(cfg, a.root, b.root, c.root, "");
  }

  /** The secrets that are pending in some pass of a run. */
  ghost function EverPending(cfg: Config, render: Value -> string, scan: Scanner, st: State, pass: nat): seq<SecretRule>
    decreases cfg.maxPasses + 1 - pass
  {
    if pass > cfg.maxPasses then []
    else match scan(pass, render(st.root))
      case None => []
      case Some(findings) =>
        var pending := PendingOf(cfg, findings, st.skip);
        if pending == [] || Effect(cfg, pending, st.root, "").count == 0 then pending
        else pending + EverPending(cfg, render, scan, AfterPass(cfg, st, pending, pass), pass + 1)
  }

  /** Every successful run changes nothing but eligible string leaves that held a secret pending in one of its passes,
      and its counters add up. */
  lemma {:induction false} RunInvariant(cfg: Config, render: Value -> string, scan: Scanner, st: State, pass: nat)
    requires Passes(cfg, render, scan, st, pass).Done?
    ensures var end := Passes(cfg, render, scan, st, pass).end;
      RunKeeps(cfg, st, end) && Touched(cfg, EverPending(cfg, render, scan, st, pass), st.root, end.root, "")
    decreases cfg.maxPasses + 1 - pass
  {
    hide Passes, PendingOf, Effect, AfterPass, RunKeeps, Touched;
    PassesAt(cfg, render, scan, st, pass);
    var pending := PendingOf(cfg, scan(pass, render(st.root)).value, st.skip);
    if pending == [] {
      RenumberedKeeps(cfg, st, pass);
      TouchedReflexive(cfg, [], st.root, "");
    } else {
      PassKeeps(cfg, st, pending, pass);
      var next := AfterPass(cfg, st, pending, pass);
      AfterPassTouches(cfg, st, pending, pass);
      if Effect(cfg, pending, st.root, "").count != 0 {
        RunInvariant(cfg, render, scan, next, pass + 1);
        var end := Passes(cfg, render, scan, st, pass).end;
        RunKeepsTransitive(cfg, st, next, end);
        var later := EverPending(cfg, render, scan, next, pass + 1);
        TouchedTransitive(cfg, pending, later, st.root, next.root, end.root, "");
      }
    }
  }

  lemma AfterPassTouches(cfg: Config, st: State, pending: seq<SecretRule>, pass: nat)
    requires NonEmpty(pending)
    ensures Touched(cfg, pending, st.root, AfterPass(cfg, st, pending, pass).root, "")
  {
    hide Effect, Rewritten, Touched, MissingRules, Dropped;
    PassTouches(cfg, pending, st.root, "");
  }

  lemma RenumberedKeeps(cfg: Config, st: State, pass: nat)
    ensures RunKeeps(cfg, st, st.(report := st.report.(passes := pass)))
  {
    FramedReflexive(cfg, st.root, "");
  }

  // ---- The skip set and the reports --------------------------------------------------------------------------

  lemma {:induction false} MissingReported(pending: seq<SecretRule>, t: Tally)
    ensures MissingRules(pending, t) == multiset{} <==> forall sr | sr in pending :: !Missing(sr, t)
  {
    if pending != [] {
      var n := |pending| - 1;
      MissingReported(pending[..n], t);
      assert pending == pending[..n] + [pending[n]];
      if Missing(pending[n], t) {
        assert pending[n].ruleID in MissingRules(pending, t);
      }
    }
  }

  /** A pass drops a secret exactly when one of the two reports grows. */
  lemma DroppedIffReported(cfg: Config, root: Value, pending: seq<SecretRule>)
    requires NonEmpty(pending)
    ensures var t := Effect(cfg, pending, root, "");
      Dropped(pending, t) == {} <==> MissingRules(pending, t) == multiset{} && t.allowed == multiset{}
  {
    hide Effect, MissingRules;
    var t := Effect(cfg, pending, root, "");
    EffectConsistent(cfg, pending, root, "");
    MissingReported(pending, t);
    if Dropped(pending, t) == {} {
      forall sr | sr in pending ensures !Missing(sr, t) && sr.secret !in t.kept {
        assert Missing(sr, t) || sr.secret in t.kept ==> sr.secret in Dropped(pending, t);
      }
      assert forall x | x in Secrets(pending) :: x !in t.kept;
      assert t.kept <= Secrets(pending);
      assert t.kept == {};
    }
  }

  /** A pass that substitutes nothing drops all its secrets. */
  lemma IdleDropsAll(cfg: Config, root: Value, pending: seq<SecretRule>)
    requires NonEmpty(pending) && Effect(cfg, pending, root, "").count == 0
    ensures Secrets(pending) <= Dropped(pending, Effect(cfg, pending, root, ""))
  {
    hide Effect;
    var t := Effect(cfg, pending, root, "");
    EffectConsistent(cfg, pending, root, "");
    forall x | x in Secrets(pending) ensures x in Dropped(pending, t) {
      var sr :| sr in pending && sr.secret == x;
      assert Missing(sr, t) || sr.secret in t.kept;
    }
  }

  // ---- Success means clean ------------------------------------------------------------------------------------

  /** Nothing in the last scan of the run, which was a scan of its final document, is still wanted. */
  ghost predicate Clean(cfg: Config, render: Value -> string, scan: Scanner, end: State) {
    var found := scan(end.report.passes, render(end.root));
    found.Some? && PendingOf(cfg, found.value, end.skip) == []
  }

  lemma FewerWanted(cfg: Config, findings: seq<Finding>, skip: set<string>, more: set<string>)
    requires skip <= more && Secrets(PendingOf(cfg, findings, skip)) <= more
    ensures PendingOf(cfg, findings, more) == []
  {
    hide PendingList;
    PendingOfIs(cfg, findings, skip);
    PendingOfIs(cfg, findings, more);
    PendingWanted(findings, skip, cfg.isPlaceholder);
    PendingWanted(findings, more, cfg.isPlaceholder);
    var list := PendingOf(cfg, findings, more);
    forall f | f in findings ensures !Wanted(f, more, cfg.isPlaceholder) {
      assert Wanted(f, more, cfg.isPlaceholder) ==> Wanted(f, skip, cfg.isPlaceholder);
      assert Wanted(f, skip, cfg.isPlaceholder) ==>
        TrimPartialEscape(f.secret) in Secrets(PendingOf(cfg, findings, skip));
    }
    assert list != [] ==> list[0].secret in Secrets(list);
  }

  /** The run gave up no secret exactly when both reports are empty. */
  ghost predicate Balanced(st: State) {
    st.skip == {} <==> st.report.unlocated == multiset{} && st.report.allowed == multiset{}
  }

  lemma PassBalanced(cfg: Config, st: State, pending: seq<SecretRule>, pass: nat)
    requires NonEmpty(pending) && Balanced(st)
    ensures Balanced(AfterPass(cfg, st, pending, pass))
  {
    hide Effect, Rewritten, MissingRules, Dropped;
    DroppedIffReported(cfg, st.root, pending);
    EmptySums(st, pending, Effect(cfg, pending, st.root, ""));
  }

  lemma IdlePassIsClean(
      cfg: Config, render: Value -> string, scan: Scanner, st: State, pass: nat, findings: seq<Finding>)
    requires scan(pass, render(st.root)) == Some(findings)
    requires Effect(cfg, PendingOf(cfg, findings, st.skip), st.root, "").count == 0
    ensures Clean(cfg, render, scan, AfterPass(cfg, st, PendingOf(cfg, findings, st.skip), pass))
  {
    hide Effect, Rewritten, MissingRules, Dropped, PendingOf, NonEmpty;
    var pending := PendingOf(cfg, findings, st.skip);
    ZeroCountUnchanged(cfg, pending, st.root, "");
    IdleDropsAll(cfg, st.root, pending);
    FewerWanted(cfg, findings, st.skip, AfterPass(cfg, st, pending, pass).skip);
  }

  /** On success, whatever the scanner remembers between passes: its last scan was one of the final document and found
      nothing but placeholders and the secrets the run gave up; and it gave up none exactly when both reports are
      empty. */
  lemma {:induction false} SuccessIsClean(cfg: Config, render: Value -> string, scan: Scanner, st: State, pass: nat)
    requires Passes(cfg, render, scan, st, pass).Done? && Balanced(st)
    ensures var end := Passes(cfg, render, scan, st, pass).end;
      Clean(cfg, render, scan, end) && Balanced(end)
    decreases cfg.maxPasses + 1 - pass
  {
    hide Passes, PendingOf, Effect, AfterPass, Balanced;
    PassesAt(cfg, render, scan, st, pass);
    var findings := scan(pass, render(st.root)).value;
    var pending := PendingOf(cfg, findings, st.skip);
    if pending == [] {
      Renumbered(st, pass);
    } else {
      PassBalanced(cfg, st, pending, pass);
      if Effect(cfg, pending, st.root, "").count == 0 {
        IdlePassIsClean(cfg, render, scan, st, pass, findings);
      } else {
        SuccessIsClean(cfg, render, scan, AfterPass(cfg, st, pending, pass), pass + 1);
      }
    }
  }

  lemma Renumbered(st: State, pass: nat)
    ensures Balanced(st) <==> Balanced(st.(report := st.report.(passes := pass)))
  {
  }

  lemma EmptySums(st: State, pending: seq<SecretRule>, t: Tally)
    ensures st.skip + Dropped(pending, t) == {} <==> st.skip == {} && Dropped(pending, t) == {}
    ensures st.report.unlocated + MissingRules(pending, t) == multiset{} <==>
            st.report.unlocated == multiset{} && MissingRules(pending, t) == multiset{}
    ensures st.report.allowed + t.allowed == multiset{} <==>
            st.report.allowed == multiset{} && t.allowed == multiset{}
  {
    hide Dropped, MissingRules;
    SetSum(st.skip, Dropped(pending, t));
    MultisetSum(st.report.unlocated, MissingRules(pending, t));
    MultisetSum(st.report.allowed, t.allowed);
  }

  lemma SetSum(a: set<string>, b: set<string>)
    ensures a + b == {} <==> a == {} && b == {}
  {
    assert a <= a + b && b <= a + b;
  }

  lemma MultisetSum(a: multiset<string>, b: multiset<string>)
    ensures a + b == multiset{} <==> a == multiset{} && b == multiset{}
  {
    assert |a + b| == |a| + |b|;
  }

  // ---- Idempotence -------------------------------------------------------------------------------------------

  /** Decoding undoes encoding. The loop needs it only of documents that differ from the input in eligible
      string leaves. */
  ghost predicate RoundTrips(codec: Codec, root: Value) {
    codec.parse(codec.encode(root)) == Some(root)
  }

  /** A run that replaces nothing ends with the document it started from. */
  lemma NoReplacementNoChange(cfg: Config, render: Value -> string, scan: Scanner, st: State, pass: nat)
    requires Passes(cfg, render, scan, st, pass).Done?
    ensures var end := Passes(cfg, render, scan, st, pass).end;
      end.report.replacements >= st.report.replacements &&
      (end.report.replacements == st.report.replacements ==> end.root == st.root)
    decreases cfg.maxPasses + 1 - pass
  {
    hide Passes, PendingOf, Effect, Rewritten, MissingRules, Dropped;
    PassesAt(cfg, render, scan, st, pass);
    var pending := PendingOf(cfg, scan(pass, render(st.root)).value, st.skip);
    if pending != [] {
      if Effect(cfg, pending, st.root, "").count == 0 {
        ZeroCountUnchanged(cfg, pending, st.root, "");
      } else {
        NoReplacementNoChange(cfg, render, scan, AfterPass(cfg, st, pending, pass), pass + 1);
      }
    }
  }

  /** The document a run on doc starts from, with opaque leaves blank. */
  ghost function FirstRoot(cfg: Config, codec: Codec, doc: string): Value
    requires codec.parse(doc).Some?
  {
    Detached(cfg, codec.parse(doc).value, "")
  }

  /** The document a run on doc ends with, with opaque leaves blank. */
  ghost function FinalRoot(cfg: Config, codec: Codec, scan: Scanner, doc: string): Value
    requires RedactSpec(cfg, codec, scan, doc).Ok?
  {
    Passes(cfg, codec.render, scan, Start(FirstRoot(cfg, codec, doc)), 1).end.root
  }

  lemma {:induction false} EverPendingNonEmpty(
      cfg: Config, render: Value -> string, scan: Scanner, st: State, pass: nat)
    ensures NonEmpty(EverPending(cfg, render, scan, st, pass))
    decreases cfg.maxPasses + 1 - pass
  {
    hide PendingOf, Effect, AfterPass;
    if pass <= cfg.maxPasses && scan(pass, render(st.root)).Some? {
      var pending := PendingOf(cfg, scan(pass, render(st.root)).value, st.skip);
      EverPendingNonEmpty(cfg, render, scan, AfterPass(cfg, st, pending, pass), pass + 1);
    }
  }

  /** What a successful run hands back differs from the document in eligible string leaves that are not opaque, and
      blanking its opaque leaves again gives the document the loop ended with. */
  lemma OutputIsFramed(cfg: Config, codec: Codec, scan: Scanner, doc: string)
    requires RedactSpec(cfg, codec, scan, doc).Ok?
    ensures var root, end := codec.parse(doc).value, FinalRoot(cfg, codec, scan, doc);
      var out := Attached(cfg, root, end, "");
      && Framed(cfg, root, out, "") && OpaqueKept(cfg, root, out, "") && Detached(cfg, out, "") == end
  {
    hide Passes, Detached, Attached, Framed, OpaqueKept, Blank, Touched, NonEmpty, EverPending;
    var root, first := codec.parse(doc).value, FirstRoot(cfg, codec, doc);
    var end := FinalRoot(cfg, codec, scan, doc);
    RunInvariant(cfg, codec.render, scan, Start(first), 1);
    AttachedIsFramed(cfg, root, end, "");
    DetachedIsBlank(cfg, root, "");
    EverPendingNonEmpty(cfg, codec.render, scan, Start(first), 1);
    StaysBlank(cfg, EverPending(cfg, codec.render, scan, Start(first), 1), first, end, "");
    DetachedAttached(cfg, root, end, "");
  }

  /** What opaque leaves hold does not show in the report, in the passes or in how the run ends. */
  lemma OpaqueDoesNotShow(cfg: Config, codec: Codec, scan: Scanner, doc: string, other: string)
    requires codec.parse(doc).Some? && codec.parse(other).Some?
    requires SameButOpaque(cfg, codec.parse(doc).value, codec.parse(other).value, "")
    ensures var a, b := RedactSpec(cfg, codec, scan, doc), RedactSpec(cfg, codec, scan, other);
      if a.Ok? then b.Ok? && a.report == b.report else a == b
  {
    hide Passes, Detached, Attached, SameButOpaque;
    SameDetached(cfg, codec.parse(doc).value, codec.parse(other).value, "");
  }

  /** When the first scan of the final document by a further scanner finds nothing to chase, redacting the output with
      that scanner substitutes nothing and returns the output verbatim. */
  lemma VerbatimIfClean(cfg: Config, codec: Codec, scan: Scanner, doc: string, further: Scanner)
    requires RedactSpec(cfg, codec, scan, doc).Ok?
    requires forall v | Framed(cfg, codec.parse(doc).value, v, "") :: RoundTrips(codec, v)
    requires var found := further(1, codec.render(FinalRoot(cfg, codec, scan, doc)));
      found.Some? && PendingOf(cfg, found.value, {}) == []
    ensures var out := RedactSpec(cfg, codec, scan, doc).doc;
      var again := RedactSpec(cfg, codec, further, out);
      again.Ok? && again.doc == out && again.report.replacements == 0
  {
    hide Passes, PendingOf, Detached, Attached, Framed, OpaqueKept;
    var root, first := codec.parse(doc).value, FirstRoot(cfg, codec, doc);
    var end := Passes(cfg, codec.render, scan, Start(first), 1).end;
    OutputIsFramed(cfg, codec, scan, doc);
    NoReplacementNoChange(cfg, codec.render, scan, Start(first), 1);
    AtLeastOnePass(cfg, codec.render, scan, Start(first));
    assert RoundTrips(codec, Attached(cfg, root, end.root, ""));
    PassesAt(cfg, codec.render, further, Start(end.root), 1);
  }

  /** A scanner that is a function of the text. */
  ghost predicate Stateless(scan: Scanner) {
    forall p, q, text :: scan(p, text) == scan(q, text)
  }

  lemma SameScan(scan: Scanner, p: nat, q: nat, text: string)
    requires Stateless(scan)
    ensures scan(p, text) == scan(q, text)
  {
  }

  /** For a scanner that is a function of the text: when a run leaves nothing unlocated and nothing allowed,
      redacting its output again substitutes nothing and returns that output verbatim. */
  lemma Idempotent(cfg: Config, codec: Codec, scan: Scanner, doc: string)
    requires Stateless(scan) && RedactSpec(cfg, codec, scan, doc).Ok?
    requires forall v | Framed(cfg, codec.parse(doc).value, v, "") :: RoundTrips(codec, v)
    requires RedactSpec(cfg, codec, scan, doc).report.unlocated == multiset{}
    requires RedactSpec(cfg, codec, scan, doc).report.allowed == multiset{}
    ensures var out := RedactSpec(cfg, codec, scan, doc).doc;
      var again := RedactSpec(cfg, codec, scan, out);
      again.Ok? && again.doc == out && again.report.replacements == 0
  {
    hide Passes, PendingOf, Stateless, Detached, Attached, Framed;
    var first := FirstRoot(cfg, codec, doc);
    var end := Passes(cfg, codec.render, scan, Start(first), 1).end;
    SuccessIsClean(cfg, codec.render, scan, Start(first), 1);
    SameScan(scan, 1, end.report.passes, codec.render(end.root));
    VerbatimIfClean(cfg, codec, scan, doc, scan);
  }

  lemma AtLeastOnePass(cfg: Config, render: Value -> string, scan: Scanner, st: State)
    requires Passes(cfg, render, scan, st, 1).Done?
    ensures cfg.maxPasses >= 1
  {
  }
}
