/** What whole runs of the loop eliminate, and how many passes they can take. */
module RunBounds {
  import opened Options
  import opened Masking
  import opened Pending
  import opened Leaf
  import opened Tree
  import opened Redact
  import opened Convergence

  /** All secrets of a run are in a list whose secrets no placeholder of the list touches. */
  ghost predicate Covers(
      cfg: Config, all: seq<SecretRule>, render: Value -> string, scan: Scanner, st: State, pass: nat)
  {
    Separate(cfg, all) && forall sr | sr in EverPending(cfg, render, scan, st, pass) :: sr in all
  }

  lemma SubListSeparate(cfg: Config, all: seq<SecretRule>, list: seq<SecretRule>, sr: SecretRule)
    requires Separate(cfg, all) && (forall x | x in list :: x in all) && sr in all
    ensures Separate(cfg, list) && Foreign(cfg, list, sr.secret)
  {
    hide Apart, Bracketed;
  }

  /** What a pass leaves for the rest of the run. */
  lemma CoversNext(
      cfg: Config, all: seq<SecretRule>, render: Value -> string, scan: Scanner, st: State, pass: nat,
      pending: seq<SecretRule>)
    requires Covers(cfg, all, render, scan, st, pass) && pass <= cfg.maxPasses && scan(pass, render(st.root)).Some?
    requires pending == PendingOf(cfg, scan(pass, render(st.root)).value, st.skip)
    ensures forall sr | sr in pending :: sr in all
    ensures pending != [] && Effect(cfg, pending, st.root, "").count > 0 ==>
      Covers(cfg, all, render, scan, AfterPass(cfg, st, pending, pass), pass + 1)
  {
    hide Separate, PendingOf, Effect, AfterPass;
  }

  // ---- Elimination over a run ----------------------------------------------------------------------------------

  /** The secret was given up, or it is nowhere in the document. */
  ghost predicate Settled(st: State, t: string) {
    t in st.skip || Absent(st.root, t)
  }

  /** A pass settles its secrets and unsettles none. */
  lemma PassSettles(
      cfg: Config, all: seq<SecretRule>, st: State, pending: seq<SecretRule>, pass: nat, sr: SecretRule)
    requires Separate(cfg, all) && NonEmpty(pending) && (forall x | x in pending :: x in all) && sr in all
    requires sr in pending || Settled(st, sr.secret)
    ensures Settled(AfterPass(cfg, st, pending, pass), sr.secret)
  {
    hide Effect, Rewritten, Separate, Absent, MissingRules, Dropped, Foreign;
    SubListSeparate(cfg, all, pending, sr);
    var next := AfterPass(cfg, st, pending, pass);
    if sr.secret !in next.skip {
      if sr in pending {
        ChasedIsAbsent(cfg, st, pending, pass, sr);
      } else {
        TreeStaysWithout(cfg, pending, st.root, "", sr.secret);
      }
    }
  }

  /** After a successful run every secret that was pending in one of its passes has been given up or is nowhere in the
      document, however many passes came after the one that chased it. */
  lemma {:induction false} RunSettles(
      cfg: Config, all: seq<SecretRule>, render: Value -> string, scan: Scanner, st: State, pass: nat, sr: SecretRule)
    requires Covers(cfg, all, render, scan, st, pass) && Passes(cfg, render, scan, st, pass).Done? && sr in all
    requires sr in EverPending(cfg, render, scan, st, pass) || Settled(st, sr.secret)
    ensures Settled(Passes(cfg, render, scan, st, pass).end, sr.secret)
    decreases cfg.maxPasses + 1 - pass
  {
    hide Passes, PendingOf, Effect, AfterPass, Separate, Absent;
    PassesAt(cfg, render, scan, st, pass);
    var pending := PendingOf(cfg, scan(pass, render(st.root)).value, st.skip);
    CoversNext(cfg, all, render, scan, st, pass, pending);
    if pending != [] {
      var next := AfterPass(cfg, st, pending, pass);
      if sr in pending || Settled(st, sr.secret) { PassSettles(cfg, all, st, pending, pass, sr); }
      if Effect(cfg, pending, st.root, "").count > 0 { RunSettles(cfg, all, render, scan, next, pass + 1, sr); }
    }
  }

  // ---- How many passes a run takes -----------------------------------------------------------------------------

  /** The secrets of the list that are in the document and not given up. */
  ghost function Open(st: State, all: seq<SecretRule>): set<string> {
    set t | t in Secrets(all) && !Settled(st, t)
  }

  /** A pass that substitutes something settles at least one secret that was open. */
  lemma PassCloses(cfg: Config, all: seq<SecretRule>, st: State, findings: seq<Finding>, pass: nat)
    requires Separate(cfg, all) && forall sr | sr in PendingOf(cfg, findings, st.skip) :: sr in all
    requires Effect(cfg, PendingOf(cfg, findings, st.skip), st.root, "").count > 0
    ensures |Open(AfterPass(cfg, st, PendingOf(cfg, findings, st.skip), pass), all)| < |Open(st, all)|
  {
    hide Effect, Rewritten, Separate, Absent, AfterPass, PendingOf, Settled;
    var pending := PendingOf(cfg, findings, st.skip);
    var next := AfterPass(cfg, st, pending, pass);
    var before, after := Open(st, all), Open(next, all);
    forall t | t in after ensures t in before {
      var sr :| sr in all && sr.secret == t;
      if Settled(st, t) { PassSettles(cfg, all, st, pending, pass, sr); }
    }
    var sr := StillOpen(cfg, st, findings);
    PassSettles(cfg, all, st, pending, pass, sr);
    assert sr.secret in before - after;
    Smaller(after, before, sr.secret);
  }

  lemma StillOpen(cfg: Config, st: State, findings: seq<Finding>) returns (sr: SecretRule)
    requires Effect(cfg, PendingOf(cfg, findings, st.skip), st.root, "").count > 0
    ensures sr in PendingOf(cfg, findings, st.skip) && !Settled(st, sr.secret)
  {
    hide Effect, Absent, PendingList;
    var pending := PendingOf(cfg, findings, st.skip);
    PendingWanted(findings, st.skip, cfg.isPlaceholder);
    if forall x | x in pending :: Absent(st.root, x.secret) {
      NothingToDo(cfg, pending, st.root, "");
    }
    sr :| sr in pending && !Absent(st.root, sr.secret);
  }

  lemma Smaller(a: set<string>, b: set<string>, t: string)
    requires a <= b && t in b && t !in a
    ensures |a| < |b|
  {
    SubsetSize(a, b - {t});
  }

  lemma {:induction false} SubsetSize(a: set<string>, b: set<string>)
    requires a <= b
    ensures |a| <= |b|
  {
    if a != {} {
      var t :| t in a;
      SubsetSize(a - {t}, b - {t});
    }
  }

  /** A run whose secrets are covered takes at most one pass more than it has open secrets. */
  lemma {:induction false} PassesBounded(
      cfg: Config, all: seq<SecretRule>, render: Value -> string, scan: Scanner, st: State, pass: nat)
    requires Covers(cfg, all, render, scan, st, pass) && pass + |Open(st, all)| <= cfg.maxPasses
    ensures var outcome := Passes(cfg, render, scan, st, pass);
      !outcome.NotConverged? && (outcome.Done? ==> outcome.end.report.passes <= pass + |Open(st, all)|)
    decreases cfg.maxPasses + 1 - pass
  {
    hide Passes, PendingOf, Effect, Separate, Absent, Open, Rewritten, MissingRules, Dropped;
    PassesAt(cfg, render, scan, st, pass);
    if scan(pass, render(st.root)).Some? {
      var findings := scan(pass, render(st.root)).value;
      var pending := PendingOf(cfg, findings, st.skip);
      CoversNext(cfg, all, render, scan, st, pass, pending);
      if pending != [] && Effect(cfg, pending, st.root, "").count > 0 {
        PassCloses(cfg, all, st, findings, pass);
        PassesBounded(cfg, all, render, scan, AfterPass(cfg, st, pending, pass), pass + 1);
      }
    }
  }

  /** For every document and scanner: when all secrets of the run are covered by a list, the loop stops after at most
      one pass more than the list has secrets. */
  lemma ListBoundsPasses(cfg: Config, all: seq<SecretRule>, render: Value -> string, scan: Scanner, root: Value)
    requires Covers(cfg, all, render, scan, Start(root), 1) && |Secrets(all)| + 1 <= cfg.maxPasses
    ensures var outcome := Passes(cfg, render, scan, Start(root), 1);
      !outcome.NotConverged? && (outcome.Done? ==> outcome.end.report.passes <= |Secrets(all)| + 1)
  {
    hide Passes, Covers, Settled;
    SubsetSize(Open(Start(root), all), Secrets(all));
    PassesBounded(cfg, all, render, scan, Start(root), 1);
  }
}
