/** The convergence loop: render, scan, rewrite, until nothing is left to rewrite. */
module Redact {
  import opened Options
  import opened Pending
  import opened Leaf
  import opened Tree
  import opened OpaqueLeaves
  import opened Rewriter

  /** The JSON library: decodeObject, whose failure is None, and the two forms of encode. */
  datatype Codec = Codec(parse: string -> Option<Value>, encode: Value -> string, render: Value -> string)

  /** A scanner: given the number of the pass and the text, the findings, or None for an error. The pass
      number stands for whatever a scanner remembers of earlier passes. */
  type Scanner = (nat, string) -> Option<seq<Finding>>

  /** Per-rule counters are multiplicities, as in a Tally. */
  datatype Report = Report(
    replacements: nat,
    byRule: multiset<string>,
    unlocated: multiset<string>,
    allowed: multiset<string>,
    passes: nat)

  const EMPTY := Report(0, multiset{}, multiset{}, multiset{}, 0)

  /** What the loop carries from pass to pass. */
  datatype State = State(root: Value, skip: set<string>, report: Report)

  datatype Outcome = Done(end: State) | NotConverged | ScanFailed

  // ---- One pass ----------------------------------------------------------------------------------------

  /** A copy of the secret is left where the pass could not reach it. */
  predicate Missing(sr: SecretRule, t: Tally) {
    sr.secret in t.protected || (sr.secret !in t.located && sr.secret !in t.kept)
  }

  /** The secrets the loop stops chasing. */
  function Dropped(pending: seq<SecretRule>, t: Tally): set<string> {
    set sr | sr in pending && (Missing(sr, t) || sr.secret in t.kept) :: sr.secret
  }

  function MissingRules(pending: seq<SecretRule>, t: Tally): multiset<string> {
    if pending == [] then multiset{}
    else
      var n := |pending| - 1;
      MissingRules(pending[..n], t) + (if Missing(pending[n], t) then multiset{pending[n].ruleID} else multiset{})
  }

  ghost function AfterPass(cfg: Config, st: State, pending: seq<SecretRule>, pass: nat): State
    requires NonEmpty(pending)
  {
    var t := Effect(cfg, pending, st.root, "");
    State(Rewritten(cfg, pending, st.root, ""), st.skip + Dropped(pending, t),
          Report(st.report.replacements + t.count, st.report.byRule + t.byRule,
                 st.report.unlocated + MissingRules(pending, t), st.report.allowed + t.allowed, pass))
  }

  function PendingOf(cfg: Config, findings: seq<Finding>, skip: set<string>): (list: seq<SecretRule>)
    ensures NonEmpty(list)
  {
    PendingWanted(findings, skip, cfg.isPlaceholder);
    PendingList(findings, skip, cfg.isPlaceholder)
  }

  /** The loop from the given pass on. */
  ghost function Passes(cfg: Config, render: Value -> string, scan: Scanner, st: State, pass: nat): Outcome
    decreases cfg.maxPasses + 1 - pass
  {
    if pass > cfg.maxPasses then NotConverged
    else match scan(pass, render(st.root))
      case None => ScanFailed
      case Some(findings) =>
        var pending := PendingOf(cfg, findings, st.skip);
        if pending == [] then Done(st.(report := st.report.(passes := pass)))
        else
          var next := AfterPass(cfg, st, pending, pass);
          if Effect(cfg, pending, st.root, "").count == 0 then Done(next)
          else Passes(cfg, render, scan, next, pass + 1)
  }

  lemma PassesAt(cfg: Config, render: Value -> string, scan: Scanner, st: State, pass: nat)
    ensures pass > cfg.maxPasses ==> Passes(cfg, render, scan, st, pass) == NotConverged
    ensures pass <= cfg.maxPasses && scan(pass, render(st.root)).None? ==>
      Passes(cfg, render, scan, st, pass) == ScanFailed
    ensures pass <= cfg.maxPasses && scan(pass, render(st.root)).Some? ==>
      var pending := PendingOf(cfg, scan(pass, render(st.root)).value, st.skip);
      Passes(cfg, render, scan, st, pass) ==
        if pending == [] then Done(st.(report := st.report.(passes := pass)))
        else if Effect(cfg, pending, st.root, "").count == 0 then Done(AfterPass(cfg, st, pending, pass))
        else Passes(cfg, render, scan, AfterPass(cfg, st, pending, pass), pass + 1)
  {
  }

  lemma PendingOfIs(cfg: Config, findings: seq<Finding>, skip: set<string>)
    ensures PendingOf(cfg, findings, skip) == PendingList(findings, skip, cfg.isPlaceholder)
  {
  }

  function Start(root: Value): State {
    State(root, {}, EMPTY)
  }

  /** What Redact returns for a document. */
  datatype Result = Refused | Failed | Unstable | Ok(doc: string, report: Report)

  ghost function RedactSpec(cfg: Config, codec: Codec, scan: Scanner, doc: string): Result {
    match codec.parse(doc)
    case None => Refused
    case Some(root) =>
      match Passes(cfg, codec.render, scan, Start(Detached(cfg, root, "")), 1)
      case NotConverged => Unstable
      case ScanFailed => Failed
      case Done(end) =>
        Ok(if end.report.replacements == 0 then doc else codec.encode(Attached(cfg, root, end.root, "")), end.report)
  }

  /** decodeObject accepts objects only. */
  ghost predicate ParsesObjects(codec: Codec) {
    forall doc :: codec.parse(doc).Some? ==> codec.parse(doc).value.Obj?
  }

  /** Redact */
  method Redact(cfg: Config, codec: Codec, scan: Scanner, doc: string) returns (result: Result)
    requires ParsesObjects(codec)
    ensures result == RedactSpec(cfg, codec, scan, doc)
  {
    hide Effect, Rewritten, MissingRules, Dropped, PendingList, PendingOf, Plus, Passes, Detached, Attached;
    var parsed := codec.parse(doc);
    if parsed.None? {
      return Refused;
    }
    assert codec.parse(doc).Some?;
    var blank := Detached(cfg, parsed.value, "");
    var root := blank.fields;
    var skip: set<string> := {};
    var report := EMPTY;
    var converged := false;
    var pass := 1;
    while pass <= cfg.maxPasses
      invariant 1 <= pass && !converged
      invariant Passes(cfg, codec.render, scan, Start(blank), 1) ==
                Passes(cfg, codec.render, scan, State(Obj(root), skip, report), pass)
      decreases cfg.maxPasses + 1 - pass
    {
      ghost var st := State(Obj(root), skip, report);
      report := report.(passes := pass);
      var scanned := scan(pass, codec.render(Obj(root)));
      PassesAt(cfg, codec.render, scan, st, pass);
      if scanned.None? {
        return Failed;
      }
      var pending := PendingSecrets(scanned.value, skip, cfg.isPlaceholder);
      PendingOfIs(cfg, scanned.value, skip);
      if pending == [] {
        converged := true;
        break;
      }
      var w := new Rewriter(cfg, pending);
      ghost var before := Obj(root);
      root := w.RewriteMap(root, "");
      PlusLaws(Effect(cfg, pending, before, ""), ZERO, ZERO);
      var left, unlocated := Classify(pending, w);
      skip := skip + left;
      report := Report(report.replacements + w.count, report.byRule + w.byRule,
                       report.unlocated + unlocated, report.allowed + w.allowed, pass);
      if w.count == 0 {
        converged := true;
        break;
      }
      pass := pass + 1;
    }
    if !converged {
      PassesAt(cfg, codec.render, scan, State(Obj(root), skip, report), pass);
      return Unstable;
    }
    if report.replacements == 0 {
      return Ok(doc, report);
    }
    return Ok(codec.encode(Attached(cfg, parsed.value, Obj(root), "")), report);
  }

  /** The switch over the pending secrets after a pass: which ones to stop chasing, and the rules of those
      that could not be attributed to an eligible leaf. */
  method Classify(pending: seq<SecretRule>, w: Rewriter) returns (left: set<string>, unlocated: multiset<string>)
    ensures left == Dropped(pending, w.Totals()) && unlocated == MissingRules(pending, w.Totals())
  {
    hide Dropped, MissingRules;
    ghost var t := w.Totals();
    left, unlocated := {}, multiset{};
    NoneDropped(t);
    for i := 0 to |pending|
      invariant left == Dropped(pending[..i], t) && unlocated == MissingRules(pending[..i], t)
    {
      var sr := pending[i];
      DroppedSnoc(pending[..i], sr, t);
      assert pending[..i + 1] == pending[..i] + [sr];
      if sr.secret in w.protected || (sr.secret !in w.located && sr.secret !in w.kept) {
        left := left + {sr.secret};
        unlocated := unlocated + multiset{sr.ruleID};
      } else if sr.secret in w.kept {
        left := left + {sr.secret};
      }
    }
    assert pending[..|pending|] == pending;
  }

  lemma NoneDropped(t: Tally)
    ensures Dropped([], t) == {} && MissingRules([], t) == multiset{}
  {
  }

  lemma DroppedSnoc(pending: seq<SecretRule>, sr: SecretRule, t: Tally)
    ensures Dropped(pending + [sr], t) ==
      Dropped(pending, t) + (if Missing(sr, t) || sr.secret in t.kept then {sr.secret} else {})
    ensures MissingRules(pending + [sr], t) ==
      MissingRules(pending, t) + (if Missing(sr, t) then multiset{sr.ruleID} else multiset{})
  {
    hide Missing;
    assert (pending + [sr])[..|pending|] == pending;
  }
}
