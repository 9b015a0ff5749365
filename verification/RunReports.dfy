/** What the report of a run says about the document: which occurrences each of its counters counts. */
module RunReports {
  import opened Options
  import opened Text
  import opened Escapes
  import opened StringBody
  import opened Markers
  import opened Pending
  import opened Leaf
  import opened Tree
  import opened OpaqueLeaves
  import opened Redact
  import opened Convergence
  import opened Positions
  import opened RenderedLeaves
  import opened LeafEvents
  import opened PassEvents

  // ---- One pass ------------------------------------------------------------------------------------------------

  /** At its turn t is in the eligible leaf at steps. */
  ghost predicate ReachedAt(
      cfg: Config, pending: seq<SecretRule>, doc: Value, t: string, steps: seq<Edge>, k: nat)
    requires NonEmpty(pending)
  {
    && k < |pending| && pending[k].secret == t && LeafAt(doc, steps).Some? && cfg.pathFilter(PathOf(steps))
    && var body := Encode(LeafAt(doc, steps).value);
      Contains(TurnBody(cfg, pending, Marked(cfg, body), body, k), t)
  }

  /** The secret is in a protected leaf, or at its turn it is in no eligible one. */
  ghost predicate Lost(cfg: Config, pending: seq<SecretRule>, doc: Value, t: string)
    requires NonEmpty(pending)
  {
    || (exists steps :: ProtectedAt(cfg, doc, "", t, steps))
    || !(exists steps, k: nat :: ReachedAt(cfg, pending, doc, t, steps, k))
  }

  /** An occurrence of the secret is kept on an allowed line of an eligible leaf. */
  ghost predicate Spares(cfg: Config, pending: seq<SecretRule>, doc: Value, t: string)
    requires NonEmpty(pending)
  {
    exists steps :: MetIn(cfg, pending, doc, "", true, t, steps)
  }

  ghost predicate Substitutes(cfg: Config, pending: seq<SecretRule>, doc: Value)
    requires NonEmpty(pending)
  {
    exists t, steps :: MetIn(cfg, pending, doc, "", false, t, steps)
  }

  lemma ReachedIsMet(cfg: Config, pending: seq<SecretRule>, doc: Value, t: string, steps: seq<Edge>, k: nat)
    requires NonEmpty(pending) && ReachedAt(cfg, pending, doc, t, steps, k)
    ensures exists kept, steps :: MetIn(cfg, pending, doc, "", kept, t, steps)
  {
    hide TurnBody, Met, Contains, Encode, LeafAt, PathOf, HasAllowMarker;
    assert "" + PathOf(steps) == PathOf(steps);
    var body := Encode(LeafAt(doc, steps).value);
    MetIffContains(cfg, pending, Marked(cfg, body), body, k);
    var kept, p :| Met(cfg, pending, Marked(cfg, body), body, kept, Event(k, p));
    assert pending[Event(k, p).turn].secret == t;
    assert MetIn(cfg, pending, doc, "", kept, t, steps);
  }

  lemma MetIsReached(cfg: Config, pending: seq<SecretRule>, doc: Value, kept: bool, t: string, steps: seq<Edge>)
    requires NonEmpty(pending) && MetIn(cfg, pending, doc, "", kept, t, steps)
    ensures exists steps, k: nat :: ReachedAt(cfg, pending, doc, t, steps, k)
  {
    hide TurnBody, Met, Contains, Encode, LeafAt, PathOf, HasAllowMarker;
    assert "" + PathOf(steps) == PathOf(steps);
    var body := Encode(LeafAt(doc, steps).value);
    var e: Event :| e.turn < |pending| && pending[e.turn].secret == t
                    && Met(cfg, pending, Marked(cfg, body), body, kept, e);
    MetIffContains(cfg, pending, Marked(cfg, body), body, e.turn);
    assert e == Event(e.turn, e.at);
    assert ReachedAt(cfg, pending, doc, t, steps, e.turn);
  }

  lemma ReachedIffMet(cfg: Config, pending: seq<SecretRule>, doc: Value, t: string)
    requires NonEmpty(pending)
    ensures (exists steps, k: nat :: ReachedAt(cfg, pending, doc, t, steps, k)) <==>
            exists kept, steps :: MetIn(cfg, pending, doc, "", kept, t, steps)
  {
    hide ReachedAt, MetIn;
    if steps, k: nat :| ReachedAt(cfg, pending, doc, t, steps, k) { ReachedIsMet(cfg, pending, doc, t, steps, k); }
    if kept, steps :| MetIn(cfg, pending, doc, "", kept, t, steps) { MetIsReached(cfg, pending, doc, kept, t, steps); }
  }

  /** The switch after a pass, told by the document. */
  lemma MissingIff(cfg: Config, pending: seq<SecretRule>, doc: Value, sr: SecretRule)
    requires NonEmpty(pending) && sr in pending
    ensures var tally := Effect(cfg, pending, doc, "");
      && (Missing(sr, tally) <==> Lost(cfg, pending, doc, sr.secret))
      && (sr.secret in tally.kept <==> Spares(cfg, pending, doc, sr.secret))
  {
    hide Effect, MetIn, ProtectedAt, ReachedAt;
    var t := sr.secret;
    assert t in Secrets(pending);
    PassRecordsIff(cfg, pending, doc, "", KeptSet, t);
    PassRecordsIff(cfg, pending, doc, "", LocatedSet, t);
    PassRecordsIff(cfg, pending, doc, "", ProtectedSet, t);
    ReachedIffMet(cfg, pending, doc, t);
    KindsOf(cfg, pending, doc, t);
  }

  lemma KindsOf(cfg: Config, pending: seq<SecretRule>, doc: Value, t: string)
    requires NonEmpty(pending) && t in Secrets(pending)
    ensures (exists steps :: InAt(cfg, pending, doc, "", KeptSet, t, steps)) <==>
            exists steps :: MetIn(cfg, pending, doc, "", true, t, steps)
    ensures (exists steps :: InAt(cfg, pending, doc, "", LocatedSet, t, steps)) <==>
            exists steps :: MetIn(cfg, pending, doc, "", false, t, steps)
    ensures (exists steps :: InAt(cfg, pending, doc, "", ProtectedSet, t, steps)) <==>
            exists steps :: ProtectedAt(cfg, doc, "", t, steps)
  {
    hide MetIn, ProtectedAt;
    forall steps ensures InAt(cfg, pending, doc, "", KeptSet, t, steps) <==>
                         MetIn(cfg, pending, doc, "", true, t, steps) {}
    forall steps ensures InAt(cfg, pending, doc, "", LocatedSet, t, steps) <==>
                         MetIn(cfg, pending, doc, "", false, t, steps) {}
    forall steps ensures InAt(cfg, pending, doc, "", ProtectedSet, t, steps) <==> ProtectedAt(cfg, doc, "", t, steps) {}
  }

  lemma CountsIff(cfg: Config, pending: seq<SecretRule>, doc: Value)
    requires NonEmpty(pending)
    ensures Effect(cfg, pending, doc, "").count > 0 <==> Substitutes(cfg, pending, doc)
  {
    hide Effect, MetIn;
    var tally := Effect(cfg, pending, doc, "");
    EffectConsistent(cfg, pending, doc, "");
    if tally.count > 0 {
      var t :| t in tally.located;
      PassRecordsIff(cfg, pending, doc, "", LocatedSet, t);
      var steps :| InAt(cfg, pending, doc, "", LocatedSet, t, steps);
      assert MetIn(cfg, pending, doc, "", false, t, steps);
    }
    if t, steps :| MetIn(cfg, pending, doc, "", false, t, steps) {
      assert InAt(cfg, pending, doc, "", LocatedSet, t, steps);
      PassRecordsIff(cfg, pending, doc, "", LocatedSet, t);
    }
  }

  // ---- The passes of a run ---------------------------------------------------------------------------------------

  /** A pass that rewrote: the document it scanned and the secrets it chased. */
  datatype PassRecord = PassRecord(doc: Value, pending: seq<SecretRule>)

  ghost predicate Sound(h: seq<PassRecord>) {
    forall rec | rec in h :: NonEmpty(rec.pending)
  }

  ghost function GivenUp(cfg: Config, rec: PassRecord): set<string>
    requires NonEmpty(rec.pending)
  {
    set t | t in Secrets(rec.pending) &&
            (Lost(cfg, rec.pending, rec.doc, t) || Spares(cfg, rec.pending, rec.doc, t))
  }

  /** The passes of a run from one on, each with what the ones before it left of the document and did not give up. */
  ghost function History(
      cfg: Config, render: Value -> string, scan: Redact.Scanner, doc: Value, skip: set<string>, pass: nat)
    : (h: seq<PassRecord>)
    ensures Sound(h)
    decreases cfg.maxPasses + 1 - pass
  {
    if pass > cfg.maxPasses then []
    else match scan(pass, render(doc))
      case None => []
      case Some(findings) =>
        var rec := PassRecord(doc, PendingOf(cfg, findings, skip));
        if rec.pending == [] then []
        else if !Substitutes(cfg, rec.pending, doc) then [rec]
        else
          [rec] + History(cfg, render, scan, Rewritten(cfg, rec.pending, doc, ""), skip + GivenUp(cfg, rec), pass + 1)
  }

  /** An element of the j-th of some sets. */
  datatype Numbered<T> = Numbered(pass: nat, what: T)

  ghost function NumberedOf<T>(sets: seq<set<T>>): set<Numbered<T>> {
    set j, x | 0 <= j < |sets| && x in sets[j] :: Numbered(j, x)
  }

  ghost function Renumbered<T>(some: set<Numbered<T>>): set<Numbered<T>> {
    set n | n in some :: Numbered(n.pass + 1, n.what)
  }

  ghost function First<T>(some: set<T>): set<Numbered<T>> {
    set x | x in some :: Numbered(0, x)
  }

  lemma NumberedIff<T>(sets: seq<set<T>>, n: Numbered<T>)
    ensures n in NumberedOf(sets) <==> n.pass < |sets| && n.what in sets[n.pass]
  {
    if n.pass < |sets| && n.what in sets[n.pass] { assert n == Numbered(n.pass, n.what); }
  }

  lemma RenumberedIff<T>(some: set<Numbered<T>>, n: Numbered<T>)
    ensures n in Renumbered(some) <==> n.pass > 0 && Numbered(n.pass - 1, n.what) in some
  {
    if n.pass > 0 && Numbered(n.pass - 1, n.what) in some {
      var m := Numbered(n.pass - 1, n.what);
      assert n == Numbered(m.pass + 1, m.what);
    }
  }

  lemma FirstIff<T>(some: set<T>, n: Numbered<T>)
    ensures n in First(some) <==> n.pass == 0 && n.what in some
  {
    if n.pass == 0 && n.what in some { assert n == Numbered(0, n.what); }
  }

  lemma SizesKept<T>(some: set<T>, later: set<Numbered<T>>)
    ensures |First(some)| == |some| && |Renumbered(later)| == |later|
  {
    ImageSize(some, First(some), (x: T) => Numbered(0, x));
    ImageSize(later, Renumbered(later), (n: Numbered<T>) => Numbered(n.pass + 1, n.what));
  }

  lemma SplitSize<T>(all: set<Numbered<T>>, first: set<Numbered<T>>, later: set<Numbered<T>>)
    requires forall n :: (n in all <==> n in first || n in later) && !(n in first && n in later)
    ensures |all| == |first| + |later|
  {
    UnionSize(first, later, all);
  }

  lemma NumberedSize<T>(sets: seq<set<T>>)
    requires sets != []
    ensures |NumberedOf(sets)| == |sets[0]| + |NumberedOf(sets[1..])|
  {
    hide NumberedOf, Renumbered, First;
    var all, first, later := NumberedOf(sets), First(sets[0]), Renumbered(NumberedOf(sets[1..]));
    forall n: Numbered<T> ensures (n in all <==> n in first || n in later) && !(n in first && n in later) {
      NumberedIff(sets, n);
      FirstIff(sets[0], n);
      RenumberedIff(NumberedOf(sets[1..]), n);
      if n.pass > 0 { NumberedIff(sets[1..], Numbered(n.pass - 1, n.what)); }
    }
    SplitSize(all, first, later);
    SizesKept(sets[0], NumberedOf(sets[1..]));
  }

  /** The occurrences of secrets of rule r that the run kept, or substituted, pass by pass. */
  ghost function RunEvents(cfg: Config, h: seq<PassRecord>, kept: bool, r: string): set<Numbered<DocEvent>>
    requires Sound(h)
  {
    NumberedOf(seq(|h|, j requires 0 <= j < |h| => DocEvents(cfg, h[j].pending, h[j].doc, "", kept, r)))
  }

  /** The places of the lost secrets of rule r in the list of a pass. */
  ghost function LostPlaces(cfg: Config, rec: PassRecord, r: string): set<nat>
    requires NonEmpty(rec.pending)
  {
    set i: nat | i < |rec.pending| && rec.pending[i].ruleID == r &&
                 Lost(cfg, rec.pending, rec.doc, rec.pending[i].secret)
  }

  ghost function RunLost(cfg: Config, h: seq<PassRecord>, r: string): set<Numbered<nat>>
    requires Sound(h)
  {
    NumberedOf(seq(|h|, j requires 0 <= j < |h| => LostPlaces(cfg, h[j], r)))
  }

  ghost predicate GivenUpIn(cfg: Config, h: seq<PassRecord>, t: string)
    requires Sound(h)
  {
    exists rec | rec in h :: t in GivenUp(cfg, rec)
  }

  lemma RunEventsStep(cfg: Config, rec: PassRecord, h: seq<PassRecord>, kept: bool, r: string)
    requires NonEmpty(rec.pending) && Sound(h)
    ensures Sound([rec] + h)
    ensures |RunEvents(cfg, [rec] + h, kept, r)| ==
            |DocEvents(cfg, rec.pending, rec.doc, "", kept, r)| + |RunEvents(cfg, h, kept, r)|
  {
    hide DocEvents, NumberedOf;
    var all := [rec] + h;
    assert Sound(all);
    var sets := seq(|all|, j requires 0 <= j < |all| => DocEvents(cfg, all[j].pending, all[j].doc, "", kept, r));
    NumberedSize(sets);
    assert sets[1..] == seq(|h|, j requires 0 <= j < |h| => DocEvents(cfg, h[j].pending, h[j].doc, "", kept, r));
  }

  lemma RunLostStep(cfg: Config, rec: PassRecord, h: seq<PassRecord>, r: string)
    requires NonEmpty(rec.pending) && Sound(h)
    ensures Sound([rec] + h)
    ensures |RunLost(cfg, [rec] + h, r)| == |LostPlaces(cfg, rec, r)| + |RunLost(cfg, h, r)|
  {
    hide LostPlaces, NumberedOf;
    var all := [rec] + h;
    assert Sound(all);
    var sets := seq(|all|, j requires 0 <= j < |all| => LostPlaces(cfg, all[j], r));
    NumberedSize(sets);
    assert sets[1..] == seq(|h|, j requires 0 <= j < |h| => LostPlaces(cfg, h[j], r));
  }

  lemma NothingInRun(cfg: Config, kept: bool, r: string)
    ensures RunEvents(cfg, [], kept, r) == {} && RunLost(cfg, [], r) == {}
  {
    hide DocEvents, LostPlaces;
  }

  // ---- Counting lost secrets -------------------------------------------------------------------------------------

  ghost function MissingPlaces(pending: seq<SecretRule>, t: Tally, r: string): set<nat> {
    set i: nat | i < |pending| && pending[i].ruleID == r && Missing(pending[i], t)
  }

  lemma {:induction false} MissingCount(pending: seq<SecretRule>, t: Tally, r: string)
    ensures MissingRules(pending, t)[r] == |MissingPlaces(pending, t, r)|
    decreases |pending|
  {
    hide Missing;
    if pending == [] {
      assert MissingPlaces(pending, t, r) == {};
    } else {
      var n := |pending| - 1;
      MissingCount(pending[..n], t, r);
      var last := if pending[n].ruleID == r && Missing(pending[n], t) then {n} else {};
      assert MissingPlaces(pending, t, r) == MissingPlaces(pending[..n], t, r) + last;
    }
  }

  lemma LostCount(cfg: Config, rec: PassRecord, r: string)
    requires NonEmpty(rec.pending)
    ensures MissingRules(rec.pending, Effect(cfg, rec.pending, rec.doc, ""))[r] == |LostPlaces(cfg, rec, r)|
    ensures Dropped(rec.pending, Effect(cfg, rec.pending, rec.doc, "")) == GivenUp(cfg, rec)
  {
    hide Effect, Missing, Lost, Spares, MissingRules;
    var tally := Effect(cfg, rec.pending, rec.doc, "");
    MissingCount(rec.pending, tally, r);
    forall sr | sr in rec.pending
      ensures Missing(sr, tally) <==> Lost(cfg, rec.pending, rec.doc, sr.secret)
      ensures sr.secret in tally.kept <==> Spares(cfg, rec.pending, rec.doc, sr.secret)
    {
      MissingIff(cfg, rec.pending, rec.doc, sr);
    }
    assert MissingPlaces(rec.pending, tally, r) == LostPlaces(cfg, rec, r);
  }

  // ---- Whole runs -------------------------------------------------------------------------------------------

  /** One pass, told by the document. */
  lemma PassReport(cfg: Config, st: State, pending: seq<SecretRule>, pass: nat, r: string)
    requires NonEmpty(pending)
    ensures var next, rec := AfterPass(cfg, st, pending, pass), PassRecord(st.root, pending);
      && next.root == Rewritten(cfg, pending, st.root, "") && next.skip == st.skip + GivenUp(cfg, rec)
      && next.report.allowed[r] == st.report.allowed[r] + |DocEvents(cfg, pending, st.root, "", true, r)|
      && next.report.byRule[r] == st.report.byRule[r] + |DocEvents(cfg, pending, st.root, "", false, r)|
      && next.report.unlocated[r] == st.report.unlocated[r] + |LostPlaces(cfg, rec, r)|
  {
    hide Effect, Rewritten, MissingRules, Dropped, DocEvents, LostPlaces, GivenUp;
    PassCounts(cfg, pending, st.root, "", true, r);
    PassCounts(cfg, pending, st.root, "", false, r);
    LostCount(cfg, PassRecord(st.root, pending), r);
  }

  /** The document behind the passes. */
  ghost function DocAfter(cfg: Config, doc: Value, h: seq<PassRecord>): Value
    requires Sound(h)
  {
    if h == [] then doc
    else
      var last := h[|h| - 1];
      Rewritten(cfg, last.pending, last.doc, "")
  }

  /** What the end of a run adds to where it starts from. */
  ghost predicate Reported(cfg: Config, st: State, end: State, h: seq<PassRecord>, r: string)
    requires Sound(h)
  {
    && end.root == DocAfter(cfg, st.root, h)
    && (forall t :: t in end.skip <==> t in st.skip || GivenUpIn(cfg, h, t))
    && end.report.allowed[r] == st.report.allowed[r] + |RunEvents(cfg, h, true, r)|
    && end.report.byRule[r] == st.report.byRule[r] + |RunEvents(cfg, h, false, r)|
    && end.report.unlocated[r] == st.report.unlocated[r] + |RunLost(cfg, h, r)|
  }

  lemma ReportedStep(
      cfg: Config, st: State, pending: seq<SecretRule>, pass: nat, end: State, h: seq<PassRecord>, r: string)
    requires NonEmpty(pending) && Sound(h) && Reported(cfg, AfterPass(cfg, st, pending, pass), end, h, r)
    ensures Sound([PassRecord(st.root, pending)] + h)
    ensures Reported(cfg, st, end, [PassRecord(st.root, pending)] + h, r)
  {
    hide Rewritten, DocEvents, LostPlaces, GivenUp, AfterPass, RunEvents, RunLost;
    var rec := PassRecord(st.root, pending);
    PassReport(cfg, st, pending, pass, r);
    RunEventsStep(cfg, rec, h, true, r);
    RunEventsStep(cfg, rec, h, false, r);
    RunLostStep(cfg, rec, h, r);
    var all := [rec] + h;
    assert h != [] ==> all[|all| - 1] == h[|h| - 1];
    forall t ensures GivenUpIn(cfg, all, t) <==> t in GivenUp(cfg, rec) || GivenUpIn(cfg, h, t) {
      assert rec in all && forall x | x in h :: x in all;
    }
  }

  lemma ReportedNothing(cfg: Config, st: State, end: State, r: string)
    requires end.root == st.root && end.skip == st.skip
    requires end.report == st.report.(passes := end.report.passes)
    ensures Reported(cfg, st, end, [], r)
  {
    hide RunEvents, RunLost;
    NothingInRun(cfg, true, r);
    NothingInRun(cfg, false, r);
  }

  lemma {:induction false} RunIsReported(
      cfg: Config, render: Value -> string, scan: Redact.Scanner, st: State, pass: nat, r: string)
    requires Passes(cfg, render, scan, st, pass).Done?
    ensures Reported(cfg, st, Passes(cfg, render, scan, st, pass).end,
                     History(cfg, render, scan, st.root, st.skip, pass), r)
    decreases cfg.maxPasses + 1 - pass
  {
    hide Passes, PendingOf, Effect, Reported, Substitutes, GivenUp, AfterPass, History, Rewritten, Sound;
    PassesAt(cfg, render, scan, st, pass);
    HistoryAt(cfg, render, scan, st.root, st.skip, pass);
    var end := Passes(cfg, render, scan, st, pass).end;
    var pending := PendingOf(cfg, scan(pass, render(st.root)).value, st.skip);
    if pending == [] {
      ReportedNothing(cfg, st, end, r);
    } else {
      var next, rec := AfterPass(cfg, st, pending, pass), PassRecord(st.root, pending);
      CountsIff(cfg, pending, st.root);
      PassReport(cfg, st, pending, pass, r);
      if Substitutes(cfg, pending, st.root) {
        RunIsReported(cfg, render, scan, next, pass + 1, r);
        ReportedStep(cfg, st, pending, pass, end, History(cfg, render, scan, next.root, next.skip, pass + 1), r);
      } else {
        ReportedLast(cfg, st, pending, pass, r);
      }
    }
  }

  lemma ReportedLast(cfg: Config, st: State, pending: seq<SecretRule>, pass: nat, r: string)
    requires NonEmpty(pending)
    ensures Reported(cfg, st, AfterPass(cfg, st, pending, pass), [PassRecord(st.root, pending)], r)
  {
    hide Reported, AfterPass;
    var next, rec := AfterPass(cfg, st, pending, pass), PassRecord(st.root, pending);
    ReportedNothing(cfg, next, next, r);
    ReportedStep(cfg, st, pending, pass, next, [], r);
    assert [rec] + [] == [rec];
  }

  // ---- The report of a document -----------------------------------------------------------------------------

  /** The passes of the run on doc that rewrote. */
  ghost function HistoryOf(cfg: Config, codec: Codec, scan: Redact.Scanner, doc: string): (h: seq<PassRecord>)
    requires codec.parse(doc).Some?
    ensures Sound(h)
  {
    History(cfg, codec.render, scan, FirstRoot(cfg, codec, doc), {}, 1)
  }

  /** For every document, filter, scanner and marker setting: after a successful run the three counters of a rule are
      the numbers of occurrences of its secrets that were kept on allowed lines, of those that were substituted, and
      of its secrets that a pass lost; the total is the sum of the second; and the run ends with the document of the
      last pass, rewritten. */
  lemma ReportIsExact(cfg: Config, codec: Codec, scan: Redact.Scanner, doc: string, r: string)
    requires RedactSpec(cfg, codec, scan, doc).Ok?
    ensures var report, h := RedactSpec(cfg, codec, scan, doc).report, HistoryOf(cfg, codec, scan, doc);
      && report.allowed[r] == |RunEvents(cfg, h, true, r)|
      && report.byRule[r] == |RunEvents(cfg, h, false, r)|
      && report.unlocated[r] == |RunLost(cfg, h, r)|
      && report.replacements == |report.byRule|
      && FinalRoot(cfg, codec, scan, doc) == DocAfter(cfg, FirstRoot(cfg, codec, doc), h)
  {
    hide Passes, History, RunEvents, RunLost, Attached, Detached, DocAfter, GivenUpIn;
    var first := FirstRoot(cfg, codec, doc);
    RunIsReported(cfg, codec.render, scan, Start(first), 1, r);
    RunInvariant(cfg, codec.render, scan, Start(first), 1);
  }

  /** In pass j, at the turn of secret k, which is pending with rule r, an occurrence of it in the eligible leaf at
      steps lies within a line with a marker. */
  ghost predicate KeptOnLine(
      cfg: Config, h: seq<PassRecord>, r: string, j: nat, steps: seq<Edge>, k: nat, p: int)
    requires Sound(h)
  {
    && j < |h| && k < |h[j].pending| && h[j].pending[k].ruleID == r
    && LeafAt(h[j].doc, steps).Some? && cfg.pathFilter(PathOf(steps))
    && var body, secret := Encode(LeafAt(h[j].doc, steps).value), h[j].pending[k].secret;
      && cfg.allowMarkers && HasAllowMarker(body)
      && var now := TurnBody(cfg, h[j].pending, true, body, k);
        TakenAt(now, secret, p) && Within(AllowedFrom(now, 0), p, p + |secret|)
  }

  lemma KeptOnLineIff(cfg: Config, h: seq<PassRecord>, r: string, j: nat, steps: seq<Edge>, k: nat, p: int)
    requires Sound(h)
    ensures KeptOnLine(cfg, h, r, j, steps, k, p) <==>
            Numbered(j, DocEvent(steps, Event(k, p))) in RunEvents(cfg, h, true, r)
  {
    hide TurnBody, TakenAt, Encode, HasAllowMarker, AllowedFrom, DocEvents, LeafAt, PathOf, NumberedOf, Events;
    var d := DocEvent(steps, Event(k, p));
    var sets := seq(|h|, i requires 0 <= i < |h| => DocEvents(cfg, h[i].pending, h[i].doc, "", true, r));
    NumberedIff(sets, Numbered(j, d));
    assert "" + PathOf(steps) == PathOf(steps);
    if j < |h| {
      assert h[j] in h;
      DocEventsIff(cfg, h[j].pending, h[j].doc, "", true, r, d);
      if LeafAt(h[j].doc, steps).Some? {
        var body := Encode(LeafAt(h[j].doc, steps).value);
        EventsIff(cfg, h[j].pending, Marked(cfg, body), body, true, r, Event(k, p));
        if k < |h[j].pending| { TakenBounds(cfg, h[j].pending, Marked(cfg, body), body, k, p); }
      }
    }
  }

  lemma TakenBounds(cfg: Config, pending: seq<SecretRule>, marked: bool, body: string, k: nat, p: int)
    requires NonEmpty(pending) && k < |pending|
    ensures var now := TurnBody(cfg, pending, marked, body, k);
      TakenAt(now, pending[k].secret, p) ==> 0 <= p <= |now|
  {
    hide TurnBody, TakenAt;
    var now := TurnBody(cfg, pending, marked, body, k);
    if TakenAt(now, pending[k].secret, p) { TakenInText(now, pending[k].secret, p); }
  }

  /** A rule is reported as allowed if and only if in some pass an occurrence of a secret pending with it lies within an
      allowed line of an eligible leaf; without markers none is. */
  lemma AllowedIff(cfg: Config, codec: Codec, scan: Redact.Scanner, doc: string, r: string)
    requires RedactSpec(cfg, codec, scan, doc).Ok?
    ensures var report, h := RedactSpec(cfg, codec, scan, doc).report, HistoryOf(cfg, codec, scan, doc);
      r in report.allowed <==> exists j: nat, steps, k: nat, p :: KeptOnLine(cfg, h, r, j, steps, k, p)
    ensures !cfg.allowMarkers ==> r !in RedactSpec(cfg, codec, scan, doc).report.allowed
  {
    hide Passes, Attached, Detached, HistoryOf, KeptOnLine, RunEvents, RunLost;
    var h := HistoryOf(cfg, codec, scan, doc);
    ReportIsExact(cfg, codec, scan, doc, r);
    var events := RunEvents(cfg, h, true, r);
    if events != {} {
      var n :| n in events;
      var j, steps, k, p := n.pass, n.what.steps, n.what.event.turn, n.what.event.at;
      assert n == Numbered(j, DocEvent(steps, Event(k, p)));
      KeptOnLineIff(cfg, h, r, j, steps, k, p);
      NeedsMarkers(cfg, h, r, j, steps, k, p);
    }
    if j: nat, steps, k: nat, p :| KeptOnLine(cfg, h, r, j, steps, k, p) {
      KeptOnLineIff(cfg, h, r, j, steps, k, p);
    }
  }

  lemma NeedsMarkers(cfg: Config, h: seq<PassRecord>, r: string, j: nat, steps: seq<Edge>, k: nat, p: int)
    requires Sound(h) && KeptOnLine(cfg, h, r, j, steps, k, p)
    ensures cfg.allowMarkers
  {
  }

  /** In pass j the i-th pending secret, of rule r, is in a protected leaf, or at its turn in no eligible leaf. */
  ghost predicate LostIn(cfg: Config, h: seq<PassRecord>, r: string, j: nat, i: nat)
    requires Sound(h)
  {
    && j < |h| && i < |h[j].pending| && h[j].pending[i].ruleID == r
    && Lost(cfg, h[j].pending, h[j].doc, h[j].pending[i].secret)
  }

  /** A rule is reported as unlocated if and only if in some pass a secret pending with it is in a protected leaf, or at
      its turn in no eligible leaf. */
  lemma UnlocatedIff(cfg: Config, codec: Codec, scan: Redact.Scanner, doc: string, r: string)
    requires RedactSpec(cfg, codec, scan, doc).Ok?
    ensures var report, h := RedactSpec(cfg, codec, scan, doc).report, HistoryOf(cfg, codec, scan, doc);
      r in report.unlocated <==> exists j: nat, i: nat :: LostIn(cfg, h, r, j, i)
  {
    hide Passes, Attached, Detached, HistoryOf, RunEvents, Lost, NumberedOf;
    var h := HistoryOf(cfg, codec, scan, doc);
    ReportIsExact(cfg, codec, scan, doc, r);
    var sets := seq(|h|, j requires 0 <= j < |h| => LostPlaces(cfg, h[j], r));
    forall j: nat, i: nat ensures LostIn(cfg, h, r, j, i) <==> Numbered(j, i) in RunLost(cfg, h, r) {
      NumberedIff(sets, Numbered(j, i));
    }
    var lost := RunLost(cfg, h, r);
    if lost != {} {
      var n: Numbered<nat> :| n in lost;
      assert n == Numbered(n.pass, n.what) && LostIn(cfg, h, r, n.pass, n.what);
    }
  }

  /** The secrets a run gave up are those that some pass lost or spared. */
  lemma GivenUpIff(cfg: Config, render: Value -> string, scan: Redact.Scanner, root: Value, t: string)
    requires Passes(cfg, render, scan, Start(root), 1).Done?
    ensures t in Passes(cfg, render, scan, Start(root), 1).end.skip <==>
      exists rec | rec in History(cfg, render, scan, root, {}, 1) ::
        t in Secrets(rec.pending) && (Lost(cfg, rec.pending, rec.doc, t) || Spares(cfg, rec.pending, rec.doc, t))
  {
    hide Passes, History, Lost, Spares, RunEvents, RunLost;
    RunIsReported(cfg, render, scan, Start(root), 1, "");
    var h := History(cfg, render, scan, root, {}, 1);
    forall rec | rec in h ensures t in GivenUp(cfg, rec) <==>
      t in Secrets(rec.pending) && (Lost(cfg, rec.pending, rec.doc, t) || Spares(cfg, rec.pending, rec.doc, t)) {}
  }

  // ---- Lost secrets without turns ---------------------------------------------------------------------------

  /** When no earlier secret of the list and no placeholder touches the secret, it is lost if and only if it is in a
      protected leaf or in no string leaf of the document. */
  lemma LostIffNowhere(cfg: Config, pending: seq<SecretRule>, doc: Value, k: nat)
    requires NonEmpty(pending) && k < |pending| && OnItsOwn(cfg, pending, k)
    requires forall j | 0 <= j < |pending| && pending[j].secret == pending[k].secret :: j == k
    ensures var t := pending[k].secret;
      Lost(cfg, pending, doc, t) <==> (exists steps :: ProtectedAt(cfg, doc, "", t, steps)) || Absent(doc, t)
  {
    hide Contains, Encode, TurnBody, LeafAt, PathOf, Absent, HasAllowMarker, OnItsOwn;
    var t := pending[k].secret;
    AbsentIff(doc, t);
    forall steps: seq<Edge> ensures "" + PathOf(steps) == PathOf(steps) {}
    if steps, i: nat :| ReachedAt(cfg, pending, doc, t, steps, i) {
      var body := Encode(LeafAt(doc, steps).value);
      OwnTurn(cfg, pending, Marked(cfg, body), body, k);
      assert HeldAt(doc, steps, t);
    }
    if steps :| HeldAt(doc, steps, t) {
      var body := Encode(LeafAt(doc, steps).value);
      OwnTurn(cfg, pending, Marked(cfg, body), body, k);
      assert !cfg.pathFilter(PathOf(steps)) ==> ProtectedAt(cfg, doc, "", t, steps);
      assert cfg.pathFilter(PathOf(steps)) ==> ReachedAt(cfg, pending, doc, t, steps, k);
    }
  }

  // ---- How a run ends ---------------------------------------------------------------------------------------

  ghost predicate AllSubstitute(cfg: Config, h: seq<PassRecord>)
    requires Sound(h)
  {
    forall rec | rec in h :: Substitutes(cfg, rec.pending, rec.doc)
  }

  lemma AllSubstituteStep(cfg: Config, rec: PassRecord, h: seq<PassRecord>)
    requires NonEmpty(rec.pending) && Sound(h)
    ensures Sound([rec] + h)
    ensures AllSubstitute(cfg, [rec] + h) <==> Substitutes(cfg, rec.pending, rec.doc) && AllSubstitute(cfg, h)
  {
    hide Substitutes;
    var all := [rec] + h;
    assert rec in all && forall x | x in h :: x in all;
  }

  lemma DocAfterStep(cfg: Config, rec: PassRecord, h: seq<PassRecord>)
    requires NonEmpty(rec.pending) && Sound(h)
    ensures Sound([rec] + h)
    ensures DocAfter(cfg, rec.doc, [rec] + h) == DocAfter(cfg, Rewritten(cfg, rec.pending, rec.doc, ""), h)
  {
    hide Rewritten;
    var all := [rec] + h;
    assert h != [] ==> all[|all| - 1] == h[|h| - 1];
  }

  /** From the given pass on the run ended with the outcome, behind the passes of h. */
  ghost predicate EndsWith(
      cfg: Config, render: Value -> string, scan: Redact.Scanner, doc: Value, pass: nat, h: seq<PassRecord>,
      outcome: Outcome)
    requires Sound(h)
  {
    && (outcome.NotConverged? <==> pass + |h| == cfg.maxPasses + 1 && AllSubstitute(cfg, h))
    && (outcome.ScanFailed? <==>
          && pass + |h| <= cfg.maxPasses && AllSubstitute(cfg, h)
          && scan(pass + |h|, render(DocAfter(cfg, doc, h))).None?)
  }

  lemma EndsLater(
      cfg: Config, render: Value -> string, scan: Redact.Scanner, rec: PassRecord, pass: nat, h: seq<PassRecord>,
      outcome: Outcome)
    requires NonEmpty(rec.pending) && Sound(h) && Substitutes(cfg, rec.pending, rec.doc)
    requires EndsWith(cfg, render, scan, Rewritten(cfg, rec.pending, rec.doc, ""), pass + 1, h, outcome)
    ensures Sound([rec] + h) && EndsWith(cfg, render, scan, rec.doc, pass, [rec] + h, outcome)
  {
    hide Substitutes, Rewritten, AllSubstitute, DocAfter, Sound;
    AllSubstituteStep(cfg, rec, h);
    DocAfterStep(cfg, rec, h);
    assert pass + |[rec] + h| == pass + 1 + |h|;
  }

  lemma EndsHere(cfg: Config, render: Value -> string, scan: Redact.Scanner, rec: PassRecord, pass: nat, end: State)
    requires NonEmpty(rec.pending) && !Substitutes(cfg, rec.pending, rec.doc)
    ensures EndsWith(cfg, render, scan, rec.doc, pass, [rec], Done(end))
  {
    hide Substitutes, DocAfter;
    AllSubstituteStep(cfg, rec, []);
    assert [rec] + [] == [rec];
  }

  /** A run is not converged if and only if it made all its passes and each of them substituted something, and it failed
      if and only if each pass substituted something and the scan of what they left fails. */
  lemma {:induction false} EndsIff(cfg: Config, render: Value -> string, scan: Redact.Scanner, st: State, pass: nat)
    requires pass <= cfg.maxPasses + 1
    ensures EndsWith(cfg, render, scan, st.root, pass, History(cfg, render, scan, st.root, st.skip, pass),
                     Passes(cfg, render, scan, st, pass))
    decreases cfg.maxPasses + 1 - pass
  {
    hide Passes, PendingOf, Effect, Substitutes, GivenUp, AfterPass, Rewritten, History, EndsWith, Sound, NonEmpty,
         LostPlaces, DocEvents;
    PassesAt(cfg, render, scan, st, pass);
    HistoryAt(cfg, render, scan, st.root, st.skip, pass);
    if pass > cfg.maxPasses || scan(pass, render(st.root)).None? {
      EndsAtOnce(cfg, render, scan, st, pass);
    } else {
      var pending := PendingOf(cfg, scan(pass, render(st.root)).value, st.skip);
      var rec, next := PassRecord(st.root, pending), AfterPass(cfg, st, pending, pass);
      if pending == [] {
        EndsAtOnce(cfg, render, scan, st, pass);
      } else {
        CountsIff(cfg, pending, st.root);
        if Substitutes(cfg, pending, st.root) {
          PassReport(cfg, st, pending, pass, "");
          EndsIff(cfg, render, scan, next, pass + 1);
          EndsLater(cfg, render, scan, rec, pass, History(cfg, render, scan, next.root, next.skip, pass + 1),
                    Passes(cfg, render, scan, st, pass));
        } else {
          EndsHere(cfg, render, scan, rec, pass, next);
        }
      }
    }
  }

  lemma EndsAtOnce(cfg: Config, render: Value -> string, scan: Redact.Scanner, st: State, pass: nat)
    requires pass <= cfg.maxPasses + 1
    requires pass <= cfg.maxPasses && scan(pass, render(st.root)).Some? ==>
      PendingOf(cfg, scan(pass, render(st.root)).value, st.skip) == []
    ensures EndsWith(cfg, render, scan, st.root, pass, [], Passes(cfg, render, scan, st, pass))
  {
    hide Passes, PendingOf, Effect, AfterPass, AllSubstitute, DocAfter;
    PassesAt(cfg, render, scan, st, pass);
    NoPasses(cfg, st.root);
  }

  lemma NoPasses(cfg: Config, doc: Value)
    ensures AllSubstitute(cfg, []) && DocAfter(cfg, doc, []) == doc
  {
  }

  lemma HistoryAt(cfg: Config, render: Value -> string, scan: Redact.Scanner, doc: Value, skip: set<string>, pass: nat)
    ensures pass > cfg.maxPasses || scan(pass, render(doc)).None? ==> History(cfg, render, scan, doc, skip, pass) == []
    ensures pass <= cfg.maxPasses && scan(pass, render(doc)).Some? ==>
      var rec := PassRecord(doc, PendingOf(cfg, scan(pass, render(doc)).value, skip));
      History(cfg, render, scan, doc, skip, pass) ==
        if rec.pending == [] then []
        else if !Substitutes(cfg, rec.pending, doc) then [rec]
        else
          [rec] + History(cfg, render, scan, Rewritten(cfg, rec.pending, doc, ""), skip + GivenUp(cfg, rec), pass + 1)
  {
    hide Substitutes, GivenUp, Rewritten, PendingOf;
  }

  /** How Redact ends, told by its passes: it refuses what does not decode; it fails when a scan does; it is unstable
      when all its passes substitute; and otherwise it hands back the input verbatim if nothing was replaced, and else
      the encoding of the final document with its opaque leaves back. */
  lemma ResultIff(cfg: Config, codec: Codec, scan: Redact.Scanner, doc: string)
    ensures RedactSpec(cfg, codec, scan, doc).Refused? <==> codec.parse(doc).None?
    ensures codec.parse(doc).Some? ==>
      var result, h, first := RedactSpec(cfg, codec, scan, doc), HistoryOf(cfg, codec, scan, doc),
                              FirstRoot(cfg, codec, doc);
      && (result.Unstable? <==> |h| == cfg.maxPasses && AllSubstitute(cfg, h))
      && (result.Failed? <==>
            && |h| < cfg.maxPasses && AllSubstitute(cfg, h)
            && scan(|h| + 1, codec.render(DocAfter(cfg, first, h))).None?)
      && (result.Ok? && result.report.replacements == 0 ==> result.doc == doc)
      && (result.Ok? && result.report.replacements > 0 ==>
            result.doc == codec.encode(Attached(cfg, codec.parse(doc).value, DocAfter(cfg, first, h), "")))
  {
    hide Passes, History, RunEvents, RunLost, Attached, Detached, DocAfter, GivenUpIn, AllSubstitute;
    if codec.parse(doc).Some? {
      var first := FirstRoot(cfg, codec, doc);
      EndsIff(cfg, codec.render, scan, Start(first), 1);
      if RedactSpec(cfg, codec, scan, doc).Ok? { RunIsReported(cfg, codec.render, scan, Start(first), 1, ""); }
    }
  }

  /** A document in which the first scan finds nothing but placeholders comes back verbatim, with an empty report. */
  lemma CleanIsVerbatim(cfg: Config, codec: Codec, scan: Redact.Scanner, doc: string)
    requires cfg.maxPasses >= 1 && codec.parse(doc).Some?
    requires scan(1, codec.render(FirstRoot(cfg, codec, doc))).Some?
    requires forall f | f in scan(1, codec.render(FirstRoot(cfg, codec, doc))).value ::
      var secret := TrimPartialEscape(f.secret); secret == "" || cfg.isPlaceholder(secret)
    ensures RedactSpec(cfg, codec, scan, doc) == Ok(doc, Report(0, multiset{}, multiset{}, multiset{}, 1))
  {
    hide Passes, Attached, Detached, PendingList;
    var first := FirstRoot(cfg, codec, doc);
    var findings := scan(1, codec.render(first)).value;
    PassesAt(cfg, codec.render, scan, Start(first), 1);
    PendingOfIs(cfg, findings, {});
    PendingWanted(findings, {}, cfg.isPlaceholder);
    var list := PendingOf(cfg, findings, {});
    assert list != [] ==> list[0].secret in Secrets(list);
  }
}
