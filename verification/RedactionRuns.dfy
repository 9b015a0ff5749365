/** The loop and the scanner together: the versions of a document that a run scans, and what is found in them. */
module RedactionRuns {
  import opened Options
  import opened Escapes
  import opened Pending
  import opened Leaf
  import opened Tree
  import opened OpaqueLeaves
  import opened Redact
  import opened Convergence
  import opened TextLines
  import opened Chunks
  import opened LineRanges
  import opened LocalScan
  import opened DocumentScanner
  import opened ScannerRuns
  import opened Rendering

  /** The documents a run scans, one for each pass. */
  ghost function Versions(cfg: Config, render: Value -> string, scan: Redact.Scanner, st: State, pass: nat): seq<Value>
    decreases cfg.maxPasses + 1 - pass
  {
    if pass > cfg.maxPasses then []
    else match scan(pass, render(st.root))
      case None => [st.root]
      case Some(findings) =>
        var pending := PendingOf(cfg, findings, st.skip);
        if pending == [] || Effect(cfg, pending, st.root, "").count == 0 then [st.root]
        else [st.root] + Versions(cfg, render, scan, AfterPass(cfg, st, pending, pass), pass + 1)
  }

  /** Over every run, whether it succeeds or not: each version differs from the document in eligible string leaves
      only. */
  lemma {:induction false} EveryVersionIsFramed(
      cfg: Config, render: Value -> string, scan: Redact.Scanner, st: State, pass: nat, v: Value)
    requires v in Versions(cfg, render, scan, st, pass)
    ensures Framed(cfg, st.root, v, "")
    decreases cfg.maxPasses + 1 - pass
  {
    hide Framed, Effect, PendingOf, AfterPass;
    if v == st.root {
      FramedReflexive(cfg, v, "");
    } else {
      var pending := PendingOf(cfg, scan(pass, render(st.root)).value, st.skip);
      var next := AfterPass(cfg, st, pending, pass);
      PassKeeps(cfg, st, pending, pass);
      EveryVersionIsFramed(cfg, render, scan, next, pass + 1, v);
      FramedTransitive(cfg, st.root, next.root, v, "");
    }
  }

  ghost predicate Renders(render: Value -> string) {
    forall v :: render(v) == Render(v, "")
  }

  /** Every version a run scans has the lines of the document, and none ends in a line feed. */
  lemma EveryVersionKeepsLines(
      cfg: Config, render: Value -> string, scan: Redact.Scanner, root: Value, v: Value)
    requires root.Obj? && Renders(render) && v in Versions(cfg, render, scan, Start(root), 1)
    ensures Newlines(render(v)) == Newlines(render(root)) && !EndsLine(render(v))
  {
    hide Render, Newlines, EndsLine, Versions;
    EveryVersionIsFramed(cfg, render, scan, Start(root), 1, v);
    FramedKeepsLines(cfg, root, v, "", "");
    ObjectEndsNoLine(v, "");
  }

  /** The calls a run makes of the scanner of its document. */
  ghost predicate CallsOf(cfg: Config, render: Value -> string, scan: Redact.Scanner, root: Value, calls: seq<Call>) {
    && |calls| <= |Versions(cfg, render, scan, Start(root), 1)|
    && forall k | 0 <= k < |calls| ::
         !calls[k].cancelled && calls[k].text == render(Versions(cfg, render, scan, Start(root), 1)[k])
  }

  lemma CallKeepsLines(
      cfg: Config, render: Value -> string, scan: Redact.Scanner, root: Value, calls: seq<Call>, k: nat)
    requires root.Obj? && Renders(render) && CallsOf(cfg, render, scan, root, calls) && k < |calls|
    ensures Newlines(calls[k].text) == Newlines(render(root)) && !EndsLine(calls[k].text)
  {
    hide Newlines, EndsLine, Versions;
    EveryVersionKeepsLines(cfg, render, scan, root, Versions(cfg, render, scan, Start(root), 1)[k]);
  }

  /** Over every run the document is cut once: each later version reuses the line ranges of the first. */
  lemma {:induction false} FirstCutIsKept(
      base: Base, cfg: Config, render: Value -> string, scan: Redact.Scanner, root: Value, calls: seq<Call>, k: nat)
    requires base.size >= 1 && root.Obj? && Renders(render) && CallsOf(cfg, render, scan, root, calls)
    requires 0 < k <= |calls|
    ensures CutOf(base, MemoryAfter(base, calls[..k]), calls[0].text)
    ensures k < |calls| ==> Reuses(MemoryAfter(base, calls[..k]), calls[k].text)
    decreases k
  {
    hide Newlines, Cut, LinesOfSpans, CallsOf, Renders, MemoryAfter, Step;
    var n := k - 1;
    assert calls[..k][..n] == calls[..n] && calls[..k][n] == calls[n];
    CallKeepsLines(cfg, render, scan, root, calls, 0);
    CallKeepsLines(cfg, render, scan, root, calls, n);
    if k < |calls| { CallKeepsLines(cfg, render, scan, root, calls, k); }
    NotCancelled(cfg, render, scan, root, calls, n);
    CutRanges(calls[n].text, base.size, base.overlap);
    LastCall(base, calls[..k]);
    if n == 0 {
      FreshMemory(base);
    } else {
      FirstCutIsKept(base, cfg, render, scan, root, calls, n);
    }
  }

  lemma NotCancelled(
      cfg: Config, render: Value -> string, scan: Redact.Scanner, root: Value, calls: seq<Call>, k: nat)
    requires CallsOf(cfg, render, scan, root, calls) && k < |calls|
    ensures !calls[k].cancelled
  {
  }

  lemma FreshMemory(base: Base)
    requires base.size >= 1
    ensures MemoryAfter(base, []) == NOTHING
  {
  }

  /** What a call that was not cancelled leaves of the cut, whether its scan succeeds or fails. */
  lemma LastCall(base: Base, calls: seq<Call>)
    requires base.size >= 1 && calls != [] && !calls[|calls| - 1].cancelled
    ensures var n := |calls| - 1;
      var before, after, text := MemoryAfter(base, calls[..n]), MemoryAfter(base, calls), calls[n].text;
      InText(Cut(text, base.size, base.overlap), text) &&
      after.chunks == Located(base, before, text).chunks && after.lines == Located(base, before, text).lines
  {
    hide Cut, Newlines, LinesOfSpans, Answers, Remember, Stale, Texts, Concat, SpansOf, Reuses;
    var n := |calls| - 1;
    SpansInText(base, MemoryAfter(base, calls[..n]), calls[n].text);
  }

  /** The cut in use is that of the document as it was given. */
  lemma {:induction false} FirstCutIsInUse(
      base: Base, cfg: Config, render: Value -> string, scan: Redact.Scanner, root: Value, calls: seq<Call>, k: nat)
    requires base.size >= 1 && root.Obj? && Renders(render) && CallsOf(cfg, render, scan, root, calls)
    requires k <= |calls|
    ensures LastCut(base, calls, k) == 0 && (k < |calls| ==> CutInUse(base, calls, k) == 0)
    decreases k
  {
    hide CallsOf, Renders, MemoryAfter, CutOf;
    FreshMemory(base);
    if k > 0 {
      FirstCutIsInUse(base, cfg, render, scan, root, calls, k - 1);
      FirstCutIsKept(base, cfg, render, scan, root, calls, k);
      if k > 1 { FirstCutIsKept(base, cfg, render, scan, root, calls, k - 1); }
    } else {
      assert calls[..0] == [];
    }
  }

  lemma FirstVersion(cfg: Config, render: Value -> string, scan: Redact.Scanner, root: Value, calls: seq<Call>)
    requires CallsOf(cfg, render, scan, root, calls) && calls != []
    ensures calls[0].text == render(root)
  {
    hide Effect, PendingOf, AfterPass;
  }

  /** The loop over the chunked, remembering scanner misses nothing and invents nothing: in every pass of every run,
      for a detector that is local within the window, a scan that succeeds reports a finding exactly when the detector
      finds it in the whole rendered version. Rules that look at single lines need nothing of the document, and others
      only that the document as it was given can be cut for the window. */
  lemma EveryPassFindsWhole(
      base: Base, detect: string -> seq<Finding>, rules: LocalRules, window: nat,
      cfg: Config, render: Value -> string, scan: Redact.Scanner, root: Value, calls: seq<Call>, k: nat, f: Finding)
    requires base.size >= 1 && k < |calls| && CollisionFree(base, SeenTexts(base, calls))
    requires Local(detect, rules, window) && forall text :: detect(text) == Detect(base, text)
    requires root.Obj? && Renders(render) && CallsOf(cfg, render, scan, root, calls)
    requires window <= base.overlap && (window <= 1 || Fits(render(root), base.size, window))
    ensures var result := Step(base, MemoryAfter(base, calls[..k]), calls[k]).result;
      var version := Versions(cfg, render, scan, Start(root), 1)[k];
      result.Some? ==> (f in result.value <==> f in Detect(base, render(version)))
  {
    hide Versions, Local, Detect, CollisionFree, SeenTexts, Fits, Renders, Step, MemoryAfter, Newlines, EndsLine,
         CutInUse;
    FirstCutIsInUse(base, cfg, render, scan, root, calls, k);
    FirstVersion(cfg, render, scan, root, calls);
    CallKeepsLines(cfg, render, scan, root, calls, 0);
    EveryScanFindsWhole(base, detect, rules, window, calls, k, f);
  }

  // ---- Idempotence of the loop over the remembering scanner ------------------------------------------------

  /** The last document a successful run scans is the one it ends with. */
  lemma {:induction false} LastVersion(
      cfg: Config, render: Value -> string, scan: Redact.Scanner, st: State, pass: nat)
    requires Passes(cfg, render, scan, st, pass).Done?
    ensures var versions, end := Versions(cfg, render, scan, st, pass), Passes(cfg, render, scan, st, pass).end;
      versions != [] && versions[|versions| - 1] == end.root && end.report.passes == pass + |versions| - 1
    decreases cfg.maxPasses + 1 - pass
  {
    hide Passes, Effect, PendingOf, Rewritten, MissingRules, Dropped;
    PassesAt(cfg, render, scan, st, pass);
    var pending := PendingOf(cfg, scan(pass, render(st.root)).value, st.skip);
    if pending != [] {
      if Effect(cfg, pending, st.root, "").count == 0 {
        ZeroCountUnchanged(cfg, pending, st.root, "");
      } else {
        LastVersion(cfg, render, scan, AfterPass(cfg, st, pending, pass), pass + 1);
      }
    }
  }

  /** The calls of a whole run: one for each version, with the answers the loop got. */
  ghost predicate AnsweredBy(
      base: Base, cfg: Config, render: Value -> string, scan: Redact.Scanner, root: Value, calls: seq<Call>)
  {
    && base.size >= 1 && CallsOf(cfg, render, scan, root, calls)
    && |calls| == |Versions(cfg, render, scan, Start(root), 1)|
    && forall k | 0 <= k < |calls| ::
         scan(k + 1, calls[k].text) == Step(base, MemoryAfter(base, calls[..k]), calls[k]).result
  }

  /** What the last scan of a run did not find to chase, a new scanner does not find either. */
  lemma NothingWantedAgain(cfg: Config, last: seq<Finding>, again: seq<Finding>)
    requires PendingOf(cfg, last, {}) == [] && forall f | f in again :: f in last
    ensures PendingOf(cfg, again, {}) == []
  {
    hide PendingList;
    PendingOfIs(cfg, last, {});
    PendingOfIs(cfg, again, {});
    PendingWanted(last, {}, cfg.isPlaceholder);
    PendingWanted(again, {}, cfg.isPlaceholder);
    var list := PendingOf(cfg, again, {});
    assert list != [] ==> list[0].secret in Secrets(list);
    forall f | f in again ensures !Wanted(f, {}, cfg.isPlaceholder) {
      assert Wanted(f, {}, cfg.isPlaceholder) ==> TrimPartialEscape(f.secret) in Secrets(PendingOf(cfg, last, {}));
    }
  }

  /** The last answer of a run holds what the detector finds in the final document. */
  lemma LastScanFindsWhole(
      base: Base, detect: string -> seq<Finding>, rules: LocalRules, window: nat,
      cfg: Config, render: Value -> string, scan: Redact.Scanner, root: Value, calls: seq<Call>, f: Finding)
    requires AnsweredBy(base, cfg, render, scan, root, calls) && CollisionFree(base, SeenTexts(base, calls))
    requires Local(detect, rules, window) && forall text :: detect(text) == Detect(base, text)
    requires root.Obj? && Renders(render) && Passes(cfg, render, scan, Start(root), 1).Done?
    requires window <= base.overlap && (window <= 1 || Fits(render(root), base.size, window))
    ensures var end := Passes(cfg, render, scan, Start(root), 1).end;
      var found := scan(end.report.passes, render(end.root));
      found.Some? ==> (f in found.value <==> f in Detect(base, render(end.root)))
  {
    hide Versions, Local, Detect, CollisionFree, SeenTexts, Fits, Renders, Step, MemoryAfter, Passes;
    LastVersion(cfg, render, scan, Start(root), 1);
    EveryPassFindsWhole(base, detect, rules, window, cfg, render, scan, root, calls, |calls| - 1, f);
  }

  /** For the chunked, remembering scanner and a detector that is local within the window: when a run leaves nothing
      unlocated and nothing allowed, redacting its output again with a new such scanner, whose first scan succeeds,
      substitutes nothing and returns that output verbatim. */
  lemma RememberingIsIdempotent(
      base: Base, detect: string -> seq<Finding>, rules: LocalRules, window: nat,
      cfg: Config, codec: Codec, scan: Redact.Scanner, doc: string, calls: seq<Call>,
      further: Redact.Scanner, call: Call)
    requires RedactSpec(cfg, codec, scan, doc).Ok? && ParsesObjects(codec) && Renders(codec.render)
    requires AnsweredBy(base, cfg, codec.render, scan, FirstRoot(cfg, codec, doc), calls)
    requires CollisionFree(base, SeenTexts(base, calls))
    requires Local(detect, rules, window) && forall text :: detect(text) == Detect(base, text)
    requires window <= base.overlap
    requires window <= 1 || Fits(codec.render(FirstRoot(cfg, codec, doc)), base.size, window)
    requires forall v | Framed(cfg, codec.parse(doc).value, v, "") :: RoundTrips(codec, v)
    requires RedactSpec(cfg, codec, scan, doc).report.unlocated == multiset{}
    requires RedactSpec(cfg, codec, scan, doc).report.allowed == multiset{}
    requires call.text == codec.render(FinalRoot(cfg, codec, scan, doc))
    requires further(1, call.text) == Step(base, NOTHING, call).result && further(1, call.text).Some?
    ensures var out := RedactSpec(cfg, codec, scan, doc).doc;
      var again := RedactSpec(cfg, codec, further, out);
      again.Ok? && again.doc == out && again.report.replacements == 0
  {
    hide Passes, PendingOf, Local, Detect, CollisionFree, SeenTexts, Fits, Renders, Step, MemoryAfter, AnsweredBy,
         Framed, Detached, Attached;
    var root := FirstRoot(cfg, codec, doc);
    var end := Passes(cfg, codec.render, scan, Start(root), 1).end;
    SuccessIsClean(cfg, codec.render, scan, Start(root), 1);
    var last, again := scan(end.report.passes, call.text).value, further(1, call.text).value;
    forall f | f in again ensures f in last {
      Sized(base, cfg, codec.render, scan, root, calls);
      FirstScanFindsPart(base, detect, rules, window, call, f);
      LastScanFindsWhole(base, detect, rules, window, cfg, codec.render, scan, root, calls, f);
    }
    NothingWantedAgain(cfg, last, again);
    VerbatimIfClean(cfg, codec, scan, doc, further);
  }

  lemma Sized(base: Base, cfg: Config, render: Value -> string, scan: Redact.Scanner, root: Value, calls: seq<Call>)
    requires AnsweredBy(base, cfg, render, scan, root, calls)
    ensures base.size >= 1
  {
  }
}
