/** The object that scans successive versions of a document. */
module CachedScanner {
  import opened Options
  import opened Pending
  import opened TextLines
  import opened Chunks
  import opened LineRanges
  import opened Scanner
  import opened DocumentScanner

  class CachedScanner {
    const base: Base
    var chunks: Option<seq<LineSpan>>
    var lines: nat
    var findings: map<string, seq<Finding>>

    ghost function Remembered(): Memory
      reads this
    {
      Memory(chunks, lines, findings)
    }

    ghost predicate Valid()
      reads this
    {
      Usable(base, Remembered())
    }

    /** forDocument */
    constructor (base: Base)
      requires base.size >= 1
      ensures this.base == base && Remembered() == NOTHING && Valid()
    {
      this.base := base;
      chunks, lines, findings := None, 0, map[];
    }

    /** Scan */
    method Scan(call: Call) returns (result: Option<seq<Finding>>)
      requires Valid() && Faithful(base, call.run)
      modifies this
      ensures Valid()
      ensures Reply(Remembered(), result) == Step(base, old(Remembered()), call)
    {
      hide Cut, BytesOfRanges, LinesOfSpans, Newlines, Faithful, Answers, Remember, Stale, Concat, Fails,
           Detect, Usable, OrderedRanges;
      ghost var m := Remembered();
      StepUsable(base, m, call);
      if call.cancelled {
        return None;
      }
      var text := call.text;
      UsableParts(base, m);
      SpansInText(base, m, text);
      var spans;
      var count := Newlines(text) + 1;
      if chunks.Some? && count == lines {
        spans := ByteSpans(text, chunks.value);
      } else {
        spans := SplitLines(text, base.size, base.overlap);
        var ranges := LineSpans(text, spans);
        chunks, lines := Some(ranges), count;
      }
      ghost var located := Located(base, m, text);
      assert spans == SpansOf(base, m, text) && Remembered() == located;
      var texts := Texts(text, spans);
      var perChunk, stale := Lookup(texts);
      if |stale| > 0 {
        var toScan := seq(|stale|, j requires 0 <= j < |stale| => texts[stale[j]]);
        StaleIs(base, findings, texts, stale, toScan);
        var scanned := ScanChunks(call.run(toScan), |stale|, call.cancelledLate);
        ScanOutcome(base, call, toScan);
        if scanned.None? {
          return None;
        }
        perChunk := Fill(perChunk, stale, scanned.value);
        FilledAreAnswers(base, findings, texts, stale, perChunk);
      } else {
        NoneStale(base, findings, texts, stale, call);
        FilledAreAnswers(base, findings, texts, stale, perChunk);
      }
      findings := Rebuild(texts, perChunk);
      result := Some(Concat(perChunk));
    }

    /** The remembered findings of each chunk, and the indices of those that have none. */
    method Lookup(texts: seq<string>) returns (perChunk: seq<seq<Finding>>, stale: seq<nat>)
      ensures |perChunk| == |texts| && IsStale(base, findings, texts, stale)
      ensures forall i | 0 <= i < |texts| && base.digest(texts[i]) in findings ::
        perChunk[i] == findings[base.digest(texts[i])]
    {
      perChunk, stale := [], [];
      for i := 0 to |texts|
        invariant |perChunk| == i && IsStale(base, findings, texts[..i], stale)
        invariant forall k | 0 <= k < i && base.digest(texts[k]) in findings ::
          perChunk[k] == findings[base.digest(texts[k])]
      {
        IsStaleSnoc(base, findings, texts[..i], texts[i], stale);
        assert texts[..i] + [texts[i]] == texts[..i + 1];
        if base.digest(texts[i]) in findings {
          perChunk := perChunk + [findings[base.digest(texts[i])]];
          continue;
        }
        perChunk := perChunk + [[]];
        stale := stale + [i];
      }
      assert texts[..|texts|] == texts;
    }

    /** Puts the findings of the scanned chunks in their places. */
    method Fill(perChunk: seq<seq<Finding>>, stale: seq<nat>, scanned: seq<seq<Finding>>)
      returns (out: seq<seq<Finding>>)
      requires |stale| == |scanned| && Increasing(stale) && forall k | 0 <= k < |stale| :: stale[k] < |perChunk|
      ensures |out| == |perChunk|
      ensures forall j | 0 <= j < |stale| :: out[stale[j]] == scanned[j]
      ensures forall i | 0 <= i < |out| && i !in stale :: out[i] == perChunk[i]
    {
      out := perChunk;
      for j := 0 to |stale|
        invariant |out| == |perChunk|
        invariant forall k | 0 <= k < j :: out[stale[k]] == scanned[k]
        invariant forall i | 0 <= i < |out| && i !in stale :: out[i] == perChunk[i]
      {
        out := out[stale[j] := scanned[j]];
      }
    }

    /** The findings of this version, by digest. */
    method Rebuild(texts: seq<string>, perChunk: seq<seq<Finding>>) returns (out: map<string, seq<Finding>>)
      requires |texts| == |perChunk|
      ensures out == Remember(base, texts, perChunk)
    {
      out := map[];
      for i := 0 to |texts|
        invariant out == Remember(base, texts[..i], perChunk[..i])
      {
        assert texts[..i + 1][..i] == texts[..i] && perChunk[..i + 1][..i] == perChunk[..i];
        out := out[base.digest(texts[i]) := perChunk[i]];
      }
      assert texts[..|texts|] == texts && perChunk[..|texts|] == perChunk;
    }
  }

  ghost predicate Increasing(list: seq<nat>) {
    forall j, k | 0 <= j < k < |list| :: list[j] < list[k]
  }

  /** The indices of the texts without remembered findings, in order. */
  ghost predicate IsStale(base: Base, findings: map<string, seq<Finding>>, texts: seq<string>, stale: seq<nat>) {
    && Increasing(stale) && |stale| <= |texts|
    && (forall k | 0 <= k < |stale| :: stale[k] < |texts| && base.digest(texts[stale[k]]) !in findings)
    && (forall i: nat | i < |texts| && base.digest(texts[i]) !in findings :: i in stale)
  }

  lemma IsStaleSnoc(
      base: Base, findings: map<string, seq<Finding>>, texts: seq<string>, text: string, stale: seq<nat>)
    requires IsStale(base, findings, texts, stale)
    ensures base.digest(text) in findings ==> IsStale(base, findings, texts + [text], stale)
    ensures base.digest(text) !in findings ==> IsStale(base, findings, texts + [text], stale + [|texts|])
  {
    assert forall k | 0 <= k < |stale| :: (texts + [text])[stale[k]] == texts[stale[k]];
  }

  lemma UsableParts(base: Base, m: Memory)
    requires Usable(base, m)
    ensures base.size >= 1 && (m.chunks.Some? ==> OrderedRanges(m.chunks.value))
  {
  }

  /** The texts at the stale indices are the stale texts. */
  lemma {:induction false} StaleIs(
      base: Base, findings: map<string, seq<Finding>>, texts: seq<string>, stale: seq<nat>, toScan: seq<string>)
    requires IsStale(base, findings, texts, stale) && |toScan| == |stale|
    requires forall j | 0 <= j < |stale| :: stale[j] < |texts| && toScan[j] == texts[stale[j]]
    ensures toScan == Stale(base, findings, texts)
    decreases |texts|
  {
    hide IsStale;
    StaleBound(base, findings, texts, stale);
    if texts != [] {
      var n := |texts| - 1;
      if base.digest(texts[n]) in findings {
        SkipFresh(base, findings, texts, stale);
        StaleBound(base, findings, texts[..n], stale);
        StaleIs(base, findings, texts[..n], stale, toScan);
      } else {
        var s := |stale| - 1;
        LastStale(base, findings, texts, stale);
        StaleBound(base, findings, texts[..n], stale[..s]);
        StaleIs(base, findings, texts[..n], stale[..s], toScan[..s]);
        assert toScan == toScan[..s] + [texts[n]];
      }
    }
  }

  lemma StaleBound(base: Base, findings: map<string, seq<Finding>>, texts: seq<string>, stale: seq<nat>)
    requires IsStale(base, findings, texts, stale)
    ensures |stale| <= |texts| && forall k | 0 <= k < |stale| :: stale[k] < |texts|
  {
  }

  lemma SkipFresh(base: Base, findings: map<string, seq<Finding>>, texts: seq<string>, stale: seq<nat>)
    requires IsStale(base, findings, texts, stale) && texts != []
    requires base.digest(texts[|texts| - 1]) in findings
    ensures IsStale(base, findings, texts[..|texts| - 1], stale)
  {
    var n := |texts| - 1;
    forall k | 0 <= k < |stale| ensures stale[k] < n && texts[..n][stale[k]] == texts[stale[k]] {
      assert stale[k] != n;
    }
    SizeBound(stale, n);
  }

  lemma LastStale(base: Base, findings: map<string, seq<Finding>>, texts: seq<string>, stale: seq<nat>)
    requires IsStale(base, findings, texts, stale) && texts != []
    requires base.digest(texts[|texts| - 1]) !in findings
    ensures stale != [] && stale[|stale| - 1] == |texts| - 1
    ensures IsStale(base, findings, texts[..|texts| - 1], stale[..|stale| - 1])
  {
    var n, s := |texts| - 1, |stale| - 1;
    assert n in stale;
    var k :| 0 <= k < |stale| && stale[k] == n;
    assert stale[k] <= stale[s] < |texts|;
    var front := stale[..s];
    forall i: nat | i < n && base.digest(texts[i]) !in findings ensures i in front {
      assert i in stale;
      var q :| 0 <= q < |stale| && stale[q] == i;
      assert front[q] == i;
    }
    SizeBound(front, n);
  }

  /** Increasing numbers below n are at most n many. */
  lemma {:induction false} SizeBound(list: seq<nat>, n: nat)
    requires Increasing(list) && forall k | 0 <= k < |list| :: list[k] < n
    ensures |list| <= n
    decreases n
  {
    if list != [] {
      var last := |list| - 1;
      assert forall k | 0 <= k < last :: list[..last][k] < list[last];
      SizeBound(list[..last], list[last]);
    }
  }

  /** Scanning the stale texts fails as the step says, or yields the detector's answers. */
  lemma ScanOutcome(base: Base, call: Call, toScan: seq<string>)
    requires Faithful(base, call.run) && toScan != []
    ensures var r := Collect(call.run(toScan), |toScan|, call.cancelledLate);
      && (r.None? <==> Fails(toScan, call))
      && (r.Some? ==> |r.value| == |toScan| && forall j | 0 <= j < |toScan| :: r.value[j] == Detect(base, toScan[j]))
  {
    hide Interleaves, AllFindings, Project;
    var stream := call.run(toScan);
    if !call.cancelledLate && Complete(stream, |toScan|) {
      assert Interleaves(stream, Reports(base, toScan));
      CollectInterleaved(stream, Reports(base, toScan));
    }
  }

  lemma NoneStale(
      base: Base, findings: map<string, seq<Finding>>, texts: seq<string>, stale: seq<nat>, call: Call)
    requires IsStale(base, findings, texts, stale) && |stale| == 0
    ensures !Fails(Stale(base, findings, texts), call)
  {
    StaleIs(base, findings, texts, stale, []);
  }

  /** Remembered answers and new ones together are the answers. */
  lemma FilledAreAnswers(
      base: Base, findings: map<string, seq<Finding>>, texts: seq<string>, stale: seq<nat>, perChunk: seq<seq<Finding>>)
    requires IsStale(base, findings, texts, stale) && |perChunk| == |texts|
    requires forall i | 0 <= i < |texts| && base.digest(texts[i]) in findings ::
      perChunk[i] == findings[base.digest(texts[i])]
    requires forall j | 0 <= j < |stale| :: perChunk[stale[j]] == Detect(base, texts[stale[j]])
    ensures perChunk == Answers(base, findings, texts)
  {
    hide Detect;
    forall i: nat | i < |texts| ensures perChunk[i] == Answer(base, findings, texts[i]) {
      if base.digest(texts[i]) !in findings {
        var j :| 0 <= j < |stale| && stale[j] == i;
      }
    }
  }
}
