/** Collecting the findings of chunks that are scanned concurrently. */
module Scanner {
  import opened Options
  import opened Escapes
  import opened Breaks
  import opened Pending

  /** A part of a composite match; nil in the list of a set is None. */
  datatype Component = Component(ruleID: string, secret: string, optional: bool)

  /** What the detector reports about a fragment. */
  datatype Raw = Raw(ruleID: string, secret: string, componentSets: seq<seq<Option<Component>>>)

  /** An element of the result stream: an error, or a report tagged with the chunk it comes from. */
  datatype Item = Broken | Hit(chunk: int, raw: Raw)

  const JWT := "jwt"
  const GENERIC_PASSWORD := "generic-password"

  /** The part of a secret that is recorded for a rule. */
  function Recorded(ruleID: string, secret: string): string {
    if ruleID == JWT then BeforeEscape(secret, "\"nrt")
    else if ruleID == GENERIC_PASSWORD then BeforeEscape(secret, "nrt")
    else secret
  }

  /** A recorded secret is a prefix of the reported one. The token of a JWT stops at the first whitespace or quote
      escape, a generic password at the first whitespace escape, and every other secret is whole. */
  lemma RecordedStops(ruleID: string, secret: string)
    ensures Recorded(ruleID, secret) <= secret
    ensures ruleID == "jwt" ==> NoBreak(Recorded(ruleID, secret), "\"nrt")
    ensures ruleID == "generic-password" ==> NoBreak(Recorded(ruleID, secret), "nrt")
    ensures Recorded(ruleID, secret) != secret ==>
      var n := |Recorded(ruleID, secret)|;
      && (ruleID == "jwt" || ruleID == "generic-password")
      && BreakAt(secret, n, if ruleID == "jwt" then "\"nrt" else "nrt")
  {
    hide BeforeEscape, Esc;
    CutIsFirstBreak(secret, "\"nrt");
    CutIsFirstBreak(secret, "nrt");
  }

  /** appendSecret */
  method AppendSecret(dst: seq<Finding>, ruleID: string, secret: string) returns (out: seq<Finding>)
    ensures out == dst + Single(ruleID, secret)
  {
    var cut := secret;
    if ruleID == JWT {
      cut := CutAtEscape(secret, "\"nrt");
    } else if ruleID == GENERIC_PASSWORD {
      cut := CutAtEscape(secret, "nrt");
    }
    if cut == "" {
      return dst;
    }
    return dst + [Finding(ruleID, cut)];
  }

  function Single(ruleID: string, secret: string): seq<Finding> {
    if Recorded(ruleID, secret) == "" then [] else [Finding(ruleID, Recorded(ruleID, secret))]
  }

  function ComponentFindings(c: Option<Component>): seq<Finding> {
    if c.None? || c.value.optional then [] else Single(c.value.ruleID, c.value.secret)
  }

  function SetFindings(components: seq<Option<Component>>): seq<Finding> {
    if components == [] then []
    else SetFindings(components[..|components| - 1]) + ComponentFindings(components[|components| - 1])
  }

  function SetsFindings(sets: seq<seq<Option<Component>>>): seq<Finding> {
    if sets == [] then [] else SetsFindings(sets[..|sets| - 1]) + SetFindings(sets[|sets| - 1])
  }

  /** The findings of one report: the primary match and its required components. */
  function RawFindings(raw: Raw): seq<Finding> {
    Single(raw.ruleID, raw.secret) + SetsFindings(raw.componentSets)
  }

  function AllFindings(raws: seq<Raw>): seq<Finding> {
    if raws == [] then [] else AllFindings(raws[..|raws| - 1]) + RawFindings(raws[|raws| - 1])
  }

  function EachFindings(raws: seq<seq<Raw>>): seq<seq<Finding>> {
    seq(|raws|, i requires 0 <= i < |raws| => AllFindings(raws[i]))
  }

  predicate InRange(item: Item, n: nat) {
    item.Hit? && 0 <= item.chunk < n
  }

  predicate Complete(stream: seq<Item>, n: nat) {
    forall item | item in stream :: InRange(item, n)
  }

  /** The reports of chunk i in the order they arrive. */
  function Project(stream: seq<Item>, i: int): seq<Raw> {
    if stream == [] then []
    else
      var last := stream[|stream| - 1];
      Project(stream[..|stream| - 1], i) + (if last.Hit? && last.chunk == i then [last.raw] else [])
  }

  /** The findings of each of n chunks, from the results in the order they arrive. None stands for an error. */
  function Collect(stream: seq<Item>, n: nat, cancelled: bool): Option<seq<seq<Finding>>> {
    if cancelled || !Complete(stream, n) then None
    else Some(seq(n, i requires 0 <= i < n => AllFindings(Project(stream, i))))
  }

  /** scanChunks: a report is appended to the findings of its chunk as it arrives. A context that was cancelled
      meanwhile makes the result an error. */
  method ScanChunks(stream: seq<Item>, n: nat, cancelled: bool) returns (r: Option<seq<seq<Finding>>>)
    ensures r == Collect(stream, n, cancelled)
  {
    var perChunk: seq<seq<Finding>> := seq(n, _ => []);
    for k := 0 to |stream|
      invariant |perChunk| == n && Complete(stream[..k], n)
      invariant forall i | 0 <= i < n :: perChunk[i] == AllFindings(Project(stream[..k], i))
    {
      var item := stream[k];
      assert stream[..k + 1] == stream[..k] + [item] && stream[..k + 1][..k] == stream[..k];
      if !InRange(item, n) {
        assert item in stream;
        return None;
      }
      var found := Report(perChunk[item.chunk], item.raw);
      ProjectSnoc(stream[..k], item, n);
      perChunk := perChunk[item.chunk := found];
    }
    assert stream[..|stream|] == stream;
    if cancelled {
      return None;
    }
    r := Some(perChunk);
    assert perChunk == Collect(stream, n, cancelled).value;
  }

  /** One report: the primary match, then the components that are not optional. */
  method Report(dst: seq<Finding>, raw: Raw) returns (out: seq<Finding>)
    ensures out == dst + RawFindings(raw)
  {
    hide Single, SetFindings, SetsFindings, Recorded;
    out := AppendSecret(dst, raw.ruleID, raw.secret);
    ghost var head := Single(raw.ruleID, raw.secret);
    var sets := raw.componentSets;
    NoSets();
    for i := 0 to |sets|
      invariant out == dst + (head + SetsFindings(sets[..i]))
    {
      var set_ := sets[i];
      SetsSnoc(sets, i);
      ghost var before := head + SetsFindings(sets[..i]);
      for j := 0 to |set_|
        invariant out == dst + (before + SetFindings(set_[..j]))
      {
        SetSnoc(set_, j);
        if set_[j].None? || set_[j].value.optional {
          continue;
        }
        out := AppendSecret(out, set_[j].value.ruleID, set_[j].value.secret);
      }
      assert set_[..|set_|] == set_;
    }
    assert sets[..|sets|] == sets;
  }

  lemma NoSets()
    ensures SetFindings([]) == [] && SetsFindings([]) == []
  {
  }

  lemma SetSnoc(components: seq<Option<Component>>, j: nat)
    requires j < |components|
    ensures SetFindings(components[..j + 1]) == SetFindings(components[..j]) + ComponentFindings(components[j])
  {
    assert components[..j + 1][..j] == components[..j];
  }

  lemma SetsSnoc(sets: seq<seq<Option<Component>>>, i: nat)
    requires i < |sets|
    ensures SetsFindings(sets[..i + 1]) == SetsFindings(sets[..i]) + SetFindings(sets[i])
  {
    assert sets[..i + 1][..i] == sets[..i];
  }

  lemma ProjectSnoc(stream: seq<Item>, item: Item, n: nat)
    requires InRange(item, n)
    ensures forall i | 0 <= i < n ::
      (AllFindings(Project(stream + [item], i)) ==
       AllFindings(Project(stream, i)) + (if i == item.chunk then RawFindings(item.raw) else []))
  {
    assert (stream + [item])[..|stream|] == stream;
    forall i | 0 <= i < n
      ensures AllFindings(Project(stream + [item], i)) ==
        AllFindings(Project(stream, i)) + (if i == item.chunk then RawFindings(item.raw) else [])
    {
      var before := Project(stream, i);
      if i == item.chunk {
        assert Project(stream + [item], i) == before + [item.raw];
        assert (before + [item.raw])[..|before|] == before;
      } else {
        assert Project(stream + [item], i) == before + [] == before;
      }
    }
  }

  // ---- Interleavings ------------------------------------------------------------------------------------

  /** The stream interleaves the reports of the chunks, each chunk's own in order. */
  ghost predicate Interleaves(stream: seq<Item>, raws: seq<seq<Raw>>) {
    Complete(stream, |raws|) && forall i | 0 <= i < |raws| :: Project(stream, i) == raws[i]
  }

  /** However the chunks' results interleave, what is collected is what scanning them one after the other
      gives. */
  lemma InterleavingDoesNotMatter(stream: seq<Item>, raws: seq<seq<Raw>>)
    requires Interleaves(stream, raws)
    ensures Collect(stream, |raws|, false) == Collect(Sequential(raws), |raws|, false)
    ensures Collect(stream, |raws|, false) == Some(EachFindings(raws))
  {
    hide Sequential, Interleaves, Collect;
    SequentialInterleaves(raws);
    CollectInterleaved(stream, raws);
    CollectInterleaved(Sequential(raws), raws);
  }

  lemma CollectInterleaved(stream: seq<Item>, raws: seq<seq<Raw>>)
    requires Interleaves(stream, raws)
    ensures Collect(stream, |raws|, false) == Some(EachFindings(raws))
  {
    hide Project, AllFindings;
    var all := Collect(stream, |raws|, false).value;
    assert forall i | 0 <= i < |raws| :: all[i] == AllFindings(raws[i]);
    assert all == EachFindings(raws);
  }

  function Tagged(raws: seq<Raw>, chunk: int): seq<Item> {
    seq(|raws|, k requires 0 <= k < |raws| => Hit(chunk, raws[k]))
  }

  /** The results of scanning the chunks in order. */
  function Sequential(raws: seq<seq<Raw>>): seq<Item> {
    if raws == [] then [] else Sequential(raws[..|raws| - 1]) + Tagged(raws[|raws| - 1], |raws| - 1)
  }

  lemma {:induction false} ProjectConcat(a: seq<Item>, b: seq<Item>, i: int)
    ensures Project(a + b, i) == Project(a, i) + Project(b, i)
    decreases |b|
  {
    if b == [] {
      assert a + b == a;
    } else {
      var n := |b| - 1;
      assert (a + b)[..|a| + n] == a + b[..n];
      ProjectConcat(a, b[..n], i);
    }
  }

  lemma {:induction false} ProjectTagged(raws: seq<Raw>, chunk: int, i: int)
    ensures Project(Tagged(raws, chunk), i) == if i == chunk then raws else []
    decreases |raws|
  {
    if raws != [] {
      var n := |raws| - 1;
      assert Tagged(raws, chunk)[..n] == Tagged(raws[..n], chunk);
      ProjectTagged(raws[..n], chunk, i);
      assert raws == raws[..n] + [raws[n]];
    }
  }

  lemma TaggedComplete(raws: seq<Raw>, chunk: nat, n: nat)
    requires chunk < n
    ensures Complete(Tagged(raws, chunk), n)
  {
  }

  lemma {:induction false} SequentialInterleaves(raws: seq<seq<Raw>>)
    ensures Interleaves(Sequential(raws), raws)
    decreases |raws|
  {
    hide Project, Tagged;
    if raws != [] {
      var n := |raws| - 1;
      var a, b := Sequential(raws[..n]), Tagged(raws[n], n);
      SequentialInterleaves(raws[..n]);
      TaggedComplete(raws[n], n, |raws|);
      assert Complete(a + b, |raws|);
      forall i | 0 <= i < |raws| ensures Project(a + b, i) == raws[i] {
        ProjectConcat(a, b, i);
        ProjectTagged(raws[n], n, i);
        if i == n { ProjectForeign(a, n, n); }
      }
    }
  }

  lemma {:induction false} ProjectForeign(stream: seq<Item>, n: nat, i: nat)
    requires Complete(stream, n) && i >= n
    ensures Project(stream, i) == []
    decreases |stream|
  {
    if stream != [] {
      var k := |stream| - 1;
      assert stream[k] in stream && forall x | x in stream[..k] :: x in stream;
      ProjectForeign(stream[..k], n, i);
    }
  }
}
