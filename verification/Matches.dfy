/** What the collected findings say about the reports of the detector. */
module Matches {
  import opened Options
  import opened Pending
  import opened Scanner

  // ---- One report ------------------------------------------------------------------------------------------

  /** Component j of set i is neither nil nor optional, and matched secret for the rule. */
  predicate Requires(raw: Raw, i: nat, j: nat, ruleID: string, secret: string) {
    && i < |raw.componentSets| && j < |raw.componentSets[i]|
    && raw.componentSets[i][j] == Some(Component(ruleID, secret, false))
  }

  /** The report matched secret for the rule, as a whole or in a required component. */
  ghost predicate Matched(raw: Raw, ruleID: string, secret: string) {
    (ruleID == raw.ruleID && secret == raw.secret) || exists i: nat, j: nat :: Requires(raw, i, j, ruleID, secret)
  }

  /** f is what is recorded of a match. */
  ghost predicate Records(f: Finding, ruleID: string, secret: string) {
    f.secret != "" && f == Finding(ruleID, Scanner.Recorded(ruleID, secret))
  }

  lemma SingleIff(ruleID: string, secret: string, f: Finding)
    ensures f in Single(ruleID, secret) <==> Records(f, ruleID, secret)
    ensures |Single(ruleID, secret)| <= 1
  {
    hide Scanner.Recorded;
  }

  ghost predicate SetHolds(components: seq<Option<Component>>, j: nat, f: Finding) {
    && j < |components| && components[j].Some? && !components[j].value.optional
    && Records(f, components[j].value.ruleID, components[j].value.secret)
  }

  lemma {:induction false} SetIff(components: seq<Option<Component>>, f: Finding)
    ensures f in SetFindings(components) <==> exists j: nat :: SetHolds(components, j, f)
    decreases |components|
  {
    hide Single, Records;
    if components != [] {
      var n := |components| - 1;
      SetIff(components[..n], f);
      if components[n].Some? { SingleIff(components[n].value.ruleID, components[n].value.secret, f); }
      assert forall j: nat | j < n :: SetHolds(components, j, f) <==> SetHolds(components[..n], j, f);
      if j: nat :| SetHolds(components[..n], j, f) { assert SetHolds(components, j, f); }
      assert f in ComponentFindings(components[n]) <==> SetHolds(components, n, f);
    }
  }

  lemma {:induction false} SetsIff(sets: seq<seq<Option<Component>>>, f: Finding)
    ensures f in SetsFindings(sets) <==> exists i: nat, j: nat :: i < |sets| && SetHolds(sets[i], j, f)
    decreases |sets|
  {
    hide SetHolds, SetFindings;
    if sets != [] {
      var n := |sets| - 1;
      SetsIff(sets[..n], f);
      SetIff(sets[n], f);
      assert f in SetsFindings(sets) <==> f in SetsFindings(sets[..n]) || f in SetFindings(sets[n]);
      if i: nat, j: nat :| i < n && SetHolds(sets[..n][i], j, f) { assert SetHolds(sets[i], j, f); }
      if i: nat, j: nat :| i < n + 1 && SetHolds(sets[i], j, f) {
        if i < n { assert SetHolds(sets[..n][i], j, f); } else { assert SetHolds(sets[n], j, f); }
      }
    }
  }

  /** A report gives a finding if and only if it is not empty and is what is recorded of the whole match or of a
      component that is neither nil nor optional. */
  lemma ReportedIff(raw: Raw, f: Finding)
    ensures f in RawFindings(raw) <==>
      exists ruleID, secret :: Matched(raw, ruleID, secret) && Records(f, ruleID, secret)
  {
    hide Single, Records, SetsFindings;
    SingleIff(raw.ruleID, raw.secret, f);
    SetsIff(raw.componentSets, f);
    var sets := raw.componentSets;
    if i: nat, j: nat :| i < |sets| && SetHolds(sets[i], j, f) {
      var c := sets[i][j].value;
      assert Requires(raw, i, j, c.ruleID, c.secret);
      assert Matched(raw, c.ruleID, c.secret) && Records(f, c.ruleID, c.secret);
    }
    if ruleID, secret :| Matched(raw, ruleID, secret) && Records(f, ruleID, secret) {
      if i: nat, j: nat :| Requires(raw, i, j, ruleID, secret) { assert SetHolds(sets[i], j, f); }
    }
    assert Matched(raw, raw.ruleID, raw.secret);
  }

  // ---- Order ---------------------------------------------------------------------------------------------------

  /** The report up to component j of set i. */
  function UpTo(raw: Raw, i: nat, j: nat): Raw
    requires i < |raw.componentSets| && j <= |raw.componentSets[i]|
  {
    raw.(componentSets := raw.componentSets[..i] + [raw.componentSets[i][..j]])
  }

  lemma SetsAppend(sets: seq<seq<Option<Component>>>, components: seq<Option<Component>>)
    ensures SetsFindings(sets + [components]) == SetsFindings(sets) + SetFindings(components)
  {
    hide SetFindings;
    assert (sets + [components])[..|sets|] == sets;
  }

  /** The whole match comes first, and each component behind everything in front of it in the report: reading one
      component more appends what is recorded of it, or nothing if it is nil or optional. */
  lemma FindingsInOrder(raw: Raw, i: nat, j: nat)
    requires i < |raw.componentSets| && j < |raw.componentSets[i]|
    ensures RawFindings(raw.(componentSets := [])) == Single(raw.ruleID, raw.secret)
    ensures RawFindings(UpTo(raw, i, 0)) == RawFindings(raw.(componentSets := raw.componentSets[..i]))
    ensures var c := raw.componentSets[i][j];
      RawFindings(UpTo(raw, i, j + 1)) ==
      RawFindings(UpTo(raw, i, j))
      + (if c.Some? && !c.value.optional then Single(c.value.ruleID, c.value.secret) else [])
    ensures UpTo(raw, i, |raw.componentSets[i]|).componentSets == raw.componentSets[..i + 1]
  {
    hide Single, SetFindings, SetsFindings;
    var sets, components := raw.componentSets, raw.componentSets[i];
    NoSets();
    SetSnoc(components, j);
    SetsAppend(sets[..i], components[..j]);
    SetsAppend(sets[..i], components[..j + 1]);
    SetsAppend(sets[..i], components[..0]);
    assert components[..0] == [] && components[..|components|] == components;
    assert sets[..i + 1] == sets[..i] + [components];
  }

  // ---- Optional components -------------------------------------------------------------------------------------

  function WithoutOptional(components: seq<Option<Component>>): seq<Option<Component>> {
    if components == [] then []
    else
      var n := |components| - 1;
      WithoutOptional(components[..n])
      + (if components[n].Some? && components[n].value.optional then [] else [components[n]])
  }

  /** The report without its optional components. */
  function Stripped(raw: Raw): Raw {
    raw.(componentSets := seq(|raw.componentSets|, i requires 0 <= i < |raw.componentSets| =>
      WithoutOptional(raw.componentSets[i])))
  }

  lemma SetAppend(components: seq<Option<Component>>, c: Option<Component>)
    ensures SetFindings(components + [c]) == SetFindings(components) + ComponentFindings(c)
  {
    assert (components + [c])[..|components|] == components;
  }

  lemma {:induction false} OptionalAddsNothing(components: seq<Option<Component>>)
    ensures SetFindings(WithoutOptional(components)) == SetFindings(components)
    decreases |components|
  {
    hide Single;
    if components != [] {
      var n := |components| - 1;
      OptionalAddsNothing(components[..n]);
      SetAppend(components[..n], components[n]);
      assert components[..n] + [components[n]] == components;
      var front := WithoutOptional(components[..n]);
      SetAppend(front, components[n]);
      assert front + [] == front && SetFindings(front) + [] == SetFindings(front);
    }
  }

  lemma {:induction false} SetsStripped(sets: seq<seq<Option<Component>>>, bare: seq<seq<Option<Component>>>)
    requires |bare| == |sets| && forall i | 0 <= i < |sets| :: bare[i] == WithoutOptional(sets[i])
    ensures SetsFindings(bare) == SetsFindings(sets)
    decreases |sets|
  {
    hide SetFindings, WithoutOptional;
    if sets != [] {
      var n := |sets| - 1;
      SetsStripped(sets[..n], bare[..n]);
      OptionalAddsNothing(sets[n]);
    }
  }

  function StrippedItem(item: Item): Item {
    match item
    case Broken => Broken
    case Hit(chunk, raw) => Hit(chunk, Stripped(raw))
  }

  function StrippedStream(stream: seq<Item>): seq<Item> {
    seq(|stream|, i requires 0 <= i < |stream| => StrippedItem(stream[i]))
  }

  lemma SameFindings(raw: Raw)
    ensures RawFindings(Stripped(raw)) == RawFindings(raw)
  {
    hide Single, SetFindings, SetsFindings, WithoutOptional;
    SetsStripped(raw.componentSets, Stripped(raw).componentSets);
  }

  lemma {:induction false} SameProjection(stream: seq<Item>, i: int)
    ensures AllFindings(Project(StrippedStream(stream), i)) == AllFindings(Project(stream, i))
    decreases |stream|
  {
    hide RawFindings, Stripped, AllFindings;
    if stream != [] {
      var n := |stream| - 1;
      SameProjection(stream[..n], i);
      assert StrippedStream(stream)[..n] == StrippedStream(stream[..n]);
      var a, b := Project(StrippedStream(stream[..n]), i), Project(stream[..n], i);
      assert a + [] == a && b + [] == b;
      if stream[n].Hit? && stream[n].chunk == i {
        SameFindings(stream[n].raw);
        FindingsConcat(a, [Stripped(stream[n].raw)]);
        FindingsConcat(b, [stream[n].raw]);
        OneReport(stream[n].raw);
        OneReport(Stripped(stream[n].raw));
      }
    }
  }

  /** Taking the optional components out of every report changes nothing that is collected. */
  lemma OptionalDoesNotShow(stream: seq<Item>, n: nat, cancelled: bool)
    ensures Collect(StrippedStream(stream), n, cancelled) == Collect(stream, n, cancelled)
  {
    hide AllFindings, Project, Stripped;
    var bare := StrippedStream(stream);
    assert Complete(bare, n) <==> Complete(stream, n) by {
      forall k | 0 <= k < |stream| ensures InRange(bare[k], n) <==> InRange(stream[k], n) {}
      if Complete(bare, n) {
        forall item | item in stream ensures InRange(item, n) {
          var k :| 0 <= k < |stream| && stream[k] == item;
          assert bare[k] in bare;
        }
      }
    }
    forall i | 0 <= i < n ensures AllFindings(Project(bare, i)) == AllFindings(Project(stream, i)) {
      SameProjection(stream, i);
    }
    if !cancelled && Complete(stream, n) {
      assert Collect(bare, n, false).value == Collect(stream, n, false).value;
    }
  }

  // ---- Many reports ----------------------------------------------------------------------------------------------

  lemma OneReport(raw: Raw)
    ensures AllFindings([raw]) == RawFindings(raw)
  {
    hide RawFindings;
    assert [raw][..0] == [];
  }

  /** The findings of reports are those of the first ones, followed by those of the others. */
  lemma {:induction false} FindingsConcat(a: seq<Raw>, b: seq<Raw>)
    ensures AllFindings(a + b) == AllFindings(a) + AllFindings(b)
    decreases |b|
  {
    hide RawFindings;
    if b == [] {
      assert a + b == a;
    } else {
      var n := |b| - 1;
      assert (a + b)[..|a| + n] == a + b[..n];
      FindingsConcat(a, b[..n]);
    }
  }

  /** What is collected for a chunk is exactly what is recorded of the matches that were reported for it. */
  lemma CollectedIff(stream: seq<Item>, n: nat, i: nat, f: Finding)
    requires Complete(stream, n) && i < n
    ensures f in Collect(stream, n, false).value[i] <==>
      exists raw, ruleID, secret :: Hit(i, raw) in stream && Matched(raw, ruleID, secret) && Records(f, ruleID, secret)
  {
    hide AllFindings, Project, RawFindings, Matched, Records;
    InAllIff(Project(stream, i), f);
    forall raw ensures raw in Project(stream, i) <==> Hit(i, raw) in stream { InProject(stream, i, raw); }
    forall raw ensures f in RawFindings(raw) <==>
      exists ruleID, secret :: Matched(raw, ruleID, secret) && Records(f, ruleID, secret)
    {
      ReportedIff(raw, f);
    }
  }

  /** Nothing is collected if and only if the scan was cancelled or a result is an error or out of range. */
  lemma NothingCollectedIff(stream: seq<Item>, n: nat, cancelled: bool)
    ensures Collect(stream, n, cancelled).None? <==>
      cancelled || exists item | item in stream :: item.Broken? || !(0 <= item.chunk < n)
  {
    hide AllFindings, Project;
  }

  lemma {:induction false} InAllIff(raws: seq<Raw>, f: Finding)
    ensures f in AllFindings(raws) <==> exists raw | raw in raws :: f in RawFindings(raw)
    decreases |raws|
  {
    hide RawFindings;
    if raws != [] {
      var n := |raws| - 1;
      InAllIff(raws[..n], f);
      assert raws == raws[..n] + [raws[n]];
    }
  }

  lemma {:induction false} InProject(stream: seq<Item>, i: int, raw: Raw)
    ensures raw in Project(stream, i) <==> Hit(i, raw) in stream
    decreases |stream|
  {
    if stream != [] {
      var n := |stream| - 1;
      InProject(stream[..n], i, raw);
      assert stream == stream[..n] + [stream[n]];
    }
  }
}
