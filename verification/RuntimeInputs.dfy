/** Which runtime inputs apply to a policy attachment, and what value each input ends up with. */
module RuntimeInputs {
  import opened Order
  import opened References
  import opened InputValues

  type Inputs = map<string, string>

  /** Appended and replacing inputs, each for all policies or for the policies a scope matches. */
  datatype RuntimeInputs = RuntimeInputs(
    global: Inputs,
    scoped: map<string, Inputs>,
    globalOverride: Inputs,
    scopedOverride: map<string, Inputs>)
  {
    predicate Empty() {
      global == map[] && scoped == map[] && globalOverride == map[] && scopedOverride == map[]
    }
  }

  // ---- Merging -----------------------------------------------------------------------------------------------

  /** The arguments with the runtime inputs of the given keys appended. */
  function MergedOver(args: Inputs, runtime: Inputs, keys: set<string>): Inputs
    requires keys <= runtime.Keys
  {
    map k | k in args.Keys + keys ::
      if k !in keys then args[k] else Appended(if k in args then args[k] else "", runtime[k])
  }

  /** What MergeRuntimeInputs returns. */
  function Merged(args: Inputs, runtime: Inputs): Inputs {
    MergedOver(args, runtime, runtime.Keys)
  }

  lemma MergeOne(args: Inputs, runtime: Inputs, keys: set<string>, k: string)
    requires keys <= runtime.Keys && k in runtime && k !in keys
    ensures var merged := MergedOver(args, runtime, keys);
      merged[k := Appended(if k in merged then merged[k] else "", runtime[k])] ==
      MergedOver(args, runtime, keys + {k})
  {
    hide Appended;
    var merged, next := MergedOver(args, runtime, keys), MergedOver(args, runtime, keys + {k});
    assert next.Keys == merged.Keys + {k};
  }

  /** MergeRuntimeInputs. The runtime inputs are taken in any order. */
  method MergeRuntimeInputs(args: Inputs, runtime: Inputs) returns (merged: Inputs)
    ensures merged == Merged(args, runtime)
  {
    assert MergedOver(args, runtime, {}) == args;
    hide MergedOver;
    if |runtime| == 0 {
      assert runtime.Keys == {};
      return args;
    }
    merged := args;
    var done: set<string> := {};
    while runtime.Keys - done != {}
      invariant done <= runtime.Keys && merged == MergedOver(args, runtime, done)
      decreases runtime.Keys - done
    {
      var k :| k in runtime.Keys - done;
      MergeOne(args, runtime, done, k);
      var existing := if k in merged then merged[k] else "";
      if existing != "" {
        merged := merged[k := existing + "\n" + runtime[k]];
      } else {
        merged := merged[k := runtime[k]];
      }
      done := done + {k};
    }
    assert done == runtime.Keys;
  }

  /** OverrideRuntimeInputs */
  function OverrideRuntimeInputs(args: Inputs, overrides: Inputs): Inputs {
    args + overrides
  }

  // ---- Scopes in order ---------------------------------------------------------------------------------------

  /** Less specific first, ties by the scope's text. */
  predicate ScopeLess(a: string, b: string) {
    ScopeSpecificity(a) < ScopeSpecificity(b) || (ScopeSpecificity(a) == ScopeSpecificity(b) && Below(a, b))
  }

  /** The listing of the matching scopes, more specific ones last. */
  ghost predicate IsScopeList(list: seq<string>, scopes: set<string>, name: string, ref: string) {
    && Ascending(list, ScopeLess)
    && forall s :: s in list <==> s in scopes && PolicyScopeMatches(s, name, ref)
  }

  lemma ScopeLessIsOrder()
    ensures StrictOrder(ScopeLess)
    ensures forall a, b :: a == b || ScopeLess(a, b) || ScopeLess(b, a)
  {
    hide ScopeSpecificity;
    forall a ensures !ScopeLess(a, a) { BelowIrreflexive(a); }
    forall a, b, c | ScopeLess(a, b) && ScopeLess(b, c) ensures ScopeLess(a, c) {
      if Below(a, b) && Below(b, c) { BelowTransitive(a, b, c); }
    }
    forall a, b ensures a == b || ScopeLess(a, b) || ScopeLess(b, a) { BelowTotal(a, b); }
  }

  /** There is one such listing, whatever order the scopes are visited in. */
  lemma ScopeListUnique(a: seq<string>, b: seq<string>, scopes: set<string>, name: string, ref: string)
    requires IsScopeList(a, scopes, name, ref) && IsScopeList(b, scopes, name, ref)
    ensures a == b
  {
    hide ScopeLess, PolicyScopeMatches;
    ScopeLessIsOrder();
    AscendingUnique(a, b, ScopeLess);
  }

  /** matchingScopes. The scopes are visited in any order. */
  method MatchingScopes(scopes: set<string>, name: string, ref: string) returns (out: seq<string>)
    ensures IsScopeList(out, scopes, name, ref)
  {
    hide PolicyScopeMatches, ScopeLess;
    out := [];
    var rest := scopes;
    while rest != {}
      invariant rest <= scopes
      invariant forall s :: s in out <==> s in scopes - rest && PolicyScopeMatches(s, name, ref)
      invariant forall i, j | 0 <= i < j < |out| :: out[i] != out[j]
      decreases |rest|
    {
      var s :| s in rest;
      if PolicyScopeMatches(s, name, ref) {
        out := out + [s];
      }
      rest := rest - {s};
    }
    ScopeLessIsOrder();
    SortAscending(out, ScopeLess);
    SortElements(out, ScopeLess);
    out := Sort(out, ScopeLess);
  }

  // ---- forPolicy -----------------------------------------------------------------------------------------------

  function FoldAppend(base: Inputs, scoped: map<string, Inputs>, list: seq<string>): Inputs
    requires forall s | s in list :: s in scoped
  {
    if list == [] then base
    else Merged(FoldAppend(base, scoped, list[..|list| - 1]), scoped[list[|list| - 1]])
  }

  function FoldOverride(base: Inputs, scoped: map<string, Inputs>, list: seq<string>): Inputs
    requires forall s | s in list :: s in scoped
  {
    if list == [] then base
    else OverrideRuntimeInputs(FoldOverride(base, scoped, list[..|list| - 1]), scoped[list[|list| - 1]])
  }

  /** forPolicy: the inputs to append, the inputs that replace, and the scopes that matched. */
  method ForPolicy(ri: RuntimeInputs, name: string, ref: string)
    returns (append: Inputs, replace: Inputs, matched: seq<string>)
    ensures forall list | IsScopeList(list, ri.scoped.Keys, name, ref) ::
      append == FoldAppend(ri.global, ri.scoped, list)
    ensures forall list | IsScopeList(list, ri.scopedOverride.Keys, name, ref) ::
      replace == FoldOverride(ri.globalOverride, ri.scopedOverride, list)
    ensures forall s :: s in matched <==>
      (s in ri.scoped || s in ri.scopedOverride) && PolicyScopeMatches(s, name, ref)
    ensures forall i, j | 0 <= i < j < |matched| :: matched[i] != matched[j]
  {
    hide PolicyScopeMatches, ScopeLess, Merged, Ascending, FoldAppend, FoldOverride, OverrideRuntimeInputs;
    NoFold(ri);
    if ri.Empty() {
      assert ri.scoped.Keys == {} && ri.scopedOverride.Keys == {};
      forall list | IsScopeList(list, {}, name, ref) ensures list == [] {
        NoScopes(list, name, ref);
      }
      return map[], map[], [];
    }
    matched := [];
    var appends := MatchingScopes(ri.scoped.Keys, name, ref);
    append := ri.global;
    for i := 0 to |appends|
      invariant append == FoldAppend(ri.global, ri.scoped, appends[..i])
      invariant forall s :: s in matched <==> s in appends[..i]
      invariant forall i, j | 0 <= i < j < |matched| :: matched[i] != matched[j]
    {
      assert appends[..i + 1] == appends[..i] + [appends[i]] && appends[i] in appends;
      FoldSnoc(ri.global, ri.scoped, appends[..i], appends[i]);
      if appends[i] !in matched {
        matched := matched + [appends[i]];
      }
      append := MergeRuntimeInputs(append, ri.scoped[appends[i]]);
    }
    assert appends[..|appends|] == appends;
    var overrides := MatchingScopes(ri.scopedOverride.Keys, name, ref);
    replace := ri.globalOverride;
    for i := 0 to |overrides|
      invariant replace == FoldOverride(ri.globalOverride, ri.scopedOverride, overrides[..i])
      invariant forall s :: s in matched <==> s in appends || s in overrides[..i]
      invariant forall i, j | 0 <= i < j < |matched| :: matched[i] != matched[j]
    {
      assert overrides[..i + 1] == overrides[..i] + [overrides[i]] && overrides[i] in overrides;
      FoldSnoc(ri.globalOverride, ri.scopedOverride, overrides[..i], overrides[i]);
      if overrides[i] !in matched {
        matched := matched + [overrides[i]];
      }
      replace := OverrideRuntimeInputs(replace, ri.scopedOverride[overrides[i]]);
    }
    assert overrides[..|overrides|] == overrides;
    forall list | IsScopeList(list, ri.scoped.Keys, name, ref) ensures list == appends {
      ScopeListUnique(list, appends, ri.scoped.Keys, name, ref);
    }
    forall list | IsScopeList(list, ri.scopedOverride.Keys, name, ref) ensures list == overrides {
      ScopeListUnique(list, overrides, ri.scopedOverride.Keys, name, ref);
    }
  }

  lemma NoFold(ri: RuntimeInputs)
    ensures FoldAppend(ri.global, ri.scoped, []) == ri.global
    ensures FoldOverride(ri.globalOverride, ri.scopedOverride, []) == ri.globalOverride
  {
  }

  lemma FoldSnoc(base: Inputs, scoped: map<string, Inputs>, list: seq<string>, s: string)
    requires s in scoped && forall x | x in list :: x in scoped
    ensures FoldAppend(base, scoped, list + [s]) == Merged(FoldAppend(base, scoped, list), scoped[s])
    ensures FoldOverride(base, scoped, list + [s]) == OverrideRuntimeInputs(FoldOverride(base, scoped, list), scoped[s])
  {
    hide Merged, OverrideRuntimeInputs;
    assert (list + [s])[..|list|] == list;
  }

  lemma NoScopes(list: seq<string>, name: string, ref: string)
    requires IsScopeList(list, {}, name, ref)
    ensures list == []
  {
    hide PolicyScopeMatches, ScopeLess;
    ScopeListUnique(list, [], {}, name, ref);
  }

  // ---- What an input ends up as -----------------------------------------------------------------------------------

  /** The arguments of an attachment: the contract's, with the appended inputs, under the replacing ones. */
  function Arguments(ri: RuntimeInputs, contract: Inputs, appends: seq<string>, overrides: seq<string>): Inputs
    requires (forall s | s in appends :: s in ri.scoped) && (forall s | s in overrides :: s in ri.scopedOverride)
  {
    OverrideRuntimeInputs(Merged(contract, FoldAppend(ri.global, ri.scoped, appends)),
                          FoldOverride(ri.globalOverride, ri.scopedOverride, overrides))
  }

  function ValuesAt(m: Inputs, k: string): seq<string> {
    if k in m then Values(m[k]) else []
  }

  /** The values the scopes of a list give an input, in order. */
  function ScopedValues(scoped: map<string, Inputs>, list: seq<string>, k: string): seq<string>
    requires forall s | s in list :: s in scoped
  {
    if list == [] then []
    else ScopedValues(scoped, list[..|list| - 1], k) + ValuesAt(scoped[list[|list| - 1]], k)
  }

  lemma MergedValues(args: Inputs, runtime: Inputs, k: string)
    ensures k in Merged(args, runtime) <==> k in args || k in runtime
    ensures ValuesAt(Merged(args, runtime), k) == ValuesAt(args, k) + ValuesAt(runtime, k)
  {
    hide Values;
    if k in runtime {
      AppendIsHomomorphic(if k in args then args[k] else "", runtime[k]);
      EmptyHasNoValues();
    }
  }

  lemma EmptyHasNoValues()
    ensures Values("") == []
  {
    AppendIsHomomorphic("", "");
  }

  lemma {:induction false} FoldAppendValues(base: Inputs, scoped: map<string, Inputs>, list: seq<string>, k: string)
    requires forall s | s in list :: s in scoped
    ensures k in FoldAppend(base, scoped, list) <==> k in base || exists s | s in list :: k in scoped[s]
    ensures ValuesAt(FoldAppend(base, scoped, list), k) == ValuesAt(base, k) + ScopedValues(scoped, list, k)
    decreases |list|
  {
    hide Merged, ValuesAt;
    if list != [] {
      var n := |list| - 1;
      FoldAppendValues(base, scoped, list[..n], k);
      MergedValues(FoldAppend(base, scoped, list[..n]), scoped[list[n]], k);
      assert list == list[..n] + [list[n]];
    }
  }

  /** The last scope of the list that sets the input decides. */
  lemma {:induction false} LastSetter(base: Inputs, scoped: map<string, Inputs>, list: seq<string>, k: string)
    returns (i: int)
    requires forall s | s in list :: s in scoped
    ensures -1 <= i < |list| && forall j | i < j < |list| :: k !in scoped[list[j]]
    ensures i == -1 ==> (k in FoldOverride(base, scoped, list) <==> k in base)
    ensures i == -1 && k in base ==> FoldOverride(base, scoped, list)[k] == base[k]
    ensures i >= 0 ==> k in scoped[list[i]] && k in FoldOverride(base, scoped, list)
    ensures i >= 0 ==> FoldOverride(base, scoped, list)[k] == scoped[list[i]][k]
    decreases |list|
  {
    if list == [] {
      i := -1;
    } else {
      var n := |list| - 1;
      if k in scoped[list[n]] {
        i := n;
      } else {
        i := LastSetter(base, scoped, list[..n], k);
      }
    }
  }

  /** s is less specific than top, or as specific and its text comes first: a proper prefix, or the smaller character
      where they first differ. */
  ghost predicate Outranked(s: string, top: string) {
    || ScopeSpecificity(s) < ScopeSpecificity(top)
    || (ScopeSpecificity(s) == ScopeSpecificity(top) && (s < top || exists i: nat :: SmallerAt(s, top, i)))
  }

  lemma OutrankedIff(s: string, top: string)
    ensures ScopeLess(s, top) <==> Outranked(s, top)
  {
    hide ScopeSpecificity, Below;
    BelowIff(s, top);
  }

  /** In the listing every scope outranks those in front of it. */
  lemma ScopesRanked(list: seq<string>, scopes: set<string>, name: string, ref: string, i: nat, j: nat)
    requires IsScopeList(list, scopes, name, ref) && i < j < |list|
    ensures Outranked(list[i], list[j])
  {
    hide ScopeLess, PolicyScopeMatches, Outranked;
    OutrankedIff(list[i], list[j]);
  }

  /** top is the matching scope that sets the input and outranks all others that do. */
  ghost predicate Decides(scoped: map<string, Inputs>, list: seq<string>, k: string, top: string) {
    && top in list && top in scoped && k in scoped[top]
    && forall s | s in list && s in scoped && k in scoped[s] :: s == top || Outranked(s, top)
  }

  /** The final value of an input comes from the greatest matching override scope that sets it, else from the
      global override; else the engine receives the contract's values, then the global ones, then those of the
      matching scopes from the least to the most specific. A replacement always beats an append. */
  lemma LayeredResolution(
      ri: RuntimeInputs, contract: Inputs, name: string, ref: string,
      appends: seq<string>, overrides: seq<string>, k: string)
    requires IsScopeList(appends, ri.scoped.Keys, name, ref)
    requires IsScopeList(overrides, ri.scopedOverride.Keys, name, ref)
    ensures var args := Arguments(ri, contract, appends, overrides);
      if exists s | s in overrides :: k in ri.scopedOverride[s] then
        k in args && exists top :: Decides(ri.scopedOverride, overrides, k, top) && args[k] == ri.scopedOverride[top][k]
      else if k in ri.globalOverride then k in args && args[k] == ri.globalOverride[k]
      else
        && (k in args <==> k in contract || k in ri.global || exists s | s in appends :: k in ri.scoped[s])
        && ValuesAt(args, k) ==
           ValuesAt(contract, k) + (ValuesAt(ri.global, k) + ScopedValues(ri.scoped, appends, k))
  {
    hide PolicyScopeMatches, ScopeLess, Merged, MergedOver, Values, Outranked;
    var args := Arguments(ri, contract, appends, overrides);
    var i := LastSetter(ri.globalOverride, ri.scopedOverride, overrides, k);
    if i >= 0 {
      var top := overrides[i];
      TopDecides(ri.scopedOverride, overrides, k, i);
      assert Decides(ri.scopedOverride, overrides, k, top) && args[k] == ri.scopedOverride[top][k];
    } else {
      assert forall s | s in overrides :: k !in ri.scopedOverride[s];
      FoldAppendValues(ri.global, ri.scoped, appends, k);
      MergedValues(contract, FoldAppend(ri.global, ri.scoped, appends), k);
    }
  }

  lemma TopDecides(scoped: map<string, Inputs>, list: seq<string>, k: string, i: nat)
    requires Ascending(list, ScopeLess) && (forall s | s in list :: s in scoped) && i < |list|
    requires k in scoped[list[i]] && forall j | i < j < |list| :: k !in scoped[list[j]]
    ensures Decides(scoped, list, k, list[i])
  {
    hide ScopeLess, Outranked;
    forall s | s in list && s in scoped && k in scoped[s] ensures s == list[i] || Outranked(s, list[i]) {
      var j :| 0 <= j < |list| && list[j] == s;
      OutrankedIff(s, list[i]);
    }
  }

  /** The greatest such scope is unique, so the visiting order of the scopes cannot show. */
  lemma DecidesUnique(scoped: map<string, Inputs>, list: seq<string>, k: string, a: string, b: string)
    requires Decides(scoped, list, k, a) && Decides(scoped, list, k, b)
    ensures a == b
  {
    hide ScopeLess, Outranked;
    ScopeLessIsOrder();
    OutrankedIff(a, b);
    OutrankedIff(b, a);
  }
}
