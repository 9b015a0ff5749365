/** What a pass over a document counts, as a set of events in its leaves. */
module PassEvents {
  import opened Options
  import opened Text
  import opened StringBody
  import opened Pending
  import opened Leaf
  import opened LeafLines
  import opened Tree
  import opened Positions
  import opened LeafEvents

  // ---- One leaf ------------------------------------------------------------------------------------------------

  /** The events of a leaf: none if the filter protects its path. */
  function LeafEventsOf(
      cfg: Config, secrets: seq<SecretRule>, s: string, path: string, kept: bool, r: string): set<Event>
    requires NonEmpty(secrets)
  {
    if cfg.pathFilter(path) then Events(cfg, secrets, Marked(cfg, Encode(s)), Encode(s), kept, r) else {}
  }

  /** The occurrences kept, or those substituted, by rule. */
  function Counter(t: Tally, kept: bool): multiset<string> {
    if kept then t.allowed else t.byRule
  }

  lemma LeafCounts(cfg: Config, secrets: seq<SecretRule>, s: string, path: string, kept: bool, r: string)
    requires NonEmpty(secrets)
    ensures Counter(RedactedLeaf(cfg, secrets, s, path).tally, kept)[r] ==
            |LeafEventsOf(cfg, secrets, s, path, kept, r)|
  {
    hide Apply, Encode, Held, Rebuild, Events;
    var body := Encode(s);
    FoldCounts(cfg, secrets, Marked(cfg, body), body, r);
    if Held(secrets, body) == {} { NothingHeld(cfg, secrets, Marked(cfg, body), body); }
  }

  /** The leaf was kept or rewritten for t. */
  ghost predicate LeafMet(cfg: Config, secrets: seq<SecretRule>, s: string, path: string, kept: bool, t: string)
    requires NonEmpty(secrets)
  {
    cfg.pathFilter(path) && MetAs(cfg, secrets, Marked(cfg, Encode(s)), Encode(s), kept, t)
  }

  lemma LeafRecords(cfg: Config, secrets: seq<SecretRule>, s: string, path: string, t: string)
    requires NonEmpty(secrets)
    ensures var tally := RedactedLeaf(cfg, secrets, s, path).tally;
      && (t in tally.kept <==> LeafMet(cfg, secrets, s, path, true, t))
      && (t in tally.located <==> LeafMet(cfg, secrets, s, path, false, t))
      && (t in tally.protected <==> !cfg.pathFilter(path) && t in Secrets(secrets) && Contains(Encode(s), t))
  {
    hide Apply, Encode, Rebuild, MetAs, Contains;
    var body := Encode(s);
    FoldRecords(cfg, secrets, Marked(cfg, body), body, t);
    HeldIff(secrets, body, t);
    hide Held;
    if Held(secrets, body) == {} { NothingHeld(cfg, secrets, Marked(cfg, body), body); }
  }

  lemma HeldIff(secrets: seq<SecretRule>, body: string, t: string)
    ensures t in Held(secrets, body) <==> t in Secrets(secrets) && Contains(body, t)
  {
    hide Contains;
  }

  // ---- All leaves ------------------------------------------------------------------------------------------------

  /** The positions of the string leaves. */
  ghost function Leaves(v: Value): set<seq<Edge>>
    decreases v
  {
    match v
    case Str(_) => {[]}
    case Scalar(_) => {}
    case Arr(items) => set i, rest | 0 <= i < |items| && rest in Leaves(items[i]) :: [Item(i)] + rest
    case Obj(fields) => set k, rest | k in fields && rest in Leaves(fields[k]) :: [Key(k)] + rest
  }

  lemma {:induction false} LeavesIff(v: Value, steps: seq<Edge>)
    ensures steps in Leaves(v) <==> LeafAt(v, steps).Some?
    decreases |steps|
  {
    if steps != [] {
      FindUnfold(v, steps);
      assert steps == [steps[0]] + steps[1..];
      assert forall step: Edge, rest: seq<Edge> :: ([step] + rest)[0] == step && ([step] + rest)[1..] == rest;
      if Has(v, steps[0]) {
        LeavesIff(Child(v, steps[0]), steps[1..]);
        if steps[1..] in Leaves(Child(v, steps[0])) { LeafBelow(v, steps); }
      }
    }
  }

  lemma LeafBelow(v: Value, steps: seq<Edge>)
    requires steps != [] && Has(v, steps[0]) && steps[1..] in Leaves(Child(v, steps[0]))
    ensures steps in Leaves(v)
  {
    assert steps == [steps[0]] + steps[1..];
    match steps[0] {
      case Item(i) => assert steps[1..] in Leaves(v.items[i]) && steps == [Item(i)] + steps[1..];
      case Key(k) => assert steps[1..] in Leaves(v.fields[k]) && steps == [Key(k)] + steps[1..];
    }
  }

  /** An event in the leaf at a position. */
  datatype DocEvent = DocEvent(steps: seq<Edge>, event: Event)

  ghost predicate Occurs(
      cfg: Config, secrets: seq<SecretRule>, v: Value, path: string, kept: bool, r: string, d: DocEvent)
    requires NonEmpty(secrets)
  {
    && LeafAt(v, d.steps).Some?
    && d.event in LeafEventsOf(cfg, secrets, LeafAt(v, d.steps).value, path + PathOf(d.steps), kept, r)
  }

  ghost function LeafEventsAt(
      cfg: Config, secrets: seq<SecretRule>, v: Value, path: string, kept: bool, r: string, steps: seq<Edge>)
    : set<Event>
    requires NonEmpty(secrets)
  {
    match LeafAt(v, steps)
    case Some(s) => LeafEventsOf(cfg, secrets, s, path + PathOf(steps), kept, r)
    case None => {}
  }

  ghost function DocEvents(
      cfg: Config, secrets: seq<SecretRule>, v: Value, path: string, kept: bool, r: string): set<DocEvent>
    requires NonEmpty(secrets)
  {
    set steps, e | steps in Leaves(v) && e in LeafEventsAt(cfg, secrets, v, path, kept, r, steps) :: DocEvent(steps, e)
  }

  lemma DocEventsIff(
      cfg: Config, secrets: seq<SecretRule>, v: Value, path: string, kept: bool, r: string, d: DocEvent)
    requires NonEmpty(secrets)
    ensures d in DocEvents(cfg, secrets, v, path, kept, r) <==> Occurs(cfg, secrets, v, path, kept, r, d)
  {
    hide Leaves, LeafAt, LeafEventsOf, PathOf;
    LeavesIff(v, d.steps);
    if Occurs(cfg, secrets, v, path, kept, r, d) { assert d == DocEvent(d.steps, d.event); }
  }

  // ---- Counting over the document --------------------------------------------------------------------------------

  /** The events below some of the fields or items. */
  ghost function Below(events: set<DocEvent>, first: set<Edge>): set<DocEvent> {
    set d | d in events && d.steps != [] && d.steps[0] in first
  }

  /** The events of a field or item, seen from the whole value. */
  ghost function Under(step: Edge, events: set<DocEvent>): set<DocEvent> {
    set d | d in events :: DocEvent([step] + d.steps, d.event)
  }

  lemma UnderIff(step: Edge, events: set<DocEvent>, d: DocEvent)
    ensures d in Under(step, events) <==>
      d.steps != [] && d.steps[0] == step && DocEvent(d.steps[1..], d.event) in events
  {
    if d in Under(step, events) {
      var x :| x in events && d == DocEvent([step] + x.steps, x.event);
      assert d.steps[1..] == x.steps;
    }
    if d.steps != [] && d.steps[0] == step && DocEvent(d.steps[1..], d.event) in events {
      var x := DocEvent(d.steps[1..], d.event);
      assert d == DocEvent([step] + x.steps, x.event);
    }
  }

  lemma UnderSize(step: Edge, events: set<DocEvent>)
    ensures |Under(step, events)| == |events|
  {
    forall a, b | a in events && b in events && [step] + a.steps == [step] + b.steps ensures a.steps == b.steps {
      assert a.steps == ([step] + a.steps)[1..] && b.steps == ([step] + b.steps)[1..];
    }
    ImageSize(events, Under(step, events), (d: DocEvent) => DocEvent([step] + d.steps, d.event));
  }

  /** What happens below a field or item is what happens in it, at the longer path. */
  lemma OccursBelow(
      cfg: Config, secrets: seq<SecretRule>, v: Value, path: string, kept: bool, r: string, d: DocEvent)
    requires NonEmpty(secrets) && d.steps != [] && Has(v, d.steps[0])
    ensures var step := d.steps[0];
      Occurs(cfg, secrets, v, path, kept, r, d) <==>
      Occurs(cfg, secrets, Child(v, step), Extended(path, step), kept, r, DocEvent(d.steps[1..], d.event))
  {
    hide LeafEventsOf, Itoa, KeyPath, ItemPath;
    FindUnfold(v, d.steps);
    ExtendedPath(path, d.steps);
  }

  lemma OneMore(
      cfg: Config, secrets: seq<SecretRule>, v: Value, path: string, kept: bool, r: string,
      first: set<Edge>, step: Edge)
    requires NonEmpty(secrets) && step !in first && Has(v, step)
    ensures |Below(DocEvents(cfg, secrets, v, path, kept, r), first + {step})| ==
      |Below(DocEvents(cfg, secrets, v, path, kept, r), first)|
      + |DocEvents(cfg, secrets, Child(v, step), Extended(path, step), kept, r)|
  {
    hide DocEvents, Occurs, Under;
    var all, part := DocEvents(cfg, secrets, v, path, kept, r),
                     DocEvents(cfg, secrets, Child(v, step), Extended(path, step), kept, r);
    forall d: DocEvent ensures d in all && d.steps != [] && d.steps[0] == step <==> d in Under(step, part) {
      UnderIff(step, part, d);
      if d.steps != [] && d.steps[0] == step {
        DocEventsIff(cfg, secrets, v, path, kept, r, d);
        OccursBelow(cfg, secrets, v, path, kept, r, d);
        DocEventsIff(cfg, secrets, Child(v, step), Extended(path, step), kept, r, DocEvent(d.steps[1..], d.event));
      }
    }
    assert Below(all, first + {step}) == Below(all, first) + Under(step, part);
    UnionSize(Below(all, first), Under(step, part), Below(all, first + {step}));
    UnderSize(step, part);
  }

  lemma EventHasStep(
      cfg: Config, secrets: seq<SecretRule>, v: Value, path: string, kept: bool, r: string, first: set<Edge>)
    requires NonEmpty(secrets) && !v.Str? && forall step | Has(v, step) :: step in first
    ensures Below(DocEvents(cfg, secrets, v, path, kept, r), first) == DocEvents(cfg, secrets, v, path, kept, r)
  {
    hide DocEvents, LeafEventsOf, PathOf;
    var all := DocEvents(cfg, secrets, v, path, kept, r);
    forall d | d in all ensures d in Below(all, first) {
      DocEventsIff(cfg, secrets, v, path, kept, r, d);
      if d.steps != [] { FindUnfold(v, d.steps); }
    }
  }

  lemma NoneBelow(events: set<DocEvent>)
    ensures Below(events, {}) == {}
  {
  }

  function Items(n: nat): set<Edge> {
    set i | 0 <= i < n :: Item(i)
  }

  function Keys(keys: set<string>): set<Edge> {
    set k | k in keys :: Key(k)
  }

  /** The counters of a pass are how many events there are in the leaves of the document. */
  lemma {:induction false} PassCounts(
      cfg: Config, secrets: seq<SecretRule>, v: Value, path: string, kept: bool, r: string)
    requires NonEmpty(secrets)
    ensures Counter(Effect(cfg, secrets, v, path), kept)[r] == |DocEvents(cfg, secrets, v, path, kept, r)|
    decreases v, 1, 0
  {
    hide RedactedLeaf, EffectItems, EffectKeys, DocEvents;
    match v {
      case Str(s) => StringCounts(cfg, secrets, v, path, kept, r);
      case Scalar(_) =>
        EventHasStep(cfg, secrets, v, path, kept, r, {});
        NoneBelow(DocEvents(cfg, secrets, v, path, kept, r));
      case Arr(items) =>
        ItemCounts(cfg, secrets, v, path, kept, r, |items|);
        EventHasStep(cfg, secrets, v, path, kept, r, Items(|items|));
      case Obj(fields) =>
        KeyCounts(cfg, secrets, v, path, kept, r, fields.Keys);
        EventHasStep(cfg, secrets, v, path, kept, r, Keys(fields.Keys));
    }
  }

  lemma StringCounts(cfg: Config, secrets: seq<SecretRule>, v: Value, path: string, kept: bool, r: string)
    requires NonEmpty(secrets) && v.Str?
    ensures Counter(Effect(cfg, secrets, v, path), kept)[r] == |DocEvents(cfg, secrets, v, path, kept, r)|
  {
    hide RedactedLeaf, LeafEventsOf;
    var events, all := LeafEventsOf(cfg, secrets, v.s, path, kept, r), DocEvents(cfg, secrets, v, path, kept, r);
    LeafCounts(cfg, secrets, v.s, path, kept, r);
    assert path + PathOf([]) == path && LeafAt(v, []) == Some(v.s);
    assert all == set e | e in events :: DocEvent([], e);
    ImageSize(events, all, (e: Event) => DocEvent([], e));
  }

  lemma {:induction false} ItemCounts(
      cfg: Config, secrets: seq<SecretRule>, v: Value, path: string, kept: bool, r: string, n: nat)
    requires NonEmpty(secrets) && v.Arr? && n <= |v.items|
    ensures Counter(EffectItems(cfg, secrets, v, path, n), kept)[r] ==
            |Below(DocEvents(cfg, secrets, v, path, kept, r), Items(n))|
    decreases v, 0, n
  {
    hide DocEvents, Effect, Below, ItemPath;
    if n == 0 {
      assert Items(0) == {};
      NoneBelow(DocEvents(cfg, secrets, v, path, kept, r));
    } else {
      ItemCounts(cfg, secrets, v, path, kept, r, n - 1);
      PassCounts(cfg, secrets, v.items[n - 1], ItemPath(path, n - 1), kept, r);
      assert Items(n) == Items(n - 1) + {Item(n - 1)};
      OneMore(cfg, secrets, v, path, kept, r, Items(n - 1), Item(n - 1));
    }
  }

  lemma {:induction false} KeyCounts(
      cfg: Config, secrets: seq<SecretRule>, v: Value, path: string, kept: bool, r: string, keys: set<string>)
    requires NonEmpty(secrets) && v.Obj? && keys <= v.fields.Keys
    ensures Counter(EffectKeys(cfg, secrets, v, path, keys), kept)[r] ==
            |Below(DocEvents(cfg, secrets, v, path, kept, r), Keys(keys))|
    decreases v, 0, |keys|
  {
    hide DocEvents, Effect, Below, KeyPath;
    if keys == {} {
      assert Keys(keys) == {};
      NoneBelow(DocEvents(cfg, secrets, v, path, kept, r));
    } else {
      var k :| k in keys;
      EffectKeysAnyOrder(cfg, secrets, v, path, keys, k);
      KeyCounts(cfg, secrets, v, path, kept, r, keys - {k});
      PassCounts(cfg, secrets, v.fields[k], KeyPath(path, k), kept, r);
      assert Keys(keys) == Keys(keys - {k}) + {Key(k)};
      OneMore(cfg, secrets, v, path, kept, r, Keys(keys - {k}), Key(k));
    }
  }

  // ---- Which secrets a pass met -----------------------------------------------------------------------------------

  /** t was kept, or substituted, in the leaf at steps. */
  ghost predicate MetIn(
      cfg: Config, secrets: seq<SecretRule>, v: Value, path: string, kept: bool, t: string, steps: seq<Edge>)
    requires NonEmpty(secrets)
  {
    LeafAt(v, steps).Some? && LeafMet(cfg, secrets, LeafAt(v, steps).value, path + PathOf(steps), kept, t)
  }

  /** A leaf that the filter protects holds t. */
  ghost predicate ProtectedAt(cfg: Config, v: Value, path: string, t: string, steps: seq<Edge>) {
    && LeafAt(v, steps).Some? && !cfg.pathFilter(path + PathOf(steps))
    && Contains(Encode(LeafAt(v, steps).value), t)
  }

  /** The three sets of a tally. */
  datatype Which = KeptSet | LocatedSet | ProtectedSet

  ghost predicate In(tally: Tally, which: Which, t: string) {
    match which
    case KeptSet => t in tally.kept
    case LocatedSet => t in tally.located
    case ProtectedSet => t in tally.protected
  }

  ghost predicate InAt(
      cfg: Config, secrets: seq<SecretRule>, v: Value, path: string, which: Which, t: string, steps: seq<Edge>)
    requires NonEmpty(secrets)
  {
    match which
    case KeptSet => MetIn(cfg, secrets, v, path, true, t, steps)
    case LocatedSet => MetIn(cfg, secrets, v, path, false, t, steps)
    case ProtectedSet => t in Secrets(secrets) && ProtectedAt(cfg, v, path, t, steps)
  }

  lemma InAtBelow(
      cfg: Config, secrets: seq<SecretRule>, v: Value, path: string, which: Which, t: string, steps: seq<Edge>)
    requires NonEmpty(secrets) && steps != [] && Has(v, steps[0])
    ensures InAt(cfg, secrets, v, path, which, t, steps) <==>
            InAt(cfg, secrets, Child(v, steps[0]), Extended(path, steps[0]), which, t, steps[1..])
  {
    hide LeafMet, Itoa, KeyPath, ItemPath, Contains, Encode;
    FindUnfold(v, steps);
    ExtendedPath(path, steps);
  }

  lemma InLeaf(cfg: Config, secrets: seq<SecretRule>, v: Value, path: string, which: Which, t: string)
    requires NonEmpty(secrets) && v.Str?
    ensures In(Effect(cfg, secrets, v, path), which, t) <==> InAt(cfg, secrets, v, path, which, t, [])
  {
    hide RedactedLeaf, LeafMet, Contains, Encode;
    LeafRecords(cfg, secrets, v.s, path, t);
    assert path + PathOf([]) == path;
  }

  lemma InPlus(a: Tally, b: Tally, which: Which, t: string)
    ensures In(Plus(a, b), which, t) <==> In(a, which, t) || In(b, which, t)
    ensures !In(ZERO, which, t)
  {
  }

  /** What a pass records is recorded in one of the leaves. */
  lemma {:induction false} RecordedThere(
      cfg: Config, secrets: seq<SecretRule>, v: Value, path: string, which: Which, t: string) returns (steps: seq<Edge>)
    requires NonEmpty(secrets) && In(Effect(cfg, secrets, v, path), which, t)
    ensures InAt(cfg, secrets, v, path, which, t, steps)
    decreases v, 1, 0
  {
    hide InAt, In, RedactedLeaf, EffectItems, EffectKeys;
    InPlus(ZERO, ZERO, which, t);
    match v {
      case Str(_) =>
        InLeaf(cfg, secrets, v, path, which, t);
        steps := [];
      case Arr(items) => steps := RecordedInItems(cfg, secrets, v, path, which, t, |items|);
      case Obj(fields) => steps := RecordedInKeys(cfg, secrets, v, path, which, t, fields.Keys);
    }
  }

  lemma {:induction false} RecordedInItems(
      cfg: Config, secrets: seq<SecretRule>, v: Value, path: string, which: Which, t: string, n: nat)
    returns (steps: seq<Edge>)
    requires NonEmpty(secrets) && v.Arr? && n <= |v.items| && In(EffectItems(cfg, secrets, v, path, n), which, t)
    ensures InAt(cfg, secrets, v, path, which, t, steps)
    decreases v, 0, n
  {
    hide InAt, In, Effect, ItemPath, Plus;
    InPlus(ZERO, ZERO, which, t);
    var at := ItemPath(path, n - 1);
    InPlus(EffectItems(cfg, secrets, v, path, n - 1), Effect(cfg, secrets, v.items[n - 1], at), which, t);
    if In(EffectItems(cfg, secrets, v, path, n - 1), which, t) {
      steps := RecordedInItems(cfg, secrets, v, path, which, t, n - 1);
    } else {
      var rest := RecordedThere(cfg, secrets, v.items[n - 1], at, which, t);
      steps := [Item(n - 1)] + rest;
      assert steps[1..] == rest;
      InAtBelow(cfg, secrets, v, path, which, t, steps);
    }
  }

  lemma {:induction false} RecordedInKeys(
      cfg: Config, secrets: seq<SecretRule>, v: Value, path: string, which: Which, t: string, keys: set<string>)
    returns (steps: seq<Edge>)
    requires NonEmpty(secrets) && v.Obj? && keys <= v.fields.Keys
    requires In(EffectKeys(cfg, secrets, v, path, keys), which, t)
    ensures InAt(cfg, secrets, v, path, which, t, steps)
    decreases v, 0, |keys|
  {
    hide InAt, In, Effect, KeyPath, Plus;
    InPlus(ZERO, ZERO, which, t);
    assert keys != {};
    var k :| k in keys;
    var at := KeyPath(path, k);
    EffectKeysAnyOrder(cfg, secrets, v, path, keys, k);
    InPlus(Effect(cfg, secrets, v.fields[k], at), EffectKeys(cfg, secrets, v, path, keys - {k}), which, t);
    if In(Effect(cfg, secrets, v.fields[k], at), which, t) {
      var rest := RecordedThere(cfg, secrets, v.fields[k], at, which, t);
      steps := [Key(k)] + rest;
      assert steps[1..] == rest;
      InAtBelow(cfg, secrets, v, path, which, t, steps);
    } else {
      steps := RecordedInKeys(cfg, secrets, v, path, which, t, keys - {k});
    }
  }

  lemma {:induction false} ThereIsRecorded(
      cfg: Config, secrets: seq<SecretRule>, v: Value, path: string, which: Which, t: string, steps: seq<Edge>)
    requires NonEmpty(secrets) && InAt(cfg, secrets, v, path, which, t, steps)
    ensures In(Effect(cfg, secrets, v, path), which, t)
    decreases |steps|
  {
    hide In, RedactedLeaf, EffectItems, EffectKeys, LeafMet, Contains, Encode, PathOf;
    if steps == [] {
      InLeaf(cfg, secrets, v, path, which, t);
    } else {
      FindUnfold(v, steps);
      InAtBelow(cfg, secrets, v, path, which, t, steps);
      ThereIsRecorded(cfg, secrets, Child(v, steps[0]), Extended(path, steps[0]), which, t, steps[1..]);
      InChild(cfg, secrets, v, path, which, t, steps[0]);
    }
  }

  lemma InChild(cfg: Config, secrets: seq<SecretRule>, v: Value, path: string, which: Which, t: string, step: Edge)
    requires NonEmpty(secrets) && Has(v, step)
    requires In(Effect(cfg, secrets, Child(v, step), Extended(path, step)), which, t)
    ensures In(Effect(cfg, secrets, v, path), which, t)
  {
    hide In, EffectItems, EffectKeys, ItemPath, KeyPath, RedactedLeaf;
    match step {
      case Item(i) => InItem(cfg, secrets, v, path, which, t, |v.items|, i);
      case Key(k) =>
        EffectKeysAnyOrder(cfg, secrets, v, path, v.fields.Keys, k);
        InPlus(Effect(cfg, secrets, v.fields[k], KeyPath(path, k)),
               EffectKeys(cfg, secrets, v, path, v.fields.Keys - {k}), which, t);
    }
  }

  lemma {:induction false} InItem(
      cfg: Config, secrets: seq<SecretRule>, v: Value, path: string, which: Which, t: string, n: nat, i: nat)
    requires NonEmpty(secrets) && v.Arr? && i < n <= |v.items|
    requires In(Effect(cfg, secrets, v.items[i], ItemPath(path, i)), which, t)
    ensures In(EffectItems(cfg, secrets, v, path, n), which, t)
    decreases n
  {
    hide In, Effect, ItemPath, Plus;
    InPlus(EffectItems(cfg, secrets, v, path, n - 1),
           Effect(cfg, secrets, v.items[n - 1], ItemPath(path, n - 1)), which, t);
    if i < n - 1 { InItem(cfg, secrets, v, path, which, t, n - 1, i); }
  }

  /** A pass records a secret as kept, as located or as protected if and only if a leaf of the document makes it. */
  lemma PassRecordsIff(cfg: Config, secrets: seq<SecretRule>, v: Value, path: string, which: Which, t: string)
    requires NonEmpty(secrets)
    ensures In(Effect(cfg, secrets, v, path), which, t) <==>
      exists steps :: InAt(cfg, secrets, v, path, which, t, steps)
  {
    hide In, InAt, Effect;
    if In(Effect(cfg, secrets, v, path), which, t) {
      var steps := RecordedThere(cfg, secrets, v, path, which, t);
    }
    if steps :| InAt(cfg, secrets, v, path, which, t, steps) {
      ThereIsRecorded(cfg, secrets, v, path, which, t, steps);
    }
  }
}
