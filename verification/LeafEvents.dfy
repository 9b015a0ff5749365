/** What a pass counts in a leaf, as a set of events: which secret was met at its turn, and where. */
module LeafEvents {
  import opened Options
  import opened Text
  import opened Escapes
  import opened StringBody
  import opened Breaks
  import opened Masking
  import opened Markers
  import opened LineWise
  import opened Pending
  import opened Leaf
  import opened LeafLines
  import opened LinePositions
  import opened Survival

  // ---- Sizes of sets -------------------------------------------------------------------------------------------

  /** A set and its image under a function that tells its elements apart have the same size. */
  lemma {:induction false} ImageSize<A, B>(s: set<A>, t: set<B>, f: A -> B)
    requires (forall a | a in s :: f(a) in t) && (forall b | b in t :: exists a | a in s :: f(a) == b)
    requires forall a, b | a in s && b in s && f(a) == f(b) :: a == b
    ensures |s| == |t|
    decreases |s|
  {
    if s == {} {
      assert t == {};
    } else {
      var a :| a in s;
      forall b | b in t - {f(a)} ensures exists x | x in s - {a} :: f(x) == b {
        var x :| x in s && f(x) == b;
      }
      ImageSize(s - {a}, t - {f(a)}, f);
    }
  }

  lemma UnionSize<A>(s: set<A>, t: set<A>, u: set<A>)
    requires s !! t && u == s + t
    ensures |u| == |s| + |t|
  {
  }

  // ---- Occurrences taken from the left ---------------------------------------------------------------------------

  /** The occurrence of sub at p is one of those taken from the left, without overlap. */
  predicate TakenAt(s: string, sub: string, p: int)
    requires sub != ""
  {
    SubstitutedAt(s, sub, {}, p)
  }

  /** Those that are kept, or those that are not. */
  function TakenSet(s: string, sub: string, keep: set<int>, kept: bool): set<int>
    requires sub != ""
  {
    set p | 0 <= p <= |s| && TakenAt(s, sub, p) && (|s| - p in keep <==> kept)
  }

  lemma TakenUnfold(s: string, sub: string, i: int, rest: string, p: int)
    requires sub != "" && i == Index(s, sub)
    ensures i < 0 ==> !TakenAt(s, sub, p)
    ensures i >= 0 && rest == s[i + |sub|..] ==> (TakenAt(s, sub, p) <==> p == i || TakenAt(rest, sub, p - i - |sub|))
  {
    hide SubstitutedAt, Index;
    SubstitutedUnfold(s, sub, {}, i, rest, p);
  }

  /** How many are kept and how many are not. */
  lemma {:induction false} TakenCount(s: string, sub: string, keep: set<int>)
    requires sub != ""
    ensures KeptCount(s, sub, keep) == |TakenSet(s, sub, keep, true)|
    ensures Count(s, sub) - KeptCount(s, sub, keep) == |TakenSet(s, sub, keep, false)|
    decreases |s|
  {
    hide Index, TakenAt, Count, KeptCount;
    var i := Index(s, sub);
    if i < 0 {
      forall p ensures !TakenAt(s, sub, p) { TakenUnfold(s, sub, i, "", p); }
      NothingCounted(s, sub, keep);
      assert TakenSet(s, sub, keep, true) == {} && TakenSet(s, sub, keep, false) == {};
    } else {
      var rest := s[i + |sub|..];
      TakenCount(rest, sub, keep);
      CountUnfold(s, sub, keep, i, rest, |s| - i);
      TakenStep(s, sub, keep, i, rest, true);
      TakenStep(s, sub, keep, i, rest, false);
    }
  }

  lemma NothingCounted(s: string, sub: string, keep: set<int>)
    requires sub != "" && Index(s, sub) < 0
    ensures Count(s, sub) == 0 && KeptCount(s, sub, keep) == 0
  {
  }

  lemma TakenInText(s: string, sub: string, p: int)
    requires sub != "" && TakenAt(s, sub, p)
    ensures At(s, p, sub)
  {
    hide SubstitutedAt;
    SubstitutedInText(s, sub, {}, p);
  }

  lemma TakenMember(s: string, sub: string, keep: set<int>, i: nat, rest: string, kept: bool, p: int)
    requires sub != "" && i == Index(s, sub) && rest == s[i + |sub|..]
    ensures p in TakenSet(s, sub, keep, kept) <==>
      (p == i && (|s| - i in keep <==> kept)) || p - (i + |sub|) in TakenSet(rest, sub, keep, kept)
  {
    hide Index, TakenAt;
    var q := p - (i + |sub|);
    TakenUnfold(s, sub, i, rest, p);
    if TakenAt(rest, sub, q) { TakenInText(rest, sub, q); }
    assert |s| - p == |rest| - q;
  }

  function Shifted(part: set<int>, n: int): set<int> {
    set p | p in part :: p + n
  }

  lemma ShiftedMember(part: set<int>, n: int, q: int)
    ensures q in Shifted(part, n) <==> q - n in part
  {
    if q - n in part { assert q == (q - n) + n; }
  }

  lemma ShiftedSize(part: set<int>, n: int)
    ensures |Shifted(part, n)| == |part|
  {
    ImageSize(part, Shifted(part, n), p => p + n);
  }

  lemma TakenStep(s: string, sub: string, keep: set<int>, i: nat, rest: string, kept: bool)
    requires sub != "" && i == Index(s, sub) && rest == s[i + |sub|..]
    ensures |TakenSet(s, sub, keep, kept)| ==
      (if |s| - i in keep <==> kept then 1 else 0) + |TakenSet(rest, sub, keep, kept)|
  {
    hide Index, TakenAt, TakenSet, Shifted;
    var n, one := i + |sub|, |s| - i in keep <==> kept;
    var all, part := TakenSet(s, sub, keep, kept), TakenSet(rest, sub, keep, kept);
    var first, later := if one then {i} else {}, Shifted(part, n);
    forall p ensures p in all <==> p in first + later {
      TakenMember(s, sub, keep, i, rest, kept, p);
      ShiftedMember(part, n, p);
    }
    assert i !in later by {
      ShiftedMember(part, n, i);
      PartInText(rest, sub, keep, kept);
    }
    UnionSize(first, later, all);
    ShiftedSize(part, n);
  }

  lemma PartInText(s: string, sub: string, keep: set<int>, kept: bool)
    requires sub != ""
    ensures forall p | p in TakenSet(s, sub, keep, kept) :: 0 <= p
  {
  }

  /** A text holds a string if and only if an occurrence is taken. */
  lemma TakenIffContains(s: string, sub: string)
    requires sub != ""
    ensures Contains(s, sub) <==> exists p :: TakenAt(s, sub, p)
  {
    hide TakenAt, Contains;
    ContainsIffIndex(s, sub);
    var i := Index(s, sub);
    forall p ensures TakenAt(s, sub, p) ==> i >= 0 { TakenUnfold(s, sub, i, "", p); }
    if i >= 0 { TakenUnfold(s, sub, i, s[i + |sub|..], i); }
  }

  // ---- Events of a body ------------------------------------------------------------------------------------------

  /** The body when it is the turn of secret k. */
  function TurnBody(cfg: Config, secrets: seq<SecretRule>, marked: bool, body: string, k: nat): string
    requires NonEmpty(secrets) && k <= |secrets|
    decreases k
  {
    if k == 0 then body
    else
      assert forall x | x in secrets[1..] :: x in secrets;
      TurnBody(cfg, secrets[1..], marked, StepBody(cfg, secrets[0], marked, body), k - 1)
  }

  /** An occurrence of the secret whose turn it is. */
  datatype Event = Event(turn: nat, at: int)

  /** The occurrence at p of a body lies within a line that carries a marker. */
  predicate OnAllowedLine(body: string, secret: string, p: int) {
    Within(AllowedFrom(body, 0), p, p + |secret|)
  }

  /** At its turn a secret of rule r is met at a position: kept there on an allowed line, or substituted. */
  predicate Happens(cfg: Config, secrets: seq<SecretRule>, marked: bool, body: string, kept: bool, r: string, e: Event)
    requires NonEmpty(secrets)
  {
    && e.turn < |secrets| && secrets[e.turn].ruleID == r && Met(cfg, secrets, marked, body, kept, e)
  }

  predicate Met(cfg: Config, secrets: seq<SecretRule>, marked: bool, body: string, kept: bool, e: Event)
    requires NonEmpty(secrets) && e.turn < |secrets|
  {
    var now, secret := TurnBody(cfg, secrets, marked, body, e.turn), secrets[e.turn].secret;
    && 0 <= e.at <= |now| && TakenAt(now, secret, e.at)
    && (kept <==> marked && OnAllowedLine(now, secret, e.at))
  }

  function Events(cfg: Config, secrets: seq<SecretRule>, marked: bool, body: string, kept: bool, r: string): set<Event>
    requires NonEmpty(secrets)
  {
    set k, p | 0 <= k < |secrets| && 0 <= p <= |TurnBody(cfg, secrets, marked, body, k)|
               && Happens(cfg, secrets, marked, body, kept, r, Event(k, p)) :: Event(k, p)
  }

  lemma EventsIff(
      cfg: Config, secrets: seq<SecretRule>, marked: bool, body: string, kept: bool, r: string, e: Event)
    requires NonEmpty(secrets)
    ensures e in Events(cfg, secrets, marked, body, kept, r) <==> Happens(cfg, secrets, marked, body, kept, r, e)
  {
    hide TurnBody, TakenAt, OnAllowedLine;
  }

  lemma SparedIff(body: string, secret: string, marked: bool, p: int)
    requires 0 <= p <= |body|
    ensures |body| - p in Spared(body, secret, marked) <==> marked && OnAllowedLine(body, secret, p)
  {
    hide AllowedFrom;
  }

  /** The first turn. */
  lemma FirstTurn(cfg: Config, secrets: seq<SecretRule>, marked: bool, body: string, kept: bool, r: string, p: int)
    requires NonEmpty(secrets) && secrets != []
    ensures var sr := secrets[0];
      Happens(cfg, secrets, marked, body, kept, r, Event(0, p)) <==>
      sr.ruleID == r && p in TakenSet(body, sr.secret, Spared(body, sr.secret, marked), kept)
  {
    hide TakenAt, OnAllowedLine, Spared;
    if 0 <= p <= |body| { SparedIff(body, secrets[0].secret, marked, p); }
  }

  /** The later turns are those of the rest of the list. */
  lemma LaterTurn(cfg: Config, secrets: seq<SecretRule>, marked: bool, body: string, kept: bool, r: string, e: Event)
    requires NonEmpty(secrets) && secrets != [] && e.turn > 0
    ensures NonEmpty(secrets[1..])
    ensures var next := StepBody(cfg, secrets[0], marked, body);
      Happens(cfg, secrets, marked, body, kept, r, e) <==>
      Happens(cfg, secrets[1..], marked, next, kept, r, Event(e.turn - 1, e.at))
  {
    hide TakenAt, OnAllowedLine, StepBody;
    assert forall x | x in secrets[1..] :: x in secrets;
  }

  /** The turns of the rest of the list, counted from the whole list. */
  function OneLater(events: set<Event>): set<Event> {
    set e | e in events :: Event(e.turn + 1, e.at)
  }

  lemma OneLaterSize(events: set<Event>)
    ensures |OneLater(events)| == |events|
    ensures forall e :: e in OneLater(events) <==> e.turn > 0 && Event(e.turn - 1, e.at) in events
  {
    ImageSize(events, OneLater(events), (e: Event) => Event(e.turn + 1, e.at));
    forall e: Event | e.turn > 0 && Event(e.turn - 1, e.at) in events ensures e in OneLater(events) {
      var x := Event(e.turn - 1, e.at);
      assert e == Event(x.turn + 1, x.at);
    }
  }

  function AtFirst(positions: set<int>): set<Event> {
    set p | p in positions :: Event(0, p)
  }

  lemma AtFirstSize(positions: set<int>)
    ensures |AtFirst(positions)| == |positions|
  {
    ImageSize(positions, AtFirst(positions), p => Event(0, p));
  }

  lemma EventsStep(cfg: Config, secrets: seq<SecretRule>, marked: bool, body: string, kept: bool, r: string)
    requires NonEmpty(secrets) && secrets != []
    ensures NonEmpty(secrets[1..])
    ensures var sr := secrets[0];
      |Events(cfg, secrets, marked, body, kept, r)| ==
      (if sr.ruleID == r then |TakenSet(body, sr.secret, Spared(body, sr.secret, marked), kept)| else 0)
      + |Events(cfg, secrets[1..], marked, StepBody(cfg, sr, marked, body), kept, r)|
  {
    hide TakenSet, Spared, StepBody, Happens, Events;
    assert forall x | x in secrets[1..] :: x in secrets;
    var sr, rest, next := secrets[0], secrets[1..], StepBody(cfg, secrets[0], marked, body);
    var taken := TakenSet(body, sr.secret, Spared(body, sr.secret, marked), kept);
    var first := if sr.ruleID == r then AtFirst(taken) else {};
    var part := Events(cfg, rest, marked, next, kept, r);
    OneLaterSize(part);
    AtFirstSize(taken);
    forall e ensures e in Events(cfg, secrets, marked, body, kept, r) <==> e in first + OneLater(part) {
      EventsIff(cfg, secrets, marked, body, kept, r, e);
      if e.turn == 0 {
        FirstTurn(cfg, secrets, marked, body, kept, r, e.at);
        assert e == Event(0, e.at);
      } else {
        LaterTurn(cfg, secrets, marked, body, kept, r, e);
        EventsIff(cfg, rest, marked, next, kept, r, Event(e.turn - 1, e.at));
      }
    }
    UnionSize(first, OneLater(part), Events(cfg, secrets, marked, body, kept, r));
  }

  /** What a fold counts for a rule is how often it kept and substituted secrets of that rule. */
  lemma {:induction false} FoldCounts(cfg: Config, secrets: seq<SecretRule>, marked: bool, body: string, r: string)
    requires NonEmpty(secrets)
    ensures var t := Apply(cfg, secrets, marked, body).tally;
      && t.allowed[r] == |Events(cfg, secrets, marked, body, true, r)|
      && t.byRule[r] == |Events(cfg, secrets, marked, body, false, r)|
    decreases |secrets|
  {
    hide Apply, StepBody, StepTally, TakenSet, Spared;
    if secrets == [] {
      ApplyNone(cfg, marked, body);
    } else {
      hide Events;
      var sr := secrets[0];
      ApplyUnfold(cfg, secrets, marked, body);
      StepCounts(sr, marked, body, r);
      EventsStep(cfg, secrets, marked, body, true, r);
      EventsStep(cfg, secrets, marked, body, false, r);
      FoldCounts(cfg, secrets[1..], marked, StepBody(cfg, sr, marked, body), r);
    }
  }

  lemma StepCounts(sr: SecretRule, marked: bool, body: string, r: string)
    requires sr.secret != ""
    ensures var t, spared := StepTally(sr, marked, body), Spared(body, sr.secret, marked);
      && t.allowed[r] == (if sr.ruleID == r then |TakenSet(body, sr.secret, spared, true)| else 0)
      && t.byRule[r] == (if sr.ruleID == r then |TakenSet(body, sr.secret, spared, false)| else 0)
  {
    hide TakenSet, Spared, Count, KeptCount;
    TakenCount(body, sr.secret, Spared(body, sr.secret, marked));
  }

  // ---- Which secrets were met -------------------------------------------------------------------------------

  /** A secret was kept at its turn, or substituted. */
  ghost predicate MetAs(cfg: Config, secrets: seq<SecretRule>, marked: bool, body: string, kept: bool, t: string)
    requires NonEmpty(secrets)
  {
    exists e: Event | e.turn < |secrets| :: secrets[e.turn].secret == t && Met(cfg, secrets, marked, body, kept, e)
  }

  lemma {:induction false} FoldRecords(cfg: Config, secrets: seq<SecretRule>, marked: bool, body: string, t: string)
    requires NonEmpty(secrets)
    ensures var tally := Apply(cfg, secrets, marked, body).tally;
      && (t in tally.kept <==> MetAs(cfg, secrets, marked, body, true, t))
      && (t in tally.located <==> MetAs(cfg, secrets, marked, body, false, t))
      && tally.protected == {}
    decreases |secrets|
  {
    hide Apply, StepBody, StepTally, Met;
    if secrets == [] {
      ApplyNone(cfg, marked, body);
    } else {
      hide MetAs;
      var sr, next := secrets[0], StepBody(cfg, secrets[0], marked, body);
      ApplyUnfold(cfg, secrets, marked, body);
      FoldRecords(cfg, secrets[1..], marked, next, t);
      StepRecords(cfg, secrets, marked, body, t);
      MetStep(cfg, secrets, marked, body, true, t);
      MetStep(cfg, secrets, marked, body, false, t);
    }
  }

  lemma SomePosition(s: set<int>)
    ensures |s| > 0 <==> exists p: int :: p in s
  {
    var events := AtFirst(s);
    AtFirstSize(s);
    if |s| > 0 { var e: Event :| e in events; }
  }

  lemma StepRecords(cfg: Config, secrets: seq<SecretRule>, marked: bool, body: string, t: string)
    requires NonEmpty(secrets) && secrets != []
    ensures var sr := secrets[0]; var tally := StepTally(sr, marked, body);
      && (t in tally.kept <==> t == sr.secret && exists p :: Met(cfg, secrets, marked, body, true, Event(0, p)))
      && (t in tally.located <==> t == sr.secret && exists p :: Met(cfg, secrets, marked, body, false, Event(0, p)))
      && tally.protected == {}
  {
    hide TakenSet, Spared, Count, KeptCount, Met;
    var sr := secrets[0];
    var spared := Spared(body, sr.secret, marked);
    TakenCount(body, sr.secret, spared);
    var yes, no := TakenSet(body, sr.secret, spared, true), TakenSet(body, sr.secret, spared, false);
    forall p ensures Met(cfg, secrets, marked, body, true, Event(0, p)) <==> p in yes {
      FirstTurn(cfg, secrets, marked, body, true, sr.ruleID, p);
    }
    forall p ensures Met(cfg, secrets, marked, body, false, Event(0, p)) <==> p in no {
      FirstTurn(cfg, secrets, marked, body, false, sr.ruleID, p);
    }
    SomePosition(yes);
    SomePosition(no);
    if p :| p in yes { assert Met(cfg, secrets, marked, body, true, Event(0, p)); }
    if p :| p in no { assert Met(cfg, secrets, marked, body, false, Event(0, p)); }
  }

  lemma MetLater(cfg: Config, secrets: seq<SecretRule>, marked: bool, body: string, kept: bool, e: Event)
    requires NonEmpty(secrets) && 0 < e.turn < |secrets|
    ensures NonEmpty(secrets[1..])
    ensures Met(cfg, secrets, marked, body, kept, e) <==>
            Met(cfg, secrets[1..], marked, StepBody(cfg, secrets[0], marked, body), kept, Event(e.turn - 1, e.at))
  {
    hide Met, StepBody;
    LaterTurn(cfg, secrets, marked, body, kept, secrets[e.turn].ruleID, e);
  }

  lemma MetStep(cfg: Config, secrets: seq<SecretRule>, marked: bool, body: string, kept: bool, t: string)
    requires NonEmpty(secrets) && secrets != []
    ensures NonEmpty(secrets[1..])
    ensures var next := StepBody(cfg, secrets[0], marked, body);
      MetAs(cfg, secrets, marked, body, kept, t) <==>
      || (t == secrets[0].secret && exists p :: Met(cfg, secrets, marked, body, kept, Event(0, p)))
      || MetAs(cfg, secrets[1..], marked, next, kept, t)
  {
    hide Met, StepBody;
    assert forall x | x in secrets[1..] :: x in secrets;
    var rest, next := secrets[1..], StepBody(cfg, secrets[0], marked, body);
    if e: Event :| e.turn < |secrets| && secrets[e.turn].secret == t && Met(cfg, secrets, marked, body, kept, e) {
      if e.turn == 0 {
        assert e == Event(0, e.at);
      } else {
        MetLater(cfg, secrets, marked, body, kept, e);
        assert rest[Event(e.turn - 1, e.at).turn].secret == t;
      }
    }
    if e: Event :| e.turn < |rest| && rest[e.turn].secret == t && Met(cfg, rest, marked, next, kept, e) {
      var x := Event(e.turn + 1, e.at);
      assert secrets[x.turn].secret == t && Event(x.turn - 1, x.at) == e;
      MetLater(cfg, secrets, marked, body, kept, x);
    }
  }

  /** At its turn a secret is in the body if and only if it is kept or substituted there. */
  lemma MetIffContains(cfg: Config, secrets: seq<SecretRule>, marked: bool, body: string, k: nat)
    requires NonEmpty(secrets) && k < |secrets|
    ensures Contains(TurnBody(cfg, secrets, marked, body, k), secrets[k].secret) <==>
      exists kept, p :: Met(cfg, secrets, marked, body, kept, Event(k, p))
  {
    hide TurnBody, TakenAt, OnAllowedLine, Contains;
    var now, secret := TurnBody(cfg, secrets, marked, body, k), secrets[k].secret;
    TakenIffContains(now, secret);
    if p :| TakenAt(now, secret, p) {
      TakenInText(now, secret, p);
      assert Met(cfg, secrets, marked, body, marked && OnAllowedLine(now, secret, p), Event(k, p));
    }
  }

  // ---- The rule of a dropped leaf ---------------------------------------------------------------------------

  /** Secret k is the last one that is substituted. */
  ghost predicate LastSubstituted(cfg: Config, secrets: seq<SecretRule>, marked: bool, body: string, k: nat)
    requires NonEmpty(secrets)
  {
    && k < |secrets| && (exists p :: Met(cfg, secrets, marked, body, false, Event(k, p)))
    && forall j, p | k < j < |secrets| :: !Met(cfg, secrets, marked, body, false, Event(j, p))
  }

  lemma {:induction false} LastIsLatest(cfg: Config, secrets: seq<SecretRule>, marked: bool, body: string)
    returns (k: nat)
    requires NonEmpty(secrets) && Apply(cfg, secrets, marked, body).tally.count > 0
    ensures k < |secrets| && LastSubstituted(cfg, secrets, marked, body, k)
    ensures Apply(cfg, secrets, marked, body).last == secrets[k].ruleID
    decreases |secrets|
  {
    hide Apply, StepBody, StepTally, Met;
    if secrets == [] { ApplyNone(cfg, marked, body); }
    ApplyUnfold(cfg, secrets, marked, body);
    var sr, rest, next := secrets[0], secrets[1..], StepBody(cfg, secrets[0], marked, body);
    forall j, p | 0 < j < |secrets|
      ensures Met(cfg, secrets, marked, body, false, Event(j, p)) <==>
              Met(cfg, rest, marked, next, false, Event(j - 1, p))
    {
      LaterTurn(cfg, secrets, marked, body, false, secrets[j].ruleID, Event(j, p));
    }
    if Apply(cfg, rest, marked, next).tally.count > 0 {
      var i := LastIsLatest(cfg, rest, marked, next);
      k := i + 1;
      var p :| Met(cfg, rest, marked, next, false, Event(i, p));
      assert Met(cfg, secrets, marked, body, false, Event(k, p));
      forall j, x | k < j < |secrets| ensures !Met(cfg, secrets, marked, body, false, Event(j, x)) {
        assert !Met(cfg, rest, marked, next, false, Event(j - 1, x));
      }
    } else {
      k := 0;
      NoneLater(cfg, rest, marked, next);
      forall j, x | 0 < j < |secrets| ensures !Met(cfg, secrets, marked, body, false, Event(j, x)) {
        assert !Met(cfg, rest, marked, next, false, Event(j - 1, x));
      }
      StepCountPositive(cfg, secrets, marked, body);
    }
  }

  lemma NoneLater(cfg: Config, secrets: seq<SecretRule>, marked: bool, body: string)
    requires NonEmpty(secrets) && Apply(cfg, secrets, marked, body).tally.count == 0
    ensures forall j, p | 0 <= j < |secrets| :: !Met(cfg, secrets, marked, body, false, Event(j, p))
  {
    hide Apply, Met, Events;
    forall j, p | 0 <= j < |secrets| ensures !Met(cfg, secrets, marked, body, false, Event(j, p)) {
      var r := secrets[j].ruleID;
      FoldCounts(cfg, secrets, marked, body, r);
      EventsIff(cfg, secrets, marked, body, false, r, Event(j, p));
      TotalBounds(cfg, secrets, marked, body, r);
    }
  }

  lemma {:induction false} TotalBounds(cfg: Config, secrets: seq<SecretRule>, marked: bool, body: string, r: string)
    requires NonEmpty(secrets)
    ensures Apply(cfg, secrets, marked, body).tally.byRule[r] <= Apply(cfg, secrets, marked, body).tally.count
    decreases |secrets|
  {
    hide Apply, StepBody, Count, KeptCount;
    if secrets == [] {
      ApplyNone(cfg, marked, body);
    } else {
      ApplyUnfold(cfg, secrets, marked, body);
      TotalBounds(cfg, secrets[1..], marked, StepBody(cfg, secrets[0], marked, body), r);
    }
  }

  lemma StepCountPositive(cfg: Config, secrets: seq<SecretRule>, marked: bool, body: string)
    requires NonEmpty(secrets) && secrets != [] && StepTally(secrets[0], marked, body).count > 0
    ensures exists p :: Met(cfg, secrets, marked, body, false, Event(0, p))
  {
    hide Met, Count, KeptCount;
    StepRecords(cfg, secrets, marked, body, secrets[0].secret);
  }

  /** A leaf that no longer decodes becomes the placeholder for the last secret that was substituted in it. */
  lemma DroppedForLast(cfg: Config, secrets: seq<SecretRule>, s: string, path: string)
    requires NonEmpty(secrets) && cfg.pathFilter(path)
    requires Decode(Apply(cfg, secrets, Marked(cfg, Encode(s)), Encode(s)).body).None?
    ensures exists k: nat | k < |secrets| ::
      && LastSubstituted(cfg, secrets, Marked(cfg, Encode(s)), Encode(s), k)
      && RedactedLeaf(cfg, secrets, s, path).out == cfg.placeholder(secrets[k].ruleID)
  {
    hide Apply, Encode, Decode, LastSubstituted;
    var body, marked := Encode(s), Marked(cfg, Encode(s));
    DecodeEncode(s);
    if Apply(cfg, secrets, marked, body).tally.count == 0 { ApplyNothing(cfg, secrets, marked, body); }
    if Held(secrets, body) == {} { NothingHeld(cfg, secrets, marked, body); }
    var k := LastIsLatest(cfg, secrets, marked, body);
    assert RedactedLeaf(cfg, secrets, s, path).out == cfg.placeholder(secrets[k].ruleID);
  }

  // ---- Any occurrence of an aligned secret -----------------------------------------------------------------------

  /** Every occurrence overlaps with one that is taken, no further to the right. */
  lemma {:induction false} TakenCovers(s: string, sub: string, p: int) returns (q: int)
    requires sub != "" && At(s, p, sub)
    ensures TakenAt(s, sub, q) && q <= p < q + |sub|
    decreases |s|
  {
    hide Index, TakenAt;
    var i := Index(s, sub);
    IndexLeast(s, sub);
    var n := i + |sub|;
    TakenUnfold(s, sub, i, s[n..], i);
    if p < n {
      q := i;
    } else {
      assert s == s[..n] + s[n..];
      AtConcat(s[..n], s[n..], p, sub);
      var x := TakenCovers(s[n..], sub, p - n);
      q := x + n;
      TakenUnfold(s, sub, i, s[n..], q);
    }
  }

  lemma {:induction false} SpanStarts(body: string, start: nat)
    requires StartsLine(body, start) && !Esc(false, body)
    ensures forall span | span in AllowedFrom(body, start) :: StartsLine(body, span.start)
    decreases |body| - start
  {
    hide AllowedFrom, HasAllowMarker, Esc, BreakAt, LineStop;
    StopFacts(body, start);
    var e := LineStop(body, start);
    AllowedUnfold(body, start, body[start..e]);
    if e < |body| { SpanStarts(body, e + 2); } else { NothingBehind(body, e + 2); }
  }

  /** The taken occurrence that overlaps with an allowed one is allowed too. */
  lemma SameLine(body: string, secret: string, q: int, p: int)
    requires secret != "" && Aligned(body, secret) && !Esc(false, body)
    requires At(body, q, secret) && At(body, p, secret) && q <= p < q + |secret| && OnAllowedLine(body, secret, p)
    ensures OnAllowedLine(body, secret, q)
  {
    hide AllowedFrom, Esc, Aligned, BreakAt;
    var span :| span in AllowedFrom(body, 0) && span.start <= p && p + |secret| <= span.end;
    assert body[..0] == "";
    EscNothing();
    SpanStarts(body, 0);
    if q < span.start {
      var b := span.start - 2;
      AlignedStart(body, q, secret);
      AlignedStart(body, p, secret);
      EscAtBreak(body, b);
      BreakOfSecret(body, secret, q, b);
      BreakInBody(body, secret, p, b - q);
      SpanningIsNeverAllowed(body, p, p + |secret|, p + (b - q));
    }
  }

  lemma BreakOfSecret(body: string, secret: string, q: int, b: nat)
    requires At(body, q, secret) && !Esc(false, body[..q]) && BreakAt(body, b, LINE_BREAKS)
    requires q <= b && b + 2 <= q + |secret|
    ensures BreakAt(secret, b - q, LINE_BREAKS)
  {
    hide Esc;
    CutAt(body, q, secret);
    var behind := secret + body[q + |secret|..];
    assert body == body[..q] + behind;
    BreakShift(body[..q], behind, b - q, LINE_BREAKS);
    assert behind[..b - q] == secret[..b - q];
  }

  lemma BreakInBody(body: string, secret: string, p: int, at: nat)
    requires At(body, p, secret) && !Esc(false, body[..p]) && BreakAt(secret, at, LINE_BREAKS)
    ensures BreakAt(body, p + at, LINE_BREAKS)
  {
    hide Esc;
    CutAt(body, p, secret);
    var behind := secret + body[p + |secret|..];
    assert body == body[..p] + behind;
    assert behind[..at] == secret[..at];
    BreakShift(body[..p], behind, at, LINE_BREAKS);
  }

  /** For an aligned secret: one of the occurrences taken from the left lies within an allowed line if and only if any
      occurrence does. */
  lemma AnyOccurrence(body: string, secret: string)
    requires secret != "" && Aligned(body, secret) && !Esc(false, body)
    ensures (exists p :: TakenAt(body, secret, p) && OnAllowedLine(body, secret, p)) <==>
            exists p :: At(body, p, secret) && OnAllowedLine(body, secret, p)
  {
    hide TakenAt, OnAllowedLine, Aligned, Esc;
    if p :| TakenAt(body, secret, p) && OnAllowedLine(body, secret, p) { TakenInText(body, secret, p); }
    if p :| At(body, p, secret) && OnAllowedLine(body, secret, p) {
      var q := TakenCovers(body, secret, p);
      TakenInText(body, secret, q);
      SameLine(body, secret, q, p);
    }
  }

  // ---- Secrets that do not overlap --------------------------------------------------------------------------

  /** A string that neither the secret nor its placeholder touches is in the body before the turn if and only if it is
      in it behind. */
  lemma UntouchedStays(cfg: Config, sr: SecretRule, marked: bool, body: string, t: string)
    requires sr.secret != "" && Apart(t, sr.secret) && Apart(t, Mask(cfg, sr.ruleID))
    ensures Contains(StepBody(cfg, sr, marked, body), t) <==> Contains(body, t)
  {
    hide Text.Weave, Contains, Apart, Survivor, Mask, Spared, SubstitutedAt;
    var next, keep := StepBody(cfg, sr, marked, body), Spared(body, sr.secret, marked);
    assert "" + next == next && "" + body == body;
    TouchesNothing(t, sr.secret);
    SurvivesIff("", body, sr.secret, Mask(cfg, sr.ruleID), keep, t);
    if Contains(body, t) { Untouched(body, sr.secret, keep, t); }
    if !Contains(body, t) { NoNewOccurrence("", body, sr.secret, Mask(cfg, sr.ruleID), keep, t); }
  }

  lemma TouchesNothing(t: string, other: string)
    requires Apart(t, other)
    ensures t != ""
  {
  }

  lemma Untouched(body: string, sub: string, keep: set<int>, t: string)
    requires sub != "" && Apart(t, sub) && Contains(body, t)
    ensures Survivor("", body, sub, keep, t)
  {
    hide Apart, SubstitutedAt;
    var i :| 0 <= i <= |body| && At(body, i, t);
    CutAt(body, i, t);
    forall p | SubstitutedAt(body, sub, keep, p) ensures p + |sub| <= i || i + |t| <= p {
      SubstitutedInText(body, sub, keep, p);
      Disjoint(body[..i], t, body[i + |t|..], p, sub);
    }
    assert MeetsNone("", body, sub, keep, i, |t|);
    SurvivorAt("", body, sub, keep, t, i);
  }

  /** No earlier secret of the list, and no placeholder of one, touches secret k. */
  ghost predicate OnItsOwn(cfg: Config, secrets: seq<SecretRule>, k: nat)
    requires k < |secrets|
  {
    forall j | 0 <= j < k ::
      Apart(secrets[k].secret, secrets[j].secret) && Apart(secrets[k].secret, Mask(cfg, secrets[j].ruleID))
  }

  /** At its turn such a secret is in the body if and only if it was from the start. */
  lemma {:induction false} OwnTurn(cfg: Config, secrets: seq<SecretRule>, marked: bool, body: string, k: nat)
    requires NonEmpty(secrets) && k < |secrets| && OnItsOwn(cfg, secrets, k)
    ensures Contains(TurnBody(cfg, secrets, marked, body, k), secrets[k].secret) <==> Contains(body, secrets[k].secret)
    decreases k
  {
    hide Contains, Apart, StepBody;
    if k > 0 {
      assert forall x | x in secrets[1..] :: x in secrets;
      UntouchedStays(cfg, secrets[0], marked, body, secrets[k].secret);
      assert forall j | 0 <= j < |secrets| - 1 :: secrets[1..][j] == secrets[j + 1];
      OwnTurn(cfg, secrets[1..], marked, StepBody(cfg, secrets[0], marked, body), k - 1);
    }
  }
}
