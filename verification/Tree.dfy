/** A pass over a whole decoded document: every string leaf is redacted, and nothing else changes. */
module Tree {
  import opened Text
  import opened StringBody
  import opened Pending
  import opened Leaf

  /** A decoded JSON value. Numbers, booleans and null are scalars, kept in their textual form. */
  datatype Value = Str(s: string) | Scalar(text: string) | Arr(items: seq<Value>) | Obj(fields: map<string, Value>)

  function Digit(n: nat): char
    requires n < 10
  {
    "0123456789"[n]
  }

  /** strconv.Itoa */
  function Itoa(n: nat): string {
    if n < 10 then [Digit(n)] else Itoa(n / 10) + [Digit(n % 10)]
  }

  function KeyPath(path: string, key: string): string {
    path + "/" + key
  }

  function ItemPath(path: string, i: nat): string {
    path + "/" + Itoa(i)
  }

  /** The value a pass leaves in the place of v. */
  ghost function Rewritten(cfg: Config, secrets: seq<SecretRule>, v: Value, path: string): Value
    requires NonEmpty(secrets)
    decreases v
  {
    match v
    case Str(s) => Str(RedactedLeaf(cfg, secrets, s, path).out)
    case Scalar(_) => v
    case Arr(items) =>
      Arr(seq(|items|, i requires 0 <= i < |items| => Rewritten(cfg, secrets, items[i], ItemPath(path, i))))
    case Obj(fields) =>
      Obj(map k | k in fields :: Rewritten(cfg, secrets, fields[k], KeyPath(path, k)))
  }

  /** What a pass over v counts. */
  ghost function Effect(cfg: Config, secrets: seq<SecretRule>, v: Value, path: string): Tally
    requires NonEmpty(secrets)
    decreases v, 1, 0
  {
    match v
    case Str(s) => RedactedLeaf(cfg, secrets, s, path).tally
    case Scalar(_) => ZERO
    case Arr(items) => EffectItems(cfg, secrets, v, path, |items|)
    case Obj(fields) => EffectKeys(cfg, secrets, v, path, fields.Keys)
  }

  /** What the first n items count. */
  ghost function EffectItems(cfg: Config, secrets: seq<SecretRule>, v: Value, path: string, n: nat): Tally
    requires NonEmpty(secrets) && v.Arr? && n <= |v.items|
    decreases v, 0, n
  {
    if n == 0 then ZERO
    else Plus(EffectItems(cfg, secrets, v, path, n - 1), Effect(cfg, secrets, v.items[n - 1], ItemPath(path, n - 1)))
  }

  /** What the fields with the given keys count. The order in which keys are taken does not matter. */
  ghost function EffectKeys(cfg: Config, secrets: seq<SecretRule>, v: Value, path: string, keys: set<string>): Tally
    requires NonEmpty(secrets) && v.Obj? && keys <= v.fields.Keys
    decreases v, 0, |keys|
  {
    if keys == {} then ZERO
    else
      var k :| k in keys;
      Plus(Effect(cfg, secrets, v.fields[k], KeyPath(path, k)), EffectKeys(cfg, secrets, v, path, keys - {k}))
  }

  lemma {:induction false} EffectKeysAnyOrder(
      cfg: Config, secrets: seq<SecretRule>, v: Value, path: string, keys: set<string>, k: string)
    requires NonEmpty(secrets) && v.Obj? && keys <= v.fields.Keys && k in keys
    ensures EffectKeys(cfg, secrets, v, path, keys) ==
      Plus(Effect(cfg, secrets, v.fields[k], KeyPath(path, k)), EffectKeys(cfg, secrets, v, path, keys - {k}))
    decreases |keys|
  {
    hide Effect, Plus;
    var f := (x: string) requires x in v.fields => Effect(cfg, secrets, v.fields[x], KeyPath(path, x));
    var c :| c in keys && EffectKeys(cfg, secrets, v, path, keys) ==
      Plus(f(c), EffectKeys(cfg, secrets, v, path, keys - {c}));
    if c != k {
      var rest := keys - {c} - {k};
      assert keys - {k} - {c} == rest;
      EffectKeysAnyOrder(cfg, secrets, v, path, keys - {c}, k);
      EffectKeysAnyOrder(cfg, secrets, v, path, keys - {k}, c);
      var r := EffectKeys(cfg, secrets, v, path, rest);
      PlusLaws(f(c), f(k), r);
      PlusLaws(f(k), f(c), r);
    }
  }

  // ---- Counters are consistent ------------------------------------------------------------------------

  /** Substitutions add up over the rules, the sets are empty exactly when their counters are, and they hold
      only pending secrets. */
  ghost predicate Consistent(t: Tally, names: set<string>) {
    && t.located + t.kept + t.protected <= names
    && t.count == |t.byRule|
    && (t.located == {} <==> t.count == 0)
    && (t.kept == {} <==> t.allowed == multiset{})
  }

  lemma PlusConsistent(a: Tally, b: Tally, names: set<string>)
    requires Consistent(a, names) && Consistent(b, names)
    ensures Consistent(Plus(a, b), names)
  {
    var sum := Plus(a, b);
    assert sum.located == {} <==> a.located == {} && b.located == {} by {
      assert a.located <= sum.located && b.located <= sum.located;
    }
    assert sum.kept == {} <==> a.kept == {} && b.kept == {} by {
      assert a.kept <= sum.kept && b.kept <= sum.kept;
    }
    assert sum.allowed == multiset{} <==> a.allowed == multiset{} && b.allowed == multiset{} by {
      assert |sum.allowed| == |a.allowed| + |b.allowed|;
    }
  }

  lemma TallyOfConsistent(sr: SecretRule, replaced: nat, kept: nat, names: set<string>)
    requires sr.secret in names
    ensures Consistent(TallyOf(sr, replaced, kept), names)
  {
    var t := TallyOf(sr, replaced, kept);
    assert t.located == {} <==> replaced == 0 by { if replaced > 0 { assert sr.secret in t.located; } }
    assert t.kept == {} <==> kept == 0 by { if kept > 0 { assert sr.secret in t.kept; } }
    assert t.allowed == multiset{} <==> kept == 0 by { assert t.allowed[sr.ruleID] == kept; }
  }

  lemma {:induction false} ApplyConsistent(
      cfg: Config, secrets: seq<SecretRule>, marked: bool, body: string, names: set<string>)
    requires NonEmpty(secrets) && Secrets(secrets) <= names
    ensures Consistent(Apply(cfg, secrets, marked, body).tally, names)
    decreases |secrets|
  {
    hide StepBody, Consistent, TallyOf, Plus;
    if secrets == [] {
      ZeroConsistent(names);
    } else {
      var sr := secrets[0];
      var kept := KeptCount(body, sr.secret, Spared(body, sr.secret, marked));
      assert sr.secret in Secrets(secrets) && Secrets(secrets[1..]) <= Secrets(secrets);
      TallyOfConsistent(sr, Count(body, sr.secret) - kept, kept, names);
      ApplyConsistent(cfg, secrets[1..], marked, StepBody(cfg, sr, marked, body), names);
      PlusConsistent(StepTally(sr, marked, body),
                     Apply(cfg, secrets[1..], marked, StepBody(cfg, sr, marked, body)).tally, names);
    }
  }

  lemma ZeroConsistent(names: set<string>)
    ensures Consistent(ZERO, names)
  {
  }

  lemma HeldArePending(secrets: seq<SecretRule>, body: string)
    ensures Held(secrets, body) <= Secrets(secrets)
  {
    hide Contains;
  }

  lemma LeafConsistent(cfg: Config, secrets: seq<SecretRule>, s: string, path: string)
    requires NonEmpty(secrets)
    ensures Consistent(RedactedLeaf(cfg, secrets, s, path).tally, Secrets(secrets))
  {
    hide Apply, Encode, Held, Rebuild, Marked, Secrets;
    ZeroConsistent(Secrets(secrets));
    ApplyConsistent(cfg, secrets, Marked(cfg, Encode(s)), Encode(s), Secrets(secrets));
    HeldArePending(secrets, Encode(s));
  }

  lemma {:induction false} EffectConsistent(cfg: Config, secrets: seq<SecretRule>, v: Value, path: string)
    requires NonEmpty(secrets)
    ensures Consistent(Effect(cfg, secrets, v, path), Secrets(secrets))
    decreases v, 1, 0
  {
    hide Consistent, RedactedLeaf;
    match v {
      case Str(s) => LeafConsistent(cfg, secrets, s, path);
      case Scalar(_) => ZeroConsistent(Secrets(secrets));
      case Arr(items) => EffectItemsConsistent(cfg, secrets, v, path, |items|);
      case Obj(fields) => EffectKeysConsistent(cfg, secrets, v, path, fields.Keys);
    }
  }

  lemma {:induction false} EffectItemsConsistent(cfg: Config, secrets: seq<SecretRule>, v: Value, path: string, n: nat)
    requires NonEmpty(secrets) && v.Arr? && n <= |v.items|
    ensures Consistent(EffectItems(cfg, secrets, v, path, n), Secrets(secrets))
    decreases v, 0, n
  {
    hide Consistent, Plus;
    if n == 0 {
      ZeroConsistent(Secrets(secrets));
    } else {
      EffectItemsConsistent(cfg, secrets, v, path, n - 1);
      EffectConsistent(cfg, secrets, v.items[n - 1], ItemPath(path, n - 1));
      PlusConsistent(EffectItems(cfg, secrets, v, path, n - 1),
                     Effect(cfg, secrets, v.items[n - 1], ItemPath(path, n - 1)), Secrets(secrets));
    }
  }

  lemma {:induction false} EffectKeysConsistent(
      cfg: Config, secrets: seq<SecretRule>, v: Value, path: string, keys: set<string>)
    requires NonEmpty(secrets) && v.Obj? && keys <= v.fields.Keys
    ensures Consistent(EffectKeys(cfg, secrets, v, path, keys), Secrets(secrets))
    decreases v, 0, |keys|
  {
    hide Consistent, Plus;
    if keys == {} {
      ZeroConsistent(Secrets(secrets));
    } else {
      var k :| k in keys;
      EffectKeysAnyOrder(cfg, secrets, v, path, keys, k);
      EffectConsistent(cfg, secrets, v.fields[k], KeyPath(path, k));
      EffectKeysConsistent(cfg, secrets, v, path, keys - {k});
      PlusConsistent(Effect(cfg, secrets, v.fields[k], KeyPath(path, k)),
                     EffectKeys(cfg, secrets, v, path, keys - {k}), Secrets(secrets));
    }
  }

  // ---- What a pass leaves behind --------------------------------------------------------------------

  /** No string leaf of v holds t. */
  ghost predicate Absent(v: Value, t: string) {
    match v
    case Str(s) => !Contains(Encode(s), t)
    case Scalar(_) => true
    case Arr(items) => forall i | 0 <= i < |items| :: Absent(items[i], t)
    case Obj(fields) => forall k | k in fields :: Absent(fields[k], t)
  }

  /** The tally records t as left in the document. */
  ghost predicate Recorded(tally: Tally, t: string) {
    t in tally.kept || t in tally.protected
  }

  lemma {:induction false} RecordedItem(
      cfg: Config, secrets: seq<SecretRule>, v: Value, path: string, n: nat, i: nat, t: string)
    requires NonEmpty(secrets) && v.Arr? && i < n <= |v.items|
    requires Recorded(Effect(cfg, secrets, v.items[i], ItemPath(path, i)), t)
    ensures Recorded(EffectItems(cfg, secrets, v, path, n), t)
    decreases n
  {
    hide Effect;
    if i < n - 1 { RecordedItem(cfg, secrets, v, path, n - 1, i, t); }
  }

  lemma RecordedKey(cfg: Config, secrets: seq<SecretRule>, v: Value, path: string, k: string, t: string)
    requires NonEmpty(secrets) && v.Obj? && k in v.fields
    requires Recorded(Effect(cfg, secrets, v.fields[k], KeyPath(path, k)), t)
    ensures Recorded(Effect(cfg, secrets, v, path), t)
  {
    EffectKeysAnyOrder(cfg, secrets, v, path, v.fields.Keys, k);
  }

  /** A pending secret that survives the pass anywhere in the document is recorded. */
  lemma {:induction false} TreeSurvivorsRecorded(
      cfg: Config, secrets: seq<SecretRule>, v: Value, path: string, sr: SecretRule)
    requires Separate(cfg, secrets) && NonEmpty(secrets) && sr in secrets
    ensures Absent(Rewritten(cfg, secrets, v, path), sr.secret) || Recorded(Effect(cfg, secrets, v, path), sr.secret)
    decreases v
  {
    hide RedactedLeaf, Separate, Encode, Contains, Recorded, Effect;
    var t := sr.secret;
    if !Recorded(Effect(cfg, secrets, v, path), t) {
      match v {
        case Str(s) =>
          LeafSurvivors(cfg, secrets, s, path, sr);
        case Scalar(_) =>
        case Arr(items) =>
          forall i | 0 <= i < |items|
            ensures Absent(Rewritten(cfg, secrets, items[i], ItemPath(path, i)), t)
          {
            TreeSurvivorsRecorded(cfg, secrets, items[i], ItemPath(path, i), sr);
            if Recorded(Effect(cfg, secrets, items[i], ItemPath(path, i)), t) {
              RecordedArr(cfg, secrets, v, path, i, t);
            }
          }
        case Obj(fields) =>
          forall k | k in fields
            ensures Absent(Rewritten(cfg, secrets, fields[k], KeyPath(path, k)), t)
          {
            TreeSurvivorsRecorded(cfg, secrets, fields[k], KeyPath(path, k), sr);
            if Recorded(Effect(cfg, secrets, fields[k], KeyPath(path, k)), t) {
              RecordedKey(cfg, secrets, v, path, k, t);
            }
          }
      }
    }
  }

  lemma RecordedArr(cfg: Config, secrets: seq<SecretRule>, v: Value, path: string, i: nat, t: string)
    requires NonEmpty(secrets) && v.Arr? && i < |v.items|
    requires Recorded(Effect(cfg, secrets, v.items[i], ItemPath(path, i)), t)
    ensures Recorded(Effect(cfg, secrets, v, path), t)
  {
    RecordedItem(cfg, secrets, v, path, |v.items|, i, t);
  }

  lemma LeafSurvivors(cfg: Config, secrets: seq<SecretRule>, s: string, path: string, sr: SecretRule)
    requires Separate(cfg, secrets) && NonEmpty(secrets) && sr in secrets
    ensures Absent(Rewritten(cfg, secrets, Str(s), path), sr.secret)
         || Recorded(Effect(cfg, secrets, Str(s), path), sr.secret)
  {
    hide RedactedLeaf, Separate, Encode, Contains;
    SurvivorsAreRecorded(cfg, secrets, s, path, sr);
  }

  /** A string that no placeholder of the list touches and that is nowhere in the document stays out of it. */
  lemma {:induction false} TreeStaysWithout(cfg: Config, secrets: seq<SecretRule>, v: Value, path: string, t: string)
    requires Separate(cfg, secrets) && NonEmpty(secrets) && Foreign(cfg, secrets, t) && Absent(v, t)
    ensures Absent(Rewritten(cfg, secrets, v, path), t)
    decreases v
  {
    hide RedactedLeaf, Separate, Encode, Contains, Foreign, ItemPath, KeyPath;
    match v {
      case Str(s) =>
        LeafStaysWithout(cfg, secrets, s, path, t);
      case Scalar(_) =>
      case Arr(items) =>
        forall i | 0 <= i < |items| ensures Absent(Rewritten(cfg, secrets, items[i], ItemPath(path, i)), t) {
          TreeStaysWithout(cfg, secrets, items[i], ItemPath(path, i), t);
        }
      case Obj(fields) =>
        forall k | k in fields ensures Absent(Rewritten(cfg, secrets, fields[k], KeyPath(path, k)), t) {
          TreeStaysWithout(cfg, secrets, fields[k], KeyPath(path, k), t);
        }
    }
  }

  /** A pass whose secrets are nowhere in the document changes and counts nothing. */
  lemma {:induction false} NothingToDo(cfg: Config, secrets: seq<SecretRule>, v: Value, path: string)
    requires NonEmpty(secrets) && forall sr | sr in secrets :: Absent(v, sr.secret)
    ensures Rewritten(cfg, secrets, v, path) == v && Effect(cfg, secrets, v, path) == ZERO
    decreases v, 1, 0
  {
    hide Encode, Contains, RedactedLeaf, EffectItems, EffectKeys, ItemPath, KeyPath;
    match v {
      case Str(s) =>
        NothingInLeaf(cfg, secrets, s, path);
      case Scalar(_) =>
      case Arr(items) =>
        forall i | 0 <= i < |items|
          ensures Rewritten(cfg, secrets, items[i], ItemPath(path, i)) == items[i]
        {
          NothingToDo(cfg, secrets, items[i], ItemPath(path, i));
        }
        NothingInItems(cfg, secrets, v, path, |items|);
      case Obj(fields) =>
        forall k | k in fields
          ensures Rewritten(cfg, secrets, fields[k], KeyPath(path, k)) == fields[k]
        {
          NothingToDo(cfg, secrets, fields[k], KeyPath(path, k));
        }
        NothingInKeys(cfg, secrets, v, path, fields.Keys);
    }
  }

  lemma NothingInLeaf(cfg: Config, secrets: seq<SecretRule>, s: string, path: string)
    requires NonEmpty(secrets) && forall sr | sr in secrets :: !Contains(Encode(s), sr.secret)
    ensures RedactedLeaf(cfg, secrets, s, path) == Redacted(s, ZERO)
  {
    hide Encode, Contains, Apply;
    assert Held(secrets, Encode(s)) == {};
  }

  lemma {:induction false} NothingInItems(cfg: Config, secrets: seq<SecretRule>, v: Value, path: string, n: nat)
    requires NonEmpty(secrets) && v.Arr? && n <= |v.items| && forall sr | sr in secrets :: Absent(v, sr.secret)
    ensures EffectItems(cfg, secrets, v, path, n) == ZERO
    decreases v, 0, n
  {
    hide Effect, Plus, Encode, Contains, ItemPath;
    if n > 0 {
      NothingInItems(cfg, secrets, v, path, n - 1);
      NothingToDo(cfg, secrets, v.items[n - 1], ItemPath(path, n - 1));
      PlusLaws(ZERO, ZERO, ZERO);
    }
  }

  lemma {:induction false} NothingInKeys(
      cfg: Config, secrets: seq<SecretRule>, v: Value, path: string, keys: set<string>)
    requires NonEmpty(secrets) && v.Obj? && keys <= v.fields.Keys && forall sr | sr in secrets :: Absent(v, sr.secret)
    ensures EffectKeys(cfg, secrets, v, path, keys) == ZERO
    decreases v, 0, |keys|
  {
    hide Effect, Plus;
    if keys != {} {
      var k :| k in keys;
      EffectKeysAnyOrder(cfg, secrets, v, path, keys, k);
      NothingInKeys(cfg, secrets, v, path, keys - {k});
      NothingToDo(cfg, secrets, v.fields[k], KeyPath(path, k));
      PlusLaws(ZERO, ZERO, ZERO);
    }
  }

  /** A pass that substitutes nothing leaves the document as it is. */
  lemma {:induction false} ZeroCountUnchanged(cfg: Config, secrets: seq<SecretRule>, v: Value, path: string)
    requires NonEmpty(secrets) && Effect(cfg, secrets, v, path).count == 0
    ensures Rewritten(cfg, secrets, v, path) == v
    decreases v
  {
    match v {
      case Str(_) =>
      case Scalar(_) =>
      case Arr(items) =>
        forall i | 0 <= i < |items| ensures Rewritten(cfg, secrets, items[i], ItemPath(path, i)) == items[i] {
          ItemCount(cfg, secrets, v, path, |items|, i);
          ZeroCountUnchanged(cfg, secrets, items[i], ItemPath(path, i));
        }
      case Obj(fields) =>
        forall k | k in fields ensures Rewritten(cfg, secrets, fields[k], KeyPath(path, k)) == fields[k] {
          EffectKeysAnyOrder(cfg, secrets, v, path, fields.Keys, k);
          ZeroCountUnchanged(cfg, secrets, fields[k], KeyPath(path, k));
        }
    }
  }

  lemma {:induction false} ItemCount(cfg: Config, secrets: seq<SecretRule>, v: Value, path: string, n: nat, i: nat)
    requires NonEmpty(secrets) && v.Arr? && i < n <= |v.items|
    ensures Effect(cfg, secrets, v.items[i], ItemPath(path, i)).count <= EffectItems(cfg, secrets, v, path, n).count
    decreases n
  {
    hide Effect;
    if i < n - 1 { ItemCount(cfg, secrets, v, path, n - 1, i); }
  }

  // ---- What a pass does not touch ----------------------------------------------------------------------

  /** w differs from v at most in string leaves the path filter makes eligible: same keys, same array
      lengths, same scalars, same protected leaves. */
  ghost predicate Framed(cfg: Config, v: Value, w: Value, path: string) {
    match v
    case Str(s) => w.Str? && (w.s == s || cfg.pathFilter(path))
    case Scalar(_) => w == v
    case Arr(items) =>
      w.Arr? && |w.items| == |items|
      && forall i | 0 <= i < |items| :: Framed(cfg, items[i], w.items[i], ItemPath(path, i))
    case Obj(fields) =>
      w.Obj? && w.fields.Keys == fields.Keys
      && forall k | k in fields :: Framed(cfg, fields[k], w.fields[k], KeyPath(path, k))
  }

  /** What one pass may change: eligible string leaves that hold a pending secret, and nothing else. */
  ghost predicate Touched(cfg: Config, secrets: seq<SecretRule>, v: Value, w: Value, path: string) {
    match v
    case Str(s) => w.Str? && (w.s == s || (cfg.pathFilter(path) && Held(secrets, Encode(s)) != {}))
    case Scalar(_) => w == v
    case Arr(items) =>
      w.Arr? && |w.items| == |items|
      && forall i | 0 <= i < |items| :: Touched(cfg, secrets, items[i], w.items[i], ItemPath(path, i))
    case Obj(fields) =>
      w.Obj? && w.fields.Keys == fields.Keys
      && forall k | k in fields :: Touched(cfg, secrets, fields[k], w.fields[k], KeyPath(path, k))
  }

  lemma {:induction false} TouchedIsFramed(cfg: Config, secrets: seq<SecretRule>, v: Value, w: Value, path: string)
    requires Touched(cfg, secrets, v, w, path)
    ensures Framed(cfg, v, w, path)
    decreases v
  {
    match v {
      case Str(_) =>
      case Scalar(_) =>
      case Arr(items) =>
        forall i | 0 <= i < |items| ensures Framed(cfg, items[i], w.items[i], ItemPath(path, i)) {
          TouchedIsFramed(cfg, secrets, items[i], w.items[i], ItemPath(path, i));
        }
      case Obj(fields) =>
        forall k | k in fields ensures Framed(cfg, fields[k], w.fields[k], KeyPath(path, k)) {
          TouchedIsFramed(cfg, secrets, fields[k], w.fields[k], KeyPath(path, k));
        }
    }
  }

  lemma {:induction false} TouchedReflexive(cfg: Config, secrets: seq<SecretRule>, v: Value, path: string)
    ensures Touched(cfg, secrets, v, v, path)
    decreases v
  {
    match v {
      case Str(_) =>
      case Scalar(_) =>
      case Arr(items) =>
        forall i | 0 <= i < |items| ensures Touched(cfg, secrets, items[i], items[i], ItemPath(path, i)) {
          TouchedReflexive(cfg, secrets, items[i], ItemPath(path, i));
        }
      case Obj(fields) =>
        forall k | k in fields ensures Touched(cfg, secrets, fields[k], fields[k], KeyPath(path, k)) {
          TouchedReflexive(cfg, secrets, fields[k], KeyPath(path, k));
        }
    }
  }

  lemma HeldMore(a: seq<SecretRule>, b: seq<SecretRule>, body: string)
    requires Held(a, body) != {} || Held(b, body) != {}
    ensures Held(a + b, body) != {}
  {
    hide Contains;
    assert forall sr | sr in a || sr in b :: sr in a + b;
    assert Held(a, body) <= Held(a + b, body) && Held(b, body) <= Held(a + b, body);
  }

  /** A leaf that two passes change together held a secret of one of them when it was first changed. */
  lemma {:induction false} TouchedTransitive(
      cfg: Config, a: seq<SecretRule>, b: seq<SecretRule>, u: Value, v: Value, w: Value, path: string)
    requires Touched(cfg, a, u, v, path) && Touched(cfg, b, v, w, path)
    ensures Touched(cfg, a + b, u, w, path)
    decreases u
  {
    hide Held, Encode, ItemPath, KeyPath;
    match u {
      case Str(s) =>
        if w.s != s { HeldMore(a, b, Encode(s)); }
      case Scalar(_) =>
      case Arr(items) =>
        forall i | 0 <= i < |items| ensures Touched(cfg, a + b, items[i], w.items[i], ItemPath(path, i)) {
          TouchedTransitive(cfg, a, b, items[i], v.items[i], w.items[i], ItemPath(path, i));
        }
      case Obj(fields) =>
        forall k | k in fields ensures Touched(cfg, a + b, fields[k], w.fields[k], KeyPath(path, k)) {
          TouchedTransitive(cfg, a, b, fields[k], v.fields[k], w.fields[k], KeyPath(path, k));
        }
    }
  }

  lemma {:induction false} FramedReflexive(cfg: Config, v: Value, path: string)
    ensures Framed(cfg, v, v, path)
    decreases v
  {
    match v {
      case Str(_) =>
      case Scalar(_) =>
      case Arr(items) =>
        forall i | 0 <= i < |items| ensures Framed(cfg, items[i], items[i], ItemPath(path, i)) {
          FramedReflexive(cfg, items[i], ItemPath(path, i));
        }
      case Obj(fields) =>
        forall k | k in fields ensures Framed(cfg, fields[k], fields[k], KeyPath(path, k)) {
          FramedReflexive(cfg, fields[k], KeyPath(path, k));
        }
    }
  }

  lemma {:induction false} FramedTransitive(cfg: Config, u: Value, v: Value, w: Value, path: string)
    requires Framed(cfg, u, v, path) && Framed(cfg, v, w, path)
    ensures Framed(cfg, u, w, path)
    decreases u
  {
    match u {
      case Str(_) =>
      case Scalar(_) =>
      case Arr(items) =>
        forall i | 0 <= i < |items| ensures Framed(cfg, items[i], w.items[i], ItemPath(path, i)) {
          FramedTransitive(cfg, items[i], v.items[i], w.items[i], ItemPath(path, i));
        }
      case Obj(fields) =>
        forall k | k in fields ensures Framed(cfg, fields[k], w.fields[k], KeyPath(path, k)) {
          FramedTransitive(cfg, fields[k], v.fields[k], w.fields[k], KeyPath(path, k));
        }
    }
  }

  /** A pass changes eligible leaves that hold a pending secret, and nothing else. */
  lemma {:induction false} PassTouches(cfg: Config, secrets: seq<SecretRule>, v: Value, path: string)
    requires NonEmpty(secrets)
    ensures Touched(cfg, secrets, v, Rewritten(cfg, secrets, v, path), path)
    decreases v
  {
    match v {
      case Str(_) =>
      case Scalar(_) =>
      case Arr(items) =>
        forall i | 0 <= i < |items|
          ensures var at := ItemPath(path, i);
            Touched(cfg, secrets, items[i], Rewritten(cfg, secrets, items[i], at), at)
        {
          PassTouches(cfg, secrets, items[i], ItemPath(path, i));
        }
      case Obj(fields) =>
        forall k | k in fields
          ensures var at := KeyPath(path, k);
            Touched(cfg, secrets, fields[k], Rewritten(cfg, secrets, fields[k], at), at)
        {
          PassTouches(cfg, secrets, fields[k], KeyPath(path, k));
        }
    }
  }
}
