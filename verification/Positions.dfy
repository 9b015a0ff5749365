/** Where a value stands in a document, and the text of its path, which the path filter is asked about. */
module Positions {
  import opened Options
  import opened Text
  import opened StringBody
  import opened Pending
  import opened Leaf
  import opened Tree
  import opened OpaqueLeaves

  /** From a value to one of its fields or items. */
  datatype Edge = Key(key: string) | Item(index: nat)

  predicate Has(v: Value, step: Edge) {
    match step
    case Key(key) => v.Obj? && key in v.fields
    case Item(i) => v.Arr? && i < |v.items|
  }

  function Child(v: Value, step: Edge): (c: Value)
    requires Has(v, step)
    ensures c < v
  {
    match step
    case Key(key) => v.fields[key]
    case Item(i) => v.items[i]
  }

  /** The value that the steps lead to. */
  function Find(v: Value, steps: seq<Edge>): Option<Value>
    decreases |steps|
  {
    if steps == [] then Some(v)
    else if Has(v, steps[0]) then Find(Child(v, steps[0]), steps[1..])
    else None
  }

  /** The string leaf that the steps lead to. */
  function LeafAt(v: Value, steps: seq<Edge>): Option<string> {
    match Find(v, steps)
    case Some(Str(s)) => Some(s)
    case _ => None
  }

  lemma FindUnfold(v: Value, steps: seq<Edge>)
    requires steps != []
    ensures Find(v, steps) == if Has(v, steps[0]) then Find(Child(v, steps[0]), steps[1..]) else None
  {
  }

  // ---- The text of a path ----------------------------------------------------------------------------------

  function StepText(step: Edge): string {
    match step
    case Key(key) => key
    case Item(i) => Itoa(i)
  }

  /** A solidus and the text of the step, for each step in order. */
  function PathOf(steps: seq<Edge>): string {
    if steps == [] then "" else "/" + StepText(steps[0]) + PathOf(steps[1..])
  }

  /** The path the walk has built up when it enters a field or an item. */
  function Extended(path: string, step: Edge): string {
    match step
    case Key(key) => KeyPath(path, key)
    case Item(i) => ItemPath(path, i)
  }

  lemma ExtendedPath(path: string, steps: seq<Edge>)
    requires steps != []
    ensures Extended(path, steps[0]) + PathOf(steps[1..]) == path + PathOf(steps)
  {
    hide Itoa;
  }

  // ---- Numerals ----------------------------------------------------------------------------------------------

  /** The number that decimal digits write. */
  function ValueOf(digits: string): int {
    if digits == "" then 0
    else 10 * ValueOf(digits[..|digits| - 1]) + (digits[|digits| - 1] as int - '0' as int)
  }

  /** The text is the decimal numeral of n: digits with that value, without a leading zero. */
  predicate Numeral(text: string, n: nat) {
    && text != "" && (forall i | 0 <= i < |text| :: '0' <= text[i] <= '9')
    && ValueOf(text) == n && (|text| > 1 ==> text[0] != '0')
  }

  lemma {:induction false} ItoaIsNumeral(n: nat)
    ensures Numeral(Itoa(n), n)
  {
    var text := Itoa(n);
    if n < 10 {
      assert text[..0] == "";
    } else {
      ItoaIsNumeral(n / 10);
      assert text[..|text| - 1] == Itoa(n / 10);
      assert ValueOf("0") == 0 by { assert "0"[..0] == ""; }
      assert text[0] == Itoa(n / 10)[0];
    }
  }

  lemma {:induction false} ValuePositive(text: string)
    requires text != "" && (forall i | 0 <= i < |text| :: '0' <= text[i] <= '9') && text[0] != '0'
    ensures ValueOf(text) > 0
  {
    if |text| == 1 {
      assert text[..0] == "";
    } else {
      ValuePositive(text[..|text| - 1]);
    }
  }

  /** A number has one numeral. */
  lemma {:induction false} NumeralUnique(a: string, b: string, n: nat)
    requires Numeral(a, n) && Numeral(b, n)
    ensures a == b
    decreases |a|
  {
    var x, y := a[..|a| - 1], b[..|b| - 1];
    assert a == x + [a[|a| - 1]] && b == y + [b[|b| - 1]];
    assert ValueOf(x) == ValueOf(y) && a[|a| - 1] == b[|b| - 1];
    if x != "" { ValuePositive(x); }
    if y != "" { ValuePositive(y); }
    if x != "" && y != "" { NumeralUnique(x, y, ValueOf(x)); }
  }

  lemma ItoaInjective(i: nat, j: nat)
    requires Itoa(i) == Itoa(j)
    ensures i == j
  {
    hide Itoa;
    ItoaIsNumeral(i);
    ItoaIsNumeral(j);
  }

  lemma ItoaHasNoSolidus(i: nat)
    ensures '/' !in Itoa(i)
  {
    hide Itoa;
    ItoaIsNumeral(i);
  }

  // ---- Which leaf the filter decides about ---------------------------------------------------------------------

  /** The leaf that steps lead to is redacted as the one at the text of those steps, and no other value is a leaf
      afterwards. */
  lemma {:induction false} LeafAtItsPath(
      cfg: Config, secrets: seq<SecretRule>, v: Value, path: string, steps: seq<Edge>)
    requires NonEmpty(secrets)
    ensures var after := Find(Rewritten(cfg, secrets, v, path), steps);
      match Find(v, steps)
      case None => after == None
      case Some(Str(s)) => after == Some(Str(RedactedLeaf(cfg, secrets, s, path + PathOf(steps)).out))
      case Some(Scalar(text)) => after == Some(Scalar(text))
      case Some(Arr(items)) => after.Some? && after.value.Arr? && |after.value.items| == |items|
      case Some(Obj(fields)) => after.Some? && after.value.Obj? && after.value.fields.Keys == fields.Keys
    decreases |steps|
  {
    hide RedactedLeaf, Itoa, ItemPath, KeyPath;
    if steps == [] {
      assert path + PathOf(steps) == path;
    } else {
      var w := Rewritten(cfg, secrets, v, path);
      FindUnfold(v, steps);
      FindUnfold(w, steps);
      ExtendedPath(path, steps);
      if Has(v, steps[0]) {
        LeafAtItsPath(cfg, secrets, Child(v, steps[0]), Extended(path, steps[0]), steps[1..]);
      }
    }
  }

  /** What is touched is touched at its position: the leaf there was eligible at the text of its steps and held one of
      the secrets. */
  lemma {:induction false} TouchedAtItsPath(
      cfg: Config, secrets: seq<SecretRule>, v: Value, w: Value, path: string, steps: seq<Edge>)
    requires Touched(cfg, secrets, v, w, path)
    ensures LeafAt(v, steps).Some? <==> LeafAt(w, steps).Some?
    ensures LeafAt(v, steps).Some? && LeafAt(v, steps) != LeafAt(w, steps) ==>
      cfg.pathFilter(path + PathOf(steps)) && Held(secrets, Encode(LeafAt(v, steps).value)) != {}
    decreases |steps|
  {
    hide Held, Encode, Itoa, ItemPath, KeyPath;
    if steps == [] {
      assert path + PathOf(steps) == path;
    } else {
      FindUnfold(v, steps);
      FindUnfold(w, steps);
      ExtendedPath(path, steps);
      if Has(v, steps[0]) {
        TouchedAtItsPath(cfg, secrets, Child(v, steps[0]), Child(w, steps[0]), Extended(path, steps[0]), steps[1..]);
      }
    }
  }

  /** The last step leads to a field of an object whose path and key the opaque filter reports. */
  predicate OpaqueAt(cfg: Config, path: string, steps: seq<Edge>) {
    steps != [] && steps[|steps| - 1].Key?
    && cfg.isOpaque(path + PathOf(steps[..|steps| - 1]), steps[|steps| - 1].key)
  }

  lemma OpaqueBelow(cfg: Config, path: string, steps: seq<Edge>)
    requires |steps| > 1
    ensures OpaqueAt(cfg, path, steps) <==> OpaqueAt(cfg, Extended(path, steps[0]), steps[1..])
  {
    hide Itoa, KeyPath, ItemPath;
    var front := steps[..|steps| - 1];
    assert front[0] == steps[0] && steps[1..][..|steps| - 2] == front[1..];
    ExtendedPath(path, front);
  }

  /** Before the first pass exactly the opaque leaves are blank, and the others are as they were. */
  lemma {:induction false} DetachedAtItsPath(cfg: Config, v: Value, path: string, steps: seq<Edge>)
    requires steps != []
    ensures LeafAt(Detached(cfg, v, path), steps) ==
      if LeafAt(v, steps).Some? && OpaqueAt(cfg, path, steps) then Some("") else LeafAt(v, steps)
    decreases |steps|
  {
    hide Itoa, ItemPath, KeyPath;
    var w := Detached(cfg, v, path);
    FindUnfold(v, steps);
    FindUnfold(w, steps);
    if |steps| == 1 {
      assert steps[1..] == [] && steps[..0] == [];
      assert path + PathOf([]) == path;
    } else {
      OpaqueBelow(cfg, path, steps);
      if Has(v, steps[0]) {
        var c := Child(v, steps[0]);
        FindUnfold(c, steps[1..]);
        FindUnfold(Child(w, steps[0]), steps[1..]);
        if !c.Str? { DetachedAtItsPath(cfg, c, Extended(path, steps[0]), steps[1..]); }
      }
    }
  }

  // ---- Different leaves have different paths -----------------------------------------------------------------

  predicate PlainKeys(steps: seq<Edge>) {
    forall i | 0 <= i < |steps| && steps[i].Key? :: '/' !in steps[i].key
  }

  function Texts(steps: seq<Edge>): seq<string> {
    seq(|steps|, i requires 0 <= i < |steps| => StepText(steps[i]))
  }

  lemma {:induction false} SplitNone(s: string, sep: char)
    requires sep !in s
    ensures Split(s, sep) == [s]
  {
    if s != "" {
      SplitNone(s[1..], sep);
      assert s == [s[0]] + s[1..];
    }
  }

  /** When no key holds a solidus, splitting the path at it gives the steps back. */
  lemma {:induction false} PathSplits(steps: seq<Edge>)
    requires PlainKeys(steps)
    ensures Split(PathOf(steps), '/') == [""] + Texts(steps)
    decreases |steps|
  {
    hide Split, Itoa;
    SplitNone("", '/');
    if steps != [] {
      var first, rest := StepText(steps[0]), PathOf(steps[1..]);
      PathSplits(steps[1..]);
      if steps[0].Item? { ItoaHasNoSolidus(steps[0].index); }
      SplitNone(first, '/');
      FirstStep(first, rest, Texts(steps[1..]));
      assert Texts(steps) == [first] + Texts(steps[1..]);
    }
  }

  lemma FirstStep(first: string, rest: string, texts: seq<string>)
    requires '/' !in first && Split(rest, '/') == [""] + texts && (rest == "" || rest[0] == '/')
    ensures Split("/" + first + rest, '/') == [""] + ([first] + texts)
  {
    hide Split;
    SplitNone("", '/');
    SplitNone(first, '/');
    assert "/" + first + rest == "" + ['/'] + (first + rest);
    SplitAcross("", '/', first + rest);
    if rest == "" {
      assert first + rest == first;
      assert texts == [];
    } else {
      assert rest == "" + ['/'] + rest[1..];
      SplitAcross("", '/', rest[1..]);
      assert first + rest == first + ['/'] + rest[1..];
      SplitAcross(first, '/', rest[1..]);
      assert ([""] + texts)[1..] == texts && ([""] + Split(rest[1..], '/'))[1..] == Split(rest[1..], '/');
    }
  }

  /** Within one value, steps with the same texts are the same. */
  lemma {:induction false} SameTextsSameSteps(v: Value, a: seq<Edge>, b: seq<Edge>)
    requires Find(v, a).Some? && Find(v, b).Some? && Texts(a) == Texts(b)
    ensures a == b
    decreases |a|
  {
    hide Itoa;
    assert |Texts(a)| == |Texts(b)|;
    if a != [] {
      assert StepText(a[0]) == Texts(a)[0] == Texts(b)[0] == StepText(b[0]);
      FindUnfold(v, a);
      FindUnfold(v, b);
      if v.Arr? { ItoaInjective(a[0].index, b[0].index); }
      assert forall i | 0 <= i < |a| - 1 :: Texts(a[1..])[i] == Texts(a)[i + 1];
      assert forall i | 0 <= i < |b| - 1 :: Texts(b[1..])[i] == Texts(b)[i + 1];
      SameTextsSameSteps(Child(v, a[0]), a[1..], b[1..]);
      assert a == [a[0]] + a[1..] && b == [b[0]] + b[1..];
    }
  }

  /** The filter can tell any two leaves of a document apart when no key on the way to them holds a solidus. */
  lemma PathsTellApart(v: Value, a: seq<Edge>, b: seq<Edge>)
    requires Find(v, a).Some? && Find(v, b).Some? && PlainKeys(a) && PlainKeys(b) && a != b
    ensures PathOf(a) != PathOf(b)
  {
    hide Split, Find, PathOf, Texts;
    PathSplits(a);
    PathSplits(b);
    assert ([""] + Texts(a))[1..] == Texts(a) && ([""] + Texts(b))[1..] == Texts(b);
    if Texts(a) == Texts(b) { SameTextsSameSteps(v, a, b); }
  }

  /** A key with a solidus gives two leaves of one document the same path. */
  lemma SolidusInKey()
    ensures var v := Obj(map["a/b" := Str("x"), "a" := Obj(map["b" := Str("y")])]);
      var one, two := [Key("a/b")], [Key("a"), Key("b")];
      LeafAt(v, one) == Some("x") && LeafAt(v, two) == Some("y") && PathOf(one) == PathOf(two)
  {
    assert [Key("a/b")][1..] == [] && [Key("a"), Key("b")][1..] == [Key("b")] && [Key("b")][1..] == [];
    assert PathOf([Key("b")]) == "/b" && PathOf([Key("a/b")]) == "/a/b";
    assert "/" + "a" + "/b" == "/a/b";
  }
}
