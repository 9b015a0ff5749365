/** Refusing documents in which an object repeats a key (objects: section 4 of RFC 8259). */
module DuplicateKeys {
  import opened Options

  /** A JSON value as it is written: an object is a list of members, whose keys may repeat. */
  datatype Json = Text(s: string) | Scalar | Array(items: seq<Json>) | Object(members: seq<Member>)
  datatype Member = Member(key: string, value: Json)

  datatype Token = OpenObject | OpenArray | CloseObject | CloseArray | Str(s: string) | Other

  /** One open object or array. */
  datatype Frame = Frame(isObject: bool, keys: set<string>, expectKey: bool)

  datatype Verdict = Accepted | Duplicate(key: string) | Invalid

  // ---- The machine ------------------------------------------------------------------------------------------

  /** The stack after a value is complete: an enclosing object expects its next key. */
  function ValueDone(stack: seq<Frame>): seq<Frame> {
    if stack == [] || !stack[|stack| - 1].isObject then stack
    else stack[|stack| - 1 := stack[|stack| - 1].(expectKey := true)]
  }

  /** The key a token in key position stands for. */
  function KeyOf(token: Token): string {
    if token.Str? then token.s else ""
  }

  datatype Next = Go(stack: seq<Frame>) | Stop(verdict: Verdict)

  function Step(stack: seq<Frame>, token: Token): Next {
    match token
    case OpenObject => Go(stack + [Frame(true, {}, true)])
    case OpenArray => Go(stack + [Frame(false, {}, false)])
    case CloseObject => Closed(stack)
    case CloseArray => Closed(stack)
    case _ =>
      if stack == [] || !stack[|stack| - 1].isObject || !stack[|stack| - 1].expectKey then Go(ValueDone(stack))
      else
        var frame := stack[|stack| - 1];
        if KeyOf(token) in frame.keys then Stop(Duplicate(KeyOf(token)))
        else Go(stack[|stack| - 1 := Frame(true, frame.keys + {KeyOf(token)}, false)])
  }

  function Closed(stack: seq<Frame>): Next {
    if stack == [] then Stop(Invalid) else Go(ValueDone(stack[..|stack| - 1]))
  }

  /** The machine on a token stream that ends well, or in a decoding error. */
  function Run(stack: seq<Frame>, tokens: seq<Token>, broken: bool): Verdict
    decreases |tokens|
  {
    if tokens == [] then (if broken then Invalid else Accepted)
    else match Step(stack, tokens[0])
      case Stop(verdict) => verdict
      case Go(next) => Run(next, tokens[1..], broken)
  }

  /** rejectDuplicateKeys */
  method RejectDuplicateKeys(tokens: seq<Token>, broken: bool) returns (verdict: Verdict)
    ensures verdict == Run([], tokens, broken)
  {
    var stack: seq<Frame> := [];
    assert tokens[0..] == tokens;
    for i := 0 to |tokens|
      invariant Run([], tokens, broken) == Run(stack, tokens[i..], broken)
    {
      var token := tokens[i];
      assert tokens[i..][1..] == tokens[i + 1..] && tokens[i..][0] == token;
      match token {
        case OpenObject =>
          stack := stack + [Frame(true, {}, true)];
        case OpenArray =>
          stack := stack + [Frame(false, {}, false)];
        case CloseObject =>
          if |stack| == 0 {
            return Invalid;
          }
          stack := ValueDone(stack[..|stack| - 1]);
        case CloseArray =>
          if |stack| == 0 {
            return Invalid;
          }
          stack := ValueDone(stack[..|stack| - 1]);
        case _ =>
          var top := |stack| - 1;
          if |stack| == 0 || !stack[top].isObject {
            continue;
          }
          if !stack[top].expectKey {
            stack := stack[top := stack[top].(expectKey := true)];
            continue;
          }
          var key := KeyOf(token);
          if key in stack[top].keys {
            return Duplicate(key);
          }
          stack := stack[top := Frame(true, stack[top].keys + {key}, false)];
      }
    }
    assert tokens[|tokens|..] == [];
    return if broken then Invalid else Accepted;
  }

  // ---- Values and their token streams ------------------------------------------------------------------------

  function Tokens(v: Json): (tokens: seq<Token>)
    ensures tokens != []
    decreases v, 1, 0
  {
    match v
    case Text(s) => [Str(s)]
    case Scalar => [Other]
    case Array(items) => [OpenArray] + ItemTokens(v, 0) + [CloseArray]
    case Object(members) => [OpenObject] + MemberTokens(v, 0) + [CloseObject]
  }

  function ItemTokens(v: Json, i: nat): seq<Token>
    requires v.Array? && i <= |v.items|
    decreases v, 0, |v.items| - i
  {
    if i == |v.items| then [] else Tokens(v.items[i]) + ItemTokens(v, i + 1)
  }

  function MemberTokens(v: Json, i: nat): seq<Token>
    requires v.Object? && i <= |v.members|
    decreases v, 0, |v.members| - i
  {
    if i == |v.members| then []
    else [Str(v.members[i].key)] + Tokens(v.members[i].value) + MemberTokens(v, i + 1)
  }

  function StreamTokens(vs: seq<Json>): seq<Token> {
    if vs == [] then [] else Tokens(vs[0]) + StreamTokens(vs[1..])
  }

  /** Some object in v, at any depth, repeats a key. */
  ghost predicate Repeats(v: Json) {
    match v
    case Text(_) => false
    case Scalar => false
    case Array(items) => exists i | 0 <= i < |items| :: Repeats(items[i])
    case Object(members) =>
      || (exists i, k | 0 <= i < k < |members| :: members[i].key == members[k].key)
      || (exists i | 0 <= i < |members| :: Repeats(members[i].value))
  }

  /** The key that is repeated first in document order. */
  function FirstRepeated(v: Json): Option<string>
    decreases v, 1, 0
  {
    match v
    case Text(_) => None
    case Scalar => None
    case Array(items) => FirstInItems(v, 0)
    case Object(members) => FirstInMembers(v, 0, {})
  }

  function FirstInItems(v: Json, i: nat): Option<string>
    requires v.Array? && i <= |v.items|
    decreases v, 0, |v.items| - i
  {
    if i == |v.items| then None
    else match FirstRepeated(v.items[i])
      case Some(key) => Some(key)
      case None => FirstInItems(v, i + 1)
  }

  function FirstInMembers(v: Json, i: nat, seen: set<string>): Option<string>
    requires v.Object? && i <= |v.members|
    decreases v, 0, |v.members| - i
  {
    if i == |v.members| then None
    else if v.members[i].key in seen then Some(v.members[i].key)
    else match FirstRepeated(v.members[i].value)
      case Some(key) => Some(key)
      case None => FirstInMembers(v, i + 1, seen + {v.members[i].key})
  }

  // ---- The machine finds the first repeated key ----------------------------------------------------------------

  /** The next token starts a value, not a key. */
  predicate ExpectsValue(stack: seq<Frame>) {
    stack == [] || !stack[|stack| - 1].isObject || !stack[|stack| - 1].expectKey
  }

  /** What the machine says about a value followed by more tokens. */
  ghost function AfterValue(first: Option<string>, stack: seq<Frame>, rest: seq<Token>, broken: bool): Verdict {
    match first
    case Some(key) => Duplicate(key)
    case None => Run(stack, rest, broken)
  }

  lemma RunStep(stack: seq<Frame>, token: Token, rest: seq<Token>, broken: bool)
    ensures Step(stack, token).Stop? ==> Run(stack, [token] + rest, broken) == Step(stack, token).verdict
    ensures Step(stack, token).Go? ==> Run(stack, [token] + rest, broken) == Run(Step(stack, token).stack, rest, broken)
  {
    assert ([token] + rest)[1..] == rest;
  }

  lemma {:induction false} RunValue(stack: seq<Frame>, v: Json, rest: seq<Token>, broken: bool)
    requires ExpectsValue(stack)
    ensures Run(stack, Tokens(v) + rest, broken) == AfterValue(FirstRepeated(v), ValueDone(stack), rest, broken)
    decreases v, 1, 0
  {
    hide Run;
    match v {
      case Text(s) => RunStep(stack, Str(s), rest, broken);
      case Scalar => RunStep(stack, Other, rest, broken);
      case Array(items) =>
        var inner, tail := stack + [Frame(false, {}, false)], [CloseArray] + rest;
        assert Tokens(v) + rest == [OpenArray] + (ItemTokens(v, 0) + tail);
        RunStep(stack, OpenArray, ItemTokens(v, 0) + tail, broken);
        RunItems(inner, v, 0, tail, broken);
        RunStep(inner, CloseArray, rest, broken);
        assert inner[..|stack|] == stack;
      case Object(members) =>
        var inner, tail := stack + [Frame(true, {}, true)], [CloseObject] + rest;
        assert Tokens(v) + rest == [OpenObject] + (MemberTokens(v, 0) + tail);
        RunStep(stack, OpenObject, MemberTokens(v, 0) + tail, broken);
        RunMembers(stack, v, 0, {}, rest, broken);
    }
  }

  lemma {:induction false} RunItems(stack: seq<Frame>, v: Json, i: nat, rest: seq<Token>, broken: bool)
    requires v.Array? && i <= |v.items| && stack != [] && !stack[|stack| - 1].isObject
    ensures Run(stack, ItemTokens(v, i) + rest, broken) == AfterValue(FirstInItems(v, i), stack, rest, broken)
    decreases v, 0, |v.items| - i
  {
    hide Run, Tokens, FirstRepeated;
    if i == |v.items| {
      assert ItemTokens(v, i) + rest == rest;
    } else {
      var tail := ItemTokens(v, i + 1) + rest;
      assert ItemTokens(v, i) + rest == Tokens(v.items[i]) + tail;
      RunValue(stack, v.items[i], tail, broken);
      RunItems(stack, v, i + 1, rest, broken);
    }
  }

  /** The members of an object from i on, when the keys seen so far are known, up to its end. */
  lemma {:induction false} RunMembers(
      outer: seq<Frame>, v: Json, i: nat, seen: set<string>, rest: seq<Token>, broken: bool)
    requires v.Object? && i <= |v.members|
    ensures Run(outer + [Frame(true, seen, true)], MemberTokens(v, i) + ([CloseObject] + rest), broken) ==
            AfterValue(FirstInMembers(v, i, seen), ValueDone(outer), rest, broken)
    decreases v, 0, |v.members| - i
  {
    hide Run, Tokens, FirstRepeated;
    var stack, tail := outer + [Frame(true, seen, true)], [CloseObject] + rest;
    if i == |v.members| {
      assert MemberTokens(v, i) + tail == tail;
      RunStep(stack, CloseObject, rest, broken);
      assert stack[..|outer|] == outer;
    } else {
      var m := v.members[i];
      var more := MemberTokens(v, i + 1) + tail;
      assert MemberTokens(v, i) + tail == [Str(m.key)] + (Tokens(m.value) + more);
      RunStep(stack, Str(m.key), Tokens(m.value) + more, broken);
      if m.key !in seen {
        var now := outer + [Frame(true, seen + {m.key}, false)];
        assert stack[|outer| := Frame(true, seen + {m.key}, false)] == now;
        RunValue(now, m.value, more, broken);
        assert ValueDone(now) == outer + [Frame(true, seen + {m.key}, true)];
        RunMembers(outer, v, i + 1, seen + {m.key}, rest, broken);
      }
    }
  }

  // ---- First means some ------------------------------------------------------------------------------------------

  /** A key at or behind i repeats an earlier one, or one already seen. */
  ghost predicate RepeatsFrom(v: Json, i: nat, seen: set<string>)
    requires v.Object?
  {
    exists k | i <= k < |v.members| :: RepeatedAt(v, i, k, seen)
  }

  ghost predicate RepeatedAt(v: Json, i: nat, k: nat, seen: set<string>)
    requires v.Object? && i <= k < |v.members|
  {
    v.members[k].key in seen || exists p | i <= p < k :: v.members[p].key == v.members[k].key
  }

  lemma {:induction false} FirstIffRepeats(v: Json)
    ensures FirstRepeated(v).Some? <==> Repeats(v)
    decreases v, 1, 0
  {
    match v {
      case Text(_) =>
      case Scalar =>
      case Array(items) => ItemsIffRepeats(v, 0);
      case Object(members) =>
        MembersIffRepeats(v, 0, {});
        assert RepeatsFrom(v, 0, {}) <==> exists i, k | 0 <= i < k < |members| :: members[i].key == members[k].key by {
          if i, k :| 0 <= i < k < |members| && members[i].key == members[k].key {
            assert RepeatedAt(v, 0, k, {});
          }
        }
    }
  }

  lemma {:induction false} ItemsIffRepeats(v: Json, i: nat)
    requires v.Array? && i <= |v.items|
    ensures FirstInItems(v, i).Some? <==> exists j | i <= j < |v.items| :: Repeats(v.items[j])
    decreases v, 0, |v.items| - i
  {
    hide FirstRepeated, Repeats;
    if i < |v.items| {
      FirstIffRepeats(v.items[i]);
      ItemsIffRepeats(v, i + 1);
    }
  }

  lemma {:induction false} MembersIffRepeats(v: Json, i: nat, seen: set<string>)
    requires v.Object? && i <= |v.members|
    ensures FirstInMembers(v, i, seen).Some? <==>
      RepeatsFrom(v, i, seen) || exists j | i <= j < |v.members| :: Repeats(v.members[j].value)
    decreases v, 0, |v.members| - i
  {
    hide FirstRepeated, Repeats;
    if i < |v.members| {
      var more := seen + {v.members[i].key};
      FirstIffRepeats(v.members[i].value);
      MembersIffRepeats(v, i + 1, more);
      RepeatsFromNext(v, i, seen);
    }
  }

  lemma RepeatsFromNext(v: Json, i: nat, seen: set<string>)
    requires v.Object? && i < |v.members|
    ensures RepeatsFrom(v, i, seen) <==>
      v.members[i].key in seen || RepeatsFrom(v, i + 1, seen + {v.members[i].key})
  {
    var more := seen + {v.members[i].key};
    if v.members[i].key in seen {
      assert RepeatedAt(v, i, i, seen);
    } else {
      forall k | i + 1 <= k < |v.members| ensures RepeatedAt(v, i, k, seen) <==> RepeatedAt(v, i + 1, k, more) {
      }
      assert !RepeatedAt(v, i, i, seen);
      if RepeatsFrom(v, i, seen) {
        var k :| i <= k < |v.members| && RepeatedAt(v, i, k, seen);
        assert RepeatedAt(v, i + 1, k, more);
      }
      if RepeatsFrom(v, i + 1, more) {
        var k :| i + 1 <= k < |v.members| && RepeatedAt(v, i + 1, k, more);
        assert RepeatedAt(v, i, k, seen);
      }
    }
  }

  /** On the token stream of any JSON values, at any nesting, a duplicate is reported exactly when some object
      repeats a key, and then the key that is repeated first in document order; a stream that ends in an error is
      invalid, and only then. */
  lemma {:induction false} DuplicateIffRepeats(vs: seq<Json>, broken: bool)
    ensures Run([], StreamTokens(vs), broken).Duplicate? <==> exists i | 0 <= i < |vs| :: Repeats(vs[i])
    ensures Run([], StreamTokens(vs), broken).Duplicate? ==>
      exists i | 0 <= i < |vs| ::
        FirstRepeated(vs[i]) == Some(Run([], StreamTokens(vs), broken).key) && forall j | 0 <= j < i :: !Repeats(vs[j])
    ensures Run([], StreamTokens(vs), broken).Invalid? <==> broken && forall i | 0 <= i < |vs| :: !Repeats(vs[i])
    decreases |vs|
  {
    hide Run, Tokens, FirstRepeated, Repeats;
    if vs == [] {
      RunEnd(broken);
    } else {
      RunValue([], vs[0], StreamTokens(vs[1..]), broken);
      FirstIffRepeats(vs[0]);
      DuplicateIffRepeats(vs[1..], broken);
      assert forall i | 0 < i < |vs| :: vs[1..][i - 1] == vs[i];
      if FirstRepeated(vs[0]).None? && Run([], StreamTokens(vs[1..]), broken).Duplicate? {
        var i :| 0 <= i < |vs[1..]| && FirstRepeated(vs[1..][i]) == Some(Run([], StreamTokens(vs[1..]), broken).key)
              && forall j | 0 <= j < i :: !Repeats(vs[1..][j]);
        assert FirstRepeated(vs[i + 1]) == Some(Run([], StreamTokens(vs), broken).key);
      }
    }
  }

  lemma RunEnd(broken: bool)
    ensures Run([], [], broken) == if broken then Invalid else Accepted
  {
  }

  // ---- Streams that end anywhere ---------------------------------------------------------------------------------

  function MembersTokens(members: seq<Member>): seq<Token> {
    if members == [] then []
    else [Str(members[0].key)] + Tokens(members[0].value) + MembersTokens(members[1..])
  }

  lemma {:induction false} ItemsAreStream(v: Json, i: nat)
    requires v.Array? && i <= |v.items|
    ensures ItemTokens(v, i) == StreamTokens(v.items[i..])
    decreases |v.items| - i
  {
    hide Tokens;
    if i < |v.items| {
      assert v.items[i..][0] == v.items[i] && v.items[i..][1..] == v.items[i + 1..];
      ItemsAreStream(v, i + 1);
    }
  }

  lemma {:induction false} MembersAreList(v: Json, i: nat)
    requires v.Object? && i <= |v.members|
    ensures MemberTokens(v, i) == MembersTokens(v.members[i..])
    decreases |v.members| - i
  {
    hide Tokens;
    if i < |v.members| {
      assert v.members[i..][0] == v.members[i] && v.members[i..][1..] == v.members[i + 1..];
      MembersAreList(v, i + 1);
    }
  }

  /** The tokens of a compound value are its brackets around those of its parts. */
  lemma CompoundTokens(v: Json)
    ensures v.Array? ==> Tokens(v) == [OpenArray] + StreamTokens(v.items) + [CloseArray]
    ensures v.Object? ==> Tokens(v) == [OpenObject] + MembersTokens(v.members) + [CloseObject]
  {
    if v.Array? {
      ItemsAreStream(v, 0);
      assert v.items[0..] == v.items;
    } else if v.Object? {
      MembersAreList(v, 0);
      assert v.members[0..] == v.members;
    }
  }

  /** A value of which only the first n tokens were read: what is missing is left out, and a key without a value gets
      an empty one. */
  function Shown(v: Json, n: nat): Json
    decreases n, 0
  {
    if n == 0 then Array([])
    else match v
      case Array(items) => Array(ShownStream(items, n - 1))
      case Object(members) => Object(ShownMembers(members, n - 1))
      case _ => v
  }

  function ShownStream(vs: seq<Json>, n: nat): seq<Json>
    decreases n, 1
  {
    if vs == [] || n == 0 then []
    else if n >= |Tokens(vs[0])| then [vs[0]] + ShownStream(vs[1..], n - |Tokens(vs[0])|)
    else [Shown(vs[0], n)]
  }

  function ShownMembers(members: seq<Member>, n: nat): seq<Member>
    decreases n, 1
  {
    if members == [] || n == 0 then []
    else
      var m := members[0];
      if n > |Tokens(m.value)| then [m] + ShownMembers(members[1..], n - 1 - |Tokens(m.value)|)
      else [Member(m.key, Shown(m.value, n - 1))]
  }

  predicate Bracket(token: Token) {
    token.OpenObject? || token.OpenArray? || token.CloseObject? || token.CloseArray?
  }

  predicate Brackets(tokens: seq<Token>) {
    forall i | 0 <= i < |tokens| :: Bracket(tokens[i])
  }

  /** Brackets alone complete the tokens read so far to those of the values shown so far. */
  lemma {:induction false} StreamShown(vs: seq<Json>, n: nat) returns (closing: seq<Token>)
    requires n <= |StreamTokens(vs)|
    ensures Brackets(closing) && StreamTokens(vs)[..n] + closing == StreamTokens(ShownStream(vs, n))
    decreases n, 1
  {
    hide Tokens, Shown;
    closing := [];
    if vs != [] && n > 0 {
      var head, tail := Tokens(vs[0]), StreamTokens(vs[1..]);
      if n >= |head| {
        closing := StreamShown(vs[1..], n - |head|);
        StreamCons(vs[0], ShownStream(vs[1..], n - |head|));
        assert (head + tail)[..n] == head + tail[..n - |head|];
        assert head + tail[..n - |head|] + closing == head + (tail[..n - |head|] + closing);
      } else {
        closing := ValueShown(vs[0], n);
        StreamCons(Shown(vs[0], n), []);
        assert (head + tail)[..n] == head[..n];
      }
    }
  }

  lemma StreamCons(v: Json, vs: seq<Json>)
    ensures StreamTokens([v] + vs) == Tokens(v) + StreamTokens(vs)
  {
    assert ([v] + vs)[1..] == vs;
  }

  lemma MembersCons(m: Member, ms: seq<Member>)
    ensures MembersTokens([m] + ms) == [Str(m.key)] + Tokens(m.value) + MembersTokens(ms)
  {
    assert ([m] + ms)[1..] == ms;
  }

  lemma {:induction false} MembersShown(members: seq<Member>, n: nat) returns (closing: seq<Token>)
    requires n <= |MembersTokens(members)|
    ensures Brackets(closing) && MembersTokens(members)[..n] + closing == MembersTokens(ShownMembers(members, n))
    decreases n, 1
  {
    hide Tokens, Shown;
    closing := [];
    if members != [] && n > 0 {
      var m := members[0];
      var key, value, tail := [Str(m.key)], Tokens(m.value), MembersTokens(members[1..]);
      var head := key + value;
      if n > |value| {
        closing := MembersShown(members[1..], n - |head|);
        MembersCons(m, ShownMembers(members[1..], n - |head|));
        assert (head + tail)[..n] == head + tail[..n - |head|];
        assert head + tail[..n - |head|] + closing == head + (tail[..n - |head|] + closing);
      } else {
        closing := ValueShown(m.value, n - 1);
        MembersCons(Member(m.key, Shown(m.value, n - 1)), []);
        assert (head + tail)[..n] == key + value[..n - 1];
        assert key + value[..n - 1] + closing == key + (value[..n - 1] + closing);
      }
    }
  }

  lemma {:induction false} ValueShown(v: Json, n: nat) returns (closing: seq<Token>)
    requires n < |Tokens(v)|
    ensures Brackets(closing) && Tokens(v)[..n] + closing == Tokens(Shown(v, n))
    decreases n, 0
  {
    CompoundTokens(v);
    CompoundTokens(Shown(v, n));
    hide Tokens;
    if n == 0 {
      closing := [OpenArray, CloseArray];
    } else if v.Array? {
      var inner := StreamTokens(v.items);
      var c := StreamShown(v.items, n - 1);
      closing := c + [CloseArray];
      assert ([OpenArray] + inner + [CloseArray])[..n] == [OpenArray] + inner[..n - 1];
      assert [OpenArray] + inner[..n - 1] + closing == [OpenArray] + (inner[..n - 1] + c) + [CloseArray];
    } else {
      ScalarTokens(v);
      var inner := MembersTokens(v.members);
      var c := MembersShown(v.members, n - 1);
      closing := c + [CloseObject];
      assert ([OpenObject] + inner + [CloseObject])[..n] == [OpenObject] + inner[..n - 1];
      assert [OpenObject] + inner[..n - 1] + closing == [OpenObject] + (inner[..n - 1] + c) + [CloseObject];
    }
  }

  lemma ScalarTokens(v: Json)
    ensures !v.Array? && !v.Object? ==> |Tokens(v)| == 1
  {
  }

  /** Brackets never repeat a key, whatever the stack. */
  lemma {:induction false} BracketsRepeatNothing(stack: seq<Frame>, closing: seq<Token>, broken: bool)
    requires Brackets(closing)
    ensures !Run(stack, closing, broken).Duplicate?
    decreases |closing|
  {
    if closing != [] {
      assert Bracket(closing[0]) && Brackets(closing[1..]);
      match Step(stack, closing[0]) {
        case Stop(_) =>
        case Go(next) => BracketsRepeatNothing(next, closing[1..], broken);
      }
    }
  }

  /** Brackets behind a stream do not change what was repeated in it. */
  lemma {:induction false} RunBeforeBrackets(stack: seq<Frame>, tokens: seq<Token>, closing: seq<Token>, broken: bool)
    requires Brackets(closing)
    ensures Run(stack, tokens + closing, broken).Duplicate? <==> Run(stack, tokens, broken).Duplicate?
    ensures Run(stack, tokens, broken).Duplicate? ==> Run(stack, tokens + closing, broken) == Run(stack, tokens, broken)
    decreases |tokens|
  {
    if tokens == [] {
      assert tokens + closing == closing;
      BracketsRepeatNothing(stack, closing, broken);
    } else {
      assert (tokens + closing)[1..] == tokens[1..] + closing;
      match Step(stack, tokens[0]) {
        case Stop(_) =>
        case Go(next) => RunBeforeBrackets(next, tokens[1..], closing, broken);
      }
    }
  }

  /** The start of a stream that is balanced is only invalid for the error it ends in. */
  lemma {:induction false} RunStart(stack: seq<Frame>, tokens: seq<Token>, rest: seq<Token>, broken: bool)
    requires !Run(stack, tokens + rest, false).Invalid?
    ensures Run(stack, tokens, broken).Duplicate? || Run(stack, tokens, broken) == if broken then Invalid else Accepted
    decreases |tokens|
  {
    if tokens != [] {
      assert (tokens + rest)[1..] == tokens[1..] + rest;
      match Step(stack, tokens[0]) {
        case Stop(_) =>
        case Go(next) => RunStart(next, tokens[1..], rest, broken);
      }
    }
  }

  /** For a stream that ends anywhere, also inside an object, well or in an error: a duplicate is reported exactly when
      what was read so far repeats a key, and the stream is invalid exactly when it ends in an error and repeats
      none. */
  lemma StartDuplicateIff(vs: seq<Json>, n: nat, broken: bool)
    requires n <= |StreamTokens(vs)|
    ensures var verdict, read := Run([], StreamTokens(vs)[..n], broken), ShownStream(vs, n);
      && (verdict.Duplicate? <==> exists i | 0 <= i < |read| :: Repeats(read[i]))
      && (verdict.Invalid? <==> broken && forall i | 0 <= i < |read| :: !Repeats(read[i]))
  {
    hide Run, StreamTokens, Repeats, ShownStream;
    var start, read := StreamTokens(vs)[..n], ShownStream(vs, n);
    var closing := StreamShown(vs, n);
    DuplicateIffRepeats(read, broken);
    RunBeforeBrackets([], start, closing, broken);
    DuplicateIffRepeats(vs, false);
    assert StreamTokens(vs) == start + StreamTokens(vs)[n..];
    RunStart([], start, StreamTokens(vs)[n..], broken);
  }
}
