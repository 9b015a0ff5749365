/** Cutting an encoded text at the first escape of given letters. */
module Breaks {
  import opened Escapes

  /** An escape of one of letters starts at i. */
  predicate BreakAt(s: string, i: int, letters: string) {
    0 <= i < |s| - 1 && s[i] == '\\' && s[i + 1] in letters && !Esc(false, s[..i])
  }

  ghost predicate NoBreak(s: string, letters: string) {
    forall i | 0 <= i < |s| :: !BreakAt(s, i, letters)
  }

  /** The text before the first escape of one of letters, read unit by unit. */
  function BeforeEscape(s: string, letters: string): (r: string)
    ensures r <= s
    ensures r == s || |r| + 2 <= |s|
  {
    if |s| < 2 then s
    else if s[0] != '\\' then [s[0]] + BeforeEscape(s[1..], letters)
    else if s[1] in letters then ""
    else s[..2] + BeforeEscape(s[2..], letters)
  }

  lemma CutFrom(s: string, i: nat, letters: string)
    requires i + 1 < |s|
    ensures s[i] != '\\' ==> |BeforeEscape(s[i..], letters)| == 1 + |BeforeEscape(s[i + 1..], letters)|
    ensures s[i] == '\\' && s[i + 1] in letters ==> BeforeEscape(s[i..], letters) == ""
    ensures s[i] == '\\' && s[i + 1] !in letters ==>
      |BeforeEscape(s[i..], letters)| == 2 + |BeforeEscape(s[i + 2..], letters)|
  {
    assert s[i..][1..] == s[i + 1..] && s[i..][2..] == s[i + 2..];
  }

  /** cutAtEscape. The result is a prefix of secret, so its length determines it. */
  method CutAtEscape(secret: string, terminators: string) returns (r: string)
    ensures r == BeforeEscape(secret, terminators)
  {
    assert secret[0..] == secret;
    var i := 0;
    while i + 1 < |secret|
      invariant 0 <= i <= |secret|
      invariant |BeforeEscape(secret, terminators)| == i + |BeforeEscape(secret[i..], terminators)|
    {
      CutFrom(secret, i, terminators);
      if secret[i] != '\\' {
        i := i + 1;
        continue;
      }
      if secret[i + 1] in terminators {
        return secret[..i];
      }
      i := i + 2;
    }
    return secret;
  }

  /** Whether a break starts behind a prefix that leaves no escape open does not depend on the prefix. */
  lemma BreakShift(a: string, b: string, i: int, letters: string)
    requires !Esc(false, a) && 0 <= i
    ensures BreakAt(b, i, letters) <==> BreakAt(a + b, |a| + i, letters)
  {
    if i < |b| {
      assert (a + b)[..|a| + i] == a + b[..i];
      EscConcat(false, a, b[..i]);
    }
  }

  lemma EscOpened(a: string)
    requires !Esc(false, a)
    ensures Esc(false, a + "\\")
  {
    EscConcat(false, a, "\\");
    assert Esc(false, "\\") == Esc(true, "");
  }

  /** A break inside a prefix that leaves no escape open. */
  lemma BreakPrefix(a: string, b: string, i: int, letters: string)
    requires !Esc(false, a) && i < |a|
    ensures BreakAt(a, i, letters) <==> BreakAt(a + b, i, letters)
  {
    if 0 <= i {
      assert (a + b)[..i] == a[..i];
      if BreakAt(a + b, i, letters) && i == |a| - 1 {
        assert a == a[..i] + "\\";
        EscOpened(a[..i]);
      }
    }
  }

  lemma NoBreakConcat(a: string, b: string, letters: string)
    requires !Esc(false, a)
    ensures NoBreak(a + b, letters) <==> NoBreak(a, letters) && NoBreak(b, letters)
  {
    if NoBreak(a + b, letters) {
      forall i | 0 <= i < |a| ensures !BreakAt(a, i, letters) { BreakPrefix(a, b, i, letters); }
      forall i | 0 <= i < |b| ensures !BreakAt(b, i, letters) { BreakShift(a, b, i, letters); }
    }
    if NoBreak(a, letters) && NoBreak(b, letters) {
      forall i | 0 <= i < |a + b| ensures !BreakAt(a + b, i, letters) {
        if i < |a| { BreakPrefix(a, b, i, letters); } else { BreakShift(a, b, i - |a|, letters); }
      }
    }
  }

  /** The cut is at the first break, or there is none. */
  lemma {:induction false} CutIsFirstBreak(s: string, letters: string)
    ensures var r := BeforeEscape(s, letters);
      if r == s then NoBreak(s, letters)
      else BreakAt(s, |r|, letters) && NoBreak(r, letters) && !Esc(false, r)
  {
    if |s| >= 2 && !(s[0] == '\\' && s[1] in letters) {
      var unit := if s[0] == '\\' then 2 else 1;
      var head, tail := s[..unit], s[unit..];
      assert s == head + tail;
      UnitClosed(head);
      CutIsFirstBreak(tail, letters);
      var r := BeforeEscape(tail, letters);
      assert BeforeEscape(s, letters) == head + r;
      assert NoBreak(head, letters);
      NoBreakConcat(head, tail, letters);
      NoBreakConcat(head, r, letters);
      BreakShift(head, tail, |r|, letters);
      EscConcat(false, head, r);
      assert r == tail <==> head + r == s by { assert (head + r)[unit..] == r && (head + tail)[unit..] == tail; }
    }
  }

  lemma UnitClosed(unit: string)
    requires (|unit| == 1 && unit[0] != '\\') || (|unit| == 2 && unit[0] == '\\')
    ensures !Esc(false, unit)
  {
    if |unit| == 2 {
      assert unit[1..] == [unit[1]];
      assert !Esc(true, [unit[1]]);
    }
  }

  /** Conversely, a text that is free of breaks and followed by one is exactly what the cut returns. */
  lemma CutBeforeBreak(a: string, rest: string, letters: string)
    requires !Esc(false, a) && NoBreak(a, letters) && BreakAt(rest, 0, letters)
    ensures BeforeEscape(a + rest, letters) == a
  {
    var s := a + rest;
    CutIsFirstBreak(s, letters);
    var r := BeforeEscape(s, letters);
    BreakShift(a, rest, 0, letters);
    if |r| < |a| {
      BreakPrefix(a, rest, |r|, letters);
    } else if |a| < |r| {
      assert r == a + r[|a|..];
      assert r[..|a|] == a == s[..|a|];
      assert |a| < |r| - 1 ==> BreakAt(r, |a|, letters);
      if |a| == |r| - 1 {
        assert r == a + "\\";
        EscOpened(a);
      }
    } else {
      assert r == s[..|r|] == a;
    }
  }
}
