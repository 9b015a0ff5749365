/** Counting occurrences at every position, and the marked lines of a text. */
module Occurrences {
  import opened Text
  import opened Masking
  import opened Markers

  /** How many positions m stands at, overlapping ones included. */
  function Occ(text: string, m: string): nat
    requires m != ""
  {
    if text == "" then 0 else (if m <= text then 1 else 0) + Occ(text[1..], m)
  }

  /** Joining texts loses no occurrence. */
  lemma {:induction false} OccConcat(a: string, b: string, m: string)
    requires m != ""
    ensures Occ(a + b, m) >= Occ(a, m) + Occ(b, m)
    decreases |a|
  {
    if a == "" {
      assert a + b == b;
    } else {
      assert (a + b)[1..] == a[1..] + b;
      OccConcat(a[1..], b, m);
      assert m <= a ==> m <= a + b;
    }
  }

  lemma OccThree(a: string, b: string, c: string, m: string)
    requires m != ""
    ensures Occ(a + b + c, m) >= Occ(a, m) + Occ(b, m) + Occ(c, m)
  {
    hide Occ;
    OccConcat(a + b, c, m);
    OccConcat(a, b, m);
  }

  lemma OccSelf(m: string)
    requires m != ""
    ensures Occ(m, m) >= 1
  {
  }

  lemma {:induction false} OccNone(text: string, m: string)
    requires m != "" && !Contains(text, m)
    ensures Occ(text, m) == 0
    decreases |text|
  {
    if text != "" {
      assert m <= text ==> At(text, 0, m);
      assert text == [text[0]] + text[1..];
      ContainsConcat([text[0]], text[1..], m);
      OccNone(text[1..], m);
    }
  }

  /** Only the occurrences behind a count when none starts in it. */
  lemma {:induction false} OccBehind(a: string, b: string, m: string)
    requires m != "" && forall k | 0 <= k < |a| :: !At(a + b, k, m)
    ensures Occ(a + b, m) == Occ(b, m)
    decreases |a|
  {
    if a == "" {
      assert a + b == b;
    } else {
      var s := a + b;
      assert s[1..] == a[1..] + b && s == [s[0]] + s[1..];
      assert m <= s ==> At(s, 0, m);
      forall k | 0 <= k < |a[1..]| ensures !At(a[1..] + b, k, m) {
        AtConcat([s[0]], s[1..], k, m);
        assert !At(s, k + 1, m);
      }
      OccBehind(a[1..], b, m);
    }
  }

  /** Only the occurrences in a count when all end in it. */
  lemma {:induction false} OccBefore(a: string, b: string, m: string)
    requires m != "" && forall k | 0 <= k <= |a + b| && At(a + b, k, m) :: k + |m| <= |a|
    ensures Occ(a + b, m) == Occ(a, m)
    decreases |a|
  {
    var s := a + b;
    if a == "" {
      assert s == b;
      OccNone(b, m);
    } else {
      assert s[1..] == a[1..] + b && s == [s[0]] + s[1..];
      assert m <= s ==> At(s, 0, m);
      assert m <= s <==> m <= a;
      forall k | 0 <= k <= |s[1..]| && At(s[1..], k, m) ensures k + |m| <= |a[1..]| {
        AtConcat([s[0]], s[1..], k, m);
        assert At(s, k + 1, m);
      }
      OccBefore(a[1..], b, m);
    }
  }

  /** A string the placeholder cannot touch does not hold the placeholder either. */
  lemma ApartHoldsNoMask(sub: string, m: string)
    requires Apart(sub, m) && m != ""
    ensures !Contains(sub, m)
  {
    forall k | 0 <= k <= |sub| ensures !At(sub, k, m) {
      if At(sub, k, m) {
        CutAt(sub, k, m);
        assert At(sub, 0, sub);
        Beside(sub[..k], m, sub[k + |m|..], 0, sub);
      }
    }
  }

  // ---- Marked lines ------------------------------------------------------------------------------------

  /** The line, if it carries a marker. */
  function IfMarked(line: string): seq<string> {
    if HasAllowMarker(line) then [line] else []
  }

  /** The lines that carry a marker, in order. */
  function MarkedOf(lines: seq<string>): seq<string> {
    if lines == [] then [] else IfMarked(lines[0]) + MarkedOf(lines[1..])
  }

  lemma MarkedCons(line: string, lines: seq<string>)
    ensures MarkedOf([line] + lines) == IfMarked(line) + MarkedOf(lines)
  {
    assert ([line] + lines)[1..] == lines;
  }

  function OccAll(lines: seq<string>, m: string): nat
    requires m != ""
  {
    if lines == [] then 0 else Occ(lines[0], m) + OccAll(lines[1..], m)
  }

  lemma {:induction false} OccAllConcat(a: seq<string>, b: seq<string>, m: string)
    requires m != ""
    ensures OccAll(a + b, m) == OccAll(a, m) + OccAll(b, m)
    decreases |a|
  {
    if a == [] {
      assert a + b == b;
    } else {
      assert (a + b)[1..] == a[1..] + b;
      OccAllConcat(a[1..], b, m);
    }
  }

  /** No line without a marker holds t. */
  ghost predicate Bare(lines: seq<string>, t: string) {
    forall k | 0 <= k < |lines| :: HasAllowMarker(lines[k]) || !Contains(lines[k], t)
  }
}
