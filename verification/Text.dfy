/** The operations of Go's strings package the modelled code relies on. A Go string is a sequence of bytes; here a text
    is a sequence of characters, and positions and lengths count characters. */
module Text {

  /** A half-open range of positions of a text. */
  datatype Span = Span(start: nat, end: nat)

  /** sub stands at position i of s. */
  predicate At(s: string, i: int, sub: string) {
    0 <= i <= |s| - |sub| && s[i..i + |sub|] == sub
  }

  /** strings.Contains */
  predicate Contains(s: string, sub: string) {
    exists i | 0 <= i <= |s| :: At(s, i, sub)
  }

  /** strings.Index: the least position of sub in s, or -1. */
  function Index(s: string, sub: string): (r: int)
    ensures r == -1 || 0 <= r <= |s| - |sub|
  {
    IndexFrom(s, sub, 0)
  }

  function IndexFrom(s: string, sub: string, from: nat): (r: int)
    requires from <= |s|
    ensures r == -1 || from <= r <= |s| - |sub|
    decreases |s| - from
  {
    if At(s, from, sub) then from
    else if from == |s| then -1
    else IndexFrom(s, sub, from + 1)
  }

  lemma {:induction false} IndexFromLeast(s: string, sub: string, from: nat)
    requires from <= |s|
    ensures var r := IndexFrom(s, sub, from);
      (r >= 0 ==> At(s, r, sub)) && forall i :: from <= i && (r < 0 || i < r) ==> !At(s, i, sub)
    decreases |s| - from
  {
    if !At(s, from, sub) && from < |s| { IndexFromLeast(s, sub, from + 1); }
  }

  lemma IndexLeast(s: string, sub: string)
    ensures var r := Index(s, sub);
      (r >= 0 ==> At(s, r, sub)) && forall i :: 0 <= i && (r < 0 || i < r) ==> !At(s, i, sub)
  {
    IndexFromLeast(s, sub, 0);
  }

  lemma ContainsIffIndex(s: string, sub: string)
    ensures Contains(s, sub) <==> Index(s, sub) >= 0
  {
    IndexLeast(s, sub);
  }

  /** strings.Count for a non-empty sub: occurrences taken from the left, without overlap. */
  function Count(s: string, sub: string): (n: nat)
    requires sub != ""
    decreases |s|
  {
    var i := Index(s, sub);
    if i < 0 then 0 else 1 + Count(s[i + |sub|..], sub)
  }

  lemma CountZero(s: string, sub: string)
    requires sub != ""
    ensures Count(s, sub) == 0 <==> !Contains(s, sub)
  {
    ContainsIffIndex(s, sub);
  }

  /** The left-to-right substitution of mask for sub in s, except for the occurrences in keep. An
      occurrence is named by its distance from the end of the text, which stays the same when the text
      in front of it is dropped. With nothing kept this is strings.ReplaceAll. */
  function Weave(s: string, sub: string, mask: string, keep: set<int>): string
    requires sub != ""
    decreases |s|
  {
    var i := Index(s, sub);
    if i < 0 then s
    else s[..i] + (if |s| - i in keep then sub else mask) + Weave(s[i + |sub|..], sub, mask, keep)
  }

  lemma WeaveNone(s: string, sub: string, mask: string, keep: set<int>)
    requires sub != "" && Index(s, sub) < 0
    ensures Weave(s, sub, mask, keep) == s
  {
  }

  lemma WeaveUnfold(s: string, sub: string, mask: string, keep: set<int>, i: nat, rest: string, d: int)
    requires sub != "" && i == Index(s, sub) && rest == s[i + |sub|..] && d == |s| - i
    ensures Weave(s, sub, mask, keep) == s[..i] + (if d in keep then sub else mask) + Weave(rest, sub, mask, keep)
  {
    hide Index;
  }

  /** How many occurrences Weave leaves in place. */
  function KeptCount(s: string, sub: string, keep: set<int>): (n: nat)
    requires sub != ""
    ensures n <= Count(s, sub)
    decreases |s|
  {
    var i := Index(s, sub);
    if i < 0 then 0 else (if |s| - i in keep then 1 else 0) + KeptCount(s[i + |sub|..], sub, keep)
  }

  lemma CountUnfold(s: string, sub: string, keep: set<int>, i: nat, rest: string, d: int)
    requires sub != "" && i == Index(s, sub) && rest == s[i + |sub|..] && d == |s| - i
    ensures KeptCount(s, sub, keep) == (if d in keep then 1 else 0) + KeptCount(rest, sub, keep)
    ensures Count(s, sub) == 1 + Count(rest, sub)
  {
    hide Index;
  }

  /** strings.ReplaceAll for a non-empty sub. */
  function ReplaceAll(s: string, sub: string, mask: string): string
    requires sub != ""
  {
    Weave(s, sub, mask, {})
  }

  lemma SliceOfSlice(s: string, i: nat, j: nat, x: nat, y: nat)
    requires i <= x <= y <= j <= |s|
    ensures s[i..j][x - i..y - i] == s[x..y]
  {
    var a, b := s[i..j][x - i..y - i], s[x..y];
    assert |a| == |b| && forall k | 0 <= k < |a| :: a[k] == s[x + k] == b[k];
  }

  lemma AtConcat(a: string, b: string, i: int, sub: string)
    ensures At(a, i, sub) ==> At(a + b, i, sub)
    ensures At(b, i, sub) ==> At(a + b, |a| + i, sub)
    ensures At(a + b, i, sub) && i + |sub| <= |a| ==> At(a, i, sub)
    ensures At(a + b, i, sub) && |a| <= i ==> At(b, i - |a|, sub)
  {
    if At(a, i, sub) { assert (a + b)[i..i + |sub|] == a[i..i + |sub|]; }
    if At(b, i, sub) { assert (a + b)[|a| + i..|a| + i + |sub|] == b[i..i + |sub|]; }
    if At(a + b, i, sub) && i + |sub| <= |a| { assert (a + b)[i..i + |sub|] == a[i..i + |sub|]; }
    if At(a + b, i, sub) && |a| <= i { assert (a + b)[i..i + |sub|] == b[i - |a|..i - |a| + |sub|]; }
  }

  lemma ContainsAt(s: string, i: int, sub: string)
    requires At(s, i, sub)
    ensures Contains(s, sub)
  {
  }

  lemma ContainsConcat(a: string, b: string, sub: string)
    ensures Contains(a, sub) || Contains(b, sub) ==> Contains(a + b, sub)
  {
    if Contains(a, sub) {
      var i :| 0 <= i <= |a| && At(a, i, sub);
      AtConcat(a, b, i, sub);
      ContainsAt(a + b, i, sub);
    }
    if Contains(b, sub) {
      var i :| 0 <= i <= |b| && At(b, i, sub);
      AtConcat(a, b, i, sub);
      ContainsAt(a + b, |a| + i, sub);
    }
  }

  /** The characters of an occurrence are the characters of the text. */
  lemma AtChar(s: string, i: int, sub: string, k: nat)
    requires At(s, i, sub) && k < |sub|
    ensures s[i + k] == sub[k]
  {
    assert s[i..i + |sub|][k] == s[i + k];
  }

  /** An occurrence of t inside an occurrence of sub is an occurrence of t in sub. */
  lemma AtInside(s: string, i: int, sub: string, j: int, t: string)
    requires At(s, i, sub) && At(s, j, t) && i <= j && j + |t| <= i + |sub|
    ensures At(sub, j - i, t)
  {
    forall k | 0 <= k < |t| ensures sub[j - i + k] == t[k] {
      AtChar(s, i, sub, j - i + k);
      AtChar(s, j, t, k);
    }
  }

  lemma AtSlice(s: string, lo: int, hi: int, i: int, sub: string)
    requires 0 <= lo <= hi <= |s|
    ensures At(s[lo..hi], i, sub) <==> 0 <= i && i + lo + |sub| <= hi && At(s, lo + i, sub)
  {
    if 0 <= i && i + lo + |sub| <= hi {
      var slice := s[lo..hi];
      var inner, outer := slice[i..i + |sub|], s[lo + i..lo + i + |sub|];
      assert forall k | 0 <= k < |sub| :: inner[k] == outer[k];
      assert inner == outer;
    }
  }

  /** strings.SplitN(s, sep, 2): the text before and after the first sep. */
  datatype Parts = Whole(text: string) | Two(before: string, after: string)

  function SplitTwo(s: string, sep: string): (p: Parts)
    requires sep != ""
    ensures p.Whole? ==> p.text == s && !Contains(s, sep)
    ensures p.Two? ==> s == p.before + sep + p.after
  {
    IndexLeast(s, sep);
    var i := Index(s, sep);
    if i < 0 then Whole(s) else Two(s[..i], s[i + |sep|..])
  }

  /** strings.Split on a one-character separator: always at least one part. */
  function Split(s: string, sep: char): (parts: seq<string>)
    ensures |parts| >= 1
  {
    if s == "" then [""]
    else
      var rest := Split(s[1..], sep);
      if s[0] == sep then [""] + rest else [[s[0]] + rest[0]] + rest[1..]
  }

  /** Splitting is a homomorphism across a separator. */
  lemma {:induction false} SplitAcross(a: string, sep: char, b: string)
    ensures Split(a + [sep] + b, sep) == Split(a, sep) + Split(b, sep)
  {
    var whole := a + [sep] + b;
    if a == "" {
      assert whole[1..] == b;
    } else {
      assert whole[1..] == a[1..] + [sep] + b;
      SplitAcross(a[1..], sep, b);
    }
  }
}
