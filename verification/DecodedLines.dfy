/** The lines an allow marker counts for are those of the decoded string, which end at a line feed or a carriage
    return. */
module DecodedLines {
  import opened Text
  import opened Escapes
  import opened StringBody
  import opened Breaks
  import opened Markers
  import opened LineWise

  /** The two characters that end a line. */
  predicate EndsPart(c: char) {
    c == '\n' || c == '\r'
  }

  predicate OnePart(s: string) {
    forall i | 0 <= i < |s| :: !EndsPart(s[i])
  }

  /** The parts of s between the characters that end a line. */
  function PartsOf(s: string): (parts: seq<string>)
    ensures |parts| >= 1
  {
    if s == "" then [""]
    else
      var rest := PartsOf(s[1..]);
      if EndsPart(s[0]) then [""] + rest else [[s[0]] + rest[0]] + rest[1..]
  }

  /** The encodings of strings, in order. */
  function Encoded(parts: seq<string>): seq<string> {
    seq(|parts|, i requires 0 <= i < |parts| => Encode(parts[i]))
  }

  lemma {:induction false} PartsUnfold(p: string, c: char, rest: string)
    requires OnePart(p) && EndsPart(c)
    ensures PartsOf(p) == [p] && PartsOf(p + [c] + rest) == [p] + PartsOf(rest)
    decreases |p|
  {
    var s := p + [c] + rest;
    if p == "" {
      assert s[1..] == rest;
    } else {
      assert s[1..] == p[1..] + [c] + rest;
      PartsUnfold(p[1..], c, rest);
      assert p == [p[0]] + p[1..];
    }
  }

  /** A string is one part, or a part, the character that ends it, and the rest. */
  lemma {:induction false} FirstPart(s: string) returns (p: string, rest: string)
    ensures OnePart(p) && p <= s
    ensures p == s || (|p| < |s| && EndsPart(s[|p|]) && s == p + [s[|p|]] + rest)
  {
    if s == "" || EndsPart(s[0]) {
      p, rest := "", if s == "" then "" else s[1..];
      assert s != "" ==> s == "" + [s[0]] + s[1..];
    } else {
      p, rest := FirstPart(s[1..]);
      assert s == [s[0]] + s[1..];
      p := [s[0]] + p;
    }
  }

  // ---- Encoded parts --------------------------------------------------------------------------------------------

  /** No character but those two is encoded with an escape that ends a line. */
  lemma CharOfPart(c: char)
    requires !EndsPart(c)
    ensures LineText(EncodeChar(c))
  {
    hide Esc;
    EncodedCharClosed(c);
    var code := EncodeChar(c);
    forall i | 0 <= i < |code| ensures !BreakAt(code, i, LINE_BREAKS) {
      assert code[i] == '\\' ==> i == 0 || code == "\\\\";
    }
    if code == "\\\\" { assert code[..1] == "\\"; OpenBackslash("\\"); }
  }

  lemma EncodedCharClosed(c: char)
    ensures !Esc(false, EncodeChar(c))
  {
    assert [c][1..] == "" && Encode([c]) == EncodeChar(c) + "";
    assert EncodeChar(c) + "" == EncodeChar(c);
    EncodeIsWellEncoded([c]);
    WellEncodedClosed(Encode([c]));
  }

  /** The encoding of a part stands on one line. */
  lemma {:induction false} EncodedPart(p: string)
    requires OnePart(p)
    ensures LineText(Encode(p))
  {
    hide Esc, NoBreak, EncodeChar;
    if p == "" {
      NothingText();
    } else {
      EncodedPart(p[1..]);
      CharOfPart(p[0]);
      LineTextConcat(EncodeChar(p[0]), Encode(p[1..]));
    }
  }

  lemma NothingText()
    ensures LineText("")
  {
  }

  /** The characters that end a line are encoded as escapes that do. */
  lemma EncodedBreak(c: char, rest: string)
    requires EndsPart(c)
    ensures |Encode([c])| == 2 && BreakAt(Encode([c]) + rest, 0, LINE_BREAKS)
  {
    assert [c][1..] == "" && Encode([c]) == EncodeChar(c) + "";
    assert EncodeChar(c) + "" == EncodeChar(c);
    assert (Encode([c]) + rest)[..0] == "";
  }

  /** The lines of an encoded string are the encodings of the parts of the string, in order. */
  lemma {:induction false} LinesAreParts(s: string)
    ensures Lines(Encode(s)) == Encoded(PartsOf(s))
    decreases |s|
  {
    hide Lines, Encode, PartsOf, LineText, BreakAt;
    var p, rest := FirstPart(s);
    EncodedPart(p);
    if p == s {
      PartsUnfold(p, '\n', "");
      WholeLine(Encode(s));
    } else {
      var c := s[|p|];
      PartsUnfold(p, c, rest);
      EncodeConcat(p + [c], rest);
      EncodeConcat(p, [c]);
      EncodedBreak(c, Encode(rest));
      LinesUnfold(Encode(p), Encode([c]), Encode(rest));
      LinesAreParts(rest);
      assert Encoded([p] + PartsOf(rest)) == [Encode(p)] + Encoded(PartsOf(rest));
    }
  }

  // ---- Allowed spans ---------------------------------------------------------------------------------------------

  /** The characters from x to y are one of the parts of s. */
  predicate PartBetween(s: string, x: nat, y: nat) {
    && x <= y <= |s| && OnePart(s[x..y])
    && (x == 0 || EndsPart(s[x - 1])) && (y == |s| || EndsPart(s[y]))
  }

  predicate CarriesMarker(text: string) {
    Contains(text, "betterleaks:allow") || Contains(text, "gitleaks:allow")
  }

  /** The positions from i to j of the encoded string lie in the encoding of the part of s from x to y, and that
      encoding carries a marker. */
  predicate InMarked(s: string, x: nat, y: nat, i: int, j: int) {
    && PartBetween(s, x, y) && CarriesMarker(Encode(s[x..y]))
    && |Encode(s[..x])| <= i && j <= |Encode(s[..y])|
  }

  /** The end of the part that starts at x. */
  function PartEnd(s: string, x: nat): (y: nat)
    requires x <= |s|
    ensures x <= y <= |s| && OnePart(s[x..y]) && (y == |s| || EndsPart(s[y]))
    decreases |s| - x
  {
    if x == |s| || EndsPart(s[x]) then x
    else
      var y := PartEnd(s, x + 1);
      assert s[x..y] == [s[x]] + s[x + 1..y];
      y
  }

  /** From one part on, the parts are that part and those behind the character that ends it. */
  lemma NextPart(s: string, a: nat, x: nat, y: nat)
    requires a <= |s| && (a == 0 || EndsPart(s[a - 1])) && PartBetween(s, x, y) && a <= x
    ensures var b := PartEnd(s, a); (x == a && y == b) || b + 1 <= x
  {
    var b := PartEnd(s, a);
    assert forall k | a <= k < b :: s[k] == s[a..b][k - a];
    assert forall k | x <= k < y :: s[k] == s[x..y][k - x];
  }

  /** How the encoding of s continues from a part on. */
  lemma EncodedFrom(s: string, a: nat)
    requires a <= |s|
    ensures var b := PartEnd(s, a); var body, start := Encode(s), |Encode(s[..a])|;
      && start <= |body| && BeforeEscape(body[start..], LINE_BREAKS) == Encode(s[a..b])
      && start + |Encode(s[a..b])| == |Encode(s[..b])|
      && (b < |s| ==> |Encode(s[..b])| + 2 == |Encode(s[..b + 1])|)
      && (b == |s| ==> |Encode(s[..b])| == |body|)
  {
    hide Encode, BeforeEscape, BreakAt, LineText, PartEnd, OnePart;
    var b := PartEnd(s, a);
    var part := s[a..b];
    assert s[..b] == s[..a] + part && s == s[..a] + s[a..];
    EncodeConcat(s[..a], part);
    EncodeConcat(s[..a], s[a..]);
    EncodedPart(part);
    assert Encode(s)[|Encode(s[..a])|..] == Encode(s[a..]);
    if b < |s| {
      var c, rest := s[b], s[b + 1..];
      assert s[..b + 1] == s[..b] + [c] && s[a..] == part + ([c] + rest);
      EncodeConcat(s[..b], [c]);
      EncodeConcat(part, [c] + rest);
      EncodeConcat([c], rest);
      EncodedBreak(c, Encode(rest));
      PartThenBreak(Encode(part), Encode([c]) + Encode(rest));
    } else {
      assert s[a..] == part && s[..b] == s;
      PartAlone(Encode(part));
    }
  }

  lemma PartThenBreak(line: string, rest: string)
    requires LineText(line) && BreakAt(rest, 0, LINE_BREAKS)
    ensures BeforeEscape(line + rest, LINE_BREAKS) == line
  {
    CutBeforeBreak(line, rest, LINE_BREAKS);
  }

  lemma PartAlone(line: string)
    requires LineText(line)
    ensures BeforeEscape(line, LINE_BREAKS) == line
  {
    CutIsFirstBreak(line, LINE_BREAKS);
  }

  lemma {:induction false} AllowedFromPart(s: string, a: nat, i: int, j: int)
    requires a <= |s| && (a == 0 || EndsPart(s[a - 1]))
    ensures Within(AllowedFrom(Encode(s), |Encode(s[..a])|), i, j) <==>
            exists x: nat, y: nat | a <= x :: InMarked(s, x, y, i, j)
    decreases |s| - a
  {
    hide AllowedFrom, Encode, BeforeEscape, Contains, PartEnd;
    var b, body, start := PartEnd(s, a), Encode(s), |Encode(s[..a])|;
    var line := Encode(s[a..b]);
    EncodedFrom(s, a);
    AllowedUnfold(body, start, line);
    var later := AllowedFrom(body, start + |line| + 2);
    WithinFirst(body, start, line, later, i, j);
    assert InMarked(s, a, b, i, j) <==> HasAllowMarker(line) && start <= i && j <= start + |line|;
    if b < |s| {
      AllowedFromPart(s, b + 1, i, j);
    } else {
      NothingBehind(body, start + |line| + 2);
    }
    forall x: nat, y: nat | a <= x && InMarked(s, x, y, i, j) ensures (x == a && y == b) || b + 1 <= x {
      NextPart(s, a, x, y);
    }
    if x: nat, y: nat :| b + 1 <= x && InMarked(s, x, y, i, j) { assert a <= x && b < |s|; }
  }

  lemma WithinFirst(body: string, start: nat, line: string, later: seq<Span>, i: int, j: int)
    ensures Within((if HasAllowMarker(line) then [Span(start, start + |line|)] else []) + later, i, j) <==>
            (HasAllowMarker(line) && start <= i && j <= start + |line|) || Within(later, i, j)
  {
    hide HasAllowMarker;
    var first := if HasAllowMarker(line) then [Span(start, start + |line|)] else [];
    assert forall span :: span in first + later <==> span in first || span in later;
    if HasAllowMarker(line) { assert first[0] in first + later; }
  }

  /** An occurrence lies within an allowed line if and only if it lies in the encoding of a part of the decoded string
      between line feeds and carriage returns, and that encoding carries a marker. */
  lemma AllowedIffMarkedPart(s: string, i: int, j: int)
    ensures Within(AllowedFrom(Encode(s), 0), i, j) <==> exists x: nat, y: nat :: InMarked(s, x, y, i, j)
  {
    hide AllowedFrom, InMarked, Within;
    assert s[..0] == "" && Encode("") == "";
    AllowedFromPart(s, 0, i, j);
    if x: nat, y: nat :| InMarked(s, x, y, i, j) { assert 0 <= x && InMarked(s, x, y, i, j); }
  }
}
