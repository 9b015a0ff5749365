/** Allow markers: which lines of a leaf keep their secrets, and a substitution that respects them. */
module Markers {
  import opened Text
  import opened Breaks
  import opened Masking

  /** The escapes that end a line of the decoded string. */
  const LINE_BREAKS := "nr"
  const BETTERLEAKS := "betterleaks:allow"
  const GITLEAKS := "gitleaks:allow"

  /** hasAllowMarker */
  predicate HasAllowMarker(s: string) {
    Contains(s, BETTERLEAKS) || Contains(s, GITLEAKS)
  }

  /** The spans of the lines of body from start on that carry a marker. */
  function AllowedFrom(body: string, start: nat): seq<Span>
    decreases |body| + 2 - start
  {
    if start > |body| then []
    else
      var line := BeforeEscape(body[start..], LINE_BREAKS);
      (if HasAllowMarker(line) then [Span(start, start + |line|)] else [])
      + AllowedFrom(body, start + |line| + 2)
  }

  /** allowedLines */
  method AllowedLines(body: string) returns (out: seq<Span>)
    ensures out == AllowedFrom(body, 0)
  {
    hide AllowedFrom, BeforeEscape, HasAllowMarker;
    out := [];
    var start := 0;
    while start <= |body|
      invariant out + AllowedFrom(body, start) == AllowedFrom(body, 0)
      decreases |body| + 2 - start
    {
      var line := CutAtEscape(body[start..], LINE_BREAKS);
      AllowedUnfold(body, start, line);
      if HasAllowMarker(line) {
        out := out + [Span(start, start + |line|)];
      }
      start := start + |line| + 2;
    }
    NothingBehind(body, start);
  }

  lemma AllowedUnfold(body: string, start: nat, line: string)
    requires start <= |body| && line == BeforeEscape(body[start..], LINE_BREAKS)
    ensures AllowedFrom(body, start) ==
      (if HasAllowMarker(line) then [Span(start, start + |line|)] else []) + AllowedFrom(body, start + |line| + 2)
  {
  }

  lemma NothingBehind(body: string, start: nat)
    requires start > |body|
    ensures AllowedFrom(body, start) == []
  {
  }

  /** within */
  predicate Within(spans: seq<Span>, start: int, end: int) {
    exists s | s in spans :: s.start <= start && end <= s.end
  }

  /** The occurrences of a secret of length n that lie within spans, named as Weave names them. */
  function KeptIn(spans: seq<Span>, size: nat, n: nat): set<int> {
    set d | 0 <= d <= size && WithinBack(spans, size, n, d)
  }

  predicate WithinBack(spans: seq<Span>, size: nat, n: nat, d: int) {
    Within(spans, size - d, size - d + n)
  }

  /** The occurrences of a secret of length n that stay in body. */
  function Kept(body: string, n: nat): set<int> {
    KeptIn(AllowedFrom(body, 0), |body|, n)
  }

  /** The first occurrence of secret from pos on lies at start..end. */
  predicate NextAt(body: string, pos: nat, secret: string, start: nat, end: nat) {
    secret != "" && pos <= start <= end <= |body| && end == start + |secret|
    && Index(body[pos..], secret) == start - pos
  }

  lemma WeaveAt(body: string, pos: nat, secret: string, placeholder: string, keep: set<int>, start: nat, end: nat)
    requires NextAt(body, pos, secret, start, end)
    ensures Weave(body[pos..], secret, placeholder, keep) ==
      body[pos..start] + (if |body| - start in keep then secret else placeholder)
      + Weave(body[end..], secret, placeholder, keep)
  {
    var s, i := body[pos..], start - pos;
    assert s[i + |secret|..] == body[end..] && s[..i] == body[pos..start];
    WeaveUnfold(s, secret, placeholder, keep, i, body[end..], |body| - start);
  }

  lemma KeptCountAt(body: string, pos: nat, secret: string, keep: set<int>, start: nat, end: nat)
    requires NextAt(body, pos, secret, start, end)
    ensures KeptCount(body[pos..], secret, keep) ==
      (if |body| - start in keep then 1 else 0) + KeptCount(body[end..], secret, keep)
    ensures Count(body[pos..], secret) == 1 + Count(body[end..], secret)
  {
    var s, i := body[pos..], start - pos;
    assert s[i + |secret|..] == body[end..];
    hide KeptCount, Count, Index;
    CountUnfold(s, secret, keep, i, body[end..], |body| - start);
  }

  /** The loop of replaceOutsideAllowedLines. */
  method ReplaceOutside(body: string, secret: string, placeholder: string, allowed: seq<Span>)
    returns (out: string, replaced: nat, kept: nat)
    requires secret != ""
    ensures out == Weave(body, secret, placeholder, KeptIn(allowed, |body|, |secret|))
    ensures kept == KeptCount(body, secret, KeptIn(allowed, |body|, |secret|))
    ensures replaced + kept == Count(body, secret)
  {
    ghost var keep := KeptIn(allowed, |body|, |secret|);
    out, replaced, kept := "", 0, 0;
    var pos := 0;
    assert body[0..] == body;
    while true
      invariant 0 <= pos <= |body|
      invariant out + Weave(body[pos..], secret, placeholder, keep) == Weave(body, secret, placeholder, keep)
      invariant kept + KeptCount(body[pos..], secret, keep) == KeptCount(body, secret, keep)
      invariant replaced + kept + Count(body[pos..], secret) == Count(body, secret)
      decreases |body| - pos
    {
      var i := Index(body[pos..], secret);
      if i < 0 {
        break;
      }
      var start, end := pos + i, pos + i + |secret|;
      WeaveAt(body, pos, secret, placeholder, keep, start, end);
      KeptCountAt(body, pos, secret, keep, start, end);
      var stays := Within(allowed, start, end);
      assert stays <==> |body| - start in keep;
      Reassociate(out, body[pos..start], if stays then secret else placeholder,
                  Weave(body[end..], secret, placeholder, keep));
      out := out + body[pos..start];
      if stays {
        out := out + secret;
        kept := kept + 1;
      } else {
        out := out + placeholder;
        replaced := replaced + 1;
      }
      pos := end;
    }
    out := out + body[pos..];
  }

  /** replaceOutsideAllowedLines */
  method ReplaceOutsideAllowedLines(body: string, secret: string, placeholder: string)
    returns (out: string, replaced: nat, kept: nat)
    requires secret != ""
    ensures out == Weave(body, secret, placeholder, Kept(body, |secret|))
    ensures kept == KeptCount(body, secret, Kept(body, |secret|))
    ensures replaced + kept == Count(body, secret)
  {
    var allowed := AllowedLines(body);
    out, replaced, kept := ReplaceOutside(body, secret, placeholder, allowed);
  }
}
