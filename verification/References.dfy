/** Policy references in their textual shapes, and which of them a runtime-input scope matches. */
module References {
  import opened Text
  import opened Options

  datatype ProviderRef = ProviderRef(provider: string, orgName: string, name: string)
  datatype NameDigest = NameDigest(name: string, digest: string)

  const DIGEST_MARK := "@sha256:"
  const SCHEME_MARK := "://"

  /** The part in front of an optional separator. */
  function Left(p: Parts): string {
    if p.Two? then p.before else ""
  }

  /** The part behind an optional separator. */
  function Right(p: Parts): string {
    if p.Two? then p.after else p.text
  }

  /** RefParts: the scheme of a reference, if it has one, and the rest. */
  function RefParts(ref: string): (string, string) {
    var p := SplitTwo(ref, SCHEME_MARK);
    (Left(p), Right(p))
  }

  /** ProviderParts. The digest is taken off for the parsing and put back on the name. */
  function ProviderParts(reference: string): ProviderRef {
    var p := SplitTwo(reference, DIGEST_MARK);
    if p.Two? then NamedParts(p.before, p.after) else NamedParts(p.text, "")
  }

  function NamedParts(ref: string, digest: string): ProviderRef {
    var p := SplitTwo(RefParts(ref).1, ":");
    var o := SplitTwo(Right(p), "/");
    ProviderRef(Left(p), Left(o), if digest == "" then Right(o) else Right(o) + DIGEST_MARK + digest)
  }

  /** ExtractDigest */
  function ExtractDigest(ref: string): NameDigest {
    match SplitTwo(ref, "@")
    case Two(name, digest) => NameDigest(name, digest)
    case Whole(text) => NameDigest(text, "")
  }

  /** splitPolicyRef */
  function SplitPolicyRef(ref: string): NameDigest {
    ExtractDigest(ProviderParts(ref).name)
  }

  /** policyScopeMatches */
  predicate PolicyScopeMatches(scope: string, name: string, ref: string) {
    if scope == "" then false
    else if scope == name || scope == ref then true
    else
      var s, r := SplitPolicyRef(scope), SplitPolicyRef(ref);
      && s.name != ""
      && (s.name == r.name || s.name == name)
      && (s.digest != "" ==> s.digest == r.digest)
  }

  /** scopeSpecificity */
  function ScopeSpecificity(scope: string): nat {
    var digest := SplitPolicyRef(scope).digest;
    var at := Index(scope, "@");
    var head := if digest != "" && at >= 0 then scope[..at] else scope;
    (if digest != "" then 2 else 0) + (if ':' in head || '/' in head then 1 else 0)
  }

  // ---- Printed references ---------------------------------------------------------------------------------------

  /** The parts a reference can be printed from. */
  datatype Ref = Ref(
    scheme: Option<string>, provider: Option<string>, org: Option<string>, name: string, digest: Option<string>)

  /** Free of the characters that separate the parts of a reference. */
  predicate Plain(s: string) {
    ':' !in s && '/' !in s && '@' !in s
  }

  function Or(o: Option<string>): string {
    match o
    case Some(s) => s
    case None => ""
  }

  function Prefixed(o: Option<string>, mark: string): string {
    match o
    case Some(s) => s + mark
    case None => ""
  }

  function Suffixed(mark: string, o: Option<string>): string {
    match o
    case Some(s) => mark + s
    case None => ""
  }

  function Path(r: Ref): string {
    Prefixed(r.org, "/") + r.name
  }

  function Qualified(r: Ref): string {
    Prefixed(r.provider, ":") + Path(r)
  }

  function Head(r: Ref): string {
    Prefixed(r.scheme, "://") + Qualified(r)
  }

  function Print(r: Ref): string {
    Head(r) + Suffixed("@sha256:", r.digest)
  }

  /** In front of rest, the separator behind an optional part is the first one. */
  predicate Separated(part: Option<string>, mark: string, rest: string) {
    match part
    case Some(s) => Index(s + mark, mark) == |s|
    case None => !Contains(rest, mark)
  }

  /** Each separator a reference is printed with is the first of its kind. The parts may hold separators that come
      later, as the path of a URL does. */
  predicate WellFormed(r: Ref) {
    && Separated(r.scheme, SCHEME_MARK, Qualified(r))
    && Separated(r.provider, ":", Path(r))
    && Separated(r.org, "/", r.name)
    && '@' !in Head(r) && (r.digest.Some? ==> r.digest.value != "")
  }

  // ---- Parsing printed references -------------------------------------------------------------------------------

  /** A separator whose first character does not occur in front of it splits there. */
  lemma SplitAtMark(a: string, mark: string, b: string)
    requires mark != "" && mark[0] !in a
    ensures SplitTwo(a + mark + b, mark) == Two(a, b)
  {
    var s := a + mark + b;
    IndexLeast(s, mark);
    assert s[|a|..|a| + |mark|] == mark;
    assert At(s, |a|, mark);
    var i := Index(s, mark);
    var c := s[i];
    assert c == mark[0];
    assert i < |a| ==> c in a;
    assert i == |a|;
    assert s[..i] == a && s[i + |mark|..] == b;
  }

  lemma SplitNowhere(s: string, mark: string)
    requires mark != "" && mark[0] !in s
    ensures SplitTwo(s, mark) == Whole(s)
  {
    IndexLeast(s, mark);
  }

  lemma SplitOption(o: Option<string>, mark: string, rest: string)
    requires mark != "" && Separated(o, mark, rest)
    ensures SplitTwo(Prefixed(o, mark) + rest, mark) == if o.Some? then Two(o.value, rest) else Whole(rest)
  {
    if o.Some? {
      var front, s := o.value + mark, o.value + mark + rest;
      IndexLeast(front, mark);
      IndexLeast(s, mark);
      forall p | 0 <= p <= |o.value| ensures At(s, p, mark) <==> At(front, p, mark) { AtConcat(front, rest, p, mark); }
      assert s[..|o.value|] == o.value && s[|front|..] == rest;
    } else {
      assert "" + rest == rest;
      ContainsIffIndex(rest, mark);
    }
  }

  /** Parsing any printed form of a reference recovers its parts. */
  lemma ParsePrinted(r: Ref)
    requires WellFormed(r)
    ensures ProviderParts(Print(r)) == ProviderRef(Or(r.provider), Or(r.org), r.name + Suffixed(DIGEST_MARK, r.digest))
    ensures SplitPolicyRef(Print(r)) == NameDigest(r.name, Suffixed("sha256:", r.digest))
  {
    hide SplitTwo, NamedParts, Head, Print, Separated;
    PrintedDigest(r);
    HeadParts(r, Or(r.digest));
    if r.digest.Some? {
      assert r.name + DIGEST_MARK + r.digest.value == r.name + (DIGEST_MARK + r.digest.value);
      assert r.name + DIGEST_MARK + r.digest.value == r.name + "@" + ("sha256:" + r.digest.value);
      NameInHead(r);
      SplitAtMark(r.name, "@", "sha256:" + r.digest.value);
    } else {
      assert r.name + "" == r.name;
      NameInHead(r);
      SplitNowhere(r.name, "@");
    }
  }

  lemma NameInHead(r: Ref)
    requires '@' !in Head(r)
    ensures '@' !in r.name
  {
    var front := Prefixed(r.scheme, SCHEME_MARK) + (Prefixed(r.provider, ":") + Prefixed(r.org, "/"));
    assert Head(r) == front + r.name;
  }

  lemma PrintedDigest(r: Ref)
    requires WellFormed(r)
    ensures ProviderParts(Print(r)) == NamedParts(Head(r), Or(r.digest))
  {
    hide SplitTwo, NamedParts;
    if r.digest.Some? {
      assert Print(r) == Head(r) + DIGEST_MARK + r.digest.value;
      SplitAtMark(Head(r), DIGEST_MARK, r.digest.value);
    } else {
      assert Print(r) == Head(r);
      SplitNowhere(Head(r), DIGEST_MARK);
    }
  }

  lemma HeadParts(r: Ref, digest: string)
    requires WellFormed(r)
    ensures NamedParts(Head(r), digest) ==
      ProviderRef(Or(r.provider), Or(r.org), if digest == "" then r.name else r.name + DIGEST_MARK + digest)
  {
    hide SplitTwo, Separated, Path, Qualified, Prefixed;
    SplitOption(r.scheme, SCHEME_MARK, Qualified(r));
    SplitOption(r.provider, ":", Path(r));
    SplitOption(r.org, "/", r.name);
    QualifiedIs(r);
  }

  lemma QualifiedIs(r: Ref)
    ensures Qualified(r) == Prefixed(r.provider, ":") + Path(r) && Path(r) == Prefixed(r.org, "/") + r.name
  {
  }

  lemma NotContained(s: string, c: char)
    ensures Contains(s, [c]) <==> c in s
  {
    forall i | 0 <= i < |s| ensures At(s, i, [c]) <==> s[i] == c {
      assert s[i..i + 1] == [s[i]];
    }
  }

  lemma HeadQualified(r: Ref)
    requires WellFormed(r)
    ensures ':' in Head(r) || '/' in Head(r) <==> r.scheme.Some? || r.provider.Some? || r.org.Some?
  {
    hide Contains, Index;
    if r.scheme.Some? { assert Head(r)[|r.scheme.value|] == ':'; }
    if r.provider.Some? {
      assert Qualified(r)[|r.provider.value|] == ':' && Qualified(r)[|r.provider.value|] in Head(r);
    }
    if r.org.Some? { assert Path(r)[|r.org.value|] == '/' && Path(r)[|r.org.value|] in Head(r); }
    NotContained(Path(r), ':');
    NotContained(r.name, '/');
  }

  /** The parts of a text in front of its first separator and behind it. */
  function Cut(s: string, mark: string): (p: (Option<string>, string))
    requires mark != ""
    ensures s == Prefixed(p.0, mark) + p.1 && Separated(p.0, mark, p.1)
  {
    match SplitTwo(s, mark)
    case Two(a, b) =>
      FirstMark(s, mark);
      (Some(a), b)
    case Whole(text) => (None, text)
  }

  lemma FirstMark(s: string, mark: string)
    requires mark != "" && SplitTwo(s, mark).Two?
    ensures var a := SplitTwo(s, mark).before; Index(a + mark, mark) == |a|
  {
    var p := SplitTwo(s, mark);
    var front := p.before + mark;
    IndexLeast(s, mark);
    IndexLeast(front, mark);
    assert front[|p.before|..] == mark;
    forall i | 0 <= i <= |p.before| ensures At(s, i, mark) <==> At(front, i, mark) {
      AtConcat(front, p.after, i, mark);
    }
  }

  /** Every text with no other at-sign than the one of its digest is a printed reference. */
  lemma EveryReference(head: string, digest: Option<string>) returns (r: Ref)
    requires '@' !in head && (digest.Some? ==> digest.value != "")
    ensures WellFormed(r) && Print(r) == head + Suffixed(DIGEST_MARK, digest)
  {
    hide Separated, Cut;
    var scheme := Cut(head, SCHEME_MARK);
    var provider := Cut(scheme.1, ":");
    var org := Cut(provider.1, "/");
    r := Ref(scheme.0, provider.0, org.0, org.1, digest);
  }

  /** The scope names the policy or its metadata name, and pins no digest or the one of the reference. */
  predicate Targets(scope: Ref, name: string, ref: Ref) {
    (scope.name == ref.name || scope.name == name) && (scope.digest.None? || scope.digest == ref.digest)
  }

  /** A scope matches a reference, in whatever form either is written, exactly when it targets the policy, or when it is
      written as the metadata name is, or, for a scope without a name, as the reference is. With a metadata name that is
      free of separators only the first case is left. */
  lemma MatchesIff(scope: Ref, name: string, ref: Ref)
    requires WellFormed(scope) && WellFormed(ref)
    ensures PolicyScopeMatches(Print(scope), name, Print(ref)) <==>
      || (scope.name != "" && Targets(scope, name, ref))
      || (Print(scope) != "" && Print(scope) == name)
      || (Print(scope) != "" && scope.name == "" && Print(scope) == Print(ref))
    ensures Plain(name) && scope.name != "" ==>
      (PolicyScopeMatches(Print(scope), name, Print(ref)) <==> Targets(scope, name, ref))
  {
    hide SplitPolicyRef, ProviderParts, Print;
    ParsePrinted(scope);
    ParsePrinted(ref);
    PrintNonEmpty(scope);
    SuffixInjective(scope.digest, ref.digest);
    if Plain(name) {
      var bare := Ref(None, None, None, name, None);
      PlainIsWellFormed(bare);
      ParsePrinted(bare);
      PrintBare(bare);
    }
  }

  lemma PlainIsWellFormed(r: Ref)
    requires r.scheme.None? && r.provider.None? && r.org.None? && r.digest.None? && Plain(r.name)
    ensures WellFormed(r)
  {
    hide Contains;
    assert "" + ("" + ("" + r.name)) == r.name && "" + ("" + r.name) == r.name && "" + r.name == r.name;
    NotContained(r.name, ':');
    NotContained(r.name, '/');
    ColonFirst(r.name);
  }

  lemma ColonFirst(s: string)
    requires ':' !in s
    ensures !Contains(s, SCHEME_MARK)
  {
    forall i | 0 <= i <= |s| ensures !At(s, i, SCHEME_MARK) {
      if At(s, i, SCHEME_MARK) { AtChar(s, i, SCHEME_MARK, 0); }
    }
  }

  lemma PrintBare(r: Ref)
    requires r.scheme.None? && r.provider.None? && r.org.None? && r.digest.None?
    ensures Print(r) == r.name
  {
    assert "" + ("" + ("" + r.name)) + "" == r.name;
  }

  lemma PrintNonEmpty(r: Ref)
    ensures r.name != "" ==> Print(r) != ""
  {
  }

  lemma SuffixInjective(a: Option<string>, b: Option<string>)
    ensures Suffixed("sha256:", a) == Suffixed("sha256:", b) <==> a == b
    ensures Suffixed("sha256:", a) == "" <==> a.None?
  {
    if a.Some? && b.Some? {
      assert ("sha256:" + a.value)[7..] == a.value && ("sha256:" + b.value)[7..] == b.value;
    }
  }

  /** A digest outweighs any qualification, and a qualified scope outweighs a bare name. */
  lemma SpecificityOf(scope: Ref)
    requires WellFormed(scope)
    ensures ScopeSpecificity(Print(scope)) ==
      (if scope.digest.Some? then 2 else 0)
      + (if scope.scheme.Some? || scope.provider.Some? || scope.org.Some? then 1 else 0)
  {
    hide SplitPolicyRef, ProviderParts;
    ParsePrinted(scope);
    HeadQualified(scope);
    var s := Print(scope);
    if scope.digest.Some? {
      var head, rest := Head(scope), "sha256:" + scope.digest.value;
      assert s == head + "@" + rest;
      SplitAtMark(head, "@", rest);
      IndexLeast(s, "@");
      assert s[..Index(s, "@")] == head;
    } else {
      assert s == Head(scope);
    }
  }
}
