/** What one substitution does to the marked lines of a body: it keeps them all, in order and verbatim, if and only if
    no substituted occurrence takes a line break from one of them. */
module MarkedLines {
  import opened Text
  import opened Escapes
  import opened Breaks
  import opened Masking
  import opened Markers
  import opened LineWise
  import opened Survival
  import opened Occurrences
  import opened LinePositions

  /** The substitution of mask for sub in body outside its allowed lines, among placeholders masks. */
  datatype Job = Job(body: string, sub: string, mask: string, masks: set<string>)

  /** How far the substitution has come: the line of the body it is in starts at ls, the text up to pos is done, of
      which the part from q on is verbatim, and the output line so far is v followed by that part. The lines in lost
      were marked lines of the body that have run together in the output line. */
  datatype Cursor = Cursor(ls: nat, q: nat, pos: nat, v: string, lost: seq<string>)

  function KeepOf(j: Job): set<int> {
    Kept(j.body, |j.sub|)
  }

  /** An occurrence at p is substituted when the text up to pos is done. */
  predicate Takes(j: Job, pos: nat, p: nat)
    requires j.sub != "" && pos <= |j.body|
  {
    SubstitutedAt(j.body[pos..], j.sub, KeepOf(j), p - pos)
  }

  ghost predicate ClosedFrom(j: Job, pos: nat)
    requires j.sub != "" && pos <= |j.body|
  {
    forall p: nat | pos <= p <= |j.body| && Takes(j, pos, p) :: !Esc(false, j.body[..p])
  }

  ghost predicate HitFrom(j: Job, pos: nat)
    requires j.sub != "" && pos <= |j.body|
  {
    exists p: nat | pos <= p <= |j.body| && Takes(j, pos, p) :: Hits(j.body, 0, p, |j.sub|)
  }

  ghost predicate Ready(j: Job) {
    && j.sub != "" && !Esc(false, j.sub) && !Esc(false, j.body) && LineText(j.mask) && j.mask in j.masks
    && Apart(BETTERLEAKS, j.mask) && Apart(GITLEAKS, j.mask)
    && forall m | m in j.masks :: m != "" && Apart(j.sub, m)
  }

  lemma ReadyTexts(j: Job)
    requires Ready(j)
    ensures j.sub != "" && !Esc(false, j.sub) && !Esc(false, j.body) && j.mask != ""
  {
  }

  // ---- Cursors ---------------------------------------------------------------------------------------------

  function Stop(j: Job, c: Cursor): nat
    requires c.ls <= |j.body|
  {
    LineStop(j.body, c.ls)
  }

  ghost predicate Current(j: Job, c: Cursor)
    requires c.ls <= |j.body|
  {
    MarkedAt(j.body, c.ls)
  }

  /** v outweighs the line: it holds every placeholder as often, and the one being written once more. */
  ghost predicate Outweighs(j: Job, v: string, line: string)
    requires Ready(j)
  {
    forall m | m in j.masks :: Occ(v, m) >= Occ(line, m) + (if m == j.mask then 1 else 0)
  }

  ghost predicate Placed(j: Job, c: Cursor) {
    && j.sub != "" && StartsLine(j.body, c.ls) && c.q <= c.pos <= |j.body|
    && !Esc(false, j.body[..c.q]) && ClosedFrom(j, c.pos)
    && (Stop(j, c) < c.pos ==> c.q == c.pos && c.v != "")
    && (c.pos <= Stop(j, c) ==> c.ls <= c.q && (Current(j, c) || c.q == c.pos))
    && (c.v == "" ==> c.q == c.ls && c.lost == [])
  }

  /** The output line so far ends in the placeholder for the occurrence that stops at q. */
  ghost predicate Written(j: Job, c: Cursor)
    requires Placed(j, c)
  {
    && |j.mask| <= |c.v| && c.v[|c.v| - |j.mask|..] == j.mask && LineText(c.v)
    && |j.sub| <= c.q && At(j.body, c.q - |j.sub|, j.sub)
    && (Stop(j, c) < c.pos ==> c.q - |j.sub| <= Stop(j, c))
    && (c.pos <= Stop(j, c) && Current(j, c) ==> c.q - |j.sub| + 2 <= c.ls)
  }

  ghost predicate Weighed(j: Job, c: Cursor)
    requires Ready(j) && c.ls <= |j.body|
  {
    && (c.lost == [] && !(Stop(j, c) < c.pos && Current(j, c)) ==> !HasAllowMarker(c.v))
    && (c.lost == [] && Stop(j, c) < c.pos && Current(j, c) ==> Outweighs(j, c.v, j.body[c.ls..Stop(j, c)]))
    && (|c.lost| == 1 ==> Outweighs(j, c.v, c.lost[0]))
  }

  ghost predicate Good(j: Job, c: Cursor) {
    Ready(j) && Placed(j, c) && (c.v != "" ==> Written(j, c)) && Weighed(j, c)
  }

  /** The output from the start of the current output line on. */
  function Out(j: Job, c: Cursor): string
    requires j.sub != "" && c.q <= c.pos <= |j.body|
  {
    c.v + j.body[c.q..c.pos] + Weave(j.body[c.pos..], j.sub, j.mask, KeepOf(j))
  }

  /** Marked lines have run together, or will. */
  ghost predicate Bad(j: Job, c: Cursor)
    requires j.sub != "" && c.pos <= |j.body|
  {
    || c.lost != []
    || (c.v != "" && Hits(j.body, c.ls, c.q - |j.sub|, |j.sub|))
    || HitFrom(j, c.pos)
  }

  /** The marked lines of the body that are not yet accounted for. */
  function Due(j: Job, c: Cursor): seq<string>
    requires c.ls <= |j.body|
  {
    c.lost + MarkedOf(Lines(j.body[c.ls..]))
  }

  // ---- The next occurrence ----------------------------------------------------------------------------------

  /** The first occurrence from pos on is at p. */
  predicate FirstAt(j: Job, pos: nat, p: nat) {
    j.sub != "" && pos <= p && p + |j.sub| <= |j.body| && Index(j.body[pos..], j.sub) == p - pos
  }

  lemma FirstOccurrence(j: Job, pos: nat, p: nat)
    requires FirstAt(j, pos, p)
    ensures At(j.body, p, j.sub) && !Contains(j.body[pos..p], j.sub)
  {
    hide Index;
    var s, i := j.body[pos..], p - pos;
    IndexLeast(s, j.sub);
    assert s[i..i + |j.sub|] == j.body[p..p + |j.sub|];
    NoneBefore(s, j.sub);
    assert s[..i] == j.body[pos..p];
  }

  lemma TakeOne(j: Job, pos: nat, p: nat, r: nat)
    requires FirstAt(j, pos, p) && r == p + |j.sub|
    ensures Weave(j.body[pos..], j.sub, j.mask, KeepOf(j)) ==
      j.body[pos..p] + (if |j.body| - p in KeepOf(j) then j.sub else j.mask)
      + Weave(j.body[r..], j.sub, j.mask, KeepOf(j))
    ensures forall x: nat :: Takes(j, pos, x) <==> (x == p && |j.body| - p !in KeepOf(j)) || Takes(j, r, x)
  {
    hide Text.Weave, Index, SubstitutedAt, Kept;
    var s, i := j.body[pos..], p - pos;
    var rest, d := j.body[r..], |j.body| - p;
    assert s[i + |j.sub|..] == rest && s[..i] == j.body[pos..p];
    WeaveUnfold(s, j.sub, j.mask, KeepOf(j), i, rest, d);
    forall x: nat ensures Takes(j, pos, x) <==> (x == p && d !in KeepOf(j)) || Takes(j, r, x) {
      SubstitutedUnfold(s, j.sub, KeepOf(j), i, rest, x - pos);
    }
  }

  lemma TakenInBody(j: Job, pos: nat, x: nat)
    requires j.sub != "" && pos <= |j.body| && Takes(j, pos, x)
    ensures pos <= x && x + |j.sub| <= |j.body|
  {
    hide SubstitutedAt;
    SubstitutedInText(j.body[pos..], j.sub, KeepOf(j), x - pos);
  }

  /** Whether an occurrence is spared. */
  lemma SparedAt(j: Job, p: nat)
    requires p <= |j.body|
    ensures |j.body| - p in KeepOf(j) <==> Within(AllowedFrom(j.body, 0), p, p + |j.sub|)
  {
    hide AllowedFrom;
  }

  lemma StillClosed(j: Job, pos: nat, p: nat, r: nat)
    requires FirstAt(j, pos, p) && r == p + |j.sub| && ClosedFrom(j, pos)
    ensures ClosedFrom(j, r)
    ensures |j.body| - p !in KeepOf(j) ==> !Esc(false, j.body[..p])
    ensures !Esc(false, j.sub) && |j.body| - p !in KeepOf(j) ==> !Esc(false, j.body[..r])
  {
    hide Takes, Esc, Kept;
    TakeOne(j, pos, p, r);
    FirstOccurrence(j, pos, p);
    assert j.body[..r] == j.body[..p] + j.sub;
    EscConcat(false, j.body[..p], j.sub);
  }

  lemma HitFromTake(j: Job, pos: nat, p: nat, r: nat)
    requires FirstAt(j, pos, p) && r == p + |j.sub|
    ensures HitFrom(j, pos) <==> (|j.body| - p !in KeepOf(j) && Hits(j.body, 0, p, |j.sub|)) || HitFrom(j, r)
  {
    hide Takes, Hits, Kept;
    TakeOne(j, pos, p, r);
    if HitFrom(j, pos) {
      var x: nat :| pos <= x <= |j.body| && Takes(j, pos, x) && Hits(j.body, 0, x, |j.sub|);
      if Takes(j, r, x) { TakenInBody(j, r, x); }
    }
  }

  // ---- Steps inside an output line ----------------------------------------------------------------------------

  /** What a step keeps. */
  ghost predicate Same(j: Job, c: Cursor, c': Cursor)
    requires Good(j, c) && Good(j, c')
  {
    Out(j, c) == Out(j, c') && Due(j, c) == Due(j, c') && (Bad(j, c) <==> Bad(j, c'))
  }

  /** The cursor behind a line of the body whose line break was just taken. */
  ghost function Skipped(j: Job, c: Cursor): Cursor
    requires c.ls <= |j.body|
  {
    var e := Stop(j, c);
    Cursor(e + 2, c.q, c.pos, c.v, c.lost + IfMarked(j.body[c.ls..e]))
  }

  lemma SkippedPlaced(j: Job, c: Cursor)
    requires Good(j, c) && Stop(j, c) < c.pos
    ensures Placed(j, Skipped(j, c)) && Written(j, Skipped(j, c))
  {
    hide Esc, LineStop, HasAllowMarker, Takes, BreakAt, LineText, NoBreak, Apart, Occ, HitFrom, ClosedFrom;
    StopFacts(j.body, c.ls);
    EscAtBreak(j.body, Stop(j, c));
  }

  lemma SkippedWeighed(j: Job, c: Cursor)
    requires Good(j, c) && Stop(j, c) < c.pos && Placed(j, Skipped(j, c))
    ensures Weighed(j, Skipped(j, c))
  {
    hide Esc, LineStop, HasAllowMarker, Takes, BreakAt, LineText, NoBreak, Apart, Occ, HitFrom, ClosedFrom, Outweighs;
    var c', e := Skipped(j, c), Stop(j, c);
    var line := j.body[c.ls..e];
    assert Current(j, c) ==> IfMarked(line) == [line];
    assert !Current(j, c) ==> IfMarked(line) == [];
    assert c.lost == [] ==> c.lost + IfMarked(line) == IfMarked(line);
    if Stop(j, c') < c.pos { InnerWeighsNothing(j, c.q - |j.sub|, c'.ls, Stop(j, c'), c.v); }
  }

  /** A line of the body whose line break was just taken is done with. */
  lemma SkipLine(j: Job, c: Cursor) returns (c': Cursor)
    requires Good(j, c) && Stop(j, c) < c.pos
    ensures Good(j, c') && Same(j, c, c') && c' == Skipped(j, c)
  {
    hide Esc, LineStop, HasAllowMarker, Lines, MarkedOf, Takes, BreakAt, LineText, NoBreak, Apart, Hits, Occ,
         Text.Weave, HitFrom, ClosedFrom, Weighed, Written;
    var e := Stop(j, c);
    c' := Skipped(j, c);
    SkippedPlaced(j, c);
    SkippedWeighed(j, c);
    var line := j.body[c.ls..e];
    LinesFrom(j.body, c.ls);
    MarkedCons(line, Lines(j.body[e + 2..]));
    assert c.lost + (IfMarked(line) + MarkedOf(Lines(j.body[e + 2..]))) ==
           (c.lost + IfMarked(line)) + MarkedOf(Lines(j.body[e + 2..]));
    CoveredBreak(j, c);
    HitsUnfold(j.body, c.ls, c.q - |j.sub|, |j.sub|);
  }

  lemma CoveredBreak(j: Job, c: Cursor)
    requires Good(j, c) && Stop(j, c) < c.pos
    ensures |j.sub| <= c.q == c.pos && HitBy(Span(c.ls, Stop(j, c)), c.q - |j.sub|, |j.sub|)
  {
    hide Esc, LineStop, LineText, HitFrom, ClosedFrom, Weighed;
  }

  /** A line inside a substituted occurrence holds no placeholder. */
  lemma InnerWeighsNothing(j: Job, p: nat, x: nat, y: nat, v: string)
    requires Ready(j) && At(j.body, p, j.sub) && p <= x <= y <= p + |j.sub|
    requires |j.mask| <= |v| && v[|v| - |j.mask|..] == j.mask
    ensures Outweighs(j, v, j.body[x..y])
  {
    hide Occ, Contains, Apart, Esc, LineText;
    var line := j.body[x..y];
    assert j.body[p..p + |j.sub|][x - p..y - p] == line;
    assert line == j.sub[x - p..y - p];
    assert j.sub == j.sub[..x - p] + line + j.sub[y - p..];
    forall m | m in j.masks ensures Occ(v, m) >= Occ(line, m) + (if m == j.mask then 1 else 0) {
      ApartHoldsNoMask(j.sub, m);
      ContainsConcat(j.sub[..x - p], line, m);
      ContainsConcat(j.sub[..x - p] + line, j.sub[y - p..], m);
      OccNone(line, m);
      EndsInMask(v, j.mask);
    }
  }

  lemma EndsInMask(v: string, mask: string)
    requires mask != "" && |mask| <= |v| && v[|v| - |mask|..] == mask
    ensures Occ(v, mask) >= 1
  {
    hide Occ;
    assert v == v[..|v| - |mask|] + mask;
    OccConcat(v[..|v| - |mask|], mask, mask);
    OccSelf(mask);
  }

  /** A spared occurrence is verbatim. */
  lemma TakeKept(j: Job, c: Cursor, p: nat) returns (c': Cursor)
    requires Good(j, c) && c.pos <= Stop(j, c) && FirstAt(j, c.pos, p) && p + |j.sub| <= Stop(j, c) && Current(j, c)
    ensures Good(j, c') && Same(j, c, c') && c' == c.(pos := p + |j.sub|)
  {
    hide Esc, LineStop, HasAllowMarker, Lines, MarkedOf, Takes, BreakAt, LineText, NoBreak, Apart, Hits, Occ,
         Text.Weave, Index, AllowedFrom, KeepOf, HitFrom, ClosedFrom, Ready;
    ReadyTexts(j);
    var r := p + |j.sub|;
    WithinLine(j.body, c.ls, p, |j.sub|);
    SparedAt(j, p);
    TakeOne(j, c.pos, p, r);
    StillClosed(j, c.pos, p, r);
    FirstOccurrence(j, c.pos, p);
    HitFromTake(j, c.pos, p, r);
    c' := c.(pos := r);
    assert j.body[c.q..r] == j.body[c.q..c.pos] + j.body[c.pos..p] + j.sub;
    SameText(c.v, j.body[c.q..c.pos], j.body[c.pos..p], j.sub, Weave(j.body[r..], j.sub, j.mask, KeepOf(j)));
  }

  lemma SameText(v: string, y: string, z: string, x: string, tail: string)
    ensures v + y + (z + x + tail) == v + (y + z + x) + tail
    ensures v + y + (z + x + tail) == (v + (y + z) + x) + "" + tail
  {
  }

  /** The text of a line up to a substituted occurrence joins the output line, followed by the placeholder. */
  lemma Appended(j: Job, c: Cursor, p: nat)
    requires Good(j, c) && c.pos <= Stop(j, c) && c.pos <= p <= Stop(j, c) && !Esc(false, j.body[..p])
    ensures LineText(c.v + j.body[c.q..p] + j.mask)
    ensures c.lost == [] && !Current(j, c) ==> !HasAllowMarker(c.v + j.body[c.q..p] + j.mask)
    ensures |c.lost| == 1 ==> Outweighs(j, c.v + j.body[c.q..p] + j.mask, c.lost[0])
  {
    hide Esc, LineStop, HasAllowMarker, Takes, BreakAt, NoBreak, Apart, Occ, Hits, AllowedFrom, KeepOf, HitFrom,
         ClosedFrom;
    var piece := j.body[c.q..p];
    NoBreakWithin(j.body, c.ls, c.q, p);
    if c.v != "" { LineTextConcat(c.v, piece); } else { assert c.v + piece == piece; }
    LineTextConcat(c.v + piece, j.mask);
    if c.lost == [] && !Current(j, c) {
      PieceUnmarked(j, c.ls, c.q, p);
      JoinedUnmarked(j, c.v, piece);
    }
    if |c.lost| == 1 {
      forall m | m in j.masks
        ensures Occ(c.v + piece + j.mask, m) >= Occ(c.lost[0], m) + (if m == j.mask then 1 else 0)
      {
        OccThree(c.v, piece, j.mask, m);
      }
    }
  }

  /** Part of an unmarked line is unmarked. */
  lemma PieceUnmarked(j: Job, ls: nat, x: nat, y: nat)
    requires ls <= |j.body| && !MarkedAt(j.body, ls) && ls <= x <= y <= LineStop(j.body, ls)
    ensures !HasAllowMarker(j.body[x..y])
  {
    hide Contains, LineStop;
    var e := LineStop(j.body, ls);
    PartHeld(j.body[ls..e], x - ls, y - ls, BETTERLEAKS);
    PartHeld(j.body[ls..e], x - ls, y - ls, GITLEAKS);
    SliceOfSlice(j.body, ls, e, x, y);
  }

  lemma PartHeld(line: string, x: nat, y: nat, t: string)
    requires x <= y <= |line|
    ensures Contains(line[x..y], t) ==> Contains(line, t)
  {
    hide Contains;
    var part := line[x..y];
    assert line == line[..x] + part + line[y..];
    ContainsConcat(line[..x], part, t);
    ContainsConcat(line[..x] + part, line[y..], t);
  }

  /** An output line so far and a piece, neither marked, are not marked together. */
  lemma JoinedUnmarked(j: Job, v: string, piece: string)
    requires Ready(j) && !HasAllowMarker(v) && !HasAllowMarker(piece)
    requires v == "" || (|j.mask| <= |v| && v[|v| - |j.mask|..] == j.mask)
    ensures !HasAllowMarker(v + piece) && !HasAllowMarker(v + piece + j.mask)
  {
    hide Contains, Apart, Esc, LineText;
    JoinedLacks(j, v, piece, BETTERLEAKS);
    JoinedLacks(j, v, piece, GITLEAKS);
  }

  lemma JoinedLacks(j: Job, v: string, piece: string, t: string)
    requires Apart(t, j.mask) && !Contains(v, t) && !Contains(piece, t)
    requires v == "" || (|j.mask| <= |v| && v[|v| - |j.mask|..] == j.mask)
    ensures !Contains(v + piece, t) && !Contains(v + piece + j.mask, t)
  {
    hide Contains, Apart;
    if v == "" {
      assert v + piece == piece;
    } else {
      var v0 := v[..|v| - |j.mask|];
      assert v == v0 + j.mask;
      ContainsConcat(v0, j.mask, t);
      ContainsAround(v0, j.mask, piece, t);
    }
    assert v + piece + j.mask == (v + piece) + j.mask + "";
    NothingHolds(t, j.mask);
    ContainsAround(v + piece, j.mask, "", t);
  }

  lemma NothingHolds(t: string, mask: string)
    requires Apart(t, mask)
    ensures !Contains("", t)
  {
    hide Touches;
  }

  /** The cursor behind a substituted occurrence. */
  ghost function Taken(j: Job, c: Cursor, p: nat): Cursor
    requires c.q <= p <= |j.body|
  {
    Cursor(c.ls, p + |j.sub|, p + |j.sub|, c.v + j.body[c.q..p] + j.mask, c.lost)
  }

  /** The first occurrence starts in the current line and is substituted: the line is unmarked or stops first. */
  ghost predicate Taking(j: Job, c: Cursor, p: nat) {
    && Good(j, c) && c.pos <= Stop(j, c) && FirstAt(j, c.pos, p) && p <= Stop(j, c)
    && (p + |j.sub| > Stop(j, c) || !Current(j, c))
  }

  lemma TakenOut(j: Job, c: Cursor, p: nat)
    requires Taking(j, c, p)
    ensures Out(j, c) == Out(j, Taken(j, c, p)) && !Esc(false, j.body[..p]) && Placed(j, Taken(j, c, p))
    ensures HitFrom(j, c.pos) <==> Hits(j.body, 0, p, |j.sub|) || HitFrom(j, p + |j.sub|)
  {
    hide Esc, LineStop, HasAllowMarker, Takes, BreakAt, LineText, NoBreak, Apart, Hits, Occ, Text.Weave, Index,
         AllowedFrom, KeepOf, HitFrom, ClosedFrom, Ready, Weighed, Written;
    ReadyTexts(j);
    var r := p + |j.sub|;
    WithinLine(j.body, c.ls, p, |j.sub|);
    SparedAt(j, p);
    TakeOne(j, c.pos, p, r);
    StillClosed(j, c.pos, p, r);
    HitFromTake(j, c.pos, p, r);
    assert j.body[c.q..c.pos] + j.body[c.pos..p] == j.body[c.q..p] && j.body[r..r] == "";
    SameText(c.v, j.body[c.q..c.pos], j.body[c.pos..p], j.mask, Weave(j.body[r..], j.sub, j.mask, KeepOf(j)));
  }

  lemma TakenGood(j: Job, c: Cursor, p: nat)
    requires Taking(j, c, p)
    ensures Good(j, Taken(j, c, p))
  {
    hide Esc, LineStop, HasAllowMarker, BreakAt, LineText, NoBreak, Apart, Hits, Occ, Index, KeepOf, HitFrom,
         ClosedFrom, Ready, Out, Outweighs;
    ReadyTexts(j);
    TakenOut(j, c, p);
    FirstOccurrence(j, c.pos, p);
    Appended(j, c, p);
    var c' := Taken(j, c, p);
    assert c'.v[|c'.v| - |j.mask|..] == j.mask;
    if c.lost == [] && Current(j, c) { AcrossOutweighs(j, c, p); }
  }

  /** A substituted occurrence inside a line, which is then unmarked. */
  lemma TakeInside(j: Job, c: Cursor, p: nat) returns (c': Cursor)
    requires Good(j, c) && c.pos <= Stop(j, c) && FirstAt(j, c.pos, p) && p + |j.sub| <= Stop(j, c) && !Current(j, c)
    ensures Good(j, c') && Same(j, c, c') && c' == Taken(j, c, p)
  {
    hide Esc, LineStop, HasAllowMarker, Lines, MarkedOf, LineText, Hits, Index, HitFrom, ClosedFrom, Ready, Out,
         Weighed;
    ReadyTexts(j);
    c' := Taken(j, c, p);
    TakenOut(j, c, p);
    TakenGood(j, c, p);
    UnmarkedIsNotHit(j, c.ls, p);
    if c.v != "" { UnmarkedIsNotHit(j, c.ls, c.q - |j.sub|); }
    HitsFrom(j.body, c.ls, p, |j.sub|);
  }

  /** What stops inside an unmarked line takes nothing from it or from later lines. */
  lemma UnmarkedIsNotHit(j: Job, ls: nat, p: int)
    requires Ready(j) && StartsLine(j.body, ls) && !MarkedAt(j.body, ls) && p + |j.sub| <= LineStop(j.body, ls)
    ensures !Hits(j.body, ls, p, |j.sub|)
  {
    hide Esc, LineStop, Hits, HasAllowMarker;
    HitsUnfold(j.body, ls, p, |j.sub|);
    HitsNothingBehind(j.body, LineStop(j.body, ls) + 2, p, |j.sub|);
  }

  /** A substituted occurrence that reaches over the end of its line. */
  lemma TakeAcross(j: Job, c: Cursor, p: nat) returns (c': Cursor)
    requires Good(j, c) && c.pos <= Stop(j, c) && FirstAt(j, c.pos, p) && p <= Stop(j, c) < p + |j.sub|
    ensures Good(j, c') && Same(j, c, c') && c' == Taken(j, c, p)
    ensures Current(j, c) ==> Bad(j, c)
  {
    hide Esc, LineStop, HasAllowMarker, Lines, MarkedOf, LineText, Hits, Index, HitFrom, ClosedFrom, Ready, Out,
         Weighed;
    ReadyTexts(j);
    c' := Taken(j, c, p);
    TakenOut(j, c, p);
    TakenGood(j, c, p);
    HitsFrom(j.body, c.ls, p, |j.sub|);
    HitsUnfold(j.body, c.ls, p, |j.sub|);
    if c.v != "" && !Current(j, c) { UnmarkedIsNotHit(j, c.ls, c.q - |j.sub|); }
  }

  /** The placeholders of a marked line that is cut off are all in the output line, and one more. */
  lemma AcrossOutweighs(j: Job, c: Cursor, p: nat)
    requires Good(j, c) && c.lost == [] && Current(j, c) && c.pos <= p <= Stop(j, c) < p + |j.sub|
    requires At(j.body, p, j.sub)
    ensures Outweighs(j, c.v + j.body[c.q..p] + j.mask, j.body[c.ls..Stop(j, c)])
  {
    hide Esc, LineStop, HasAllowMarker, Takes, BreakAt, LineText, NoBreak, Apart, Hits, Occ, AllowedFrom, KeepOf,
         HitFrom, ClosedFrom;
    var e := Stop(j, c);
    var line, piece := j.body[c.ls..e], j.body[c.q..p];
    forall m | m in j.masks
      ensures Occ(c.v + piece + j.mask, m) >= Occ(line, m) + (if m == j.mask then 1 else 0)
    {
      OccThree(c.v, piece, j.mask, m);
      OccSelf(j.mask);
      OccUpTo(j, c.ls, p, e, m);
      if c.v != "" { OccFrom(j, c.ls, c.q, p, m); }
    }
  }

  /** A placeholder in a line lies in front of an occurrence that reaches over the end of the line. */
  lemma OccUpTo(j: Job, ls: nat, p: nat, e: nat, m: string)
    requires Ready(j) && m in j.masks && ls <= p <= e <= p + |j.sub| && At(j.body, p, j.sub)
    ensures Occ(j.body[ls..e], m) == Occ(j.body[ls..p], m)
  {
    hide Occ, Apart, Esc, LineText;
    var a, b := j.body[ls..p], j.body[p..e];
    var front, behind := j.body[..p], j.body[p + |j.sub|..];
    assert a + b == j.body[ls..e];
    CutAt(j.body, p, j.sub);
    forall k | 0 <= k <= |a + b| && At(a + b, k, m) ensures k + |m| <= |a| {
      AtSlice(j.body, ls, e, k, m);
      Disjoint(front, j.sub, behind, ls + k, m);
    }
    OccBefore(a, b, m);
  }

  /** A placeholder in a line lies behind an occurrence that reaches into the line. */
  lemma OccFrom(j: Job, ls: nat, q: nat, y: nat, m: string)
    requires Ready(j) && m in j.masks && |j.sub| <= q && q - |j.sub| <= ls <= q <= y <= |j.body|
    requires At(j.body, q - |j.sub|, j.sub)
    ensures Occ(j.body[ls..y], m) == Occ(j.body[q..y], m)
  {
    hide Occ, Apart, Esc, LineText;
    var p := q - |j.sub|;
    var a, b := j.body[ls..q], j.body[q..y];
    assert a + b == j.body[ls..y];
    CutAt(j.body, p, j.sub);
    forall k | 0 <= k < |a| ensures !At(a + b, k, m) {
      if At(a + b, k, m) {
        AtSlice(j.body, ls, y, k, m);
        Disjoint(j.body[..p], j.sub, j.body[q..], ls + k, m);
      }
    }
    OccBehind(a, b, m);
  }

  // ---- The end of a line ----------------------------------------------------------------------------------------

  /** No occurrence starts in what is left of the line. */
  ghost predicate NoneLeft(j: Job, c: Cursor)
    requires j.sub != "" && c.ls <= |j.body| && c.pos <= |j.body|
  {
    var i := Index(j.body[c.pos..], j.sub);
    i < 0 || c.pos + i > Stop(j, c)
  }

  lemma {:induction false} DropFront(j: Job, pos: nat, next: nat)
    requires j.sub != "" && pos <= next <= |j.body|
    requires Index(j.body[pos..], j.sub) < 0 || pos + Index(j.body[pos..], j.sub) >= next
    ensures Weave(j.body[pos..], j.sub, j.mask, KeepOf(j)) ==
            j.body[pos..next] + Weave(j.body[next..], j.sub, j.mask, KeepOf(j))
    ensures forall x: nat :: Takes(j, pos, x) <==> Takes(j, next, x)
  {
    hide Text.Weave, Index, SubstitutedAt, Kept;
    var s, t := j.body[pos..], j.body[next..];
    var i, k := Index(s, j.sub), Index(t, j.sub);
    SameFirst(j, pos, next);
    if i < 0 {
      WeaveNone(s, j.sub, j.mask, KeepOf(j));
      WeaveNone(t, j.sub, j.mask, KeepOf(j));
      assert s == j.body[pos..next] + t;
      forall x: nat ensures Takes(j, pos, x) <==> Takes(j, next, x) {
        SubstitutedUnfold(s, j.sub, KeepOf(j), i, "", x - pos);
        SubstitutedUnfold(t, j.sub, KeepOf(j), k, "", x - next);
      }
    } else {
      var p := pos + i;
      TakeOne(j, pos, p, p + |j.sub|);
      TakeOne(j, next, p, p + |j.sub|);
      assert j.body[pos..p] == j.body[pos..next] + j.body[next..p];
    }
  }

  lemma SameFirst(j: Job, pos: nat, next: nat)
    requires j.sub != "" && pos <= next <= |j.body|
    requires Index(j.body[pos..], j.sub) < 0 || pos + Index(j.body[pos..], j.sub) >= next
    ensures var i, k := Index(j.body[pos..], j.sub), Index(j.body[next..], j.sub);
      if i < 0 then k < 0 else k == pos + i - next
  {
    hide Index;
    var s, t, n := j.body[pos..], j.body[next..], next - pos;
    var i, k := Index(s, j.sub), Index(t, j.sub);
    IndexLeast(s, j.sub);
    IndexLeast(t, j.sub);
    assert s == s[..n] + t;
    AtConcat(s[..n], t, k, j.sub);
    AtConcat(s[..n], t, i, j.sub);
  }

  /** The next occurrence does not start inside the line break either. */
  lemma NoneInBreak(j: Job, c: Cursor)
    requires Good(j, c) && c.pos <= Stop(j, c) < |j.body| && NoneLeft(j, c)
    ensures var i := Index(j.body[c.pos..], j.sub); i < 0 || c.pos + i >= Stop(j, c) + 2
  {
    hide Esc, LineStop, HasAllowMarker, Takes, BreakAt, LineText, NoBreak, Apart, Hits, Occ, Text.Weave, Index,
         AllowedFrom, KeepOf, HitFrom, ClosedFrom, Ready, Weighed, Written;
    ReadyTexts(j);
    var e, i := Stop(j, c), Index(j.body[c.pos..], j.sub);
    StopFacts(j.body, c.ls);
    if i >= 0 && c.pos + i == e + 1 {
      var p := e + 1;
      assert FirstAt(j, c.pos, p);
      WithinLine(j.body, c.ls, p, |j.sub|);
      SparedAt(j, p);
      StillClosed(j, c.pos, p, p + |j.sub|);
      EscAtBreak(j.body, e);
    }
  }

  /** The line the output gets, and what is left. */
  lemma FinishLine(j: Job, c: Cursor)
    requires Good(j, c) && c.pos <= Stop(j, c) && NoneLeft(j, c)
    ensures var e := Stop(j, c); var line := c.v + j.body[c.q..e];
      && (e == |j.body| ==>
            Lines(Out(j, c)) == [line] && Lines(j.body[c.ls..]) == [j.body[c.ls..e]] && !HitFrom(j, c.pos))
      && (e < |j.body| ==>
            && e + 2 <= |j.body|
            && Lines(Out(j, c)) == [line] + Lines(Out(j, Cursor(e + 2, e + 2, e + 2, "", [])))
            && Lines(j.body[c.ls..]) == [j.body[c.ls..e]] + Lines(j.body[e + 2..])
            && Good(j, Cursor(e + 2, e + 2, e + 2, "", []))
            && (HitFrom(j, c.pos) <==> HitFrom(j, e + 2)))
  {
    hide Esc, LineStop, HasAllowMarker, Lines, Takes, BreakAt, NoBreak, Apart, Hits, Occ, Text.Weave, Index, KeepOf,
         HitFrom, ClosedFrom, Weighed, Written, Out, LineText, Ready;
    var e := Stop(j, c);
    var line := c.v + j.body[c.q..e];
    LinesFrom(j.body, c.ls);
    FinishedText(j, c, line);
    if e == |j.body| { LastOut(j, c, line); } else { NextOut(j, c, line); }
  }

  lemma FinishedText(j: Job, c: Cursor, line: string)
    requires Good(j, c) && c.pos <= Stop(j, c) && line == c.v + j.body[c.q..Stop(j, c)]
    ensures LineText(line)
  {
    hide Esc, LineStop, HasAllowMarker, Takes, BreakAt, NoBreak, Apart, Hits, Occ, HitFrom, ClosedFrom, Weighed;
    var e := Stop(j, c);
    StopFacts(j.body, c.ls);
    NoBreakWithin(j.body, c.ls, c.q, e);
    if c.v != "" { LineTextConcat(c.v, j.body[c.q..e]); } else { assert line == j.body[c.q..e]; }
  }

  /** The output line ends where the line of the body does. */
  lemma NextOut(j: Job, c: Cursor, line: string)
    requires Good(j, c) && c.pos <= Stop(j, c) < |j.body| && NoneLeft(j, c)
    requires line == c.v + j.body[c.q..Stop(j, c)] && LineText(line)
    ensures var e := Stop(j, c); var next := Cursor(e + 2, e + 2, e + 2, "", []);
      && e + 2 <= |j.body| && Good(j, next) && (HitFrom(j, c.pos) <==> HitFrom(j, e + 2))
      && Lines(Out(j, c)) == [line] + Lines(Out(j, next))
  {
    hide Esc, LineStop, Lines, BreakAt, Out, HitFrom, Good, NoneLeft, NoBreak;
    NextText(j, c);
    var e := Stop(j, c);
    var next := Cursor(e + 2, e + 2, e + 2, "", []);
    BreakOnItsOwn(j.body, e, Out(j, next));
    LinesUnfold(line, j.body[e..e + 2], Out(j, next));
  }

  lemma NextText(j: Job, c: Cursor)
    requires Good(j, c) && c.pos <= Stop(j, c) < |j.body| && NoneLeft(j, c)
    ensures var e := Stop(j, c); var next := Cursor(e + 2, e + 2, e + 2, "", []);
      && e + 2 <= |j.body| && Good(j, next) && (HitFrom(j, c.pos) <==> HitFrom(j, e + 2))
      && c.q <= e && j.sub != "" && BreakAt(j.body, e, LINE_BREAKS)
      && Out(j, c) == (c.v + j.body[c.q..e]) + j.body[e..e + 2] + Out(j, next)
  {
    hide Esc, LineStop, HasAllowMarker, Takes, BreakAt, NoBreak, Apart, Hits, Occ, Text.Weave, Index, KeepOf, HitFrom,
         ClosedFrom, Weighed, Written, LineText, Ready;
    ReadyTexts(j);
    var e := Stop(j, c);
    StopFacts(j.body, c.ls);
    NoneInBreak(j, c);
    DropFront(j, c.pos, e + 2);
    NextGood(j, c, Cursor(e + 2, e + 2, e + 2, "", []));
    var tail := Weave(j.body[e + 2..], j.sub, j.mask, KeepOf(j));
    assert j.body[e + 2..e + 2] == "" && "" + "" + tail == tail;
    OutAtBreak(j.body, c.v, c.q, c.pos, e, tail);
  }

  lemma OutAtBreak(body: string, v: string, q: nat, pos: nat, e: nat, tail: string)
    requires q <= pos <= e && e + 2 <= |body|
    ensures v + body[q..pos] + (body[pos..e + 2] + tail) == (v + body[q..e]) + body[e..e + 2] + tail
  {
    assert body[q..pos] + body[pos..e + 2] == body[q..e] + body[e..e + 2];
  }

  lemma BreakOnItsOwn(body: string, e: nat, tail: string)
    requires BreakAt(body, e, LINE_BREAKS)
    ensures BreakAt(body[e..e + 2] + tail, 0, LINE_BREAKS)
  {
    assert (body[e..e + 2] + tail)[..0] == "";
  }

  lemma NextGood(j: Job, c: Cursor, next: Cursor)
    requires Good(j, c) && c.pos <= Stop(j, c) < |j.body| && Stop(j, c) + 2 <= |j.body|
    requires next == Cursor(Stop(j, c) + 2, Stop(j, c) + 2, Stop(j, c) + 2, "", [])
    requires StartsLine(j.body, next.ls) && forall x: nat :: Takes(j, c.pos, x) <==> Takes(j, next.pos, x)
    ensures Good(j, next) && (HitFrom(j, c.pos) <==> HitFrom(j, next.pos))
  {
    hide Esc, LineStop, Takes, BreakAt, NoBreak, Apart, Hits, Occ, AllowedFrom, KeepOf, LineText;
    UnmarkedNothing();
    if HitFrom(j, c.pos) {
      var x: nat :| c.pos <= x <= |j.body| && Takes(j, c.pos, x) && Hits(j.body, 0, x, |j.sub|);
      TakenInBody(j, next.pos, x);
    }
  }

  lemma UnmarkedNothing()
    ensures !HasAllowMarker("")
  {
  }

  lemma LastOut(j: Job, c: Cursor, line: string)
    requires Good(j, c) && c.pos <= Stop(j, c) == |j.body| && NoneLeft(j, c)
    requires line == c.v + j.body[c.q..] && LineText(line)
    ensures Out(j, c) == line && Lines(line) == [line] && !HitFrom(j, c.pos)
  {
    hide Esc, LineStop, HasAllowMarker, Lines, MarkedOf, SubstitutedAt, BreakAt, Apart, Hits, Occ, Text.Weave, Index,
         AllowedFrom, Kept;
    var s := j.body[c.pos..];
    var i := Index(s, j.sub);
    IndexLeast(s, j.sub);
    assert i < 0;
    WeaveNone(s, j.sub, j.mask, KeepOf(j));
    assert j.body[c.q..] == j.body[c.q..c.pos] + s;
    assert c.v + j.body[c.q..c.pos] + s == line;
    forall x: nat | c.pos <= x <= |j.body| ensures !Takes(j, c.pos, x) {
      SubstitutedUnfold(s, j.sub, KeepOf(j), i, "", x - c.pos);
    }
    WholeLine(line);
  }

  // ---- Accounts ---------------------------------------------------------------------------------------------------

  /** The marked lines in the output against those that were due: never more, the same unless lines ran together, and
      if as many, then with as many placeholders, of one more when lines ran together. */
  ghost predicate Ledger(masks: set<string>, out: seq<string>, due: seq<string>, bad: bool) {
    && |out| <= |due|
    && (!bad ==> out == due)
    && (|out| == |due| ==>
          && (forall m | m in masks && m != "" :: OccAll(out, m) >= OccAll(due, m))
          && (bad ==> exists m | m in masks && m != "" :: OccAll(out, m) > OccAll(due, m)))
  }

  lemma LedgerConcat(
      masks: set<string>, a: seq<string>, x: seq<string>, bad: bool, b: seq<string>, y: seq<string>, bad': bool)
    requires Ledger(masks, a, x, bad) && Ledger(masks, b, y, bad')
    ensures Ledger(masks, a + b, x + y, bad || bad')
  {
    hide OccAll;
    forall m | m in masks && m != ""
      ensures OccAll(a + b, m) == OccAll(a, m) + OccAll(b, m) && OccAll(x + y, m) == OccAll(x, m) + OccAll(y, m)
    {
      OccAllConcat(a, b, m);
      OccAllConcat(x, y, m);
    }
  }

  lemma LedgerThen(masks: set<string>, a: seq<string>, b: seq<string>, c: seq<string>, bad: bool, bad': bool)
    requires Ledger(masks, a, b, bad) && Ledger(masks, b, c, bad')
    ensures Ledger(masks, a, c, bad || bad')
  {
    hide OccAll;
  }

  /** Marked lines that have run together do not come back. */
  lemma LedgerIff(masks: set<string>, out: seq<string>, due: seq<string>, bad: bool)
    requires Ledger(masks, out, due, bad)
    ensures out == due <==> !bad
  {
    hide OccAll;
  }

  lemma OneLineTally(line: string, m: string)
    requires m != ""
    ensures OccAll([line], m) == Occ(line, m) && OccAll([], m) == 0
  {
    hide Occ;
    assert [line][1..] == [];
  }

  /** An occurrence that reaches into a marked line takes a break from it. */
  lemma ReachesMarked(j: Job, c: Cursor)
    requires Good(j, c) && c.v != "" && c.pos <= Stop(j, c) && Current(j, c)
    ensures Hits(j.body, c.ls, c.q - |j.sub|, |j.sub|)
  {
    hide Esc, LineStop, HasAllowMarker, Takes, BreakAt, LineText, NoBreak, Apart, Hits, Occ, HitFrom, ClosedFrom,
         Weighed;
    HitsUnfold(j.body, c.ls, c.q - |j.sub|, |j.sub|);
    assert HitBy(Span(c.ls, Stop(j, c)), c.q - |j.sub|, |j.sub|);
  }

  /** The account of one output line. */
  lemma LineLedger(j: Job, c: Cursor)
    requires Good(j, c) && c.pos <= Stop(j, c)
    ensures var e := Stop(j, c);
      Ledger(j.masks, IfMarked(c.v + j.body[c.q..e]), c.lost + IfMarked(j.body[c.ls..e]),
             c.lost != [] || (c.v != "" && Hits(j.body, c.ls, c.q - |j.sub|, |j.sub|)))
  {
    hide Esc, LineStop, HasAllowMarker, Takes, BreakAt, LineText, NoBreak, Apart, Hits, Occ, OccAll, AllowedFrom,
         KeepOf, HitFrom, ClosedFrom;
    var e := Stop(j, c);
    var line, was := c.v + j.body[c.q..e], j.body[c.ls..e];
    if c.v == "" {
      assert line == was;
      assert c.lost + IfMarked(was) == IfMarked(was);
    } else if !Current(j, c) {
      UnmarkedIsNotHit(j, c.ls, c.q - |j.sub|);
      assert c.lost + IfMarked(was) == c.lost;
      if c.lost == [] {
        PieceUnmarked(j, c.ls, c.q, e);
        JoinedUnmarked(j, c.v, j.body[c.q..e]);
      } else if |c.lost| == 1 {
        assert c.lost == [c.lost[0]];
        HeavierLine(j, c.v, j.body[c.q..e], c.lost[0]);
      }
    } else {
      ReachesMarked(j, c);
      if c.lost == [] {
        assert c.lost + IfMarked(was) == [was];
        JoinedOutweighs(j, c);
      }
    }
  }

  /** An output line that outweighs the lost one. */
  lemma HeavierLine(j: Job, v: string, piece: string, lost: string)
    requires Ready(j) && Outweighs(j, v, lost)
    ensures Ledger(j.masks, IfMarked(v + piece), [lost], true)
  {
    hide Esc, LineText, HasAllowMarker, Apart, Occ, OccAll;
    forall m | m in j.masks
      ensures OccAll([v + piece], m) == Occ(v + piece, m) >= Occ(v, m) && OccAll([lost], m) == Occ(lost, m)
    {
      OneLineTally(v + piece, m);
      OneLineTally(lost, m);
      OccConcat(v, piece, m);
    }
  }

  lemma JoinedOutweighs(j: Job, c: Cursor)
    requires Good(j, c) && c.v != "" && c.pos <= Stop(j, c) && Current(j, c)
    ensures Ledger(j.masks, IfMarked(c.v + j.body[c.q..Stop(j, c)]), [j.body[c.ls..Stop(j, c)]], true)
  {
    hide Esc, LineStop, HasAllowMarker, Takes, BreakAt, LineText, NoBreak, Apart, Hits, Occ, OccAll, AllowedFrom,
         KeepOf, HitFrom, ClosedFrom;
    var e := Stop(j, c);
    var piece, was := j.body[c.q..e], j.body[c.ls..e];
    EndsInMask(c.v, j.mask);
    forall m | m in j.masks
      ensures OccAll([c.v + piece], m) >= OccAll([was], m) + (if m == j.mask then 1 else 0)
    {
      OneLineTally(c.v + piece, m);
      OneLineTally(was, m);
      OccConcat(c.v, piece, m);
      OccFrom(j, c.ls, c.q, e, m);
    }
  }

  /** Nothing is done yet. */
  function Begin(): Cursor {
    Cursor(0, 0, 0, "", [])
  }

  lemma {:induction false} Track(j: Job, c: Cursor)
    requires Good(j, c)
    ensures Ledger(j.masks, MarkedOf(Lines(Out(j, c))), Due(j, c), Bad(j, c))
    decreases |j.body| - c.pos, |j.body| - c.ls
  {
    hide Esc, LineStop, HasAllowMarker, Lines, MarkedOf, Takes, BreakAt, LineText, NoBreak, Apart, Hits, Occ, OccAll,
         Text.Weave, Index, AllowedFrom, KeepOf, HitFrom, ClosedFrom, Ledger, Weighed, Written, IfMarked;
    if Stop(j, c) < c.pos {
      var c' := SkipLine(j, c);
      Track(j, c');
    } else if NoneLeft(j, c) {
      FinishLine(j, c);
      LineLedger(j, c);
      TrackLine(j, c);
    } else {
      var p := c.pos + Index(j.body[c.pos..], j.sub);
      var c';
      if p + |j.sub| > Stop(j, c) {
        c' := TakeAcross(j, c, p);
      } else if Current(j, c) {
        c' := TakeKept(j, c, p);
      } else {
        c' := TakeInside(j, c, p);
      }
      Track(j, c');
    }
  }

  lemma {:induction false} TrackLine(j: Job, c: Cursor)
    requires Good(j, c) && c.pos <= Stop(j, c) && NoneLeft(j, c)
    ensures Ledger(j.masks, MarkedOf(Lines(Out(j, c))), Due(j, c), Bad(j, c))
    decreases |j.body| - c.pos, |j.body| - c.ls, 0
  {
    hide Esc, LineStop, HasAllowMarker, Lines, MarkedOf, Takes, BreakAt, LineText, NoBreak, Apart, Hits, Occ, OccAll,
         Text.Weave, Index, AllowedFrom, KeepOf, HitFrom, ClosedFrom, Ledger, Weighed, Written, IfMarked;
    FinishLine(j, c);
    LineLedger(j, c);
    var e := Stop(j, c);
    var line, was := c.v + j.body[c.q..e], j.body[c.ls..e];
    var bad := c.lost != [] || (c.v != "" && Hits(j.body, c.ls, c.q - |j.sub|, |j.sub|));
    if e == |j.body| {
      MarkedAlone(line);
      MarkedAlone(was);
    } else {
      var next := Cursor(e + 2, e + 2, e + 2, "", []);
      Track(j, next);
      MarkedCons(line, Lines(Out(j, next)));
      MarkedCons(was, Lines(j.body[e + 2..]));
      assert Due(j, next) == MarkedOf(Lines(j.body[e + 2..]));
      assert c.lost + (IfMarked(was) + Due(j, next)) == (c.lost + IfMarked(was)) + Due(j, next);
      LedgerConcat(j.masks, IfMarked(line), c.lost + IfMarked(was), bad,
                   MarkedOf(Lines(Out(j, next))), Due(j, next), HitFrom(j, e + 2));
    }
  }

  lemma MarkedAlone(line: string)
    ensures MarkedOf([line]) == IfMarked(line)
  {
    hide HasAllowMarker;
    assert [line][1..] == [];
  }

  // ---- Unmarked lines -------------------------------------------------------------------------------------------

  /** What the unmarked lines lack, they still lack, and the substituted secret too. */
  ghost predicate Lacked(j: Job, c: Cursor, t: string)
    requires c.ls <= |j.body|
  {
    Apart(t, j.mask) && !Contains(c.v, t) && (t == j.sub || Bare(Lines(j.body[c.ls..]), t))
  }

  lemma PieceLacks(j: Job, c: Cursor, p: nat, t: string)
    requires Good(j, c) && Lacked(j, c, t) && c.pos <= Stop(j, c) && !Current(j, c) && c.pos <= p <= Stop(j, c)
    requires t == j.sub ==> !Contains(j.body[c.pos..p], j.sub)
    ensures !Contains(c.v + j.body[c.q..p], t) && !Contains(c.v + j.body[c.q..p] + j.mask, t)
  {
    hide Esc, LineStop, HasAllowMarker, Takes, BreakAt, LineText, NoBreak, Apart, Hits, Occ, AllowedFrom, KeepOf,
         HitFrom, ClosedFrom, Contains, Lines, Weighed;
    if t != j.sub { FirstLineLacks(j, c.ls, c.pos, p, t); }
    JoinedLacks(j, c.v, j.body[c.q..p], t);
  }

  lemma FirstLineLacks(j: Job, ls: nat, x: nat, y: nat, t: string)
    requires StartsLine(j.body, ls) && !MarkedAt(j.body, ls) && Bare(Lines(j.body[ls..]), t)
    requires ls <= x <= y <= LineStop(j.body, ls)
    ensures !Contains(j.body[x..y], t)
  {
    hide LineStop, HasAllowMarker, Contains, Lines, Esc, NoBreak;
    LinesFrom(j.body, ls);
    var line := j.body[ls..LineStop(j.body, ls)];
    assert Lines(j.body[ls..])[0] == line;
    PartHeld(line, x - ls, y - ls, t);
    SliceOfSlice(j.body, ls, LineStop(j.body, ls), x, y);
  }

  lemma NoneLeftLacks(j: Job, c: Cursor)
    requires Good(j, c) && c.pos <= Stop(j, c) && NoneLeft(j, c)
    ensures !Contains(j.body[c.pos..Stop(j, c)], j.sub)
  {
    hide Index, Esc, LineStop, LineText, Apart, HitFrom, ClosedFrom, Weighed, Written;
    var s, e := j.body[c.pos..], Stop(j, c);
    IndexLeast(s, j.sub);
    var part := j.body[c.pos..e];
    assert s == part + j.body[e..];
    forall k | 0 <= k <= |part| ensures !At(part, k, j.sub) { AtConcat(part, j.body[e..], k, j.sub); }
  }

  /** Without hits, an output line without a marker lacks what the unmarked lines lacked. */
  lemma FinishedLacks(j: Job, c: Cursor, t: string)
    requires Good(j, c) && !Bad(j, c) && Lacked(j, c, t) && c.pos <= Stop(j, c) && NoneLeft(j, c)
    ensures var line := c.v + j.body[c.q..Stop(j, c)]; HasAllowMarker(line) || !Contains(line, t)
  {
    hide Esc, LineStop, HasAllowMarker, Takes, BreakAt, LineText, NoBreak, Apart, Hits, Occ, AllowedFrom, KeepOf,
         HitFrom, ClosedFrom, Contains, Lines, Weighed, Index;
    var e := Stop(j, c);
    if c.v == "" && Current(j, c) {
      assert c.v + j.body[c.q..e] == j.body[c.ls..e];
    } else if Current(j, c) {
      ReachesMarked(j, c);
    } else {
      NoneLeftLacks(j, c);
      PieceLacks(j, c, e, t);
    }
  }

  lemma {:induction false} TrackLacked(j: Job, c: Cursor, t: string)
    requires Good(j, c) && !Bad(j, c) && Lacked(j, c, t)
    ensures Bare(Lines(Out(j, c)), t)
    decreases |j.body| - c.pos, |j.body| - c.ls
  {
    hide Esc, LineStop, HasAllowMarker, Lines, MarkedOf, Takes, BreakAt, LineText, NoBreak, Apart, Hits, Occ,
         Text.Weave, Index, AllowedFrom, KeepOf, HitFrom, ClosedFrom, Weighed, Written, IfMarked, Contains, Due, Bad;
    if Stop(j, c) < c.pos {
      var c' := SkipLine(j, c);
      SkipLacks(j, c, c', t);
      TrackLacked(j, c', t);
    } else if NoneLeft(j, c) {
      FinishLine(j, c);
      FinishedLacks(j, c, t);
      if Stop(j, c) < |j.body| {
        var next := Cursor(Stop(j, c) + 2, Stop(j, c) + 2, Stop(j, c) + 2, "", []);
        NextLacks(j, c, next, t);
        TrackLacked(j, next, t);
      }
    } else {
      var p := c.pos + Index(j.body[c.pos..], j.sub);
      FirstOccurrence(j, c.pos, p);
      if p + |j.sub| > Stop(j, c) {
        var c' := TakeAcross(j, c, p);
        PieceLacks(j, c, p, t);
        TrackLacked(j, c', t);
      } else if Current(j, c) {
        var c' := TakeKept(j, c, p);
        TrackLacked(j, c', t);
      } else {
        var c' := TakeInside(j, c, p);
        PieceLacks(j, c, p, t);
        TrackLacked(j, c', t);
      }
    }
  }

  lemma SkipLacks(j: Job, c: Cursor, c': Cursor, t: string)
    requires c.ls <= |j.body| && Stop(j, c) < |j.body| && Lacked(j, c, t) && c'.v == c.v && c'.ls == Stop(j, c) + 2
    ensures c'.ls <= |j.body| && Lacked(j, c', t)
  {
    hide LineStop, HasAllowMarker, Lines, Apart, Contains;
    LinesFrom(j.body, c.ls);
    var lines, later := Lines(j.body[c.ls..]), Lines(j.body[c'.ls..]);
    assert forall k | 0 <= k < |later| :: later[k] == lines[k + 1];
  }

  lemma NextLacks(j: Job, c: Cursor, next: Cursor, t: string)
    requires Good(j, c) && !Bad(j, c) && Lacked(j, c, t) && c.pos <= Stop(j, c) < |j.body| && NoneLeft(j, c)
    requires next == Cursor(Stop(j, c) + 2, Stop(j, c) + 2, Stop(j, c) + 2, "", [])
    ensures Good(j, next) && !Bad(j, next) && Lacked(j, next, t)
  {
    hide Esc, LineStop, HasAllowMarker, Lines, MarkedOf, Takes, BreakAt, LineText, NoBreak, Apart, Hits, Occ,
         Text.Weave, Index, AllowedFrom, KeepOf, HitFrom, ClosedFrom, Weighed, Written, IfMarked, Contains;
    FinishLine(j, c);
    NothingHolds(t, j.mask);
    SkipLacks(j, c.(v := ""), next, t);
  }
}
