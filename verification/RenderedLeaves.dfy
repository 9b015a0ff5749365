/** The rendered text holds the document: every string leaf stands on a line of its own, and the document can be read
    back from the text. */
module RenderedLeaves {
  import opened Options
  import opened Text
  import opened StringBody
  import opened Tree
  import opened TextLines
  import opened Rendering
  import opened Positions

  // ---- Leaves and lines ----------------------------------------------------------------------------------------

  /** The text at i starts a line and is followed by the end of the line, or by a comma and the end of the line. */
  predicate LineAt(text: string, i: nat, line: string) {
    && 0 < i && At(text, i, line) && text[i - 1] == '\n'
    && var rest := text[i + |line|..]; "\n" <= rest || ",\n" <= rest
  }

  ghost predicate OnLine(text: string, line: string) {
    exists i: nat :: LineAt(text, i, line)
  }

  predicate EndsEntry(tail: string) {
    "\n" <= tail || ",\n" <= tail
  }

  lemma LineHere(front: string, line: string, tail: string)
    requires EndsLine(front) && EndsEntry(tail)
    ensures OnLine(front + line + tail, line)
  {
    var text := front + line + tail;
    assert text[|front|..|front| + |line|] == line && text[|front| + |line|..] == tail;
    assert LineAt(text, |front|, line);
  }

  lemma Embedded(front: string, inner: string, behind: string, j: nat, line: string)
    requires LineAt(inner, j, line)
    ensures LineAt(front + inner + behind, |front| + j, line)
  {
    var text := front + inner + behind;
    AtConcat(front, inner, j, line);
    AtConcat(front + inner, behind, |front| + j, line);
    assert text[|front| + j - 1] == inner[j - 1];
    assert text[|front| + j + |line|..] == inner[j + |line|..] + behind;
  }

  /** A line of an inner text is a line of the whole. */
  lemma LineInside(text: string, lead: string, inner: string, line: string)
    requires OnLine(text, lead + inner) && OnLine(inner, line)
    ensures OnLine(text, line)
  {
    var i: nat, j: nat :| LineAt(text, i, lead + inner) && LineAt(inner, j, line);
    CutText(text, i, lead, inner);
    Embedded(text[..i] + lead, inner, text[i + |lead + inner|..], j, line);
  }

  lemma CutText(text: string, i: nat, lead: string, inner: string)
    requires At(text, i, lead + inner)
    ensures text == text[..i] + lead + inner + text[i + |lead + inner|..]
  {
    assert text == text[..i] + text[i..i + |lead + inner|] + text[i + |lead + inner|..];
    assert text[i..i + |lead + inner|] == lead + inner;
  }

  /** What stands in front of a value on its first line. */
  ghost function Lead(step: Edge): string {
    match step
    case Key(key) => Quoted(key) + ": "
    case Item(_) => ""
  }

  lemma BreakEnds(indent: string, first: bool)
    ensures Break(indent, first) == (if first then "\n" else ",\n") + indent
  {
  }

  lemma {:induction false} ItemOnLine(v: Value, indent: string, n: nat, i: nat, tail: string)
    requires v.Arr? && i < n <= |v.items| && EndsEntry(tail)
    ensures OnLine(RenderItems(v, indent, n) + tail, indent + Render(v.items[i], indent))
    decreases n
  {
    hide Render, OnLine, Break;
    var before, item := RenderItems(v, indent, n - 1), Render(v.items[n - 1], indent);
    var sep := if n == 1 then "\n" else ",\n";
    BreakEnds(indent, n == 1);
    assert RenderItems(v, indent, n) == before + Break(indent, n == 1) + item;
    if i == n - 1 {
      var front := before + sep;
      assert before + (sep + indent) + item + tail == front + (indent + item) + tail;
      LineHere(front, indent + item, tail);
    } else {
      var rest := sep + indent + item + tail;
      assert before + (sep + indent) + item + tail == before + rest;
      ItemOnLine(v, indent, n - 1, i, rest);
    }
  }

  lemma {:induction false} FieldOnLine(v: Value, keys: seq<string>, indent: string, n: nat, i: nat, tail: string)
    requires v.Obj? && i < n <= |keys| && (forall k | k in keys :: k in v.fields) && EndsEntry(tail)
    ensures OnLine(RenderFields(v, keys, indent, n) + tail,
                   indent + (Quoted(keys[i]) + ": ") + Render(v.fields[keys[i]], indent))
    decreases n
  {
    hide Render, OnLine, Break, Quoted;
    var before, value := RenderFields(v, keys, indent, n - 1), Render(v.fields[keys[n - 1]], indent);
    var key, sep := Quoted(keys[n - 1]), if n == 1 then "\n" else ",\n";
    BreakEnds(indent, n == 1);
    assert RenderFields(v, keys, indent, n) == before + Break(indent, n == 1) + key + ": " + value;
    if i == n - 1 {
      var front := before + sep;
      assert before + (sep + indent) + key + ": " + value + tail == front + (indent + (key + ": ") + value) + tail;
      LineHere(front, indent + (key + ": ") + value, tail);
    } else {
      var rest := sep + indent + key + ": " + value + tail;
      assert before + (sep + indent) + key + ": " + value + tail == before + rest;
      FieldOnLine(v, keys, indent, n - 1, i, rest);
    }
  }

  lemma WithBefore(text: string, c: char, line: string)
    requires OnLine(text, line)
    ensures OnLine([c] + text, line)
  {
    var i: nat :| LineAt(text, i, line);
    AtConcat([c], text, i, line);
    assert ([c] + text)[i + 1 + |line|..] == text[i + |line|..];
    assert LineAt([c] + text, i + 1, line);
  }

  /** Each field or item of a value starts a line of its rendering, one level deeper. */
  lemma ChildOnLine(v: Value, indent: string, step: Edge)
    requires Has(v, step)
    ensures var deeper := indent + "  ";
      OnLine(Render(v, indent), deeper + Lead(step) + Render(Child(v, step), deeper))
  {
    hide OnLine, Break, RenderItems, RenderFields, SortedKeys, Quoted;
    var deeper := indent + "  ";
    if v.Arr? {
      var n, tail := |v.items|, "\n" + indent + "]";
      ItemOnLine(v, deeper, n, step.index, tail);
      var text := RenderItems(v, deeper, n) + tail;
      WithBefore(text, '[', deeper + Render(Child(v, step), deeper));
      assert Render(v, indent) == "[" + text;
      assert deeper + "" == deeper;
    } else {
      var keys, tail := SortedKeys(v.fields.Keys), "\n" + indent + "}";
      var i :| 0 <= i < |keys| && keys[i] == step.key;
      FieldOnLine(v, keys, deeper, |keys|, i, tail);
      var text := RenderFields(v, keys, deeper, |keys|) + tail;
      WithBefore(text, '{', deeper + Lead(step) + Render(Child(v, step), deeper));
      assert Render(v, indent) == "{" + text;
    }
  }

  /** The indentation n levels deeper. */
  function Deeper(indent: string, n: nat): string
    decreases n
  {
    if n == 0 then indent else Deeper(indent + "  ", n - 1)
  }

  /** A string leaf stands on one line of the rendering: the indentation of its level, its key if it has one, and a
      quote, its encoding and a quote. */
  lemma {:induction false} LeafOnItsLine(v: Value, indent: string, steps: seq<Edge>)
    requires LeafAt(v, steps).Some? && steps != []
    ensures OnLine(Render(v, indent),
      Deeper(indent, |steps|) + Lead(steps[|steps| - 1]) + ("\"" + Encode(LeafAt(v, steps).value) + "\""))
    decreases |steps|
  {
    hide OnLine, Render, Lead, Encode;
    var step, rest, deeper := steps[0], steps[1..], indent + "  ";
    FindUnfold(v, steps);
    ChildOnLine(v, indent, step);
    var child := Child(v, step);
    if rest == [] {
      LeafRendered(child, deeper);
    } else {
      LeafOnItsLine(child, deeper, rest);
      var line := Deeper(deeper, |rest|) + Lead(rest[|rest| - 1]) + ("\"" + Encode(LeafAt(child, rest).value) + "\"");
      LineInside(Render(v, indent), deeper + Lead(step), Render(child, deeper), line);
    }
  }

  lemma LeafRendered(v: Value, indent: string)
    requires v.Str?
    ensures Render(v, indent) == "\"" + Encode(v.s) + "\""
  {
    hide Encode;
  }

  // ---- What a leaf holds, the text holds ---------------------------------------------------------------------

  /** A leaf of v holds t. */
  ghost predicate HeldAt(v: Value, steps: seq<Edge>, t: string) {
    LeafAt(v, steps).Some? && Contains(Encode(LeafAt(v, steps).value), t)
  }

  lemma {:induction false} AbsentIff(v: Value, t: string)
    ensures Absent(v, t) <==> forall steps :: !HeldAt(v, steps, t)
    decreases v
  {
    hide Encode, Contains;
    forall steps | HeldAt(v, steps, t) ensures !Absent(v, t) { HeldIsPresent(v, steps, t); }
    if !Absent(v, t) {
      var steps := PresentIsHeld(v, t);
      assert HeldAt(v, steps, t);
    }
  }

  lemma {:induction false} HeldIsPresent(v: Value, steps: seq<Edge>, t: string)
    requires HeldAt(v, steps, t)
    ensures !Absent(v, t)
    decreases |steps|
  {
    hide Encode, Contains;
    if steps != [] {
      FindUnfold(v, steps);
      HeldIsPresent(Child(v, steps[0]), steps[1..], t);
    }
  }

  lemma {:induction false} PresentIsHeld(v: Value, t: string) returns (steps: seq<Edge>)
    requires !Absent(v, t)
    ensures HeldAt(v, steps, t)
    decreases v
  {
    hide Encode, Contains;
    match v {
      case Str(_) => steps := [];
      case Arr(items) =>
        var i :| 0 <= i < |items| && !Absent(items[i], t);
        var rest := PresentIsHeld(items[i], t);
        steps := [Item(i)] + rest;
        assert steps[1..] == rest;
      case Obj(fields) =>
        var k :| k in fields && !Absent(fields[k], t);
        var rest := PresentIsHeld(fields[k], t);
        steps := [Key(k)] + rest;
        assert steps[1..] == rest;
    }
  }

  lemma OnLineContains(text: string, line: string, t: string)
    requires OnLine(text, line) && Contains(line, t)
    ensures Contains(text, t)
  {
    hide Contains;
    var i: nat :| LineAt(text, i, line);
    assert text == text[..i] + line + text[i + |line|..] by { assert text[i..i + |line|] == line; }
    ContainsConcat(text[..i], line, t);
    ContainsConcat(text[..i] + line, text[i + |line|..], t);
  }

  /** Whatever a string leaf holds is in the rendered text. */
  lemma RenderHolds(v: Value, indent: string, t: string)
    requires !Absent(v, t)
    ensures Contains(Render(v, indent), t)
  {
    hide Encode, Contains, Render, Absent, Lead;
    AbsentIff(v, t);
    var steps :| HeldAt(v, steps, t);
    var code := Encode(LeafAt(v, steps).value);
    ContainsConcat("\"", code, t);
    ContainsConcat("\"" + code, "\"", t);
    if steps == [] {
      LeafRendered(v, indent);
    } else {
      var quoted := "\"" + code + "\"";
      var lead := Deeper(indent, |steps|) + Lead(steps[|steps| - 1]);
      LeafOnItsLine(v, indent, steps);
      ContainsConcat(lead, quoted, t);
      OnLineContains(Render(v, indent), lead + quoted, t);
    }
  }
}
