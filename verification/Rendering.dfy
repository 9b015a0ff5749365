/** The text a pass scans: the document as indented JSON, one string leaf to a line at most. */
module Rendering {
  import opened Order
  import opened StringBody
  import opened Leaf
  import opened Tree
  import opened TextLines

  // ---- The indented form ---------------------------------------------------------------------------

  /** The keys in some order. */
  ghost function Listed(keys: set<string>): seq<string>
    decreases |keys|
  {
    if keys == {} then []
    else
      var k :| k in keys;
      [k] + Listed(keys - {k})
  }

  lemma {:induction false} ListedElements(keys: set<string>)
    ensures forall k :: k in Listed(keys) <==> k in keys
    ensures forall i, j | 0 <= i < j < |Listed(keys)| :: Listed(keys)[i] != Listed(keys)[j]
    decreases |keys|
  {
    if keys != {} {
      var list := Listed(keys);
      assert list != [] && list[0] in keys && list == [list[0]] + Listed(keys - {list[0]});
      ListedElements(keys - {list[0]});
    }
  }

  ghost predicate KeyOrder(list: seq<string>, keys: set<string>) {
    Ascending(list, Below) && forall k :: k in list <==> k in keys
  }

  /** The keys in ascending order, which is the order the encoder writes them in. */
  ghost function SortedKeys(keys: set<string>): (list: seq<string>)
    ensures KeyOrder(list, keys)
  {
    ListedElements(keys);
    BelowIsOrder();
    SortAscending(Listed(keys), Below);
    SortElements(Listed(keys), Below);
    Sort(Listed(keys), Below)
  }

  lemma BelowIsOrder()
    ensures StrictOrder(Below)
    ensures forall a, b :: a == b || Below(a, b) || Below(b, a)
  {
    forall a ensures !Below(a, a) { BelowIrreflexive(a); }
    forall a, b, c | Below(a, b) && Below(b, c) ensures Below(a, c) { BelowTransitive(a, b, c); }
    forall a, b ensures a == b || Below(a, b) || Below(b, a) { BelowTotal(a, b); }
  }

  ghost function Quoted(s: string): string {
    "\"" + Encode(s) + "\""
  }

  /** A line break, the indentation, and what separates an entry from the one before it. */
  ghost function Break(indent: string, first: bool): string {
    (if first then "" else ",") + "\n" + indent
  }

  /** encode with indentation: two blanks to a level, an empty array or object on one line. */
  ghost function Render(v: Value, indent: string): string
    decreases v, 1, 0
  {
    match v
    case Str(s) => Quoted(s)
    case Scalar(text) => text
    case Arr(items) =>
      if items == [] then "[]"
      else "[" + RenderItems(v, indent + "  ", |items|) + "\n" + indent + "]"
    case Obj(fields) =>
      var keys := SortedKeys(fields.Keys);
      if keys == [] then "{}"
      else "{" + RenderFields(v, keys, indent + "  ", |keys|) + "\n" + indent + "}"
  }

  ghost function RenderItems(v: Value, indent: string, n: nat): string
    requires v.Arr? && n <= |v.items|
    decreases v, 0, n
  {
    if n == 0 then ""
    else RenderItems(v, indent, n - 1) + Break(indent, n == 1) + Render(v.items[n - 1], indent)
  }

  ghost function RenderFields(v: Value, keys: seq<string>, indent: string, n: nat): string
    requires v.Obj? && n <= |keys| && forall k | k in keys :: k in v.fields
    decreases v, 0, n
  {
    if n == 0 then ""
    else RenderFields(v, keys, indent, n - 1) + Break(indent, n == 1) + Quoted(keys[n - 1]) + ": " +
         Render(v.fields[keys[n - 1]], indent)
  }

  // ---- Lines -----------------------------------------------------------------------------------------

  lemma {:induction false} OneLineText(s: string)
    requires '\n' !in s
    ensures Newlines(s) == 0
  {
    if s != "" { OneLineText(s[1..]); }
  }

  /** The encoder writes no line feed, so a string leaf is always on one line. */
  lemma {:induction false} EncodedOnOneLine(s: string)
    ensures '\n' !in Encode(s)
  {
    if s != "" {
      EncodedOnOneLine(s[1..]);
      assert '\n' !in EncodeChar(s[0]);
    }
  }

  lemma QuotedOnOneLine(s: string)
    ensures Newlines(Quoted(s)) == 0
  {
    EncodedOnOneLine(s);
    OneLineText(Quoted(s));
  }

  /** Texts that are concatenated piece by piece break into lines alike when the pieces do. */
  lemma SameConcat(a: string, b: string, c: string, a': string, c': string)
    requires Newlines(a) == Newlines(a') && Newlines(c) == Newlines(c')
    ensures Newlines(a + b + c) == Newlines(a' + b + c')
  {
    hide Newlines;
    NewlinesConcat(a + b, c);
    NewlinesConcat(a, b);
    NewlinesConcat(a' + b, c');
    NewlinesConcat(a', b);
  }

  /** The rendered document keeps its number of lines when string leaves are rewritten. */
  lemma {:induction false} FramedKeepsLines(cfg: Config, v: Value, w: Value, path: string, indent: string)
    requires Framed(cfg, v, w, path)
    ensures Newlines(Render(v, indent)) == Newlines(Render(w, indent))
    decreases v, 1, 0
  {
    hide Newlines, Quoted, SortedKeys, RenderItems, RenderFields;
    match v {
      case Str(s) =>
        QuotedOnOneLine(s);
        QuotedOnOneLine(w.s);
      case Scalar(_) =>
      case Arr(items) =>
        var deeper := indent + "  ";
        ItemsKeepLines(cfg, v, w, path, deeper, |items|);
        Enclosed("[", RenderItems(v, deeper, |items|), RenderItems(w, deeper, |items|), indent, "]");
      case Obj(fields) =>
        var keys, deeper := SortedKeys(fields.Keys), indent + "  ";
        FieldsKeepLines(cfg, v, w, path, keys, deeper, |keys|);
        Enclosed("{", RenderFields(v, keys, deeper, |keys|), RenderFields(w, keys, deeper, |keys|), indent, "}");
    }
  }

  lemma Enclosed(open: string, a: string, b: string, indent: string, close: string)
    requires Newlines(a) == Newlines(b)
    ensures Newlines(open + a + "\n" + indent + close) == Newlines(open + b + "\n" + indent + close)
  {
    hide Newlines;
    var rest := "\n" + indent + close;
    assert open + a + "\n" + indent + close == open + a + rest;
    assert open + b + "\n" + indent + close == open + b + rest;
    NewlinesConcat(open + a, rest);
    NewlinesConcat(open + b, rest);
    NewlinesConcat(open, a);
    NewlinesConcat(open, b);
  }

  lemma {:induction false} ItemsKeepLines(cfg: Config, v: Value, w: Value, path: string, indent: string, n: nat)
    requires v.Arr? && Framed(cfg, v, w, path) && n <= |v.items|
    ensures Newlines(RenderItems(v, indent, n)) == Newlines(RenderItems(w, indent, n))
    decreases v, 0, n
  {
    hide Newlines, Render, Break, ItemPath;
    if n > 0 {
      ItemsKeepLines(cfg, v, w, path, indent, n - 1);
      FramedKeepsLines(cfg, v.items[n - 1], w.items[n - 1], ItemPath(path, n - 1), indent);
      SameConcat(RenderItems(v, indent, n - 1), Break(indent, n == 1), Render(v.items[n - 1], indent),
                 RenderItems(w, indent, n - 1), Render(w.items[n - 1], indent));
    }
  }

  lemma {:induction false} FieldsKeepLines(
      cfg: Config, v: Value, w: Value, path: string, keys: seq<string>, indent: string, n: nat)
    requires v.Obj? && Framed(cfg, v, w, path) && n <= |keys| && forall k | k in keys :: k in v.fields
    ensures Newlines(RenderFields(v, keys, indent, n)) == Newlines(RenderFields(w, keys, indent, n))
    decreases v, 0, n
  {
    hide Newlines, Render, Break, KeyPath, Quoted;
    if n > 0 {
      var k := keys[n - 1];
      FieldsKeepLines(cfg, v, w, path, keys, indent, n - 1);
      FramedKeepsLines(cfg, v.fields[k], w.fields[k], KeyPath(path, k), indent);
      var lead := Break(indent, n == 1) + Quoted(k) + ": ";
      var a, b := RenderFields(v, keys, indent, n - 1), RenderFields(w, keys, indent, n - 1);
      SameConcat(a, lead, Render(v.fields[k], indent), b, Render(w.fields[k], indent));
      assert a + Break(indent, n == 1) + Quoted(k) + ": " == a + lead;
      assert b + Break(indent, n == 1) + Quoted(k) + ": " == b + lead;
    }
  }

  /** A rendered object does not end in a line feed. */
  lemma ObjectEndsNoLine(v: Value, indent: string)
    requires v.Obj?
    ensures !EndsLine(Render(v, indent))
  {
    hide RenderFields, SortedKeys;
  }
}
