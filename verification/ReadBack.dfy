/** The indented rendering loses nothing: two documents with the same rendering are the same. */
module ReadBack {
  import opened StringBody
  import opened Tree
  import opened Rendering

  // ---- Strings ---------------------------------------------------------------------------------------------------

  /** How long the encoding of one character is shows in its first two characters. */
  lemma CharSize(c: char)
    ensures var code := EncodeChar(c);
      && code != "" && code[0] != '\"'
      && (if code[0] != '\\' then |code| == 1 else |code| >= 2 && |code| == (if code[1] == 'u' then 6 else 2))
  {
  }

  lemma CharInjective(c: char, d: char)
    requires EncodeChar(c) == EncodeChar(d)
    ensures c == d
  {
    hide EncodeChar, Decode;
    EncodeFirst(c, "");
    EncodeFirst(d, "");
    assert [c] + "" == [c] && [d] + "" == [d];
    DecodeEncode([c]);
    DecodeEncode([d]);
    assert [c][0] == [d][0];
  }

  lemma ReadChar(c: char, d: char, x: string, y: string)
    requires EncodeChar(c) + x == EncodeChar(d) + y
    ensures c == d && x == y
  {
    hide EncodeChar;
    var a, b := EncodeChar(c), EncodeChar(d);
    CharSize(c);
    CharSize(d);
    assert a[0] == (a + x)[0] == b[0];
    assert a[0] == '\\' ==> a[1] == (a + x)[1] == b[1];
    assert a == (a + x)[..|a|] && b == (b + y)[..|b|];
    assert x == (a + x)[|a|..] && y == (b + y)[|b|..];
    CharInjective(c, d);
  }

  lemma {:induction false} ReadBody(s: string, t: string, x: string, y: string)
    requires Encode(s) + "\"" + x == Encode(t) + "\"" + y
    ensures s == t && x == y
    decreases |s|
  {
    hide EncodeChar;
    if s == "" && t == "" {
      assert Encode(s) + "\"" + x == "\"" + x && Encode(t) + "\"" + y == "\"" + y;
      assert x == ("\"" + x)[1..] && y == ("\"" + y)[1..];
    } else if s != "" && t != "" {
      var a, b := EncodeChar(s[0]), EncodeChar(t[0]);
      assert Encode(s) + "\"" + x == a + (Encode(s[1..]) + "\"" + x);
      assert Encode(t) + "\"" + y == b + (Encode(t[1..]) + "\"" + y);
      ReadChar(s[0], t[0], Encode(s[1..]) + "\"" + x, Encode(t[1..]) + "\"" + y);
      ReadBody(s[1..], t[1..], x, y);
      assert s == [s[0]] + s[1..] && t == [t[0]] + t[1..];
    } else {
      NoQuoteFirst(s, x);
      NoQuoteFirst(t, y);
    }
  }

  lemma NoQuoteFirst(s: string, x: string)
    ensures (Encode(s) + "\"" + x)[0] == '\"' <==> s == ""
  {
    hide EncodeChar;
    if s != "" { CharSize(s[0]); }
  }

  /** A quoted string can be read off the front of a text. */
  lemma ReadQuoted(s: string, t: string, x: string, y: string)
    requires Quoted(s) + x == Quoted(t) + y
    ensures s == t && x == y
  {
    hide Encode;
    var a, b := Encode(s) + "\"" + x, Encode(t) + "\"" + y;
    assert Quoted(s) + x == "\"" + a && Quoted(t) + y == "\"" + b;
    assert a == ("\"" + a)[1..] && b == ("\"" + b)[1..];
    ReadBody(s, t, x, y);
  }

  // ---- Values ----------------------------------------------------------------------------------------------------

  /** The text of a number, of true, false or null: not empty, starting unlike a string, an array or an object, and with
      nothing in it that ends an entry. */
  predicate ScalarText(text: string) {
    text != "" && text[0] !in "\"[{" && ',' !in text && '\n' !in text
  }

  predicate Proper(v: Value) {
    match v
    case Str(_) => true
    case Scalar(text) => ScalarText(text)
    case Arr(items) => forall i | 0 <= i < |items| :: Proper(items[i])
    case Obj(fields) => forall k | k in fields :: Proper(fields[k])
  }

  /** What can stand behind a value. */
  predicate Follows(x: string) {
    x == "" || x[0] == ',' || x[0] == '\n'
  }

  lemma FirstCharacter(v: Value, indent: string)
    requires Proper(v)
    ensures var text := Render(v, indent);
      && text != "" && (v.Str? <==> text[0] == '\"') && (v.Arr? <==> text[0] == '[') && (v.Obj? <==> text[0] == '{')
  {
    hide RenderItems, RenderFields, SortedKeys, Encode;
  }

  lemma ScalarEnd(a: string, x: string)
    requires ScalarText(a) && Follows(x)
    ensures forall k | 0 <= k < |a| :: (a + x)[k] != ',' && (a + x)[k] != '\n'
    ensures |a + x| > |a| ==> (a + x)[|a|] == ',' || (a + x)[|a|] == '\n'
  {
    assert forall k | 0 <= k < |a| :: (a + x)[k] == a[k] && a[k] in a;
  }

  lemma ReadScalar(a: string, b: string, x: string, y: string)
    requires ScalarText(a) && ScalarText(b) && Follows(x) && Follows(y) && a + x == b + y
    ensures a == b && x == y
  {
    var text := a + x;
    ScalarEnd(a, x);
    ScalarEnd(b, y);
    assert |a| == |b|;
    assert a == text[..|a|] && b == text[..|b|] && x == text[|a|..] && y == text[|b|..];
  }

  // ---- Entries from the front ------------------------------------------------------------------------------------

  ghost function ItemsFrom(v: Value, indent: string, i: nat): string
    requires v.Arr? && i <= |v.items|
    decreases |v.items| - i
  {
    if i == |v.items| then ""
    else Break(indent, i == 0) + (Render(v.items[i], indent) + ItemsFrom(v, indent, i + 1))
  }

  lemma {:induction false} ItemsSplit(v: Value, indent: string, n: nat)
    requires v.Arr? && n <= |v.items|
    ensures RenderItems(v, indent, n) + ItemsFrom(v, indent, n) == ItemsFrom(v, indent, 0)
    decreases n
  {
    hide Render, Break;
    if n > 0 {
      ItemsSplit(v, indent, n - 1);
      var a, b, c := RenderItems(v, indent, n - 1), Break(indent, n == 1), Render(v.items[n - 1], indent);
      assert a + b + c + ItemsFrom(v, indent, n) == a + (b + (c + ItemsFrom(v, indent, n)));
    }
  }

  ghost function FieldsFrom(v: Value, keys: seq<string>, indent: string, i: nat): string
    requires v.Obj? && i <= |keys| && forall k | k in keys :: k in v.fields
    decreases |keys| - i
  {
    if i == |keys| then ""
    else Break(indent, i == 0) + (Quoted(keys[i]) + (": " + (Render(v.fields[keys[i]], indent) +
         FieldsFrom(v, keys, indent, i + 1))))
  }

  lemma {:induction false} FieldsSplit(v: Value, keys: seq<string>, indent: string, n: nat)
    requires v.Obj? && n <= |keys| && forall k | k in keys :: k in v.fields
    ensures RenderFields(v, keys, indent, n) + FieldsFrom(v, keys, indent, n) == FieldsFrom(v, keys, indent, 0)
    decreases n
  {
    hide Render, Break, Quoted;
    if n > 0 {
      FieldsSplit(v, keys, indent, n - 1);
      var a, b := RenderFields(v, keys, indent, n - 1), Break(indent, n == 1);
      var c, d, rest := Quoted(keys[n - 1]), Render(v.fields[keys[n - 1]], indent), FieldsFrom(v, keys, indent, n);
      assert a + b + c + ": " + d + rest == a + (b + (c + (": " + (d + rest))));
    }
  }

  /** The text of an array or object behind its opening bracket. */
  lemma Opened(v: Value, indent: string)
    requires v.Arr? || v.Obj?
    ensures v.Arr? && v.items != [] ==>
      Render(v, indent) == "[" + (ItemsFrom(v, indent + "  ", 0) + ("\n" + indent + "]"))
    ensures v.Arr? && v.items == [] ==> Render(v, indent) == "[]"
    ensures v.Obj? && v.fields.Keys != {} ==>
      Render(v, indent) == "{" + (FieldsFrom(v, SortedKeys(v.fields.Keys), indent + "  ", 0) + ("\n" + indent + "}"))
    ensures v.Obj? && v.fields.Keys == {} ==> Render(v, indent) == "{}"
  {
    hide ItemsFrom, FieldsFrom, SortedKeys;
    var deeper := indent + "  ";
    if v.Arr? {
      ItemsSplit(v, deeper, |v.items|);
      NothingFrom(v, deeper);
    } else {
      var keys := SortedKeys(v.fields.Keys);
      assert keys == [] <==> v.fields.Keys == {} by { assert keys != [] ==> keys[0] in v.fields.Keys; }
      FieldsSplit(v, keys, deeper, |keys|);
      NoFieldsFrom(v, keys, deeper);
    }
  }

  lemma NothingFrom(v: Value, indent: string)
    requires v.Arr?
    ensures ItemsFrom(v, indent, |v.items|) == ""
  {
  }

  lemma NoFieldsFrom(v: Value, keys: seq<string>, indent: string)
    requires v.Obj? && forall k | k in keys :: k in v.fields
    ensures FieldsFrom(v, keys, indent, |keys|) == ""
  {
  }

  // ---- Reading back ----------------------------------------------------------------------------------------------

  /** A value can be read off the front of a text. */
  lemma {:induction false} ReadValue(v: Value, w: Value, indent: string, x: string, y: string)
    requires Proper(v) && Proper(w) && Follows(x) && Follows(y) && Render(v, indent) + x == Render(w, indent) + y
    ensures v == w && x == y
    decreases v, 1, 0
  {
    hide Render, Follows, Quoted;
    FirstCharacter(v, indent);
    FirstCharacter(w, indent);
    assert Render(v, indent)[0] == (Render(v, indent) + x)[0] == Render(w, indent)[0];
    match v {
      case Str(s) =>
        LeafText(v, indent);
        LeafText(w, indent);
        ReadQuoted(s, w.s, x, y);
      case Scalar(text) =>
        LeafText(v, indent);
        LeafText(w, indent);
        ReadScalar(text, w.text, x, y);
      case Arr(_) => ReadArray(v, w, indent, x, y);
      case Obj(_) => ReadObject(v, w, indent, x, y);
    }
  }

  lemma LeafText(v: Value, indent: string)
    ensures v.Str? ==> Render(v, indent) == Quoted(v.s)
    ensures v.Scalar? ==> Render(v, indent) == v.text
  {
    hide Quoted;
  }

  lemma SameRest(c: char, a: string, b: string)
    requires [c] + a == [c] + b
    ensures a == b
  {
    assert a == ([c] + a)[1..] && b == ([c] + b)[1..];
  }

  /** The text behind the opening bracket, up to what follows the value. */
  ghost function ArrayText(v: Value, indent: string, x: string): string
    requires v.Arr?
  {
    if v.items == [] then "]" + x else ItemsFrom(v, indent + "  ", 0) + ("\n" + indent + "]" + x)
  }

  lemma ArrayOpened(v: Value, indent: string, x: string)
    requires v.Arr?
    ensures Render(v, indent) + x == "[" + ArrayText(v, indent, x)
    ensures ArrayText(v, indent, x) != "" && (ArrayText(v, indent, x)[0] == ']' <==> v.items == [])
  {
    hide Render, ItemsFrom;
    Opened(v, indent);
    SecondItem(v, indent + "  ");
    if v.items != [] {
      var a, close := ItemsFrom(v, indent + "  ", 0), "\n" + indent + "]";
      assert "[" + (a + close) + x == "[" + (a + (close + x));
    }
  }

  lemma {:induction false} ReadArray(v: Value, w: Value, indent: string, x: string, y: string)
    requires v.Arr? && w.Arr? && Proper(v) && Proper(w) && Render(v, indent) + x == Render(w, indent) + y
    ensures v == w && x == y
    decreases v, 0, |v.items| + 1
  {
    hide Render, ItemsFrom, Proper;
    ArrayOpened(v, indent, x);
    ArrayOpened(w, indent, y);
    SameRest('[', ArrayText(v, indent, x), ArrayText(w, indent, y));
    if v.items == [] {
      SameRest(']', x, y);
    } else {
      var close := "\n" + indent + "]";
      ReadItems(v, w, indent + "  ", 0, close + x, close + y);
      assert x == (close + x)[|close|..] && y == (close + y)[|close|..];
    }
  }

  lemma SecondItem(v: Value, indent: string)
    requires v.Arr?
    ensures v.items != [] ==> "\n" <= ItemsFrom(v, indent, 0)
  {
    hide Render;
  }

  /** Behind the first item, a comma is where another one follows. */
  lemma ItemsEnd(v: Value, indent: string, i: nat, x: string)
    requires v.Arr? && 0 < i <= |v.items| && "\n" <= x
    ensures var text := ItemsFrom(v, indent, i) + x; text != "" && (text[0] == ',' <==> i < |v.items|)
    ensures i == |v.items| ==> ItemsFrom(v, indent, i) + x == x
  {
    hide Render;
  }

  lemma {:induction false} ReadItems(v: Value, w: Value, indent: string, i: nat, x: string, y: string)
    requires v.Arr? && w.Arr? && Proper(v) && Proper(w) && i <= |v.items| && i <= |w.items|
    requires "\n" <= x && "\n" <= y && v.items[..i] == w.items[..i]
    requires i == 0 ==> v.items != [] && w.items != []
    requires ItemsFrom(v, indent, i) + x == ItemsFrom(w, indent, i) + y
    ensures v.items == w.items && x == y
    decreases v, 0, |v.items| - i
  {
    hide Render;
    if i == |v.items| || i == |w.items| {
      ItemsEnd(v, indent, i, x);
      ItemsEnd(w, indent, i, y);
    } else {
      var lead := Break(indent, i == 0);
      var a, b := ItemsFrom(v, indent, i + 1) + x, ItemsFrom(w, indent, i + 1) + y;
      var p, q := Render(v.items[i], indent) + a, Render(w.items[i], indent) + b;
      assert ItemsFrom(v, indent, i) + x == lead + p && ItemsFrom(w, indent, i) + y == lead + q;
      assert p == (lead + p)[|lead|..] && q == (lead + q)[|lead|..];
      ReadValue(v.items[i], w.items[i], indent, a, b);
      ReadItems(v, w, indent, i + 1, x, y);
    }
  }

  ghost function ObjectText(v: Value, indent: string, x: string): string
    requires v.Obj?
  {
    var keys := SortedKeys(v.fields.Keys);
    if keys == [] then "}" + x else FieldsFrom(v, keys, indent + "  ", 0) + ("\n" + indent + "}" + x)
  }

  lemma ObjectOpened(v: Value, indent: string, x: string)
    requires v.Obj?
    ensures Render(v, indent) + x == "{" + ObjectText(v, indent, x)
    ensures ObjectText(v, indent, x) != "" && (ObjectText(v, indent, x)[0] == '}' <==> SortedKeys(v.fields.Keys) == [])
  {
    hide Render, FieldsFrom, SortedKeys;
    var keys := SortedKeys(v.fields.Keys);
    assert keys == [] <==> v.fields.Keys == {} by { assert keys != [] ==> keys[0] in v.fields.Keys; }
    Opened(v, indent);
    SecondField(v, keys, indent + "  ");
    if keys != [] {
      var a, close := FieldsFrom(v, keys, indent + "  ", 0), "\n" + indent + "}";
      assert "{" + (a + close) + x == "{" + (a + (close + x));
    }
  }

  lemma {:induction false} ReadObject(v: Value, w: Value, indent: string, x: string, y: string)
    requires v.Obj? && w.Obj? && Proper(v) && Proper(w) && Render(v, indent) + x == Render(w, indent) + y
    ensures v == w && x == y
    decreases v, 0, |SortedKeys(v.fields.Keys)| + 1
  {
    hide Render, FieldsFrom, Proper, SortedKeys;
    var vk, wk := SortedKeys(v.fields.Keys), SortedKeys(w.fields.Keys);
    ObjectOpened(v, indent, x);
    ObjectOpened(w, indent, y);
    SameRest('{', ObjectText(v, indent, x), ObjectText(w, indent, y));
    if vk == [] {
      SameRest('}', x, y);
    } else {
      var close := "\n" + indent + "}";
      ReadFields(v, w, vk, wk, indent + "  ", 0, close + x, close + y);
      assert x == (close + x)[|close|..] && y == (close + y)[|close|..];
    }
    SameFields(v, w, vk);
  }

  lemma SameFields(v: Value, w: Value, keys: seq<string>)
    requires v.Obj? && w.Obj?
    requires (forall k :: k in keys <==> k in v.fields) && (forall k :: k in keys <==> k in w.fields)
    requires forall j | 0 <= j < |keys| :: v.fields[keys[j]] == w.fields[keys[j]]
    ensures v == w
  {
    assert v.fields.Keys == w.fields.Keys;
    assert v.fields == w.fields;
  }

  lemma SecondField(v: Value, keys: seq<string>, indent: string)
    requires v.Obj? && forall k | k in keys :: k in v.fields
    ensures keys != [] ==> "\n" <= FieldsFrom(v, keys, indent, 0)
  {
    hide Render, Quoted;
  }

  lemma FieldsEnd(v: Value, keys: seq<string>, indent: string, i: nat, x: string)
    requires v.Obj? && 0 < i <= |keys| && (forall k | k in keys :: k in v.fields) && "\n" <= x
    ensures var text := FieldsFrom(v, keys, indent, i) + x; text != "" && (text[0] == ',' <==> i < |keys|)
    ensures i == |keys| ==> FieldsFrom(v, keys, indent, i) + x == x
  {
    hide Render, Quoted;
  }

  lemma {:induction false} ReadFields(
      v: Value, w: Value, vk: seq<string>, wk: seq<string>, indent: string, i: nat, x: string, y: string)
    requires v.Obj? && w.Obj? && Proper(v) && Proper(w) && i <= |vk| && i <= |wk|
    requires (forall k | k in vk :: k in v.fields) && (forall k | k in wk :: k in w.fields)
    requires "\n" <= x && "\n" <= y && vk[..i] == wk[..i]
    requires forall j | 0 <= j < i :: v.fields[vk[j]] == w.fields[wk[j]]
    requires i == 0 ==> vk != [] && wk != []
    requires FieldsFrom(v, vk, indent, i) + x == FieldsFrom(w, wk, indent, i) + y
    ensures vk == wk && x == y && forall j | 0 <= j < |vk| :: v.fields[vk[j]] == w.fields[vk[j]]
    decreases v, 0, |vk| - i
  {
    hide Render, Quoted;
    if i == |vk| || i == |wk| {
      FieldsEnd(v, vk, indent, i, x);
      FieldsEnd(w, wk, indent, i, y);
    } else {
      var a, b := FieldsFrom(v, vk, indent, i + 1) + x, FieldsFrom(w, wk, indent, i + 1) + y;
      ReadField(v, w, vk, wk, indent, i, x, y);
      ReadValue(v.fields[vk[i]], w.fields[wk[i]], indent, a, b);
      ReadFields(v, w, vk, wk, indent, i + 1, x, y);
    }
  }

  lemma FieldsUnfold(v: Value, keys: seq<string>, indent: string, i: nat, x: string)
    requires v.Obj? && i < |keys| && forall k | k in keys :: k in v.fields
    ensures FieldsFrom(v, keys, indent, i) + x ==
      Break(indent, i == 0) + (Quoted(keys[i]) + (": " + (Render(v.fields[keys[i]], indent) +
      (FieldsFrom(v, keys, indent, i + 1) + x))))
  {
    hide Render, Quoted, Break;
    var a, b, c := Break(indent, i == 0), Quoted(keys[i]), Render(v.fields[keys[i]], indent);
    Regroup(a, b, c, FieldsFrom(v, keys, indent, i + 1), x);
  }

  lemma Regroup(a: string, b: string, c: string, d: string, x: string)
    ensures a + (b + (": " + (c + d))) + x == a + (b + (": " + (c + (d + x))))
  {
  }

  lemma ReadField(
      v: Value, w: Value, vk: seq<string>, wk: seq<string>, indent: string, i: nat, x: string, y: string)
    requires v.Obj? && w.Obj? && i < |vk| && i < |wk|
    requires (forall k | k in vk :: k in v.fields) && (forall k | k in wk :: k in w.fields)
    requires FieldsFrom(v, vk, indent, i) + x == FieldsFrom(w, wk, indent, i) + y
    ensures vk[i] == wk[i]
    ensures Render(v.fields[vk[i]], indent) + (FieldsFrom(v, vk, indent, i + 1) + x) ==
            Render(w.fields[wk[i]], indent) + (FieldsFrom(w, wk, indent, i + 1) + y)
  {
    hide Render, Quoted, FieldsFrom, Break;
    var lead := Break(indent, i == 0);
    var a, b := FieldsFrom(v, vk, indent, i + 1) + x, FieldsFrom(w, wk, indent, i + 1) + y;
    var p, q := Render(v.fields[vk[i]], indent) + a, Render(w.fields[wk[i]], indent) + b;
    var s, t := Quoted(vk[i]) + (": " + p), Quoted(wk[i]) + (": " + q);
    FieldsUnfold(v, vk, indent, i, x);
    FieldsUnfold(w, wk, indent, i, y);
    assert s == (lead + s)[|lead|..] && t == (lead + t)[|lead|..];
    ReadQuoted(vk[i], wk[i], ": " + p, ": " + q);
    assert p == (": " + p)[2..] && q == (": " + q)[2..];
  }

  /** Documents that differ anywhere, in a key, a leaf or a scalar, are rendered differently. */
  lemma RenderInjective(v: Value, w: Value, indent: string)
    requires Proper(v) && Proper(w) && v != w
    ensures Render(v, indent) != Render(w, indent)
  {
    hide Render, Proper;
    assert Render(v, indent) + "" == Render(v, indent) && Render(w, indent) + "" == Render(w, indent);
    if Render(v, indent) == Render(w, indent) { ReadValue(v, w, indent, "", ""); }
  }
}
