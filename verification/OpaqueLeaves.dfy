/** Leaves that hold opaque data: they are blanked before the loop and put back behind it. */
module OpaqueLeaves {
  import opened StringBody
  import opened Pending
  import opened Leaf
  import opened Tree

  /** detachOpaque: every string in an object that the filter reports as opaque is blanked. */
  function Detached(cfg: Config, v: Value, path: string): (r: Value)
    ensures r.Obj? == v.Obj? && r.Str? == v.Str?
    decreases v, 0
  {
    match v
    case Obj(fields) => Obj(map k | k in fields :: DetachedField(cfg, fields[k], path, k))
    case Arr(items) => Arr(seq(|items|, i requires 0 <= i < |items| => Detached(cfg, items[i], ItemPath(path, i))))
    case _ => v
  }

  function DetachedField(cfg: Config, v: Value, path: string, key: string): Value
    decreases v, 1
  {
    if v.Str? then (if cfg.isOpaque(path, key) then Str("") else v) else Detached(cfg, v, KeyPath(path, key))
  }

  /** The rewritten document v with the opaque leaves of the original back in their places. */
  function Attached(cfg: Config, original: Value, v: Value, path: string): Value
    decreases original, 0
  {
    match original
    case Obj(fields) =>
      if !v.Obj? then v
      else Obj(map k | k in v.fields ::
        if k in fields then AttachedField(cfg, fields[k], v.fields[k], path, k) else v.fields[k])
    case Arr(items) =>
      if !v.Arr? then v
      else Arr(seq(|v.items|, i requires 0 <= i < |v.items| =>
        if i < |items| then Attached(cfg, items[i], v.items[i], ItemPath(path, i)) else v.items[i]))
    case _ => v
  }

  function AttachedField(cfg: Config, original: Value, v: Value, path: string, key: string): Value
    decreases original, 1
  {
    if original.Str? then (if cfg.isOpaque(path, key) then original else v)
    else Attached(cfg, original, v, KeyPath(path, key))
  }

  // ---- What attaching and detaching keep --------------------------------------------------------------------

  /** All opaque leaves of v are blank. */
  ghost predicate Blank(cfg: Config, v: Value, path: string) {
    match v
    case Obj(fields) =>
      forall k | k in fields ::
        if fields[k].Str? then (cfg.isOpaque(path, k) ==> fields[k].s == "")
        else Blank(cfg, fields[k], KeyPath(path, k))
    case Arr(items) => forall i | 0 <= i < |items| :: Blank(cfg, items[i], ItemPath(path, i))
    case _ => true
  }

  lemma FieldAt(cfg: Config, original: Value, w: Value, path: string, k: string)
    requires original.Obj? && w.Obj? && w.fields.Keys == original.fields.Keys && k in original.fields
    ensures Detached(cfg, original, path).fields.Keys == original.fields.Keys
    ensures Attached(cfg, original, w, path).Obj?
    ensures Attached(cfg, original, w, path).fields.Keys == original.fields.Keys
    ensures Detached(cfg, original, path).fields[k] == DetachedField(cfg, original.fields[k], path, k)
    ensures Attached(cfg, original, w, path).fields[k] ==
            AttachedField(cfg, original.fields[k], w.fields[k], path, k)
  {
    hide DetachedField, AttachedField, KeyPath;
  }

  lemma SameKeys(cfg: Config, original: Value, w: Value, path: string)
    requires original.Obj? && Framed(cfg, Detached(cfg, original, path), w, path)
    ensures w.Obj? && w.fields.Keys == original.fields.Keys
    ensures var whole := Attached(cfg, original, w, path); whole.Obj? && whole.fields.Keys == original.fields.Keys
  {
    hide DetachedField, AttachedField, KeyPath;
    assert Detached(cfg, original, path).fields.Keys == original.fields.Keys;
  }

  lemma FramedField(cfg: Config, v: Value, w: Value, path: string, k: string)
    requires v.Obj? && Framed(cfg, v, w, path) && k in v.fields
    ensures w.Obj? && k in w.fields && Framed(cfg, v.fields[k], w.fields[k], KeyPath(path, k))
  {
    hide KeyPath;
  }

  lemma {:induction false} DetachedIsBlank(cfg: Config, v: Value, path: string)
    ensures Blank(cfg, Detached(cfg, v, path), path)
    decreases v
  {
    hide KeyPath, ItemPath;
    match v {
      case Obj(fields) =>
        forall k | k in fields && !fields[k].Str?
          ensures Blank(cfg, Detached(cfg, fields[k], KeyPath(path, k)), KeyPath(path, k))
        {
          DetachedIsBlank(cfg, fields[k], KeyPath(path, k));
        }
      case Arr(items) =>
        forall i | 0 <= i < |items| ensures Blank(cfg, Detached(cfg, items[i], ItemPath(path, i)), ItemPath(path, i)) {
          DetachedIsBlank(cfg, items[i], ItemPath(path, i));
        }
      case _ =>
    }
  }

  /** A blank leaf holds no secret, so no run changes it. */
  lemma {:induction false} StaysBlank(cfg: Config, secrets: seq<SecretRule>, v: Value, w: Value, path: string)
    requires NonEmpty(secrets) && Touched(cfg, secrets, v, w, path) && Blank(cfg, v, path)
    ensures Blank(cfg, w, path)
    decreases v
  {
    hide KeyPath, ItemPath, Encode, Held;
    match v {
      case Obj(fields) =>
        forall k | k in fields
          ensures if w.fields[k].Str? then (cfg.isOpaque(path, k) ==> w.fields[k].s == "")
                  else Blank(cfg, w.fields[k], KeyPath(path, k))
        {
          assert Touched(cfg, secrets, fields[k], w.fields[k], KeyPath(path, k));
          NothingInBlank(secrets);
          if !fields[k].Str? { StaysBlank(cfg, secrets, fields[k], w.fields[k], KeyPath(path, k)); }
        }
      case Arr(items) =>
        forall i | 0 <= i < |items| ensures Blank(cfg, w.items[i], ItemPath(path, i)) {
          StaysBlank(cfg, secrets, items[i], w.items[i], ItemPath(path, i));
        }
      case _ =>
    }
  }

  lemma NothingInBlank(secrets: seq<SecretRule>)
    requires NonEmpty(secrets)
    ensures Held(secrets, Encode("")) == {}
  {
  }

  /** Putting the leaves back and taking them out again gives the rewritten document. */
  lemma {:induction false} DetachedAttached(cfg: Config, original: Value, w: Value, path: string)
    requires Framed(cfg, Detached(cfg, original, path), w, path) && Blank(cfg, w, path)
    ensures Detached(cfg, Attached(cfg, original, w, path), path) == w
    decreases original
  {
    hide KeyPath, ItemPath;
    match original {
      case Obj(fields) =>
        SameKeys(cfg, original, w, path);
        var whole := Attached(cfg, original, w, path);
        forall k | k in fields ensures DetachedField(cfg, whole.fields[k], path, k) == w.fields[k] {
          FieldAt(cfg, original, w, path, k);
          FramedField(cfg, Detached(cfg, original, path), w, path, k);
          if !fields[k].Str? {
            DetachedAttached(cfg, fields[k], w.fields[k], KeyPath(path, k));
            SameKind(cfg, fields[k], w.fields[k], KeyPath(path, k));
          }
        }
        assert Detached(cfg, whole, path).fields == w.fields;
      case Arr(items) =>
        var out := Detached(cfg, Attached(cfg, original, w, path), path);
        forall i | 0 <= i < |items| ensures out.items[i] == w.items[i] {
          DetachedAttached(cfg, items[i], w.items[i], ItemPath(path, i));
        }
      case _ =>
    }
  }

  /** What is not a string stays so. */
  lemma SameKind(cfg: Config, original: Value, w: Value, path: string)
    requires Framed(cfg, Detached(cfg, original, path), w, path)
    ensures original.Str? == w.Str? == Attached(cfg, original, w, path).Str?
  {
  }

  /** The opaque leaves of v are in w as they are in v. */
  ghost predicate OpaqueKept(cfg: Config, v: Value, w: Value, path: string) {
    match v
    case Obj(fields) =>
      w.Obj? && w.fields.Keys == fields.Keys
      && forall k | k in fields ::
           if fields[k].Str? then (cfg.isOpaque(path, k) ==> w.fields[k] == fields[k])
           else OpaqueKept(cfg, fields[k], w.fields[k], KeyPath(path, k))
    case Arr(items) =>
      w.Arr? && |w.items| == |items|
      && forall i | 0 <= i < |items| :: OpaqueKept(cfg, items[i], w.items[i], ItemPath(path, i))
    case _ => true
  }

  /** With the opaque leaves back, a rewritten document differs from the original in eligible string leaves that are not
      opaque, and nowhere else. */
  lemma {:induction false} AttachedIsFramed(cfg: Config, original: Value, w: Value, path: string)
    requires Framed(cfg, Detached(cfg, original, path), w, path)
    ensures Framed(cfg, original, Attached(cfg, original, w, path), path)
    ensures OpaqueKept(cfg, original, Attached(cfg, original, w, path), path)
    decreases original, 0
  {
    hide KeyPath, ItemPath;
    match original {
      case Obj(fields) =>
        SameKeys(cfg, original, w, path);
        var out := Attached(cfg, original, w, path);
        forall k | k in fields
          ensures Framed(cfg, fields[k], out.fields[k], KeyPath(path, k))
          ensures if fields[k].Str? then (cfg.isOpaque(path, k) ==> out.fields[k] == fields[k])
                  else OpaqueKept(cfg, fields[k], out.fields[k], KeyPath(path, k))
        {
          FieldAt(cfg, original, w, path, k);
          FramedField(cfg, Detached(cfg, original, path), w, path, k);
          AttachedFieldIsFramed(cfg, fields[k], w.fields[k], path, k);
        }
      case Arr(items) =>
        var out := Attached(cfg, original, w, path);
        forall i | 0 <= i < |items|
          ensures Framed(cfg, items[i], out.items[i], ItemPath(path, i))
          ensures OpaqueKept(cfg, items[i], out.items[i], ItemPath(path, i))
        {
          AttachedIsFramed(cfg, items[i], w.items[i], ItemPath(path, i));
        }
      case _ =>
    }
  }

  lemma {:induction false} AttachedFieldIsFramed(cfg: Config, v: Value, w: Value, path: string, key: string)
    requires Framed(cfg, DetachedField(cfg, v, path, key), w, KeyPath(path, key))
    ensures Framed(cfg, v, AttachedField(cfg, v, w, path, key), KeyPath(path, key))
    ensures if v.Str? then (cfg.isOpaque(path, key) ==> AttachedField(cfg, v, w, path, key) == v)
            else OpaqueKept(cfg, v, AttachedField(cfg, v, w, path, key), KeyPath(path, key))
    decreases v, 1
  {
    hide KeyPath;
    if !v.Str? { AttachedIsFramed(cfg, v, w, KeyPath(path, key)); }
  }

  /** v and w are the same but for their opaque leaves. */
  ghost predicate SameButOpaque(cfg: Config, v: Value, w: Value, path: string) {
    match v
    case Obj(fields) =>
      w.Obj? && w.fields.Keys == fields.Keys
      && forall k | k in fields ::
           if fields[k].Str? then w.fields[k].Str? && (cfg.isOpaque(path, k) || w.fields[k] == fields[k])
           else SameButOpaque(cfg, fields[k], w.fields[k], KeyPath(path, k))
    case Arr(items) =>
      w.Arr? && |w.items| == |items|
      && forall i | 0 <= i < |items| :: SameButOpaque(cfg, items[i], w.items[i], ItemPath(path, i))
    case _ => w == v
  }

  /** What opaque leaves hold never reaches the loop. */
  lemma {:induction false} SameDetached(cfg: Config, v: Value, w: Value, path: string)
    requires SameButOpaque(cfg, v, w, path)
    ensures Detached(cfg, v, path) == Detached(cfg, w, path)
    decreases v
  {
    hide KeyPath, ItemPath;
    match v {
      case Obj(fields) =>
        var a, b := Detached(cfg, v, path), Detached(cfg, w, path);
        forall k | k in fields ensures a.fields[k] == b.fields[k] {
          assert a.fields[k] == DetachedField(cfg, fields[k], path, k);
          assert b.fields[k] == DetachedField(cfg, w.fields[k], path, k);
          if !fields[k].Str? {
            SameDetached(cfg, fields[k], w.fields[k], KeyPath(path, k));
            assert !w.fields[k].Str?;
          }
        }
      case Arr(items) =>
        var a, b := Detached(cfg, v, path), Detached(cfg, w, path);
        forall i | 0 <= i < |items| ensures a.items[i] == b.items[i] {
          SameDetached(cfg, items[i], w.items[i], ItemPath(path, i));
        }
      case _ =>
    }
  }
}
