/** Orders on strings, and the sorting the modelled code does with them. */
module Order {

  /** Go's < on strings: byte by byte, a proper prefix first. */
  predicate Below(a: string, b: string) {
    b != "" && (a == "" || a[0] < b[0] || (a[0] == b[0] && Below(a[1..], b[1..])))
  }

  lemma {:induction false} BelowTransitive(a: string, b: string, c: string)
    requires Below(a, b) && Below(b, c)
    ensures Below(a, c)
  {
    if a != "" && a[0] == b[0] == c[0] {
      BelowTransitive(a[1..], b[1..], c[1..]);
    }
  }

  lemma {:induction false} BelowIrreflexive(a: string)
    ensures !Below(a, a)
  {
    if a != "" { BelowIrreflexive(a[1..]); }
  }

  lemma {:induction false} BelowTotal(a: string, b: string)
    ensures a == b || Below(a, b) || Below(b, a)
  {
    if a != "" && b != "" && a[0] == b[0] {
      BelowTotal(a[1..], b[1..]);
      assert a == [a[0]] + a[1..] && b == [b[0]] + b[1..];
    }
  }

  /** At i, the first position where they differ, the character of a is the smaller one. */
  predicate SmallerAt(a: string, b: string, i: nat) {
    i < |a| && i < |b| && a[..i] == b[..i] && a[i] < b[i]
  }

  /** A string is below another when it is a proper prefix of it, or has the smaller character where they first
      differ. */
  lemma {:induction false} BelowIff(a: string, b: string)
    ensures Below(a, b) <==> a < b || exists i: nat :: SmallerAt(a, b, i)
  {
    if a != "" && b != "" {
      assert a == [a[0]] + a[1..] && b == [b[0]] + b[1..];
      if a[0] == b[0] {
        BelowIff(a[1..], b[1..]);
        forall i: nat | i > 0 ensures SmallerAt(a, b, i) <==> SmallerAt(a[1..], b[1..], i - 1) {
          if i < |a| && i < |b| {
            assert a[..i] == [a[0]] + a[1..][..i - 1] && b[..i] == [b[0]] + b[1..][..i - 1];
          }
        }
        if i: nat :| SmallerAt(a[1..], b[1..], i) { assert SmallerAt(a, b, i + 1); }
        if i: nat :| SmallerAt(a, b, i) { assert i > 0; }
      } else {
        assert a[..0] == b[..0];
        assert a[0] < b[0] ==> SmallerAt(a, b, 0);
        forall i: nat ensures SmallerAt(a, b, i) ==> i == 0 {
          if 0 < i < |a| && i < |b| { assert a[..i][0] == a[0] && b[..i][0] == b[0]; }
        }
      }
    }
  }

  ghost predicate StrictOrder<T(!new)>(less: (T, T) -> bool) {
    && (forall a :: !less(a, a))
    && (forall a, b, c :: less(a, b) && less(b, c) ==> less(a, c))
  }

  ghost predicate Ascending<T>(xs: seq<T>, less: (T, T) -> bool) {
    forall i, j | 0 <= i < j < |xs| :: less(xs[i], xs[j])
  }

  ghost predicate Comparable<T>(xs: seq<T>, less: (T, T) -> bool) {
    forall i, j | 0 <= i < j < |xs| :: less(xs[i], xs[j]) || less(xs[j], xs[i])
  }

  function Insert<T>(x: T, xs: seq<T>, less: (T, T) -> bool): seq<T> {
    if xs == [] || less(x, xs[0]) then [x] + xs else [xs[0]] + Insert(x, xs[1..], less)
  }

  /** What sorting by less returns. On comparable elements the result does not depend on the algorithm. */
  function Sort<T>(xs: seq<T>, less: (T, T) -> bool): seq<T> {
    if xs == [] then [] else Insert(xs[0], Sort(xs[1..], less), less)
  }

  lemma {:induction false} InsertElements<T>(x: T, xs: seq<T>, less: (T, T) -> bool)
    ensures forall y :: y in Insert(x, xs, less) <==> y == x || y in xs
  {
    if xs != [] && !less(x, xs[0]) {
      InsertElements(x, xs[1..], less);
      assert xs == [xs[0]] + xs[1..];
    }
  }

  lemma {:induction false} InsertAscending<T(!new)>(x: T, xs: seq<T>, less: (T, T) -> bool)
    requires StrictOrder(less) && Ascending(xs, less)
    requires forall y | y in xs :: less(x, y) || less(y, x)
    ensures Ascending(Insert(x, xs, less), less)
  {
    if xs != [] && !less(x, xs[0]) {
      InsertAscending(x, xs[1..], less);
      var rest := Insert(x, xs[1..], less);
      InsertElements(x, xs[1..], less);
      forall j | 0 <= j < |rest| ensures less(xs[0], rest[j]) {
        assert rest[j] in rest;
      }
    }
  }

  lemma {:induction false} SortElements<T>(xs: seq<T>, less: (T, T) -> bool)
    ensures forall y :: y in Sort(xs, less) <==> y in xs
  {
    if xs != [] {
      SortElements(xs[1..], less);
      InsertElements(xs[0], Sort(xs[1..], less), less);
      assert xs == [xs[0]] + xs[1..];
    }
  }

  lemma {:induction false} SortAscending<T(!new)>(xs: seq<T>, less: (T, T) -> bool)
    requires StrictOrder(less) && Comparable(xs, less)
    ensures Ascending(Sort(xs, less), less)
  {
    if xs != [] {
      SortAscending(xs[1..], less);
      SortElements(xs[1..], less);
      InsertAscending(xs[0], Sort(xs[1..], less), less);
    }
  }

  /** A set has one ascending listing. */
  lemma {:induction false} AscendingUnique<T(!new)>(xs: seq<T>, ys: seq<T>, less: (T, T) -> bool)
    requires StrictOrder(less) && Ascending(xs, less) && Ascending(ys, less)
    requires forall z :: z in xs <==> z in ys
    ensures xs == ys
  {
    assert (xs != [] ==> xs[0] in ys) && (ys != [] ==> ys[0] in xs);
    if xs != [] {
      assert xs[0] == ys[0];
      forall z ensures z in xs[1..] <==> z in ys[1..] {
        assert z in xs <==> z == xs[0] || z in xs[1..];
        assert z in ys <==> z == ys[0] || z in ys[1..];
        assert xs[0] !in xs[1..] && ys[0] !in ys[1..];
      }
      AscendingUnique(xs[1..], ys[1..], less);
    }
  }
}
