/**
 Python's `sorted(set(xs))`: the elements of a list, once each, in ascending
 order. The order is passed explicitly; integers use `<` and strings use
 Python's code-point lexicographic order.
 */
module Sorting {

  ghost predicate StrictTotalOrder<T(!new)>(less: (T, T) -> bool) {
    && (forall x :: !less(x, x))
    && (forall x, y, z :: less(x, y) && less(y, z) ==> less(x, z))
    && (forall x, y :: x != y ==> less(x, y) || less(y, x))
  }

  predicate StrictlySorted<T>(xs: seq<T>, less: (T, T) -> bool) {
    forall i, j :: 0 <= i < j < |xs| ==> less(xs[i], xs[j])
  }

  /** Inserts `x` into a strictly sorted list unless it is already there. */
  function Insert<T(==)>(x: T, xs: seq<T>, less: (T, T) -> bool): seq<T> {
    if xs == [] then [x]
    else if x == xs[0] then xs
    else if less(x, xs[0]) then [x] + xs
    else [xs[0]] + Insert(x, xs[1..], less)
  }

  lemma {:induction false} InsertProperties<T(!new)>(x: T, xs: seq<T>, less: (T, T) -> bool)
    requires StrictTotalOrder(less) && StrictlySorted(xs, less)
    ensures StrictlySorted(Insert(x, xs, less), less)
    ensures forall y :: y in Insert(x, xs, less) <==> y == x || y in xs
  {
    if xs != [] && x != xs[0] && !less(x, xs[0]) {
      InsertProperties(x, xs[1..], less);
      var r := Insert(x, xs[1..], less);
      forall y | y in r ensures less(xs[0], y) {
        if y != x {
          var j :| 0 <= j < |xs[1..]| && xs[1..][j] == y;
          assert xs[j + 1] == y;
        }
      }
    }
  }

  /** `sorted(set(xs))`. */
  function SortedSet<T(==,!new)>(xs: seq<T>, less: (T, T) -> bool): (r: seq<T>)
    requires StrictTotalOrder(less)
    ensures StrictlySorted(r, less)
    ensures forall y :: y in r <==> y in xs
  {
    if xs == [] then []
    else
      var r := SortedSet(xs[..|xs| - 1], less);
      InsertProperties(xs[|xs| - 1], r, less);
      assert xs == xs[..|xs| - 1] + [xs[|xs| - 1]];
      Insert(xs[|xs| - 1], r, less)
  }

  /** Two strictly sorted lists with the same elements are equal: the order
      and the absence of duplicates fix the list. */
  lemma {:induction false} SortedUnique<T(!new)>(a: seq<T>, b: seq<T>, less: (T, T) -> bool)
    requires StrictTotalOrder(less)
    requires StrictlySorted(a, less) && StrictlySorted(b, less)
    requires forall y :: y in a <==> y in b
    ensures a == b
  {
    assert |a| > 0 ==> a[0] in b;
    assert |b| > 0 ==> b[0] in a;
    if a != [] && b != [] {
      var j :| 0 <= j < |b| && b[j] == a[0];
      var i :| 0 <= i < |a| && a[i] == b[0];
      assert j == 0 || i == 0;
      assert a[0] == b[0];
      forall y | y in a[1..] ensures y in b[1..] {
        var k :| 1 <= k < |a| && a[k] == y;
        assert less(a[0], y) && y in b;
        var m :| 0 <= m < |b| && b[m] == y;
        assert m != 0;
      }
      forall y | y in b[1..] ensures y in a[1..] {
        var k :| 1 <= k < |b| && b[k] == y;
        assert less(b[0], y) && y in a;
        var m :| 0 <= m < |a| && a[m] == y;
        assert m != 0;
      }
      SortedUnique(a[1..], b[1..], less);
      assert a == [a[0]] + a[1..] && b == [b[0]] + b[1..];
    }
  }

  /** A strictly sorted list is its own `sorted(set(...))`. */
  lemma SortedSetOfSorted<T(!new)>(xs: seq<T>, less: (T, T) -> bool)
    requires StrictTotalOrder(less) && StrictlySorted(xs, less)
    ensures SortedSet(xs, less) == xs
  {
    SortedUnique(SortedSet(xs, less), xs, less);
  }

  /** `sorted(set(xs))` depends only on the set of elements of `xs`. */
  lemma SortedSetSameElements<T(!new)>(xs: seq<T>, ys: seq<T>, less: (T, T) -> bool)
    requires StrictTotalOrder(less)
    requires forall y :: y in xs <==> y in ys
    ensures SortedSet(xs, less) == SortedSet(ys, less)
  {
    SortedUnique(SortedSet(xs, less), SortedSet(ys, less), less);
  }

  // ---------------------------------------------------------------------
  // integers

  function IntLess(a: int, b: int): bool { a < b }

  lemma IntLessIsStrictTotal()
    ensures StrictTotalOrder(IntLess)
  {
  }

  /** `sorted(set(xs))` for a list of integers. */
  function SortedInts(xs: seq<int>): (r: seq<int>)
    ensures forall i, j :: 0 <= i < j < |r| ==> r[i] < r[j]
    ensures forall y :: y in r <==> y in xs
  {
    IntLessIsStrictTotal();
    var r := SortedSet(xs, IntLess);
    assert forall i, j :: 0 <= i < j < |r| ==> IntLess(r[i], r[j]);
    r
  }

  lemma SortedIntsUnique(a: seq<int>, b: seq<int>)
    requires forall i, j :: 0 <= i < j < |a| ==> a[i] < a[j]
    requires forall y :: y in a <==> y in b
    ensures SortedInts(b) == a
  {
    IntLessIsStrictTotal();
    assert StrictlySorted(a, IntLess);
    var r := SortedInts(b);
    assert StrictlySorted(r, IntLess);
    assert forall y :: y in a <==> y in r;
    SortedUnique(a, r, IntLess);
  }

  // ---------------------------------------------------------------------
  // strings

  /** Python's `<` on `str`: lexicographic by code point, a proper prefix
      first. */
  function StrLess(a: string, b: string): bool {
    if a == [] then b != []
    else if b == [] then false
    else if a[0] != b[0] then a[0] < b[0]
    else StrLess(a[1..], b[1..])
  }

  lemma {:induction false} StrLessIrreflexive(a: string)
    ensures !StrLess(a, a)
  {
    if a != [] { StrLessIrreflexive(a[1..]); }
  }

  lemma {:induction false} StrLessTransitive(a: string, b: string, c: string)
    requires StrLess(a, b) && StrLess(b, c)
    ensures StrLess(a, c)
  {
    if a != [] && b != [] && c != [] && a[0] == b[0] && b[0] == c[0] {
      StrLessTransitive(a[1..], b[1..], c[1..]);
    }
  }

  lemma {:induction false} StrLessTotal(a: string, b: string)
    requires a != b
    ensures StrLess(a, b) || StrLess(b, a)
  {
    if a != [] && b != [] && a[0] == b[0] {
      assert a == [a[0]] + a[1..] && b == [b[0]] + b[1..];
      StrLessTotal(a[1..], b[1..]);
    }
  }

  lemma StrLessIsStrictTotal()
    ensures StrictTotalOrder(StrLess)
  {
    forall a: string ensures !StrLess(a, a) { StrLessIrreflexive(a); }
    forall a: string, b: string, c: string | StrLess(a, b) && StrLess(b, c)
      ensures StrLess(a, c)
    {
      StrLessTransitive(a, b, c);
    }
    forall a: string, b: string | a != b ensures StrLess(a, b) || StrLess(b, a) {
      StrLessTotal(a, b);
    }
  }

  /** `sorted(set(xs))` for a list of strings. */
  function SortedStrings(xs: seq<string>): (r: seq<string>)
    ensures StrictlySorted(r, StrLess)
    ensures forall y :: y in r <==> y in xs
  {
    StrLessIsStrictTotal();
    SortedSet(xs, StrLess)
  }
}
