/**
 * Python's `sorted(set(xs))` for strings and byte strings: the
 * lexicographic order Python uses to compare them, and a duplicate-free
 * sorted insertion that builds the sorted list of distinct elements.
 */
module Sorting {

  /** Python's `<` on `bytes` (and on `str`, through code points):
      the first differing position decides, and a proper prefix comes first. */
  predicate LexLess(a: seq<int>, b: seq<int>)
    decreases |a|
  {
    |b| > 0 && (|a| == 0 || a[0] < b[0] || (a[0] == b[0] && LexLess(a[1..], b[1..])))
  }

  lemma {:induction false} LexIrreflexive(a: seq<int>)
    ensures !LexLess(a, a)
    decreases |a|
  {
    if |a| > 0 { LexIrreflexive(a[1..]); }
  }

  lemma {:induction false} LexTransitive(a: seq<int>, b: seq<int>, c: seq<int>)
    requires LexLess(a, b) && LexLess(b, c)
    ensures LexLess(a, c)
    decreases |a|
  {
    if |a| > 0 && a[0] == b[0] && b[0] == c[0] {
      LexTransitive(a[1..], b[1..], c[1..]);
    }
  }

  lemma {:induction false} LexTotal(a: seq<int>, b: seq<int>)
    requires a != b
    ensures LexLess(a, b) || LexLess(b, a)
    decreases |a|
  {
    if |a| > 0 && |b| > 0 && a[0] == b[0] {
      assert a == [a[0]] + a[1..] && b == [b[0]] + b[1..];
      LexTotal(a[1..], b[1..]);
    }
  }

  ghost predicate StrictTotalOrder<T(!new)>(less: (T, T) -> bool)
  {
    && (forall a :: !less(a, a))
    && (forall a, b, c :: less(a, b) && less(b, c) ==> less(a, c))
    && (forall a, b :: a != b ==> less(a, b) || less(b, a))
  }

  /** The byte-string order is a strict total order. */
  lemma LexOrder()
    ensures StrictTotalOrder((a: seq<int>, b: seq<int>) => LexLess(a, b))
  {
    forall a: seq<int> ensures !LexLess(a, a) { LexIrreflexive(a); }
    forall a: seq<int>, b: seq<int>, c: seq<int> | LexLess(a, b) && LexLess(b, c)
      ensures LexLess(a, c)
    {
      LexTransitive(a, b, c);
    }
    forall a: seq<int>, b: seq<int> | a != b ensures LexLess(a, b) || LexLess(b, a) {
      LexTotal(a, b);
    }
  }

  predicate StrictlySorted<T>(xs: seq<T>, less: (T, T) -> bool)
  {
    forall i, j :: 0 <= i < j < |xs| ==> less(xs[i], xs[j])
  }

  /** Adds `x` to a sorted list unless it is already there. */
  function InsertUnique<T(==)>(xs: seq<T>, x: T, less: (T, T) -> bool): (r: seq<T>)
    decreases |xs|
  {
    if xs == [] then [x]
    else if x == xs[0] then xs
    else if less(x, xs[0]) then [x] + xs
    else [xs[0]] + InsertUnique(xs[1..], x, less)
  }

  lemma {:induction false} InsertUniqueCorrect<T(!new)>(xs: seq<T>, x: T, less: (T, T) -> bool)
    requires StrictTotalOrder(less) && StrictlySorted(xs, less)
    ensures StrictlySorted(InsertUnique(xs, x, less), less)
    ensures forall y :: y in InsertUnique(xs, x, less) <==> y in xs || y == x
    decreases |xs|
  {
    if xs != [] && x != xs[0] && !less(x, xs[0]) {
      var tail := InsertUnique(xs[1..], x, less);
      InsertUniqueCorrect(xs[1..], x, less);
      assert less(xs[0], x);
      forall y | y in tail ensures less(xs[0], y) {
        if y != x {
          var k :| 1 <= k < |xs| && xs[k] == y;
        }
      }
    }
  }

  /** `sorted(set(xs))`: the distinct elements of `xs` in increasing order. */
  function SortedSet<T(==)>(xs: seq<T>, less: (T, T) -> bool): (r: seq<T>)
    decreases |xs|
  {
    if xs == [] then [] else InsertUnique(SortedSet(xs[..|xs| - 1], less), xs[|xs| - 1], less)
  }

  lemma {:induction false} SortedSetCorrect<T(!new)>(xs: seq<T>, less: (T, T) -> bool)
    requires StrictTotalOrder(less)
    ensures StrictlySorted(SortedSet(xs, less), less)
    ensures forall y :: y in SortedSet(xs, less) <==> y in xs
    decreases |xs|
  {
    if xs != [] {
      var init := xs[..|xs| - 1];
      SortedSetCorrect(init, less);
      InsertUniqueCorrect(SortedSet(init, less), xs[|xs| - 1], less);
      assert xs == init + [xs[|xs| - 1]];
    }
  }

  /** A strictly sorted list is determined by its elements, so the list
      built here is the one `sorted` returns for the same set. */
  lemma {:induction false} SortedUnique<T(!new)>(xs: seq<T>, ys: seq<T>, less: (T, T) -> bool)
    requires StrictTotalOrder(less)
    requires StrictlySorted(xs, less) && StrictlySorted(ys, less)
    requires forall y :: y in xs <==> y in ys
    ensures xs == ys
    decreases |xs|
  {
    assert xs != [] ==> xs[0] in ys;
    assert ys != [] ==> ys[0] in xs;
    if xs != [] && ys != [] {
      var k :| 0 <= k < |ys| && ys[k] == xs[0];
      var m :| 0 <= m < |xs| && xs[m] == ys[0];
      var x0, y0 := xs[0], ys[0];
      assert k > 0 ==> less(y0, x0);
      assert m > 0 ==> less(x0, y0);
      assert x0 == y0;
      forall y ensures y in xs[1..] <==> y in ys[1..] {
        if y in xs[1..] {
          var i :| 1 <= i < |xs| && xs[i] == y;
          assert less(xs[0], y) && y != ys[0];
          assert y in xs;
          var j :| 0 <= j < |ys| && ys[j] == y;
          assert ys[1..][j - 1] == y;
        }
        if y in ys[1..] {
          var i :| 1 <= i < |ys| && ys[i] == y;
          assert less(ys[0], y) && y != xs[0];
          assert y in ys;
          var j :| 0 <= j < |xs| && xs[j] == y;
          assert xs[1..][j - 1] == y;
        }
      }
      SortedUnique(xs[1..], ys[1..], less);
      assert xs == [xs[0]] + xs[1..] && ys == [ys[0]] + ys[1..];
    }
  }
}
