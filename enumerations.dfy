/**
 * Iteration order of a Go map.
 *
 * `for s := range set` visits the keys of a Go map in an order the runtime
 * picks afresh on every loop. The model treats that order as an arbitrary
 * enumeration of the set: a sequence holding every element exactly once.
 * Results that depend on the order (List, FindAll, Reduce, ReduceAll,
 * Iterate, IterateAll) are stated for the enumeration the loop happened to
 * follow, and the lemmas here say when the order does not matter.
 */
module Enumerations {

  /** No element occurs twice in `e`. */
  ghost predicate Distinct<T>(e: seq<T>)
  {
    forall i, j :: 0 <= i < j < |e| ==> e[i] != e[j]
  }

  /** `e` lists every element of `s` exactly once, and nothing else. */
  ghost predicate IsEnumeration<T>(e: seq<T>, s: set<T>)
  {
    && Distinct(e)
    && (forall x :: x in e ==> x in s)
    && (forall x :: x in s ==> x in e)
  }

  /** Left fold: the accumulator loop `acc = f(acc, x)` run over `e` in order. */
  function Fold<T>(f: (T, T) -> T, init: T, e: seq<T>): T
    decreases |e|
  {
    if e == [] then init else f(Fold(f, init, e[..|e| - 1]), e[|e| - 1])
  }

  /** Swapping two consecutive steps of a fold with `f` does not change the result. */
  ghost predicate RightCommutative<T(!new)>(f: (T, T) -> T)
  {
    forall a, x, y :: f(f(a, x), y) == f(f(a, y), x)
  }

  /** An enumeration of a finite set is exactly as long as the set is large. */
  lemma {:induction false} EnumerationLength<T>(e: seq<T>, s: set<T>)
    requires IsEnumeration(e, s)
    ensures |e| == |s|
    decreases |e|
  {
    if e == [] {
      assert s == {};
    } else {
      var x := e[|e| - 1];
      DropAt(e, s, |e| - 1);
      assert e[..|e| - 1] + e[|e|..] == e[..|e| - 1];
      EnumerationLength(e[..|e| - 1], s - {x});
    }
  }

  /** Dropping the element at position `i` of an enumeration of `s` enumerates `s` without it. */
  lemma DropAt<T>(e: seq<T>, s: set<T>, i: int)
    requires IsEnumeration(e, s) && 0 <= i < |e|
    ensures IsEnumeration(e[..i] + e[i + 1..], s - {e[i]})
  {
  }

  /** The distinct values of a sequence are never more than its length, and exactly as many when it has no repeats. */
  lemma {:induction false} DistinctValues<T>(xs: seq<T>)
    ensures |set x | x in xs| <= |xs|
    ensures Distinct(xs) ==> |set x | x in xs| == |xs|
    decreases |xs|
  {
    if xs != [] {
      var init, last := xs[..|xs| - 1], xs[|xs| - 1];
      DistinctValues(init);
      assert xs == init + [last];
      assert (set x | x in xs) == (set x | x in init) + {last};
      if Distinct(xs) {
        assert last !in init;
      }
    } else {
      assert (set x | x in xs) == {};
    }
  }

  /** One fold step can be moved from the middle of the sequence to the end. */
  lemma {:induction false} FoldMoveLast<T(!new)>(f: (T, T) -> T, a: T, p: seq<T>, x: T, q: seq<T>)
    requires RightCommutative(f)
    ensures Fold(f, a, p + [x] + q) == f(Fold(f, a, p + q), x)
    decreases |q|
  {
    if q == [] {
      assert p + [x] + q == p + [x];
      assert p + q == p;
    } else {
      var q', y := q[..|q| - 1], q[|q| - 1];
      FoldMoveLast(f, a, p, x, q');
      assert p + [x] + q == (p + [x] + q') + [y];
      assert p + q == (p + q') + [y];
      assert ((p + [x] + q') + [y])[..|p + [x] + q'|] == p + [x] + q';
      assert ((p + q') + [y])[..|p + q'|] == p + q';
    }
  }

  /**
   * A fold with a right-commutative `f` gives the same result over every
   * enumeration of the same set: for such an `f`, Reduce and ReduceAll do
   * not depend on Go's iteration order.
   */
  lemma {:induction false} FoldOrderIndependent<T(!new)>(f: (T, T) -> T, a: T, e1: seq<T>, e2: seq<T>, s: set<T>)
    requires RightCommutative(f)
    requires IsEnumeration(e1, s) && IsEnumeration(e2, s)
    ensures Fold(f, a, e1) == Fold(f, a, e2)
    decreases |e1|
  {
    if e1 == [] {
      EnumerationLength(e1, s);
      EnumerationLength(e2, s);
    } else {
      var n := |e1| - 1;
      var x := e1[n];
      assert x in e2;
      var i :| 0 <= i < |e2| && e2[i] == x;
      var p, q := e2[..i], e2[i + 1..];
      assert e2 == p + [x] + q;
      DropAt(e1, s, n);
      assert e1[..n] + e1[n + 1..] == e1[..n];
      DropAt(e2, s, i);
      FoldOrderIndependent(f, a, e1[..n], p + q, s - {x});
      FoldMoveLast(f, a, p, x, q);
    }
  }
}
