/**
 * Facts about finite sets that the Set operations rely on: how `Equal`
 * decides equality from a size test and a one-way inclusion, and why `Map`
 * can only shrink a set.
 */
module SetLaws {

  /**
   * The test `Equal` performs: the sizes match and every element of `a`
   * is in `b`.
   */
  ghost predicate SameSizeAndIncluded<T>(a: set<T>, b: set<T>)
  {
    |a| == |b| && a <= b
  }

  /** A subset as large as its superset is the whole superset. */
  lemma SubsetOfSameSize<T>(a: set<T>, b: set<T>)
    requires a <= b && |a| == |b|
    ensures a == b
  {
    var d := b - a;
    assert b == a + d;
    assert a !! d;
    assert |b| == |a| + |d|;
    assert |d| == 0;
  }

  /**
   * `Equal`'s test is set equality: it holds exactly when the two sets
   * have the same elements, which makes it reflexive and symmetric.
   */
  lemma SameSizeAndIncludedIsEquality<T>(a: set<T>, b: set<T>)
    ensures SameSizeAndIncluded(a, b) <==> a == b
    ensures SameSizeAndIncluded(a, b) == SameSizeAndIncluded(b, a)
  {
    if SameSizeAndIncluded(a, b) {
      SubsetOfSameSize(a, b);
    }
    if SameSizeAndIncluded(b, a) {
      SubsetOfSameSize(b, a);
    }
  }

  /** The image of a set under any function has at most as many elements as the set. */
  lemma {:induction false} ImageSize<T, U>(s: set<T>, f: T -> U)
    ensures |set x | x in s :: f(x)| <= |s|
    decreases s
  {
    if s == {} {
      assert (set x | x in s :: f(x)) == {};
    } else {
      var y :| y in s;
      ImageSize(s - {y}, f);
      assert (set x | x in s :: f(x)) == (set x | x in s - {y} :: f(x)) + {f(y)};
    }
  }
}
