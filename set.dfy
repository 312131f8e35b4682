/**
 * The generic `Set[T comparable]` of set/set.go.
 *
 * Go declares the set as `map[T]struct{}` and every method works on that
 * map directly; a Go map is a reference, so `Add`, `Remove` and `Clear`
 * change the set the caller holds. The model is a class whose one field is
 * the map, with `()` for Go's empty struct, and `Elements()` is the set of
 * its keys.
 *
 * Every `for s := range set` loop is modelled by repeatedly picking an
 * arbitrary key among those not yet visited (`var s :| s in rest`), so each
 * contract below holds for every order in which Go may visit the map. Where
 * the result depends on that order, the method also returns the order it
 * followed, and Enumerations says what such an order is.
 */
module GoSet {
  import opened Enumerations
  import opened SetLaws

  class Set<T(==)> {
    /** The backing Go map; a key is present iff it is an element. */
    var m: map<T, ()>

    /** The mathematical set the map stands for. */
    ghost function Elements(): set<T>
      reads this
    {
      m.Keys
    }

    /** The literal `Set[T]{}`: a fresh empty set. */
    constructor Empty()
      ensures Elements() == {}
    {
      m := map[];
    }

    /** `New(xs...)`: a fresh set holding the distinct values of `xs`. */
    constructor New(xs: seq<T>)
      ensures Elements() == set x | x in xs
      ensures Len() <= |xs|
      ensures Distinct(xs) ==> Len() == |xs|
    {
      m := map[];
      new;
      for i := 0 to |xs|
        invariant Elements() == set x | x in xs[..i]
      {
        assert xs[..i + 1] == xs[..i] + [xs[i]];
        Add(xs[i]);
      }
      assert xs[..|xs|] == xs;
      DistinctValues(xs);
    }

    /** `Add`: `x` becomes an element; nothing else changes, and adding a present element changes nothing. */
    method Add(x: T)
      modifies this
      ensures Elements() == old(Elements()) + {x}
      ensures Has(x)
      ensures old(Has(x)) ==> m == old(m)
    {
      if x in m {
        assert m[x] == ();
        assert m[x := ()] == m;
      }
      m := m[x := ()];
    }

    /** `Remove`: `x` stops being an element; nothing else changes, and removing an absent element changes nothing. */
    method Remove(x: T)
      modifies this
      ensures Elements() == old(Elements()) - {x}
      ensures !Has(x)
      ensures !old(Has(x)) ==> m == old(m)
    {
      m := m - {x};
    }

    /** `Has`: membership. */
    function Has(x: T): (b: bool)
      reads this
      ensures b <==> x in Elements()
    {
      x in m
    }

    /** `Len`: the number of elements. */
    function Len(): (n: nat)
      reads this
      ensures n == |Elements()|
    {
      |m|
    }

    /** `IsEmpty`: the set has no element. */
    function IsEmpty(): (b: bool)
      reads this
      ensures b <==> Elements() == {}
      ensures b <==> Len() == 0
    {
      |m| == 0
    }

    /** `List`: every element exactly once, in the order the loop visited them. */
    method List() returns (r: seq<T>)
      ensures IsEnumeration(r, Elements())
      ensures |r| == Len()
    {
      r := [];
      var rest := m.Keys;
      while rest != {}
        invariant rest <= m.Keys
        invariant Distinct(r)
        invariant forall x :: x in r <==> x in m.Keys && x !in rest
        decreases rest
      {
        var s :| s in rest;
        r := r + [s];
        rest := rest - {s};
      }
      EnumerationLength(r, Elements());
    }

    /** `Union`: a fresh set of the elements of either set; neither operand changes. */
    method Union(other: Set<T>) returns (r: Set<T>)
      ensures fresh(r)
      ensures r.Elements() == Elements() + other.Elements()
    {
      r := new Set.Empty();
      var rest := m.Keys;
      while rest != {}
        invariant rest <= m.Keys
        invariant r.m.Keys == m.Keys - rest
        decreases rest
      {
        var s :| s in rest;
        rest := rest - {s};
        r.Add(s);
      }
      rest := other.m.Keys;
      while rest != {}
        invariant rest <= other.m.Keys
        invariant r.m.Keys == m.Keys + (other.m.Keys - rest)
        decreases rest
      {
        var s :| s in rest;
        rest := rest - {s};
        r.Add(s);
      }
    }

    /** `Intersection`: a fresh set of the elements of both sets; neither operand changes. */
    method Intersection(other: Set<T>) returns (r: Set<T>)
      ensures fresh(r)
      ensures r.Elements() == Elements() * other.Elements()
    {
      r := new Set.Empty();
      var rest := m.Keys;
      while rest != {}
        invariant rest <= m.Keys
        invariant r.m.Keys == (m.Keys - rest) * other.m.Keys
        decreases rest
      {
        var s :| s in rest;
        rest := rest - {s};
        if other.Has(s) {
          r.Add(s);
        }
      }
    }

    /** `Difference`: a fresh set of the elements of this set that are not in `other`; neither operand changes. */
    method Difference(other: Set<T>) returns (r: Set<T>)
      ensures fresh(r)
      ensures r.Elements() == Elements() - other.Elements()
    {
      r := new Set.Empty();
      var rest := m.Keys;
      while rest != {}
        invariant rest <= m.Keys
        invariant r.m.Keys == (m.Keys - rest) - other.m.Keys
        decreases rest
      {
        var s :| s in rest;
        rest := rest - {s};
        if !other.Has(s) {
          r.Add(s);
        }
      }
    }

    /**
     * `Iterate`: calls `f` on elements until it returns true. The ghost
     * result is the sequence of calls: distinct elements, `f` false on all
     * but the last, and it either stops at an element where `f` is true or
     * has visited every element.
     */
    method Iterate(f: T -> bool) returns (ghost calls: seq<T>)
      ensures Distinct(calls)
      ensures forall x :: x in calls ==> x in Elements()
      ensures forall i :: 0 <= i < |calls| - 1 ==> !f(calls[i])
      ensures (calls != [] && f(calls[|calls| - 1])) || IsEnumeration(calls, Elements())
    {
      calls := [];
      var rest := m.Keys;
      while rest != {}
        invariant rest <= m.Keys
        invariant Distinct(calls)
        invariant forall x :: x in calls <==> x in m.Keys && x !in rest
        invariant forall i :: 0 <= i < |calls| ==> !f(calls[i])
        decreases rest
      {
        var s :| s in rest;
        calls := calls + [s];
        if f(s) {
          break;
        }
        rest := rest - {s};
      }
    }

    /** `IterateAll`: the callback is applied once to every element. */
    method IterateAll() returns (ghost calls: seq<T>)
      ensures IsEnumeration(calls, Elements())
    {
      calls := [];
      var rest := m.Keys;
      while rest != {}
        invariant rest <= m.Keys
        invariant Distinct(calls)
        invariant forall x :: x in calls <==> x in m.Keys && x !in rest
        decreases rest
      {
        var s :| s in rest;
        calls := calls + [s];
        rest := rest - {s};
      }
    }

    /** `Filter`: a fresh set of the elements satisfying `f`. */
    method Filter(f: T -> bool) returns (r: Set<T>)
      ensures fresh(r)
      ensures r.Elements() == set x | x in Elements() && f(x)
    {
      r := new Set.Empty();
      var rest := m.Keys;
      while rest != {}
        invariant rest <= m.Keys
        invariant r.m.Keys == set x | x in m.Keys - rest && f(x)
        decreases rest
      {
        var s :| s in rest;
        rest := rest - {s};
        if f(s) {
          r.Add(s);
        }
      }
    }

    /**
     * `Map`: a fresh set of the images of the elements under `f`. Elements
     * with the same image collapse, so the result is never larger.
     */
    method Map(f: T -> T) returns (r: Set<T>)
      ensures fresh(r)
      ensures r.Elements() == set x | x in Elements() :: f(x)
      ensures r.Len() <= Len()
    {
      r := new Set.Empty();
      var rest := m.Keys;
      while rest != {}
        invariant rest <= m.Keys
        invariant r.m.Keys == set x | x in m.Keys - rest :: f(x)
        decreases rest
      {
        var s :| s in rest;
        rest := rest - {s};
        r.Add(f(s));
      }
      ImageSize(Elements(), f);
    }

    /**
     * `Reduce`: folds `f` over the elements starting from `zero`, the zero
     * value of `T` that Go supplies. On the empty set the result is `zero`.
     */
    method Reduce(f: (T, T) -> T, zero: T) returns (r: T, ghost order: seq<T>)
      ensures IsEnumeration(order, Elements())
      ensures r == Fold(f, zero, order)
      ensures Elements() == {} ==> r == zero
    {
      r, order := ReduceAll(f, zero);
    }

    /** `ReduceAll`: folds `f` over the elements, in the order visited, starting from `initial`. */
    method ReduceAll(f: (T, T) -> T, initial: T) returns (r: T, ghost order: seq<T>)
      ensures IsEnumeration(order, Elements())
      ensures r == Fold(f, initial, order)
      ensures Elements() == {} ==> r == initial
    {
      r := initial;
      order := [];
      var rest := m.Keys;
      while rest != {}
        invariant rest <= m.Keys
        invariant Distinct(order)
        invariant forall x :: x in order <==> x in m.Keys && x !in rest
        invariant r == Fold(f, initial, order)
        decreases rest
      {
        var s :| s in rest;
        assert (order + [s])[..|order|] == order;
        order := order + [s];
        r := f(r, s);
        rest := rest - {s};
      }
      EnumerationLength(order, Elements());
    }

    /** `Any`: some element satisfies `f`; false on the empty set. */
    method Any(f: T -> bool) returns (b: bool)
      ensures b <==> exists x :: x in Elements() && f(x)
    {
      var rest := m.Keys;
      while rest != {}
        invariant rest <= m.Keys
        invariant forall x :: x in m.Keys - rest ==> !f(x)
        decreases rest
      {
        var s :| s in rest;
        if f(s) {
          return true;
        }
        rest := rest - {s};
      }
      return false;
    }

    /** `All`: every element satisfies `f`; true on the empty set. */
    method All(f: T -> bool) returns (b: bool)
      ensures b <==> forall x :: x in Elements() ==> f(x)
    {
      var rest := m.Keys;
      while rest != {}
        invariant rest <= m.Keys
        invariant forall x :: x in m.Keys - rest ==> f(x)
        decreases rest
      {
        var s :| s in rest;
        if !f(s) {
          return false;
        }
        rest := rest - {s};
      }
      return true;
    }

    /** `None`: no element satisfies `f`; true on the empty set. */
    method None(f: T -> bool) returns (b: bool)
      ensures b <==> forall x :: x in Elements() ==> !f(x)
    {
      var rest := m.Keys;
      while rest != {}
        invariant rest <= m.Keys
        invariant forall x :: x in m.Keys - rest ==> !f(x)
        decreases rest
      {
        var s :| s in rest;
        if f(s) {
          return false;
        }
        rest := rest - {s};
      }
      return true;
    }

    /** `Clear`: deletes every key while ranging over the map; the same set is left empty. */
    method Clear()
      modifies this
      ensures Elements() == {}
      ensures Len() == 0 && IsEmpty()
    {
      var rest := m.Keys;
      while rest != {}
        invariant m.Keys == rest
        decreases rest
      {
        var s :| s in rest;
        m := m - {s};
        rest := rest - {s};
      }
    }

    /**
     * `Equal`: the sizes match and every element is in `other`, which is
     * exactly equality of the two element sets.
     */
    method Equal(other: Set<T>) returns (b: bool)
      ensures b <==> SameSizeAndIncluded(Elements(), other.Elements())
      ensures b <==> Elements() == other.Elements()
    {
      SameSizeAndIncludedIsEquality(Elements(), other.Elements());
      if Len() != other.Len() {
        return false;
      }
      var rest := m.Keys;
      while rest != {}
        invariant rest <= m.Keys
        invariant m.Keys - rest <= other.m.Keys
        decreases rest
      {
        var s :| s in rest;
        if !other.Has(s) {
          return false;
        }
        rest := rest - {s};
      }
      return true;
    }

    /** `Clone`: a fresh set with the same elements; the two share no storage. */
    method Clone() returns (r: Set<T>)
      ensures fresh(r)
      ensures r.Elements() == Elements()
    {
      r := new Set.Empty();
      var rest := m.Keys;
      while rest != {}
        invariant rest <= m.Keys
        invariant r.m.Keys == m.Keys - rest
        decreases rest
      {
        var s :| s in rest;
        rest := rest - {s};
        r.Add(s);
      }
    }

    /** `Subset`: every element is in `other`; the empty set is a subset of every set. */
    method Subset(other: Set<T>) returns (b: bool)
      ensures b <==> Elements() <= other.Elements()
    {
      var rest := m.Keys;
      while rest != {}
        invariant rest <= m.Keys
        invariant m.Keys - rest <= other.m.Keys
        decreases rest
      {
        var s :| s in rest;
        if !other.Has(s) {
          return false;
        }
        rest := rest - {s};
      }
      return true;
    }

    /** `Superset`: every element of `other` is in this set, i.e. `other.Subset(this)`. */
    method Superset(other: Set<T>) returns (b: bool)
      ensures b <==> other.Elements() <= Elements()
    {
      var rest := other.m.Keys;
      while rest != {}
        invariant rest <= other.m.Keys
        invariant other.m.Keys - rest <= m.Keys
        decreases rest
      {
        var s :| s in rest;
        if !Has(s) {
          return false;
        }
        rest := rest - {s};
      }
      return true;
    }

    /**
     * `Find`: some element satisfying `f` and true, or the zero value of
     * `T` and false when no element satisfies `f`.
     */
    method Find(f: T -> bool, zero: T) returns (x: T, found: bool)
      ensures found ==> x in Elements() && f(x)
      ensures !found ==> x == zero && forall y :: y in Elements() ==> !f(y)
    {
      var rest := m.Keys;
      while rest != {}
        invariant rest <= m.Keys
        invariant forall y :: y in m.Keys - rest ==> !f(y)
        decreases rest
      {
        var s :| s in rest;
        if f(s) {
          return s, true;
        }
        rest := rest - {s};
      }
      return zero, false;
    }

    /** `FindAll`: every element satisfying `f` exactly once, in the order visited. */
    method FindAll(f: T -> bool) returns (r: seq<T>)
      ensures IsEnumeration(r, set x | x in Elements() && f(x))
    {
      r := [];
      var rest := m.Keys;
      while rest != {}
        invariant rest <= m.Keys
        invariant Distinct(r)
        invariant forall x :: x in r <==> x in m.Keys && x !in rest && f(x)
        decreases rest
      {
        var s :| s in rest;
        if f(s) {
          r := r + [s];
        }
        rest := rest - {s};
      }
    }
  }

  /** Integer addition, a right-commutative fold step. */
  function Plus(a: int, b: int): int
  {
    a + b
  }

  /** Integer multiplication. */
  function Times(a: int, b: int): int
  {
    a * b
  }

  /**
   * Summing {1, 2, 3} from 10 with `ReduceAll` gives 16 whatever order Go
   * visits the elements in.
   */
  lemma SumFromTen(order: seq<int>)
    requires IsEnumeration(order, {1, 2, 3})
    ensures Fold(Plus, 10, order) == 16
  {
    assert RightCommutative(Plus);
    assert IsEnumeration([1, 2, 3], {1, 2, 3});
    FoldOrderIndependent(Plus, 10, order, [1, 2, 3], {1, 2, 3});
    assert [1, 2, 3][..2] == [1, 2] && [1, 2][..1] == [1] && [1][..0] == [];
  }

  /**
   * `Reduce` starts from the zero value, not from the first element, so a
   * product of integers reduced with `Reduce` is 0 for every set and every
   * order.
   */
  lemma {:induction false} ProductFromZero(order: seq<int>)
    ensures Fold(Times, 0, order) == 0
    decreases |order|
  {
    if order != [] {
      ProductFromZero(order[..|order| - 1]);
    }
  }
}
