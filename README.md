# A verified model of go-generics' `Set[T]`

The package `set` of go-generics defines `Set[T comparable]` as a Go
`map[T]struct{}` used as a mathematical set. It has three kinds of method:

- methods that change the receiver in place: `Add`, `Remove`, `Clear`;
- queries: `Has`, `Len`, `IsEmpty`, `List`;
- operations that build a new map with a `for ... range` loop: `Union`,
  `Intersection`, `Difference`, `Clone`, `Filter`, `Map`.

Beside those, it has comparisons (`Equal`, `Subset`, `Superset`) and callback
combinators (`Iterate`, `IterateAll`, `Reduce`, `ReduceAll`, `Any`, `All`,
`None`, `Find`, `FindAll`).

The model is written in Dafny and has three modules:

- `GoSet` (set.dfy) holds the class `Set<T>`. Its one field `m: map<T, ()>`
  is the Go map, and `()` stands for `struct{}`. A Go map is a reference,
  so the class is one too. `Add`, `Remove` and `Clear` are methods with
  `modifies this`. `Has`, `Len` and `IsEmpty` are functions. Every other
  operation is a method with the source's loop, proved against the set it
  must produce, written as `Elements()` (the keys of `m`).
- `Enumerations` (enumerations.dfy) models the order in which Go's
  `for ... range` visits a map. Go picks that order anew on every loop, and
  the model treats it as an arbitrary enumeration: every element exactly
  once. It also defines `Fold`, the accumulator loop of `Reduce` and
  `ReduceAll`, and proves that a fold with a right-commutative step gives
  the same result for every enumeration.
- `SetLaws` (set_laws.dfy) holds the finite-set facts the operations rely
  on. `Equal`'s test (same size and one-way inclusion) is set equality. An
  image under `Map` is never larger than the set it came from.

Each loop takes its next element with `var s :| s in rest`, an arbitrary
key not yet visited. Every contract therefore holds for every iteration
order Go may choose. Some results depend on the order. `List` returns the
elements in the order visited, and `FindAll` returns the matching elements
in that order. `Reduce` and `ReduceAll` return, as a ghost result, the
order they folded in. `Iterate` and `IterateAll` return, as a ghost
result, the elements the callback was called on. Each contract says how
that sequence relates to an enumeration of the set.

Go's zero value of `T` (`var reduced T`, `var ret T`) cannot be named for a
generic `T` in Dafny. `Reduce` and `Find` therefore take it as a parameter
`zero`.

## Points where the model pins down the code's behaviour

In each point below the model follows the code as written.

- `Reduce` (set/set.go:123-130): the doc comment says the fold starts
  "with the first element". The code starts from the zero value of `T` and
  folds every element into it. The model does the same: `Reduce` is
  `ReduceAll` from `zero`. `ProductFromZero` shows the consequence: a
  product of integers reduced this way is 0 for every set.
- `Iterate` (set/set.go:87-94) stops at the first element where the
  callback returns **true**, as its doc comment says. The model stops on
  true.
- `List` and `FindAll` return a nil slice in Go when nothing is collected.
  A nil slice has length 0 and behaves as an empty slice, and the model
  returns `[]`.

## Model

| member | source | states |
|---|---|---|
| `GoSet.Set.Empty` | set/set.go:55 | The literal `Set[T]{}` that every derived operation starts from is a set with no elements. |
| `GoSet.Set.New` | set/set.go:9-16 | The new set's elements are exactly the values occurring in the arguments. Duplicates collapse, so its size is at most the argument count, and exactly that count when the arguments are distinct. No arguments gives the empty set. |
| `GoSet.Set.Add` | set/set.go:18-21 | Afterwards `Has(x)` holds, and the elements are the old ones plus `x`, so no other membership changes. When `x` was already present the map is identical to before (idempotent). |
| `GoSet.Set.Remove` | set/set.go:23-26 | Afterwards `Has(x)` is false, and the elements are the old ones minus `x`, so no other membership changes. When `x` was absent the map is identical to before. |
| `GoSet.Set.Has` | set/set.go:28-32 | The map lookup is true exactly when `x` is an element of the set. |
| `GoSet.Set.Len` | set/set.go:34-37 | The length of the map is the number of elements of the set. |
| `GoSet.Set.IsEmpty` | set/set.go:171-174 | True exactly when the set has no element, equivalently when `Len() == 0`. |
| `GoSet.Set.List` | set/set.go:39-46 | The slice lists every element exactly once and nothing else, in the visiting order. Its length is `Len()`, and an empty set gives an empty sequence. |
| `GoSet.Set.Union` | set/set.go:53-63 | Returns a fresh set whose elements are those in this set or in `other`. Neither operand changes: the method modifies nothing that existed before the call. |
| `GoSet.Set.Intersection` | set/set.go:65-74 | Returns a fresh set whose elements are those in both sets. Neither operand changes. |
| `GoSet.Set.Difference` | set/set.go:76-85 | Returns a fresh set whose elements are those in this set and not in `other`. Neither operand changes. |
| `GoSet.Set.Iterate` | set/set.go:87-94 | The callback is applied to distinct elements and returns false on all but the last call. The calls either end at the first element where it returns true, or cover every element once. |
| `GoSet.Set.IterateAll` | set/set.go:96-101 | The callback is applied exactly once to every element, in some enumeration order. |
| `GoSet.Set.Filter` | set/set.go:103-112 | Returns a fresh set holding exactly the elements on which `f` is true. |
| `GoSet.Set.Map` | set/set.go:114-121 | Returns a fresh set that is exactly the image of the set under `f`. Its size is at most `Len()`, since elements with equal images collapse. |
| `GoSet.Set.Reduce` | set/set.go:123-130 | The result is the left fold of `f` over the visiting order, starting from the zero value rather than from an element. The order enumerates the set, and the empty set yields the zero value. |
| `GoSet.Set.ReduceAll` | set/set.go:132-139 | The result is the left fold of `f` over the visiting order, starting from `initial`. The order enumerates the set, and the empty set yields `initial`. |
| `GoSet.Set.Any` | set/set.go:141-149 | True exactly when some element satisfies `f`, hence false on the empty set. |
| `GoSet.Set.All` | set/set.go:151-159 | True exactly when every element satisfies `f`, hence true on the empty set. |
| `GoSet.Set.None` | set/set.go:161-169 | True exactly when no element satisfies `f`, hence true on the empty set. |
| `GoSet.Set.Clear` | set/set.go:176-181 | Deleting every key while ranging over the map leaves the same set object with no elements: `Len() == 0` and `IsEmpty()`. |
| `GoSet.Set.Equal` | set/set.go:183-194 | True exactly when the sizes match and every element is in `other`, the source's test. The same result is also stated as equality of the two element sets. |
| `GoSet.Set.Clone` | set/set.go:196-203 | Returns a fresh set with the same elements. Being fresh, it shares no storage with the original, so mutating one cannot affect the other. |
| `GoSet.Set.Subset` | set/set.go:210-218 | True exactly when every element is in `other`, so the empty set is a subset of every set. |
| `GoSet.Set.Superset` | set/set.go:220-228 | True exactly when every element of `other` is in this set, which is `other.Subset(this)`. |
| `GoSet.Set.Find` | set/set.go:230-240 | When the flag is true, the returned value is an element satisfying `f`. When it is false, the value is the zero value and no element satisfies `f`. |
| `GoSet.Set.FindAll` | set/set.go:242-251 | Lists every element satisfying `f` exactly once and nothing else, in the visiting order. |
| `Enumerations.EnumerationLength` | set/set.go:39-46 | Any sequence that lists every element of a set exactly once is as long as the set is large. This is why `List` has `Len()` entries. |
| `Enumerations.DistinctValues` | set/set.go:10-16 | A sequence has at most as many distinct values as entries, and exactly as many when no value repeats. This is why `New`'s size is bounded. |
| `Enumerations.FoldOrderIndependent` | set/set.go:132-139 | Folding with a step `f` satisfying `f(f(a, x), y) == f(f(a, y), x)` gives the same result over any two enumerations of the same set. For such an `f`, `Reduce` and `ReduceAll` do not depend on Go's iteration order. |
| `SetLaws.SameSizeAndIncludedIsEquality` | set/set.go:184-194 | `Equal`'s test (same size, and every element of one set is in the other) holds exactly when the sets are equal. The test is symmetric, and it is reflexive because equality is. |
| `SetLaws.ImageSize` | set/set.go:115-121 | The image of a finite set under any function has at most as many elements as the set. |
| `GoSet.SumFromTen` | set/set.go:132-139 | `ReduceAll` with addition and initial value 10 over the set {1, 2, 3} gives 16, whatever order Go visits the elements in. |
| `GoSet.ProductFromZero` | set/set.go:123-130 | Because `Reduce` starts from the zero value, reducing integers with multiplication gives 0 for every set and every order. |

## Left out

- `String` (set/set.go:205-208) formats through `fmt.Sprint`, a library call outside the model. Its output is for diagnostics only.
- `ToMap` (set/set.go:48-51) returns the live backing map. Aliasing through a type conversion adds nothing beyond "the same elements", which `Elements()` already is.
- The concrete iteration order of Go maps is chosen at random by the runtime. The model leaves it arbitrary, and no contract fixes an order for `List`, `FindAll`, `Iterate` or `Reduce`.
- GoSet.Set.Iterate and GoSet.Set.IterateAll: callback side effects are not modelled. Callbacks are pure Dafny functions, and the methods return the ghost sequence of elements the callback was called on. `IterateAll`'s callback returns nothing, so the model drops it and keeps only that sequence.
- Callbacks passed to `Filter`, `Map`, `Reduce`, `ReduceAll`, `Any`, `All`, `None`, `Find` and `FindAll` are total and pure. A Go callback that panics, or mutates the set while it is being ranged over, is not modelled.
- GoSet.Set.Reduce and GoSet.Set.Find take Go's zero value of `T` as the parameter `zero`, because Dafny cannot name it for a generic `T`.
- GoSet.Set.Add and GoSet.Set.Remove do not repeat the change in `Len()` in their own contracts. It follows from their element equations and `Len() == |Elements()|`. Leaving it out keeps callers' loops cheap to verify.
- Concurrent use of one set is outside the model. The package has no locking.
- GoSet.Set.New, GoSet.Set.Add, GoSet.Set.Remove, GoSet.Set.Has, GoSet.Set.Len, GoSet.Set.List, GoSet.Set.Union, GoSet.Set.Intersection, GoSet.Set.Difference, GoSet.Set.Filter, GoSet.Set.Map, GoSet.Set.Clear, GoSet.Set.Equal, GoSet.Set.Clone, GoSet.Set.Subset, GoSet.Set.Superset and GoSet.Set.FindAll: the whole model assumes that every value of `T` equals itself.
  - Dafny's `==` is reflexive, but Go's `comparable` admits floating-point and complex types (and structs or arrays holding them), where NaN is not equal to itself.
  - A Go map lookup, insert or `delete` of a NaN key matches no entry, so every insert of a NaN creates a new entry. The map then holds entries that no set of keys describes, and none of these members' contracts covers that case.
  - `Add(NaN)` grows `Len()` on each call, and `Has(NaN)` stays false. `New(NaN, NaN)` has `Len() == 2`.
  - `Remove(NaN)` deletes nothing. `Clear` leaves the NaN entries in place, so `Len()` stays non-zero.
  - `s.Union(s)` holds two entries for every NaN entry of `s` (set/set.go:57, 60).
  - `s.Intersection(s)` drops the NaN entries, and `s.Difference(s)` keeps them (set/set.go:69, 80).
  - `Map` whose `f` returns NaN gives one entry per element, not one in all (set/set.go:118).
  - `s.Equal(s)`, `s.Subset(s)` and `s.Superset(s)` are false when `s` holds a NaN (set/set.go:189, 213, 223).
  - `List`, `FindAll`, `Filter` and `Clone` list or copy each NaN entry separately. `Len()` counts them too.
- GoSet.Set.New, GoSet.Set.Add, GoSet.Set.Has, GoSet.Set.Remove and GoSet.Set.Map: two panics are not modelled.
  - The zero value of `Set[T]` is a nil map, which the model cannot represent because a `Set` here is always an allocated object. On a nil map, every query behaves as on an empty set, and so do `Remove` and `Clear`. `Add` panics with "assignment to entry in nil map" (set/set.go:20).
  - When `T` is an interface type, a dynamic value whose type cannot be hashed (a slice, map or function) makes a map insert, lookup or delete panic.
    - This hits `Add`, `Has` and `Remove` when the argument is such a value.
    - It hits `New` when one of its arguments is (set/set.go:13).
    - It hits `Map` when `f` returns one (set/set.go:118).
