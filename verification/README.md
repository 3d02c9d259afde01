# SortedArray in Dafny

This project models `SortedArray` from `src/collections/SortedArray.js`: a container that keeps its elements sorted under a three-way comparator supplied by the caller. Construction copies and sorts an optional initial array. `add` inserts at the index that a binary search picks. `remove` deletes one element that compares equal to the argument, if the lookup finds one. `indexOf` and `contains` use the same kind of binary search. `get`, `length`, `isEmpty` and `values` read the sequence.

The model is organised as follows:

- `Comparators` (`comparators.dfy`) defines the comparator. It is `cmp: (T, T) -> int`, and the caller's consistency obligation is written as `IsTotalPreorder`: `cmp(a, a) == 0`, swapping the arguments flips the sign, and "sorts no later than" is transitive. The module also defines `Sorted` (pairwise, for every `i < j`), `HasEquivalent` and `CountEquivalent`, the number of elements that compare equal to an item.
- `Splice` (`splice.dfy`) models the two array edits. `InsertAt` covers `push` and `splice(index, 0, item)`. `DeleteAt` covers `splice(index, 1)`.
- `BinarySearch` (`binary_search.dfy`) holds both search loops as `while` loops over `left`/`right`. The probe is `Math.round((right + left) / 2)`. The two indices are never negative, so this probe is `(left + right + 1) / 2` in integer division, and `MidpointIsRoundedHalf` proves the two agree.
- `SortedArrays` (`sorted_array.dfy`) holds the container: `datatype SortedArray<T>(cmp, items)` with the invariant `Valid`. Each mutator returns the new container value.
- `Scenarios` and `Permutations` (`scenarios.dfy`) hold the multi-call properties the test suite relies on, stated for every valid container. They also hold the suite's concrete integer runs. These use `IntCompare`, which models the suite's `compareIntegers` comparator `a - b` (tests/collections/SortedArrayTest.js:6-8). `Permutations` only splits the literal multiset equations of those runs into small proof steps.

When the insertion search meets an equivalent element, `getIndexForInsert` returns `probe + 1` (src/collections/SortedArray.js:30), which places the new item on the right of the equivalent element the search happened to hit. That element is not necessarily the last of its run of equivalents. `IndexForInsert` and `Add` state exactly this: when an equivalent element exists, the element just before the insertion index is equivalent to the item. They promise nothing about where in the run that is. Likewise, `indexOf` returns the index of *some* equivalent element, and `IndexOf` promises no more than that.

## Model

| member | source | states |
|---|---|---|
| BinarySearch.Midpoint | src/collections/SortedArray.js:22 | the probe lies in `[left, right]` and sits at the middle, rounded towards `right` |
| BinarySearch.MidpointIsRoundedHalf | src/collections/SortedArray.js:22 | the integer probe equals `Math.round((right + left) / 2)` (floor of x + 0.5) for all `0 <= left <= right` |
| BinarySearch.IndexForInsert | src/collections/SortedArray.js:12-41 | returns 0 on an empty sequence; otherwise an index `k <= length` with every element before `k` sorting no later than the item and every element from `k` on sorting no earlier; an equivalent element exists iff the element just before `k` is equivalent (the `probe + 1` tie-break); with no equivalent, the split is strict on both sides |
| BinarySearch.IndexOf | src/collections/SortedArray.js:67-85 | returns -1 or an index in `[0, length)` whose element compares equal to the item; on a sorted sequence it returns -1 exactly when no element compares equal |
| Splice.InsertAt | src/collections/SortedArray.js:47-51 | the result is one longer, holds the item at `k`, keeps the elements before `k` in place, shifts the rest right by one, and gains exactly that item in its multiset |
| Splice.DeleteAt | src/collections/SortedArray.js:58 | the result is one shorter, keeps the elements before `k`, shifts the rest left by one, and loses exactly the element at `k` from its multiset |
| Splice.DeleteUndoesInsert | src/collections/SortedArray.js:45-60 | deleting at the index just inserted at gives back the original sequence |
| Splice.InsertKeepsSorted | src/collections/SortedArray.js:34-51 | inserting at any index that splits the item keeps a sorted sequence sorted |
| Splice.DeleteKeepsSorted | src/collections/SortedArray.js:55-59 | deleting any one element keeps a sorted sequence sorted |
| Splice.CountAfterInsert | src/collections/SortedArray.js:45-52 | an insertion adds one to the count of elements equivalent to the inserted item and leaves other counts alone |
| Splice.CountAfterDelete | src/collections/SortedArray.js:55-59 | a deletion takes one off the count of elements equivalent to the deleted element and leaves other counts alone |
| SortedArrays.New | src/collections/SortedArray.js:8-10 | with no items, the container is empty; with items, it holds a sorted permutation of them (same multiset, same length) under the given comparator |
| SortedArrays.Add | src/collections/SortedArray.js:45-52 | the result is sorted and equals the old sequence with the item inserted at one splitting index, so the old elements keep their relative order; the length grows by one; the multiset gains exactly the item; the item is then present; when an equivalent element was present, the item lands right after one |
| SortedArrays.Remove | src/collections/SortedArray.js:54-60 | if an equivalent element exists, exactly one such element is deleted, so the length and the count of equivalents drop by one; otherwise the sequence is unchanged; sortedness is kept |
| SortedArrays.IndexOf | src/collections/SortedArray.js:67-85 | the container's `indexOf`: -1 or an index of an equivalent element, and -1 exactly when none exists |
| SortedArrays.Contains | src/collections/SortedArray.js:62-65 | true exactly when some element compares equal to the item, i.e. when its count of equivalents is positive |
| SortedArrays.Get | src/collections/SortedArray.js:92-95 | returns the element for `0 <= index < length` and absent for every other index, negative ones included |
| SortedArrays.Length | src/collections/SortedArray.js:97-100 | the length is the number of indices at which `get` returns an element |
| SortedArrays.IsEmpty | src/collections/SortedArray.js:102-105 | true exactly when the length is zero |
| SortedArrays.Values | src/collections/SortedArray.js:87-90 | the elements in sorted order, as many as the length, equal to `get(i)` at every position |
| Comparators.SortedUnique | tests/collections/SortedArrayTest.js:231-243 | when only identical values compare equal, two sorted sequences with the same multiset are equal, so the container's contents are fully determined |
| Comparators.CountPositiveIffPresent | src/collections/SortedArray.js:62-65 | an item's count of equivalents is positive exactly when some element compares equal to it |
| Scenarios.AddItems | tests/collections/SortedArrayTest.js:10-18 | adding items one at a time keeps the container valid and adds exactly those items to its multiset |
| Scenarios.AddThenContains | tests/collections/SortedArrayTest.js:76-82 | after `add(x)`, `contains(x)` is true |
| Scenarios.AddThenRemove | tests/collections/SortedArrayTest.js:64-74 | for an item with no equivalent, `add` then `remove` gives back exactly the original sequence, so the length is restored and `contains` is false |
| Scenarios.DeleteOnlyEquivalent | src/collections/SortedArray.js:45-60 | after inserting an item that had no equivalent, the inserted copy is the only equivalent element, so deleting an equivalent element undoes the insertion |
| Scenarios.RemoveDuplicateTwice | tests/collections/SortedArrayTest.js:84-103 | with exactly two equivalent copies, `contains` is still true after one `remove` and false after a second |
| Scenarios.ConstructFromUnsorted | tests/collections/SortedArrayTest.js:36-48 | constructing from `[-10, 10, 2, 5, 2, -7, -70]` gives values `[-70, -10, -7, 2, 2, 5, 10]`, length 7 and `get(0) == -70` |
| Scenarios.EmptyQueries | tests/collections/SortedArrayTest.js:105-108 | on an empty container, `get(0)` and `get(-1)` are absent and `indexOf(5)` is -1 |
| Scenarios.AddUnsorted | tests/collections/SortedArrayTest.js:201-207 | adding `[1024, -10, 5, 0, -10, 1, -1024]` one at a time yields `[-1024, -10, -10, 0, 1, 5, 1024]` |
| Scenarios.IndexOfDuplicate | tests/collections/SortedArrayTest.js:208-215 | after those additions, `indexOf(-10)` is 1 or 2 |

## Left out

- The host's `Array.prototype.sort` at construction, which is a library call. `New` builds the sorted copy by repeated insertion, and its contract promises only a sorted permutation of the input. Among equivalent elements, the engine's sort may choose a different order.
- Mutation in place. Each mutator returns the new container value, and the caller's initial sequence is a Dafny value. So the promise that the caller's array stays unchanged holds by construction and is not stated separately.
- The aliasing of `values()`, which hands out the live backing array. `Values` returns the sequence value. A caller mutating the returned JavaScript array is a host-language hazard, not modelled behaviour.
- JavaScript number semantics. Comparator results are `int`, and `a - b` on doubles is not modelled. `Math.round` is modelled only on the non-negative half-integers the probe produces. Non-integer indices to `get` are not modelled.
- `undefined` as a result. `Get` returns an `Option`, and `IndexOf` keeps the source's -1.
- The truthiness test on the optional `items` argument. Every falsy argument, or a missing one, becomes `None`.
- The comparator consistency check. The source never checks its comparator. `IsTotalPreorder` is a precondition of every operation that needs it, not a runtime check.
- The test that sorts with the boolean comparator `a > b` (tests/collections/SortedArrayTest.js:245-259), because it depends on engine-specific sort behaviour. Also the test that checks the host sort itself (lines 20-28).
