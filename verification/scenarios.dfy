/**
  Solver scaffolding for the concrete scenarios: the test suite's literal
  inputs, each shown to be a rearrangement of its sorted form, and those
  sorted forms shown to be in order. No concept of the container lives
  here; each equation is split into small steps through multiset displays
  only so that every proof obligation stays small.
 */
module Permutations {

  lemma ConstructionInputAsDisplay()
    ensures multiset([-10, 10, 2, 5, 2, -7, -70]) == multiset{-10, 10, 2, 5, 2, -7, -70}
  {
  }

  lemma ConstructionOutputAsDisplay()
    ensures multiset([-70, -10, -7, 2, 2, 5, 10]) == multiset{-70, -10, -7, 2, 2, 5, 10}
  {
  }

  lemma ConstructionDisplaysAgree()
    ensures multiset{-10, 10, 2, 5, 2, -7, -70} == multiset{-70, -10, -7, 2, 2, 5, 10}
  {
  }

  lemma ConstructionInputIsPermuted(s: seq<int>)
    requires multiset(s) == multiset([-10, 10, 2, 5, 2, -7, -70])
    ensures multiset(s) == multiset([-70, -10, -7, 2, 2, 5, 10])
  {
    ConstructionInputAsDisplay();
    ConstructionOutputAsDisplay();
    ConstructionDisplaysAgree();
  }

  lemma ConstructionOutputIsOrdered()
    ensures var e := [-70, -10, -7, 2, 2, 5, 10];
            forall i :: 0 <= i < |e| - 1 ==> e[i] <= e[i + 1]
  {
  }

  lemma AddedInputAsDisplay()
    ensures multiset([1024, -10, 5, 0, -10, 1, -1024]) == multiset{1024, -10, 5, 0, -10, 1, -1024}
  {
  }

  lemma AddedOutputAsDisplay()
    ensures multiset([-1024, -10, -10, 0, 1, 5, 1024]) == multiset{-1024, -10, -10, 0, 1, 5, 1024}
  {
  }

  lemma AddedDisplaysAgree()
    ensures multiset{1024, -10, 5, 0, -10, 1, -1024} == multiset{-1024, -10, -10, 0, 1, 5, 1024}
  {
  }

  lemma AddedInputIsPermuted(s: seq<int>)
    requires multiset(s) == multiset([1024, -10, 5, 0, -10, 1, -1024])
    ensures multiset(s) == multiset([-1024, -10, -10, 0, 1, 5, 1024])
  {
    AddedInputAsDisplay();
    AddedOutputAsDisplay();
    AddedDisplaysAgree();
  }

  lemma AddedOutputIsOrdered()
    ensures var e := [-1024, -10, -10, 0, 1, 5, 1024];
            forall i :: 0 <= i < |e| - 1 ==> e[i] <= e[i + 1]
  {
  }
}

/**
  What the container's users can rely on across several calls, stated for
  every valid container, and the concrete integer scenarios the test suite
  checks, with the comparator `a - b`.
 */
module Scenarios {
  import opened Wrappers
  import opened Comparators
  import opened Splice
  import opened SortedArrays
  import Permutations

  /** After `add(x)`, `contains(x)` holds. */
  method AddThenContains<T(!new)>(a: SortedArray<T>, x: T) returns (found: bool)
    requires Valid(a)
    ensures found
  {
    var b := Add(a, x);
    found := Contains(b, x);
  }

  /**
    Adding an item that had no equivalent and then removing it gives back
    the original contents, with nothing equivalent to the item left behind.
   */
  method AddThenRemove<T(!new)>(a: SortedArray<T>, x: T) returns (b: SortedArray<T>, found: bool)
    requires Valid(a) && !HasEquivalent(a.cmp, a.items, x)
    ensures Valid(b) && !found
    ensures Length(b) == Length(a)
    ensures b.items == a.items
  {
    var added := Add(a, x);
    b := Remove(added, x);
    CountPositiveIffPresent(a.cmp, a.items, x);
    found := Contains(b, x);
    ghost var k :| SplitsAt(a.cmp, a.items, x, k) && added.items == InsertAt(a.items, k, x);
    ghost var i :| EquivalentAt(added, x, i) && b.items == DeleteAt(added.items, i);
    DeleteOnlyEquivalent(a.cmp, a.items, k, x, i);
  }

  /**
    When `s` held nothing equivalent to `x`, the only element equivalent to
    `x` after inserting it at `k` is that copy, so deleting any equivalent
    element gives back `s`.
   */
  lemma DeleteOnlyEquivalent<T(!new)>(cmp: (T, T) -> int, s: seq<T>, k: nat, x: T, i: nat)
    requires k <= |s| && !HasEquivalent(cmp, s, x)
    requires i < |s| + 1 && cmp(x, InsertAt(s, k, x)[i]) == 0
    ensures DeleteAt(InsertAt(s, k, x), i) == s
  {
    assert i == k;
    DeleteUndoesInsert(s, k, x);
  }

  /**
    With exactly two equivalent copies, the first `remove` leaves one behind
    and the second leaves none.
   */
  method RemoveDuplicateTwice<T(!new)>(a: SortedArray<T>, x: T)
    returns (afterFirst: bool, afterSecond: bool)
    requires Valid(a) && CountEquivalent(a.cmp, a.items, x) == 2
    ensures afterFirst && !afterSecond
  {
    CountPositiveIffPresent(a.cmp, a.items, x);
    var once := Remove(a, x);
    afterFirst := Contains(once, x);
    CountPositiveIffPresent(once.cmp, once.items, x);
    var twice := Remove(once, x);
    afterSecond := Contains(twice, x);
  }

  /** The integer comparator of the test suite. */
  function IntCompare(a: int, b: int): int {
    a - b
  }

  lemma IntCompareIsTotalOrder()
    ensures IsTotalPreorder(IntCompare) && EquivalentMeansEqual(IntCompare)
  {
  }

  /** A sorted arrangement of integers is the only one with its multiset. */
  lemma SortsTo(s: seq<int>, expected: seq<int>)
    requires Sorted(IntCompare, s)
    requires forall i :: 0 <= i < |expected| - 1 ==> expected[i] <= expected[i + 1]
    requires multiset(s) == multiset(expected)
    ensures s == expected
  {
    SortedInts(expected);
    IntCompareIsTotalOrder();
    SortedUnique(IntCompare, s, expected);
  }

  /** Integers in non-decreasing order are sorted under `IntCompare`. */
  lemma SortedInts(s: seq<int>)
    requires forall i :: 0 <= i < |s| - 1 ==> s[i] <= s[i + 1]
    ensures Sorted(IntCompare, s)
  {
    IntCompareIsTotalOrder();
    SortedFromNeighbours(IntCompare, s);
  }

  lemma ConstructionOutputIsUnique(s: seq<int>)
    requires Sorted(IntCompare, s)
    requires multiset(s) == multiset([-70, -10, -7, 2, 2, 5, 10])
    ensures s == [-70, -10, -7, 2, 2, 5, 10]
  {
    Permutations.ConstructionOutputIsOrdered();
    SortsTo(s, [-70, -10, -7, 2, 2, 5, 10]);
  }

  /** The only sorted arrangement of the construction input. */
  lemma ConstructionResult(s: seq<int>)
    requires Sorted(IntCompare, s)
    requires multiset(s) == multiset([-10, 10, 2, 5, 2, -7, -70])
    ensures s == [-70, -10, -7, 2, 2, 5, 10]
  {
    Permutations.ConstructionInputIsPermuted(s);
    ConstructionOutputIsUnique(s);
  }

  lemma AddedOutputIsUnique(s: seq<int>)
    requires Sorted(IntCompare, s)
    requires multiset(s) == multiset([-1024, -10, -10, 0, 1, 5, 1024])
    ensures s == [-1024, -10, -10, 0, 1, 5, 1024]
  {
    Permutations.AddedOutputIsOrdered();
    SortsTo(s, [-1024, -10, -10, 0, 1, 5, 1024]);
  }

  /** The only sorted arrangement of the added items. */
  lemma AddedResult(s: seq<int>)
    requires Sorted(IntCompare, s)
    requires multiset(s) == multiset([1024, -10, 5, 0, -10, 1, -1024])
    ensures s == [-1024, -10, -10, 0, 1, 5, 1024]
  {
    Permutations.AddedInputIsPermuted(s);
    AddedOutputIsUnique(s);
  }

  /** In the added scenario, -10 sits at indices 1 and 2 only. */
  lemma DuplicatePositions(s: seq<int>, r: int)
    requires s == [-1024, -10, -10, 0, 1, 5, 1024]
    requires 0 <= r < |s| && IntCompare(-10, s[r]) == 0
    ensures r == 1 || r == 2
  {
  }

  /** Construction from `[-10, 10, 2, 5, 2, -7, -70]`. */
  method ConstructFromUnsorted() returns (v: seq<int>, length: nat, first: Option<int>)
    ensures v == [-70, -10, -7, 2, 2, 5, 10]
    ensures length == 7 && first == Some(-70)
  {
    IntCompareIsTotalOrder();
    var initial := [-10, 10, 2, 5, 2, -7, -70];
    var a := New(IntCompare, Some(initial));
    ConstructionResult(a.items);
    v := Values(a);
    length := Length(a);
    first := Get(a, 0);
  }

  /** An empty container answers "absent" for indices 0 and -1 and "not found" for 5. */
  method EmptyQueries() returns (atZero: Option<int>, atMinusOne: Option<int>, index: int)
    ensures atZero == None && atMinusOne == None && index == -1
  {
    IntCompareIsTotalOrder();
    var a := New(IntCompare, None);
    atZero := Get(a, 0);
    atMinusOne := Get(a, -1);
    index := IndexOf(a, 5);
  }

  /** The suite's `addItems`: `add` each item in turn. */
  method AddItems<T(!new)>(a: SortedArray<T>, xs: seq<T>) returns (r: SortedArray<T>)
    requires Valid(a)
    ensures Valid(r) && r.cmp == a.cmp
    ensures multiset(r.items) == multiset(a.items) + multiset(xs)
  {
    r := a;
    var n := 0;
    while n < |xs|
      invariant n <= |xs|
      invariant Valid(r) && r.cmp == a.cmp
      invariant multiset(r.items) == multiset(a.items) + multiset(xs[..n])
    {
      assert xs[..n + 1] == xs[..n] + [xs[n]];
      r := Add(r, xs[n]);
      n := n + 1;
    }
    assert xs[..n] == xs;
  }

  /**
    Adding `[1024, -10, 5, 0, -10, 1, -1024]` one at a time to an empty
    container yields their sorted order.
   */
  method AddUnsorted() returns (a: SortedArray<int>)
    ensures Valid(a) && a.cmp == IntCompare
    ensures Values(a) == [-1024, -10, -10, 0, 1, 5, 1024]
  {
    IntCompareIsTotalOrder();
    a := New(IntCompare, None);
    a := AddItems(a, [1024, -10, 5, 0, -10, 1, -1024]);
    AddedResult(a.items);
  }

  /** After those additions, the duplicate -10 is found at index 1 or 2. */
  method IndexOfDuplicate() returns (duplicateAt: int)
    ensures duplicateAt == 1 || duplicateAt == 2
  {
    var a := AddUnsorted();
    assert a.items[1] == -10;
    assert a.cmp(-10, a.items[1]) == 0;
    duplicateAt := IndexOf(a, -10);
    DuplicatePositions(a.items, duplicateAt);
  }
}
