/**
  The SortedArray container: a comparator fixed at construction and a
  private sequence kept sorted under it. Every mutator returns the new
  container value; the caller's initial sequence is taken by value, so no
  later operation can change it.
 */
module SortedArrays {
  import opened Wrappers
  import opened Comparators
  import opened Splice
  import BinarySearch

  datatype SortedArray<!T> = SortedArray(cmp: (T, T) -> int, items: seq<T>)

  /** The container invariant: a consistent comparator and a sorted sequence. */
  ghost predicate Valid<T(!new)>(a: SortedArray<T>) {
    IsTotalPreorder(a.cmp) && Sorted(a.cmp, a.items)
  }

  /**
    Construction. Without initial items the container is empty; with them it
    holds a sorted rearrangement of exactly those items. The host sort is
    replaced by inserting the items one at a time.
   */
  method New<T(!new)>(cmp: (T, T) -> int, initial: Option<seq<T>>) returns (a: SortedArray<T>)
    requires IsTotalPreorder(cmp)
    ensures Valid(a) && a.cmp == cmp
    ensures initial.None? ==> a.items == []
    ensures initial.Some? ==> multiset(a.items) == multiset(initial.value)
    ensures initial.Some? ==> |a.items| == |initial.value|
  {
    a := SortedArray(cmp, []);
    if initial.None? {
      return;
    }
    var xs := initial.value;
    var n := 0;
    while n < |xs|
      invariant n <= |xs|
      invariant Valid(a) && a.cmp == cmp
      invariant multiset(a.items) == multiset(xs[..n])
      invariant |a.items| == n
    {
      assert xs[..n + 1] == xs[..n] + [xs[n]];
      a := Add(a, xs[n]);
      n := n + 1;
    }
    assert xs[..n] == xs;
  }

  /**
    `add`: `item` goes in at the index the insertion search picks, every old
    element keeps its relative order, and the result is still sorted. When
    an equivalent element was already present, the new item lands right
    after one of them.
   */
  method Add<T(!new)>(a: SortedArray<T>, item: T) returns (r: SortedArray<T>)
    requires Valid(a)
    ensures Valid(r) && r.cmp == a.cmp
    ensures exists k :: SplitsAt(a.cmp, a.items, item, k) && r.items == InsertAt(a.items, k, item)
    ensures HasEquivalent(a.cmp, a.items, item) ==>
              exists k :: 0 < k <= |a.items| && EquivalentAt(a, item, k - 1) && r.items == InsertAt(a.items, k, item)
    ensures |r.items| == |a.items| + 1
    ensures multiset(r.items) == multiset(a.items) + multiset{item}
    ensures HasEquivalent(r.cmp, r.items, item)
    ensures CountEquivalent(r.cmp, r.items, item) == CountEquivalent(a.cmp, a.items, item) + 1
  {
    var k := BinarySearch.IndexForInsert(a.cmp, a.items, item);
    if k == |a.items| {
      assert a.items + [item] == InsertAt(a.items, k, item);
      r := SortedArray(a.cmp, a.items + [item]);
    } else {
      r := SortedArray(a.cmp, InsertAt(a.items, k, item));
    }
    InsertKeepsSorted(a.cmp, a.items, item, k);
    CountAfterInsert(a.cmp, a.items, k, item, item);
    assert r.items[k] == item;
    if HasEquivalent(a.cmp, a.items, item) {
      assert EquivalentAt(a, item, k - 1);
    }
  }

  /** The element at `i` compares equal to `item`. */
  ghost predicate EquivalentAt<T>(a: SortedArray<T>, item: T, i: int) {
    0 <= i < |a.items| && a.cmp(item, a.items[i]) == 0
  }

  /**
    `remove`: when some element is equivalent to `item`, exactly one such
    element is deleted; otherwise the container is unchanged.
   */
  method Remove<T(!new)>(a: SortedArray<T>, item: T) returns (r: SortedArray<T>)
    requires Valid(a)
    ensures Valid(r) && r.cmp == a.cmp
    ensures HasEquivalent(a.cmp, a.items, item) ==>
              exists i :: EquivalentAt(a, item, i) && r.items == DeleteAt(a.items, i)
    ensures !HasEquivalent(a.cmp, a.items, item) ==> r.items == a.items
    ensures |r.items| == if HasEquivalent(a.cmp, a.items, item) then |a.items| - 1 else |a.items|
    ensures CountEquivalent(r.cmp, r.items, item)
         == if HasEquivalent(a.cmp, a.items, item)
            then CountEquivalent(a.cmp, a.items, item) - 1
            else CountEquivalent(a.cmp, a.items, item)
  {
    var i := BinarySearch.IndexOf(a.cmp, a.items, item);
    if i != -1 {
      r := SortedArray(a.cmp, DeleteAt(a.items, i));
      DeleteKeepsSorted(a.cmp, a.items, i);
      CountAfterDelete(a.cmp, a.items, i, item);
      assert EquivalentAt(a, item, i);
    } else {
      r := a;
    }
  }

  /** `indexOf` on the container's sequence. */
  method IndexOf<T(!new)>(a: SortedArray<T>, item: T) returns (r: int)
    requires Valid(a)
    ensures -1 <= r < |a.items|
    ensures 0 <= r ==> a.cmp(item, a.items[r]) == 0
    ensures r == -1 <==> !HasEquivalent(a.cmp, a.items, item)
  {
    r := BinarySearch.IndexOf(a.cmp, a.items, item);
  }

  /** `contains`: some element is equivalent to `item`, i.e. its count is positive. */
  method Contains<T(!new)>(a: SortedArray<T>, item: T) returns (found: bool)
    requires Valid(a)
    ensures found <==> HasEquivalent(a.cmp, a.items, item)
    ensures found <==> CountEquivalent(a.cmp, a.items, item) > 0
  {
    var i := IndexOf(a, item);
    found := i != -1;
    CountPositiveIffPresent(a.cmp, a.items, item);
  }

  /** `get`: the element at `index`, absent outside `[0, length)`. */
  function Get<T>(a: SortedArray<T>, index: int): (r: Option<T>)
    ensures r.Some? <==> 0 <= index < |a.items|
    ensures r.Some? ==> r.value == a.items[index]
  {
    if 0 <= index < |a.items| then Some(a.items[index]) else None
  }

  /** `length`: the number of stored elements, i.e. of indices `get` answers. */
  function Length<T>(a: SortedArray<T>): (n: nat)
    ensures forall i :: Get(a, i).Some? <==> 0 <= i < n
  {
    |a.items|
  }

  /** `isEmpty`: holds exactly when the length is zero. */
  function IsEmpty<T>(a: SortedArray<T>): (b: bool)
    ensures b <==> Length(a) == 0
  {
    |a.items| == 0
  }

  /** `values`: the elements in sorted order, agreeing with `get` at every index. */
  function Values<T(!new)>(a: SortedArray<T>): (v: seq<T>)
    requires Valid(a)
    ensures Sorted(a.cmp, v)
    ensures |v| == Length(a)
    ensures forall i :: 0 <= i < |v| ==> Get(a, i) == Some(v[i])
  {
    a.items
  }
}
