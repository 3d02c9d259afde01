/**
  The two array edits the container performs: inserting one element at an
  index (`push` when the index is the length, `splice(index, 0, item)`
  otherwise) and deleting the element at an index (`splice(index, 1)`).
 */
module Splice {
  import opened Comparators

  /** `s` with `item` placed at index `k`; later elements shift right by one. */
  function InsertAt<T>(s: seq<T>, k: nat, item: T): (r: seq<T>)
    requires k <= |s|
    ensures |r| == |s| + 1
    ensures r[k] == item
    ensures forall i :: 0 <= i < k ==> r[i] == s[i]
    ensures forall i :: k < i < |r| ==> r[i] == s[i - 1]
    ensures multiset(r) == multiset(s) + multiset{item}
  {
    assert s == s[..k] + s[k..];
    s[..k] + [item] + s[k..]
  }

  /** `s` without the element at index `k`; later elements shift left by one. */
  function DeleteAt<T>(s: seq<T>, k: nat): (r: seq<T>)
    requires k < |s|
    ensures |r| == |s| - 1
    ensures forall i :: 0 <= i < k ==> r[i] == s[i]
    ensures forall i :: k <= i < |r| ==> r[i] == s[i + 1]
    ensures multiset(r) == multiset(s) - multiset{s[k]}
  {
    assert s == s[..k] + [s[k]] + s[k + 1..];
    s[..k] + s[k + 1..]
  }

  /** Deleting what was just inserted gives back the original sequence. */
  lemma DeleteUndoesInsert<T>(s: seq<T>, k: nat, item: T)
    requires k <= |s|
    ensures DeleteAt(InsertAt(s, k, item), k) == s
  {
    var r := DeleteAt(InsertAt(s, k, item), k);
    assert forall i :: 0 <= i < |s| ==> r[i] == s[i];
  }

  /**
    `k` is a place for `item` in `s`: everything before `k` sorts no later
    than `item`, everything from `k` on sorts no earlier.
   */
  ghost predicate SplitsAt<T(!new)>(cmp: (T, T) -> int, s: seq<T>, item: T, k: nat) {
    && k <= |s|
    && (forall i :: 0 <= i < k ==> cmp(item, s[i]) >= 0)
    && (forall i :: k <= i < |s| ==> cmp(item, s[i]) <= 0)
  }

  /** Inserting an item at a place that splits it keeps the sequence sorted. */
  lemma InsertKeepsSorted<T(!new)>(cmp: (T, T) -> int, s: seq<T>, item: T, k: nat)
    requires IsTotalPreorder(cmp) && Sorted(cmp, s)
    requires SplitsAt(cmp, s, item, k)
    ensures Sorted(cmp, InsertAt(s, k, item))
  {
    var r := InsertAt(s, k, item);
    forall i, j | 0 <= i < j < |r|
      ensures cmp(r[i], r[j]) <= 0
    {
      if j == k {
        assert cmp(item, r[i]) >= 0;
      } else if i == k {
        assert cmp(item, r[j]) <= 0;
      } else {
        var i' := if i < k then i else i - 1;
        var j' := if j < k then j else j - 1;
        assert r[i] == s[i'] && r[j] == s[j'] && i' < j';
      }
    }
  }

  /** Deleting any element keeps a sorted sequence sorted. */
  lemma DeleteKeepsSorted<T(!new)>(cmp: (T, T) -> int, s: seq<T>, k: nat)
    requires Sorted(cmp, s) && k < |s|
    ensures Sorted(cmp, DeleteAt(s, k))
  {
    var r := DeleteAt(s, k);
    forall i, j | 0 <= i < j < |r|
      ensures cmp(r[i], r[j]) <= 0
    {
      var i' := if i < k then i else i + 1;
      var j' := if j < k then j else j + 1;
      assert r[i] == s[i'] && r[j] == s[j'] && i' < j';
    }
  }

  /** The pieces on either side of an insertion. */
  lemma InsertAtSplits<T>(s: seq<T>, k: nat, item: T)
    requires k <= |s|
    ensures s == s[..k] + s[k..]
    ensures InsertAt(s, k, item) == s[..k] + ([item] + s[k..])
  {
  }

  /** The pieces on either side of a deletion. */
  lemma DeleteAtSplits<T>(s: seq<T>, k: nat)
    requires k < |s|
    ensures s == s[..k] + ([s[k]] + s[k + 1..])
    ensures DeleteAt(s, k) == s[..k] + s[k + 1..]
  {
  }

  /** Counting over a sequence that starts with `m`. */
  lemma CountCons<T(!new)>(cmp: (T, T) -> int, m: T, b: seq<T>, x: T)
    ensures CountEquivalent(cmp, [m] + b, x)
         == (if cmp(x, m) == 0 then 1 else 0) + CountEquivalent(cmp, b, x)
  {
    assert ([m] + b)[0] == m;
    assert ([m] + b)[1..] == b;
  }

  /** Counting over `a`, then `m`, then `b`. */
  lemma CountAround<T(!new)>(cmp: (T, T) -> int, a: seq<T>, m: T, b: seq<T>, x: T)
    ensures CountEquivalent(cmp, a + ([m] + b), x)
         == CountEquivalent(cmp, a + b, x) + (if cmp(x, m) == 0 then 1 else 0)
  {
    CountConcat(cmp, a, [m] + b, x);
    CountCons(cmp, m, b, x);
    CountConcat(cmp, a, b, x);
  }

  /** Inserting an element adds one to the count of everything equivalent to it. */
  lemma CountAfterInsert<T(!new)>(cmp: (T, T) -> int, s: seq<T>, k: nat, item: T, x: T)
    requires k <= |s|
    ensures CountEquivalent(cmp, InsertAt(s, k, item), x)
         == CountEquivalent(cmp, s, x) + (if cmp(x, item) == 0 then 1 else 0)
  {
    InsertAtSplits(s, k, item);
    CountAround(cmp, s[..k], item, s[k..], x);
  }

  /** Deleting an element takes one off the count of everything equivalent to it. */
  lemma CountAfterDelete<T(!new)>(cmp: (T, T) -> int, s: seq<T>, k: nat, x: T)
    requires k < |s|
    ensures CountEquivalent(cmp, DeleteAt(s, k), x)
         == CountEquivalent(cmp, s, x) - (if cmp(x, s[k]) == 0 then 1 else 0)
  {
    DeleteAtSplits(s, k);
    CountAround(cmp, s[..k], s[k], s[k + 1..], x);
  }
}
