/**
  Three-way comparators and the facts about sorted sequences that the
  container relies on.

  A comparator `cmp(a, b)` is negative when `a` sorts before `b`, zero when
  they are equivalent and positive when `a` sorts after `b`. The container
  never checks its comparator; consistency is the caller's obligation, stated
  here as `IsTotalPreorder`.
 */
module Comparators {

  /** `cmp(a, a)` is zero for every element. */
  ghost predicate ZeroOnSelf<T(!new)>(cmp: (T, T) -> int) {
    forall a :: cmp(a, a) == 0
  }

  /** Swapping the arguments flips the sign of the result. */
  ghost predicate SignAntisymmetric<T(!new)>(cmp: (T, T) -> int) {
    forall a, b :: cmp(a, b) > 0 <==> cmp(b, a) < 0
  }

  /** "Sorts no later than" is transitive. */
  ghost predicate LeTransitive<T(!new)>(cmp: (T, T) -> int) {
    forall a, b, c :: cmp(a, b) <= 0 && cmp(b, c) <= 0 ==> cmp(a, c) <= 0
  }

  ghost predicate IsTotalPreorder<T(!new)>(cmp: (T, T) -> int) {
    && ZeroOnSelf(cmp)
    && SignAntisymmetric(cmp)
    && LeTransitive(cmp)
  }

  /** Every earlier element sorts no later than every later one. */
  ghost predicate Sorted<T(!new)>(cmp: (T, T) -> int, s: seq<T>) {
    forall i, j :: 0 <= i < j < |s| ==> cmp(s[i], s[j]) <= 0
  }

  /** Some element of `s` compares equal to `item`. */
  ghost predicate HasEquivalent<T(!new)>(cmp: (T, T) -> int, s: seq<T>, item: T) {
    exists i :: 0 <= i < |s| && cmp(item, s[i]) == 0
  }

  /** The number of elements of `s` that compare equal to `item`. */
  function CountEquivalent<T(!new)>(cmp: (T, T) -> int, s: seq<T>, item: T): nat {
    if |s| == 0 then 0
    else (if cmp(item, s[0]) == 0 then 1 else 0) + CountEquivalent(cmp, s[1..], item)
  }

  /** An element is present exactly when it is counted at least once. */
  lemma {:induction false} CountPositiveIffPresent<T(!new)>(cmp: (T, T) -> int, s: seq<T>, item: T)
    ensures CountEquivalent(cmp, s, item) > 0 <==> HasEquivalent(cmp, s, item)
    decreases |s|
  {
    if |s| > 0 {
      CountPositiveIffPresent(cmp, s[1..], item);
      if HasEquivalent(cmp, s[1..], item) {
        var i :| 0 <= i < |s[1..]| && cmp(item, s[1..][i]) == 0;
        assert cmp(item, s[i + 1]) == 0;
      }
      if HasEquivalent(cmp, s, item) && cmp(item, s[0]) != 0 {
        var i :| 0 <= i < |s| && cmp(item, s[i]) == 0;
        assert s[1..][i - 1] == s[i];
      }
    }
  }

  /** Counting distributes over concatenation. */
  lemma {:induction false} CountConcat<T(!new)>(cmp: (T, T) -> int, a: seq<T>, b: seq<T>, item: T)
    ensures CountEquivalent(cmp, a + b, item)
         == CountEquivalent(cmp, a, item) + CountEquivalent(cmp, b, item)
    decreases |a|
  {
    if |a| == 0 {
      assert a + b == b;
    } else {
      assert (a + b)[1..] == a[1..] + b;
      CountConcat(cmp, a[1..], b, item);
    }
  }

  /** Chaining a strict and a non-strict comparison, in either order, is strict. */
  lemma GtTransitive<T(!new)>(cmp: (T, T) -> int, a: T, b: T, c: T)
    requires IsTotalPreorder(cmp)
    requires (cmp(a, b) > 0 && cmp(b, c) >= 0) || (cmp(a, b) >= 0 && cmp(b, c) > 0)
    ensures cmp(a, c) > 0
  {
    if cmp(a, b) > 0 {
      assert cmp(c, b) <= 0;
    } else {
      assert cmp(b, a) <= 0;
    }
  }

  /**
    In a sorted sequence, an item that sorts strictly after the element at
    `p` sorts strictly after every element up to `p`; one that sorts
    strictly before it sorts strictly before every element from `p` on.
   */
  lemma StrictAcross<T(!new)>(cmp: (T, T) -> int, s: seq<T>, item: T, p: nat)
    requires IsTotalPreorder(cmp) && Sorted(cmp, s) && p < |s|
    ensures cmp(item, s[p]) > 0 ==> forall i :: 0 <= i <= p ==> cmp(item, s[i]) > 0
    ensures cmp(item, s[p]) < 0 ==> forall i :: p <= i < |s| ==> cmp(item, s[i]) < 0
  {
    if cmp(item, s[p]) > 0 {
      forall i | 0 <= i <= p
        ensures cmp(item, s[i]) > 0
      {
        if i < p {
          assert cmp(s[i], s[p]) <= 0;
          assert cmp(s[p], s[i]) >= 0;
          GtTransitive(cmp, item, s[p], s[i]);
        }
      }
    }
    if cmp(item, s[p]) < 0 {
      forall i | p <= i < |s|
        ensures cmp(item, s[i]) < 0
      {
        if p < i {
          assert cmp(s[p], s[i]) <= 0;
          assert cmp(s[p], item) > 0;
          GtTransitive(cmp, s[i], s[p], item);
        }
      }
    }
  }

  /**
    In a sorted sequence, an item equivalent to the element at `p` sorts no
    earlier than every element up to `p` and no later than every element from
    `p` on.
   */
  lemma EquivalentSplits<T(!new)>(cmp: (T, T) -> int, s: seq<T>, item: T, p: nat)
    requires IsTotalPreorder(cmp) && Sorted(cmp, s) && p < |s|
    requires cmp(item, s[p]) == 0
    ensures forall i :: 0 <= i <= p ==> cmp(item, s[i]) >= 0
    ensures forall i :: p <= i < |s| ==> cmp(item, s[i]) <= 0
  {
    assert cmp(s[p], item) == 0;
    forall i | 0 <= i <= p
      ensures cmp(item, s[i]) >= 0
    {
      if i < p {
        assert cmp(s[i], s[p]) <= 0;
        assert cmp(s[i], item) <= 0;
      }
    }
    forall i | p <= i < |s|
      ensures cmp(item, s[i]) <= 0
    {
      if p < i {
        assert cmp(s[p], s[i]) <= 0;
      }
    }
  }

  /** The first element of a sorted sequence sorts no later than any of its elements. */
  lemma HeadIsLeast<T(!new)>(cmp: (T, T) -> int, s: seq<T>, x: T)
    requires IsTotalPreorder(cmp) && Sorted(cmp, s)
    requires x in multiset(s)
    ensures cmp(s[0], x) <= 0
  {
    var j :| 0 <= j < |s| && s[j] == x;
    if j > 0 {
      assert cmp(s[0], s[j]) <= 0;
    }
  }

  /** Under a transitive comparator, ordered neighbours make a sorted sequence. */
  lemma {:induction false} SortedFromNeighbours<T(!new)>(cmp: (T, T) -> int, s: seq<T>)
    requires LeTransitive(cmp)
    requires forall i :: 0 <= i < |s| - 1 ==> cmp(s[i], s[i + 1]) <= 0
    ensures Sorted(cmp, s)
    decreases |s|
  {
    if |s| > 1 {
      SortedFromNeighbours(cmp, s[1..]);
      forall j | 0 < j < |s|
        ensures cmp(s[0], s[j]) <= 0
      {
        if j > 1 {
          assert cmp(s[1..][0], s[1..][j - 1]) <= 0;
        }
      }
    }
  }

  /** Dropping the first element keeps a sequence sorted. */
  lemma SortedTail<T(!new)>(cmp: (T, T) -> int, s: seq<T>)
    requires Sorted(cmp, s) && |s| > 0
    ensures Sorted(cmp, s[1..])
  {
    forall i, j | 0 <= i < j < |s| - 1
      ensures cmp(s[1..][i], s[1..][j]) <= 0
    {
      assert s[1..][i] == s[i + 1] && s[1..][j] == s[j + 1];
    }
  }

  /** A comparator that only calls identical values equal. */
  ghost predicate EquivalentMeansEqual<T(!new)>(cmp: (T, T) -> int) {
    forall x, y :: cmp(x, y) == 0 ==> x == y
  }

  /**
    Two sorted arrangements of one multiset start with the same element when
    equivalence is equality.
   */
  lemma SameHead<T(!new)>(cmp: (T, T) -> int, a: seq<T>, b: seq<T>)
    requires IsTotalPreorder(cmp) && EquivalentMeansEqual(cmp)
    requires Sorted(cmp, a) && Sorted(cmp, b)
    requires multiset(a) == multiset(b) && |a| > 0
    ensures |b| > 0 && a[0] == b[0]
  {
    assert a[0] in multiset(a);
    HeadIsLeast(cmp, b, a[0]);
    assert b[0] in multiset(b);
    HeadIsLeast(cmp, a, b[0]);
    assert cmp(a[0], b[0]) == 0;
  }

  /**
    Under a comparator that only calls identical values equal, a sorted
    arrangement of a multiset is unique.
   */
  lemma {:induction false} SortedUnique<T(!new)>(cmp: (T, T) -> int, a: seq<T>, b: seq<T>)
    requires IsTotalPreorder(cmp) && EquivalentMeansEqual(cmp)
    requires Sorted(cmp, a) && Sorted(cmp, b)
    requires multiset(a) == multiset(b)
    ensures a == b
    decreases |a|
  {
    if |a| == 0 {
      assert |multiset(b)| == 0;
    } else {
      SameHead(cmp, a, b);
      assert a == [a[0]] + a[1..];
      assert b == [b[0]] + b[1..];
      assert multiset(a[1..]) == multiset(a) - multiset{a[0]};
      assert multiset(b[1..]) == multiset(b) - multiset{b[0]};
      SortedTail(cmp, a);
      SortedTail(cmp, b);
      SortedUnique(cmp, a[1..], b[1..]);
    }
  }
}
