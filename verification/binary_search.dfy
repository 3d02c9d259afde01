/**
  The two binary searches of the container: the insertion point used by
  `add` and the lookup used by `indexOf`, `contains` and `remove`. Both
  search the closed range `[left, right]` of a sorted sequence and probe its
  midpoint rounded half up.
 */
module BinarySearch {
  import opened Comparators
  import opened Splice

  /** JavaScript's `Math.round`: the nearest integer, halves rounded up. */
  function JsRound(x: real): int {
    (x + 0.5).Floor
  }

  /** The probe `Math.round((right + left) / 2)`, in integer arithmetic. */
  function Midpoint(left: nat, right: nat): (probe: nat)
    requires left <= right
    ensures left <= probe <= right
    ensures probe - left == right - probe || probe - left == right - probe + 1
  {
    (left + right + 1) / 2
  }

  /** The integer midpoint is exactly what `Math.round` gives on the halved sum. */
  lemma MidpointIsRoundedHalf(left: nat, right: nat)
    requires left <= right
    ensures Midpoint(left, right) == JsRound((left + right) as real / 2.0)
  {
    var n := left + right;
    var x := n as real / 2.0 + 0.5;
    if n % 2 == 0 {
      assert x == (n / 2) as real + 0.5;
    } else {
      assert x == ((n + 1) / 2) as real;
    }
  }

  /**
    The index at which `add` places `item`. On an empty sequence it is 0;
    otherwise it splits `s` around `item`, and when the search meets an
    equivalent element it returns the index just after that element.
   */
  method IndexForInsert<T(!new)>(cmp: (T, T) -> int, s: seq<T>, item: T) returns (k: nat)
    requires IsTotalPreorder(cmp) && Sorted(cmp, s)
    ensures SplitsAt(cmp, s, item, k)
    ensures |s| == 0 ==> k == 0
    ensures HasEquivalent(cmp, s, item) <==> 0 < k && cmp(item, s[k - 1]) == 0
    ensures !HasEquivalent(cmp, s, item) ==>
              (forall i :: 0 <= i < k ==> cmp(item, s[i]) > 0) &&
              (forall i :: k <= i < |s| ==> cmp(item, s[i]) < 0)
  {
    if |s| == 0 {
      return 0;
    }
    var left: nat, right: int := 0, |s| - 1;
    var probe: nat, compareResult := 0, 0;
    while left <= right
      invariant 0 <= left <= right + 1 <= |s|
      invariant forall i :: 0 <= i < left ==> cmp(item, s[i]) > 0
      invariant forall i :: right < i < |s| ==> cmp(item, s[i]) < 0
      invariant compareResult == 0 ==> left == 0 && right == |s| - 1
      invariant compareResult > 0 ==> left == probe + 1
      invariant compareResult < 0 ==> right == probe - 1 && left <= probe
      decreases right - left
    {
      probe := Midpoint(left, right);
      compareResult := cmp(item, s[probe]);
      StrictAcross(cmp, s, item, probe);
      if compareResult > 0 {
        left := probe + 1;
      } else if compareResult < 0 {
        right := probe - 1;
      } else {
        EquivalentSplits(cmp, s, item, probe);
        return probe + 1;
      }
    }
    if compareResult > 0 {
      return probe + 1;
    }
    return probe;
  }

  /**
    The lookup behind `indexOf`: -1 exactly when no element is equivalent to
    `item`, otherwise the index of some equivalent element (which one of a
    run of equivalents depends on the probe path).
   */
  method IndexOf<T(!new)>(cmp: (T, T) -> int, s: seq<T>, item: T) returns (r: int)
    requires IsTotalPreorder(cmp) && Sorted(cmp, s)
    ensures -1 <= r < |s|
    ensures 0 <= r ==> cmp(item, s[r]) == 0
    ensures r == -1 <==> !HasEquivalent(cmp, s, item)
  {
    var left: nat, right: int := 0, |s| - 1;
    while left <= right
      invariant 0 <= left <= right + 1 <= |s|
      invariant forall i :: 0 <= i < left ==> cmp(item, s[i]) > 0
      invariant forall i :: right < i < |s| ==> cmp(item, s[i]) < 0
      decreases right - left
    {
      var probe: int := Midpoint(left, right);
      var compareResult := cmp(item, s[probe]);
      StrictAcross(cmp, s, item, probe);
      if compareResult > 0 {
        left := probe + 1;
      } else if compareResult < 0 {
        right := probe - 1;
      } else {
        return probe;
      }
    }
    return -1;
  }
}
