/** Hoare partition (partitioning/hoare.go): two pointers close in from both
    ends around the pivot elements[0], swapping every pair found on the wrong
    sides, until they meet. */
module Partitioning {

  /** Every element up to index `k` is at most `pivot` and every later element
      is at least `pivot`. */
  ghost predicate SplitAt(s: seq<int>, k: int, pivot: int) {
    (forall a :: 0 <= a <= k && a < |s| ==> s[a] <= pivot) &&
    (forall b :: k < b < |s| && 0 <= b ==> s[b] >= pivot)
  }

  /** Partitions `elements` in place around its first element. */
  method HoarePartition(elements: array<int>)
    modifies elements
    ensures elements.Length <= 1 ==> elements[..] == old(elements[..])
    ensures multiset(elements[..]) == multiset(old(elements[..]))
    ensures elements.Length > 1 ==>
      exists k :: 0 <= k < elements.Length && SplitAt(elements[..], k, old(elements[0]))
  {
    if elements.Length <= 1 {
      return;
    }
    var n := elements.Length;
    var i, j, pivot := 0, n - 1, elements[0];
    // si and sj are sentinels: an element at least the pivot at or after i,
    // and one at most the pivot at or before j, which stop the two scans.
    ghost var si, sj := 0, 0;
    while true
      invariant 0 <= i <= si < n && 0 <= sj <= j < n && i <= j + 1
      invariant elements[si] >= pivot && elements[sj] <= pivot
      invariant forall a :: 0 <= a < i ==> elements[a] <= pivot
      invariant forall b :: j < b < n ==> elements[b] >= pivot
      invariant multiset(elements[..]) == multiset(old(elements[..]))
      decreases j - i + 1
    {
      while elements[i] < pivot
        invariant i <= si
        invariant forall a :: 0 <= a < i ==> elements[a] <= pivot
        decreases si - i
      {
        i := i + 1;
      }
      while elements[j] > pivot
        invariant sj <= j
        invariant forall b :: j < b < n ==> elements[b] >= pivot
        decreases j - sj
      {
        j := j - 1;
      }
      if i >= j {
        assert SplitAt(elements[..], j, pivot);
        break;
      }
      elements[i], elements[j] := elements[j], elements[i];
      si, sj := j, i;
      i := i + 1;
      j := j - 1;
    }
  }
}
