/** Heap sort (sorting/heap_sort.go): builds a max-heap over the caller's
    data, then repeatedly swaps the root into the last unsorted position and
    re-heapifies the shrinking prefix. */
module HeapSorting {
  import opened Heaps
  import opened Comparators

  /** No element at or before `i` exceeds an element after `i`. */
  ghost predicate Partitioned(s: seq<int>, i: int) {
    forall p, q :: 0 <= p <= i < q < |s| ==> s[p] <= s[q]
  }

  /** One extraction step: swapping the root of the max-heap data[..i+1] into
      position i and re-heapifying [0, i) grows the sorted tail by one. */
  lemma ExtractionStep(before: seq<int>, after: seq<int>, i: int)
    requires 0 <= i < |before| == |after|
    requires IsHeapPrefix(MaxHeap, before, i + 1)
    requires Sorted(DefaultComparator(), before[i + 1..]) && Partitioned(before, i)
    requires after[i..] == Swap(before, 0, i)[i..]
    requires multiset(after[..i]) == multiset(Swap(before, 0, i)[..i])
    ensures Sorted(DefaultComparator(), after[i..]) && Partitioned(after, i - 1)
  {
    var c := DefaultComparator();
    var swapped := Swap(before, 0, i);
    forall k | 0 <= k <= i ensures before[k] <= before[0] {
      RootIsExtreme(MaxHeap, before, i + 1, k);
    }
    assert AllAtMost(c, swapped[..i], swapped[i]);
    PermutationKeepsBounds(c, swapped[..i], after[..i], swapped[i], swapped[i]);
    forall p, q | 0 <= p <= i - 1 < q < |after| ensures after[p] <= after[q] {
      assert AllAtMost(c, swapped[..i], swapped[q]);
      PermutationKeepsBounds(c, swapped[..i], after[..i], swapped[q], swapped[q]);
      assert after[..i][p] in after[..i];
    }
    assert forall k :: i <= k < |after| ==> after[k] == swapped[k];
  }

  /** Sorts `a` ascending: a max-heap is built over its contents, then the
      root is swapped to position i and the prefix a[..i] re-heapified, for i
      from the end down to 0. */
  method HeapSort(a: array<int>)
    modifies a
    ensures Sorted(DefaultComparator(), a[..])
    ensures multiset(a[..]) == multiset(old(a[..]))
  {
    ghost var input := a[..];
    var heap := new Heap(MaxHeap, a[..]);
    assert multiset(heap.data) == multiset(input);
    var n := a.Length;
    var i := n - 1;
    while i > -1
      invariant -1 <= i < n
      invariant |heap.data| == n && heap.heapType == MaxHeap
      invariant multiset(heap.data) == multiset(input)
      invariant IsHeapPrefix(MaxHeap, heap.data, i + 1)
      invariant Sorted(DefaultComparator(), heap.data[i + 1..]) && Partitioned(heap.data, i)
    {
      ghost var before := heap.data;
      heap.data := Swap(heap.data, 0, i);
      heap.HeapifyToIndex(i);
      ExtractionStep(before, heap.data, i);
      i := i - 1;
    }
    forall k | 0 <= k < n {
      a[k] := heap.data[k];
    }
    assert a[..] == heap.data;
  }
}
