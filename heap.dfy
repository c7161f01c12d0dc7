/** The indexable binary heap of the library (types/heap.go; sorting/ds/heap.go
    holds the same code without HeapifyToIndex and is modelled by the same class).

    The heap is its backing sequence plus a polarity. The tree is implicit: the
    children of index i are 2i+1 and 2i+2. The polarity selects the heap-order
    relation `Compare`: "less than" for a min-heap, "greater than" for a
    max-heap. The heap property says that no child is `Compare`-ahead of its
    parent.

    Each repair routine of the source has a pure twin (SiftDown, SiftUp,
    DeleteAt) that says what the routine computes; the methods of class Heap
    are proved equal to them and the lemmas below state what they achieve.
    The two defects of the source are kept as written: bubbleUp takes i/2 as
    the parent of i, and Delete(i) with i > 0 repairs downwards only. */
module Heaps {
  import Comparators

  datatype HeapType = MinHeap | MaxHeap

  /** The heap-order relation: DefaultComparator's LessThan for a min-heap and
      its GreaterThan for a max-heap (see CompareIsDefaultComparator). */
  predicate Compare(t: HeapType, a: int, b: int) {
    match t
    case MinHeap => a < b
    case MaxHeap => a > b
  }

  lemma CompareIsDefaultComparator(t: HeapType, a: int, b: int)
    ensures Compare(t, a, b) <==>
      if t == MinHeap then Comparators.DefaultComparator().LessThan(a, b)
      else Comparators.DefaultComparator().GreaterThan(a, b)
  {
  }

  /** The parent of a non-root index under the 2i+1 / 2i+2 layout. */
  function Parent(c: int): int {
    (c - 1) / 2
  }

  function Left(i: int): (l: int)
    ensures i >= 0 ==> 0 < l && Parent(l) == i
  {
    2 * i + 1
  }

  function Right(i: int): (r: int)
    ensures i >= 0 ==> 0 < r && Parent(r) == i && r == Left(i) + 1
  {
    Left(i) + 1
  }

  /** Swapping two positions below `n` leaves the multiset of the first `n`
      elements and everything from `n` on as it was. */
  lemma SwapInPrefix(s: seq<int>, i: int, j: int, n: int)
    requires 0 <= i < n && 0 <= j < n && n <= |s|
    ensures Comparators.Swap(s, i, j)[n..] == s[n..]
    ensures multiset(Comparators.Swap(s, i, j)[..n]) == multiset(s[..n])
  {
    assert Comparators.Swap(s, i, j)[..n] == Comparators.Swap(s[..n], i, j);
  }

  /** Every pair (parent, child) with the child below `n` and the parent at
      index `lo` or beyond is in heap order. */
  ghost predicate OrderedFrom(t: HeapType, s: seq<int>, n: int, lo: int) {
    n <= |s| &&
    forall c :: 0 < c < n && lo <= Parent(c) ==> !Compare(t, s[c], s[Parent(c)])
  }

  /** The first `n` elements form a heap, the rest being ignored. */
  ghost predicate IsHeapPrefix(t: HeapType, s: seq<int>, n: int) {
    0 <= n && OrderedFrom(t, s, n, 0)
  }

  /** The heap property over the whole sequence. */
  ghost predicate IsHeap(t: HeapType, s: seq<int>) {
    IsHeapPrefix(t, s, |s|)
  }

  /** Sifting down from `k` will restore order from `lo` on: every pair is
      ordered except those whose parent is `k`, and the parent of `k`, when it
      counts, is not behind any child of `k`. */
  ghost predicate SiftReady(t: HeapType, s: seq<int>, n: int, lo: int, k: int) {
    n <= |s| && 0 <= lo <= k &&
    (forall c :: 0 < c < n && lo <= Parent(c) && Parent(c) != k ==>
       !Compare(t, s[c], s[Parent(c)])) &&
    (0 < k && lo <= Parent(k) ==>
       forall c :: 0 < c < n && Parent(c) == k ==> !Compare(t, s[c], s[Parent(k)]))
  }

  /** The child that bubbleDownToIndex(i, n) picks: the left child if it is
      ahead of s[i], then the right child if it is ahead of the pick so far;
      `i` itself when neither is. */
  function Best(t: HeapType, s: seq<int>, n: int, i: int): (b: int)
    requires 0 <= i && n <= |s|
    ensures b == i || (i < b < n && Parent(b) == i && Compare(t, s[b], s[i]))
    ensures b == i ==> forall c :: 0 < c < n && Parent(c) == i ==> !Compare(t, s[c], s[i])
    ensures b != i ==> forall c :: 0 < c < n && Parent(c) == i ==> !Compare(t, s[c], s[b])
    ensures b == Right(i) ==> Compare(t, s[b], s[Left(i)])
  {
    var l := Left(i);
    var r := Right(i);
    var best := if l < n && Compare(t, s[l], s[i]) then l else i;
    if r < n && Compare(t, s[r], s[best]) then r else best
  }

  /** What bubbleDownToIndex(i, n) does to the backing sequence `s` (and
      bubbleDown(i) when `n` is the size). */
  function SiftDown(t: HeapType, s: seq<int>, n: int, i: int): (r: seq<int>)
    requires 0 <= i && 0 <= n <= |s|
    ensures |r| == |s|
    ensures r[n..] == s[n..]
    ensures multiset(r[..n]) == multiset(s[..n])
    ensures multiset(r) == multiset(s)
    decreases n - i
  {
    var best := Best(t, s, n, i);
    if best != i then
      SwapInPrefix(s, i, best, n);
      SiftDown(t, Comparators.Swap(s, i, best), n, best)
    else
      s
  }

  /** Sifting down from `i` when the tree below is ordered puts every pair
      from `lo` on in order. */
  lemma {:induction false} SiftDownRestoresOrder(t: HeapType, s: seq<int>, n: int, lo: int, i: int)
    requires 0 <= n && SiftReady(t, s, n, lo, i)
    ensures OrderedFrom(t, SiftDown(t, s, n, i), n, lo)
    decreases n - i
  {
    var best := Best(t, s, n, i);
    if best != i {
      var s' := Comparators.Swap(s, i, best);
      forall c | 0 < c < n && lo <= Parent(c) && Parent(c) != best
        ensures !Compare(t, s'[c], s'[Parent(c)])
      {
        if c == best {
        } else if c == i {
        } else if Parent(c) == i {
        } else {
        }
      }
      SiftDownRestoresOrder(t, s', n, lo, best);
    }
  }

  /** In a heap prefix no element is ahead of the root: the root of a
      max-heap is its maximum and the root of a min-heap its minimum. */
  lemma {:induction false} RootIsExtreme(t: HeapType, s: seq<int>, n: int, k: int)
    requires IsHeapPrefix(t, s, n) && 0 <= k < n
    ensures !Compare(t, s[k], s[0])
    decreases k
  {
    if k > 0 {
      RootIsExtreme(t, s, n, Parent(k));
    }
  }

  /** Sifting down inside a heap prefix changes nothing. */
  lemma SiftDownKeepsHeap(t: HeapType, s: seq<int>, n: int, i: int)
    requires 0 <= i && IsHeapPrefix(t, s, n)
    ensures SiftDown(t, s, n, i) == s
  {
  }

  /** The indices bubbleUp(i) visits: i, i/2, i/4, ..., 0. */
  ghost predicate OnHalvingChain(k: int, i: int)
    decreases i
  {
    k == i || (i >= 1 && OnHalvingChain(k, i / 2))
  }

  /** What bubbleUp(i) does to the backing sequence: it swaps s[i] with s[i/2]
      while s[i] is ahead of or equal to s[i/2]. */
  function SiftUp(t: HeapType, s: seq<int>, i: int): (r: seq<int>)
    requires i < |s|
    ensures |r| == |s| && multiset(r) == multiset(s)
    ensures forall k :: 0 <= k < |s| && !OnHalvingChain(k, i) ==> r[k] == s[k]
    decreases i
  {
    if i < 1 then s
    else if Compare(t, s[i], s[i / 2]) || s[i] == s[i / 2] then
      SiftUp(t, Comparators.Swap(s, i, i / 2), i / 2)
    else s
  }

  /** Dropping the last element removes one copy of it from the multiset. */
  lemma DropLast(s: seq<int>)
    requires |s| > 0
    ensures multiset(s[..|s| - 1]) == multiset(s) - multiset{s[|s| - 1]}
  {
    assert s == s[..|s| - 1] + [s[|s| - 1]];
  }

  /** What Delete(i) does to the backing sequence. */
  function DeleteAt(t: HeapType, s: seq<int>, i: int): (r: seq<int>)
    ensures i < 0 || i >= |s| ==> r == s
    ensures 0 <= i < |s| ==> |r| == |s| - 1 && multiset(r) == multiset(s) - multiset{s[i]}
    ensures 0 <= i == |s| - 1 ==> r == s[..i]
  {
    if i > |s| - 1 || i < 0 then s
    else if |s| == 1 && i == 0 then []
    else if i == |s| - 1 then
      DropLast(s);
      s[..|s| - 1]
    else
      var moved := Comparators.Swap(s, i, |s| - 1)[..|s| - 1];
      RefillMultiset(s, i);
      SiftDown(t, moved, |moved|, i)
  }

  /** Moving the last element into position i and dropping the last slot
      removes one copy of s[i]. */
  lemma RefillMultiset(s: seq<int>, i: int)
    requires 0 <= i < |s|
    ensures multiset(Comparators.Swap(s, i, |s| - 1)[..|s| - 1]) == multiset(s) - multiset{s[i]}
  {
    var last := |s| - 1;
    if i < last {
      RefillShape(s, i);
      ReplaceMultiset(s[..i], s[i], s[i + 1..last], s[last]);
    } else {
      assert s == s[..last] + [s[last]];
    }
  }

  /** The refilled prefix, written out. */
  lemma RefillShape(s: seq<int>, i: int)
    requires 0 <= i < |s| - 1
    ensures Comparators.Swap(s, i, |s| - 1)[..|s| - 1] == s[..i] + [s[|s| - 1]] + s[i + 1..|s| - 1]
    ensures s == s[..i] + [s[i]] + s[i + 1..|s| - 1] + [s[|s| - 1]]
  {
  }

  /** Putting y in place of x and dropping the trailing y removes one x. */
  lemma ReplaceMultiset(pre: seq<int>, x: int, mid: seq<int>, y: int)
    ensures multiset(pre + [y] + mid) == multiset(pre + [x] + mid + [y]) - multiset{x}
  {
  }

  /** Deleting the root of a heap leaves a heap. */
  lemma DeleteRootKeepsHeap(t: HeapType, s: seq<int>)
    requires IsHeap(t, s)
    ensures IsHeap(t, DeleteAt(t, s, 0))
  {
    if |s| > 1 {
      var last := |s| - 1;
      var moved := Comparators.Swap(s, 0, last)[..last];
      assert SiftReady(t, moved, last, 0, 0);
      SiftDownRestoresOrder(t, moved, last, 0, 0);
    }
  }

  /** Deleting the last element of a heap leaves a heap. */
  lemma DeleteLastKeepsHeap(t: HeapType, s: seq<int>)
    requires IsHeap(t, s) && |s| > 0
    ensures IsHeap(t, DeleteAt(t, s, |s| - 1))
  {
  }

  lemma DeleteExampleIsHeap()
    ensures IsHeap(MinHeap, [1, 10, 2, 11, 12, 3, 4])
  {
  }

  lemma DeleteExampleResult()
    ensures DeleteAt(MinHeap, [1, 10, 2, 11, 12, 3, 4], 3) == [1, 10, 2, 4, 12, 3]
  {
    var s := [1, 10, 2, 11, 12, 3, 4];
    var moved := Comparators.Swap(s, 3, 6)[..6];
    assert moved == [1, 10, 2, 4, 12, 3];
    assert Best(MinHeap, moved, 6, 3) == 3;
  }

  /** Delete(3) on the min-heap [1,10,2,11,12,3,4] moves 4 under 10 and stops:
      downward repair alone does not restore the heap property. */
  lemma DeleteInteriorBreaksHeap()
    ensures IsHeap(MinHeap, [1, 10, 2, 11, 12, 3, 4])
    ensures DeleteAt(MinHeap, [1, 10, 2, 11, 12, 3, 4], 3) == [1, 10, 2, 4, 12, 3]
    ensures !IsHeap(MinHeap, [1, 10, 2, 4, 12, 3])
  {
    DeleteExampleIsHeap();
    DeleteExampleResult();
    DeleteExampleNotHeap();
  }

  lemma DeleteExampleNotHeap()
    ensures !IsHeap(MinHeap, [1, 10, 2, 4, 12, 3])
  {
    var s := [1, 10, 2, 4, 12, 3];
    assert Parent(3) == 1 && Compare(MinHeap, s[3], s[1]);
  }

  lemma InsertExampleResult()
    ensures SiftUp(MinHeap, [1, 5, 3, 6] + [4], 4) == [1, 5, 3, 6, 4]
  {
    var s := [1, 5, 3, 6] + [4];
    assert s == [1, 5, 3, 6, 4];
    assert s[4] == 4 && s[4 / 2] == 3;
  }

  /** Insert(4) into the min-heap [1,5,3,6] compares 4 with index 4/2 = 2
      instead of its parent 1, and leaves 4 under 5. */
  lemma InsertBreaksHeap()
    ensures IsHeap(MinHeap, [1, 5, 3, 6])
    ensures SiftUp(MinHeap, [1, 5, 3, 6] + [4], 4) == [1, 5, 3, 6, 4]
    ensures !IsHeap(MinHeap, [1, 5, 3, 6, 4])
  {
    InsertExampleResult();
    InsertExampleNotHeap();
  }

  lemma InsertExampleNotHeap()
    ensures !IsHeap(MinHeap, [1, 5, 3, 6, 4])
  {
    var s := [1, 5, 3, 6, 4];
    assert Parent(4) == 1 && Compare(MinHeap, s[4], s[1]);
  }

  lemma EqualValuesExampleResult()
    ensures SiftUp(MinHeap, [5, 10, 5, 10] + [5], 4) == [5, 5, 10, 10, 5]
  {
  }

  /** Insert(5) into the min-heap [5,10,5,10] swaps upward through equal
      values too, giving [5,5,10,10,5]. */
  lemma InsertSwapsEqualValues()
    ensures IsHeap(MinHeap, [5, 10, 5, 10])
    ensures SiftUp(MinHeap, [5, 10, 5, 10] + [5], 4) == [5, 5, 10, 10, 5]
  {
    EqualValuesExampleResult();
    EqualValuesExampleIsHeap();
  }

  lemma EqualValuesExampleIsHeap()
    ensures IsHeap(MinHeap, [5, 10, 5, 10])
  {
  }

  // ---------------------------------------------------------------------
  // The repairs as evidently intended
  // ---------------------------------------------------------------------

  /** bubbleUp with the parent of i taken as (i-1)/2 rather than i/2; it
      still swaps through equal values, as the source does. */
  function SiftUpFixed(t: HeapType, s: seq<int>, i: int): (r: seq<int>)
    requires i < |s|
    ensures |r| == |s| && multiset(r) == multiset(s)
    decreases i
  {
    if i < 1 then s
    else if Compare(t, s[i], s[Parent(i)]) || s[i] == s[Parent(i)] then
      SiftUpFixed(t, Comparators.Swap(s, i, Parent(i)), Parent(i))
    else s
  }

  /** Sifting up from `k` will restore the heap: every pair is ordered except
      (parent of k, k), and no child of k is ahead of the parent of k. */
  ghost predicate UpReady(t: HeapType, s: seq<int>, k: int) {
    0 <= k < |s| &&
    (forall c :: 0 < c < |s| && c != k ==> !Compare(t, s[c], s[Parent(c)])) &&
    (0 < k ==> forall c :: 0 < c < |s| && Parent(c) == k ==> !Compare(t, s[c], s[Parent(k)]))
  }

  /** The corrected sift-up turns an almost-heap into a heap. */
  lemma {:induction false} SiftUpFixedRestoresHeap(t: HeapType, s: seq<int>, k: int)
    requires UpReady(t, s, k)
    ensures IsHeap(t, SiftUpFixed(t, s, k))
    decreases k
  {
    if k >= 1 {
      var p := Parent(k);
      if Compare(t, s[k], s[p]) || s[k] == s[p] {
        var s' := Comparators.Swap(s, k, p);
        forall c | 0 < c < |s| && c != p ensures !Compare(t, s'[c], s'[Parent(c)]) {
          if c == k {
          } else if Parent(c) == k {
          } else if Parent(c) == p {
            assert !Compare(t, s[c], s[p]);
          } else {
          }
        }
        if p > 0 {
          forall c | 0 < c < |s| && Parent(c) == p ensures !Compare(t, s'[c], s'[Parent(p)]) {
            assert !Compare(t, s[p], s[Parent(p)]);
            if c != k {
              assert !Compare(t, s[c], s[p]);
            }
          }
        }
        SiftUpFixedRestoresHeap(t, s', p);
      }
    }
  }

  /** Insert with the corrected sift-up keeps a heap a heap. */
  lemma InsertFixedKeepsHeap(t: HeapType, s: seq<int>, item: int)
    requires IsHeap(t, s)
    ensures IsHeap(t, SiftUpFixed(t, s + [item], |s|))
    ensures multiset(SiftUpFixed(t, s + [item], |s|)) == multiset(s) + multiset{item}
  {
    var s' := s + [item];
    assert forall c :: 0 < c < |s'| && Parent(c) == |s| ==> false;
    assert UpReady(t, s', |s|);
    SiftUpFixedRestoresHeap(t, s', |s|);
  }

  /** Delete as evidently intended: the element moved into the hole is sifted
      up when it is ahead of its parent and down otherwise. */
  function DeleteAtFixed(t: HeapType, s: seq<int>, i: int): (r: seq<int>)
    ensures i < 0 || i >= |s| ==> r == s
    ensures 0 <= i < |s| ==> |r| == |s| - 1 && multiset(r) == multiset(s) - multiset{s[i]}
  {
    if i > |s| - 1 || i < 0 then s
    else if |s| == 1 && i == 0 then []
    else if i == |s| - 1 then
      DropLast(s);
      s[..|s| - 1]
    else
      var moved := Comparators.Swap(s, i, |s| - 1)[..|s| - 1];
      RefillMultiset(s, i);
      if i > 0 && Compare(t, s[|s| - 1], s[Parent(i)]) then SiftUpFixed(t, moved, i)
      else SiftDown(t, moved, |moved|, i)
  }

  /** The hole at i refilled by the last element of a heap: only the pairs
      at i can be out of order, and the children of i are not ahead of the
      old occupant's parent. */
  lemma RefillFacts(t: HeapType, s: seq<int>, i: int)
    requires IsHeap(t, s) && 0 < i < |s| - 1
    ensures forall c :: 0 < c < |s| - 1 && Parent(c) == i ==>
      !Compare(t, Comparators.Swap(s, i, |s| - 1)[..|s| - 1][c], s[Parent(i)])
  {
    var moved := Comparators.Swap(s, i, |s| - 1)[..|s| - 1];
    forall c | 0 < c < |s| - 1 && Parent(c) == i ensures !Compare(t, moved[c], s[Parent(i)]) {
      assert moved[c] == s[c];
      assert !Compare(t, s[c], s[i]) && !Compare(t, s[i], s[Parent(i)]);
    }
  }

  /** The refilled element is ahead of its parent: sifting it up restores the
      heap. */
  lemma DeleteUpKeepsHeap(t: HeapType, s: seq<int>, i: int)
    requires IsHeap(t, s) && 0 < i < |s| - 1
    requires Compare(t, s[|s| - 1], s[Parent(i)])
    ensures IsHeap(t, SiftUpFixed(t, Comparators.Swap(s, i, |s| - 1)[..|s| - 1], i))
  {
    var moved := Comparators.Swap(s, i, |s| - 1)[..|s| - 1];
    RefillFacts(t, s, i);
    assert moved[Parent(i)] == s[Parent(i)];
    forall c | 0 < c < |moved| && Parent(c) == i ensures !Compare(t, moved[c], moved[i]) {
    }
    SiftUpFixedRestoresHeap(t, moved, i);
  }

  /** After the last element refills slot i, only the pairs below i can be out
      of order, provided the refill is not ahead of the parent of i. */
  lemma RefillReady(t: HeapType, s: seq<int>, i: int)
    requires IsHeap(t, s) && 0 <= i < |s| - 1
    requires i > 0 ==> !Compare(t, s[|s| - 1], s[Parent(i)])
    ensures SiftReady(t, Comparators.Swap(s, i, |s| - 1)[..|s| - 1], |s| - 1, 0, i)
  {
    var last := |s| - 1;
    var moved := Comparators.Swap(s, i, last)[..last];
    forall c | 0 < c < last && Parent(c) != i ensures !Compare(t, moved[c], moved[Parent(c)]) {
      assert moved[Parent(c)] == s[Parent(c)];
      if c != i {
        assert moved[c] == s[c];
      }
    }
    if i > 0 {
      RefillFacts(t, s, i);
      assert moved[Parent(i)] == s[Parent(i)];
    }
  }

  /** The refilled element is not ahead of its parent (or sits at the root):
      sifting it down restores the heap. */
  lemma DeleteDownKeepsHeap(t: HeapType, s: seq<int>, i: int)
    requires IsHeap(t, s) && 0 <= i < |s| - 1
    requires i > 0 ==> !Compare(t, s[|s| - 1], s[Parent(i)])
    ensures IsHeap(t, DeleteAtFixed(t, s, i))
  {
    var last := |s| - 1;
    var moved := Comparators.Swap(s, i, last)[..last];
    assert DeleteAtFixed(t, s, i) == SiftDown(t, moved, last, i);
    RefillReady(t, s, i);
    SiftDownRestoresOrder(t, moved, last, 0, i);
  }

  /** The corrected Delete keeps a heap a heap, whichever index it removes. */
  lemma DeleteAtFixedKeepsHeap(t: HeapType, s: seq<int>, i: int)
    requires IsHeap(t, s)
    ensures IsHeap(t, DeleteAtFixed(t, s, i))
  {
    if 0 <= i < |s| - 1 {
      if i > 0 && Compare(t, s[|s| - 1], s[Parent(i)]) {
        var moved := Comparators.Swap(s, i, |s| - 1)[..|s| - 1];
        assert DeleteAtFixed(t, s, i) == SiftUpFixed(t, moved, i);
        DeleteUpKeepsHeap(t, s, i);
      } else {
        DeleteDownKeepsHeap(t, s, i);
      }
    } else if i == |s| - 1 && |s| > 1 {
      DeleteLastKeepsHeap(t, s);
    }
  }

  class Heap {
    var data: seq<int>
    const heapType: HeapType

    /** NewHeap: keeps the elements and heapifies them. */
    constructor (heapType: HeapType, elements: seq<int>)
      ensures this.heapType == heapType
      ensures IsHeap(heapType, data)
      ensures multiset(data) == multiset(elements)
      ensures IsHeap(heapType, elements) ==> data == elements
    {
      this.heapType := heapType;
      data := elements;
      new;
      Heapify();
    }

    method Insert(item: int)
      modifies this
      ensures data == SiftUp(heapType, old(data) + [item], |old(data)|)
      ensures |data| == |old(data)| + 1
      ensures multiset(data) == multiset(old(data)) + multiset{item}
    {
      data := data + [item];
      BubbleUp(|data| - 1);
    }

    method Delete(i: int)
      modifies this
      ensures data == DeleteAt(heapType, old(data), i)
      ensures i == 0 && old(IsHeap(heapType, data)) ==> IsHeap(heapType, data)
      ensures i == |old(data)| - 1 && old(IsHeap(heapType, data)) ==> IsHeap(heapType, data)
    {
      if i > |data| - 1 || i < 0 {
        return;
      }
      if |data| == 1 && i == 0 {
        data := [];
        return;
      }
      if i == |data| - 1 {
        data := data[..|data| - 1];
        if IsHeap(heapType, old(data)) {
          DeleteLastKeepsHeap(heapType, old(data));
        }
        return;
      } else {
        ghost var before := data;
        data := Comparators.Swap(data, i, |data| - 1);
        data := data[..|data| - 1];
        assert data == Comparators.Swap(before, i, |before| - 1)[..|before| - 1];
        BubbleDown(i);
        if i == 0 && IsHeap(heapType, before) {
          DeleteRootKeepsHeap(heapType, before);
        }
      }
    }

    method Heapify()
      modifies this
      ensures IsHeap(heapType, data)
      ensures multiset(data) == multiset(old(data))
      ensures old(IsHeap(heapType, data)) ==> data == old(data)
    {
      var i := |data| / 2;
      while i >= 0
        invariant -1 <= i <= |data| / 2
        invariant multiset(data) == multiset(old(data))
        invariant OrderedFrom(heapType, data, |data|, i + 1)
        invariant old(IsHeap(heapType, data)) ==> data == old(data)
      {
        SiftDownRestoresOrder(heapType, data, |data|, i, i);
        if IsHeap(heapType, data) {
          SiftDownKeepsHeap(heapType, data, |data|, i);
        }
        BubbleDown(i);
        i := i - 1;
      }
    }

    method HeapifyToIndex(maxIdx: int)
      requires maxIdx <= |data|
      modifies this
      ensures |data| == |old(data)| && multiset(data) == multiset(old(data))
      ensures maxIdx < 0 ==> data == old(data)
      ensures maxIdx >= 0 ==> data[maxIdx..] == old(data)[maxIdx..]
      ensures maxIdx >= 0 ==> multiset(data[..maxIdx]) == multiset(old(data)[..maxIdx])
      ensures maxIdx >= 0 ==> IsHeapPrefix(heapType, data, maxIdx)
      ensures old(IsHeapPrefix(heapType, data, maxIdx)) ==> data == old(data)
    {
      var i := maxIdx;
      while i >= 0
        invariant i <= maxIdx && (maxIdx >= 0 ==> -1 <= i)
        invariant maxIdx < 0 ==> data == old(data)
        invariant |data| == |old(data)|
        invariant maxIdx >= 0 ==> data[maxIdx..] == old(data)[maxIdx..]
        invariant maxIdx >= 0 ==> multiset(data[..maxIdx]) == multiset(old(data)[..maxIdx])
        invariant maxIdx >= 0 ==> OrderedFrom(heapType, data, maxIdx, i + 1)
        invariant old(IsHeapPrefix(heapType, data, maxIdx)) ==> data == old(data)
      {
        SiftDownRestoresOrder(heapType, data, maxIdx, i, i);
        if IsHeapPrefix(heapType, data, maxIdx) {
          SiftDownKeepsHeap(heapType, data, maxIdx, i);
        }
        BubbleDownToIndex(i, maxIdx);
        i := i - 1;
      }
      if maxIdx >= 0 {
        assert data == data[..maxIdx] + data[maxIdx..];
        assert old(data) == old(data)[..maxIdx] + old(data)[maxIdx..];
      }
    }

    method BubbleUp(i: int)
      requires i < |data|
      modifies this
      ensures data == SiftUp(heapType, old(data), i)
      decreases i
    {
      if i < 1 {
        return;
      }
      if Compare(heapType, data[i], data[i / 2]) || data[i] == data[i / 2] {
        data := Comparators.Swap(data, i, i / 2);
        BubbleUp(i / 2);
      }
    }

    method BubbleDown(i: int)
      requires 0 <= i
      modifies this
      ensures data == SiftDown(heapType, old(data), |old(data)|, i)
      decreases |data| - i
    {
      var smallest := i;
      if Left(i) < |data| && Compare(heapType, data[Left(i)], data[smallest]) {
        smallest := Left(i);
      }
      if Right(i) < |data| && Compare(heapType, data[Right(i)], data[smallest]) {
        smallest := Right(i);
      }
      if smallest != i {
        data := Comparators.Swap(data, i, smallest);
        BubbleDown(smallest);
      }
    }

    method BubbleDownToIndex(i: int, maxIdx: int)
      requires 0 <= i && 0 <= maxIdx <= |data|
      modifies this
      ensures data == SiftDown(heapType, old(data), maxIdx, i)
      decreases maxIdx - i
    {
      var smallest := i;
      if Left(i) < maxIdx && Compare(heapType, data[Left(i)], data[smallest]) {
        smallest := Left(i);
      }
      if Right(i) < maxIdx && Compare(heapType, data[Right(i)], data[smallest]) {
        smallest := Right(i);
      }
      if smallest != i {
        data := Comparators.Swap(data, i, smallest);
        BubbleDownToIndex(smallest, maxIdx);
      }
    }

    /** True exactly when no in-range child is ahead of its parent. */
    method IsValidHeap() returns (valid: bool)
      ensures valid == IsHeap(heapType, data)
    {
      var i := 0;
      while i < |data|
        invariant 0 <= i <= |data|
        invariant forall c :: 0 < c < |data| && Parent(c) < i ==> !Compare(heapType, data[c], data[Parent(c)])
      {
        var leftIdx := Left(i);
        var rightIdx := Right(i);
        if leftIdx < |data| && Compare(heapType, data[leftIdx], data[i]) {
          return false;
        }
        if rightIdx < |data| && Compare(heapType, data[rightIdx], data[i]) {
          return false;
        }
        i := i + 1;
      }
      return true;
    }
  }
}
