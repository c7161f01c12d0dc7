/** Merge sort (sorting/merge.go): sorts items[left..right] in place by
    sorting both halves and merging them through a temporary sequence. */
module MergeSorting {
  import opened Comparators

  /** Sorts `items` in ascending natural order. */
  method MergeSort(items: array<int>)
    modifies items
    ensures Sorted(DefaultComparator(), items[..])
    ensures multiset(items[..]) == multiset(old(items[..]))
  {
    MergeSortWithComparator(items, DefaultComparator());
  }

  /** Sorts `items` in ascending order under `comparator`. */
  method MergeSortWithComparator<T>(items: array<T>, comparator: Comparator<T>)
    modifies items
    ensures Sorted(comparator, items[..])
    ensures multiset(items[..]) == multiset(old(items[..]))
  {
    SplitAndSort(items, 0, items.Length - 1, comparator);
    if items.Length > 0 {
      assert items[..] == items[0..items.Length];
      assert old(items[..]) == old(items[0..items.Length]);
    }
  }

  /** Sorts items[left..right] (both ends included) and touches nothing else. */
  method SplitAndSort<T>(items: array<T>, left: int, right: int, comparator: Comparator<T>)
    requires items.Length < 1 || 0 <= left <= right < items.Length
    modifies items
    ensures items.Length < 1 ==> items[..] == old(items[..])
    ensures items.Length >= 1 ==> Sorted(comparator, items[left..right + 1])
    ensures items.Length >= 1 ==> multiset(items[left..right + 1]) == multiset(old(items[left..right + 1]))
    ensures items.Length >= 1 ==> items[..left] == old(items[..left])
    ensures items.Length >= 1 ==> items[right + 1..] == old(items[right + 1..])
    decreases right - left
  {
    if left == right || items.Length < 1 {
      return;
    } else if left + 1 == right {
      ghost var s := items[..];
      if comparator.GreaterThan(items[left], items[right]) {
        items[right], items[left] := items[left], items[right];
        SwapPair(comparator, s, items[..], left);
        return;
      }
      OrderedPair(comparator, s, left);
    } else {
      var mid := (left + right) / 2;
      ghost var s0 := items[..];
      SplitAndSort(items, left, mid, comparator);
      ghost var s1 := items[..];
      SplitAndSort(items, mid + 1, right, comparator);
      ghost var s2 := items[..];
      Merge(items, left, mid, right, comparator);
      HalvesMerged(comparator, s0, s1, s2, items[..], left, mid, right);
    }
  }

  /** Two neighbours whose first is not greater than the second are sorted. */
  lemma OrderedPair<T>(c: Comparator<T>, s: seq<T>, left: int)
    requires 0 <= left && left + 1 < |s| && !c.GreaterThan(s[left], s[left + 1])
    ensures Sorted(c, s[left..left + 2])
  {
  }

  /** Exchanging two neighbours the first of which is greater sorts them,
      keeps their multiset and changes nothing else. */
  lemma SwapPair<T>(c: Comparator<T>, s: seq<T>, t: seq<T>, left: int)
    requires 0 <= left && left + 1 < |s| && c.GreaterThan(s[left], s[left + 1])
    requires t == s[left + 1 := s[left]][left := s[left + 1]]
    ensures Sorted(c, t[left..left + 2])
    ensures multiset(t[left..left + 2]) == multiset(s[left..left + 2])
    ensures t[..left] == s[..left] && t[left + 2..] == s[left + 2..]
  {
    assert t[left..left + 2] == [s[left + 1], s[left]];
    assert s[left..left + 2] == [s[left], s[left + 1]];
  }

  /** The bookkeeping of one split: both halves sorted in turn, then merged. */
  lemma HalvesMerged<T>(c: Comparator<T>, s0: seq<T>, s1: seq<T>, s2: seq<T>, s3: seq<T>,
                        left: int, mid: int, right: int)
    requires 0 <= left <= mid < right < |s0| == |s1| == |s2| == |s3|
    requires Sorted(c, s1[left..mid + 1])
    requires multiset(s1[left..mid + 1]) == multiset(s0[left..mid + 1])
    requires s1[..left] == s0[..left] && s1[mid + 1..] == s0[mid + 1..]
    requires Sorted(c, s2[mid + 1..right + 1])
    requires multiset(s2[mid + 1..right + 1]) == multiset(s1[mid + 1..right + 1])
    requires s2[..mid + 1] == s1[..mid + 1] && s2[right + 1..] == s1[right + 1..]
    requires s3[left..right + 1] == MergeSeq(c, s2[left..mid + 1], s2[mid + 1..right + 1])
    requires s3[..left] == s2[..left] && s3[right + 1..] == s2[right + 1..]
    ensures Sorted(c, s3[left..right + 1])
    ensures multiset(s3[left..right + 1]) == multiset(s0[left..right + 1])
    ensures s3[..left] == s0[..left] && s3[right + 1..] == s0[right + 1..]
  {
    assert Sorted(c, s2[left..mid + 1]) && multiset(s2[left..mid + 1]) == multiset(s0[left..mid + 1]) by {
      SliceInPrefix(s2, s1, mid + 1, left, mid + 1);
    }
    assert multiset(s2[mid + 1..right + 1]) == multiset(s0[mid + 1..right + 1]) by {
      SliceInSuffix(s1, s0, mid + 1, mid + 1, right + 1);
    }
    MergedSorted(c, s2, s3, left, mid, right);
    MergedPermutes(c, s0, s2, s3, left, mid, right);
    MergedFrame(s0, s1, s2, s3, left, mid, right);
  }

  /** Merging the two sorted halves sorts the range. */
  lemma MergedSorted<T>(c: Comparator<T>, s2: seq<T>, s3: seq<T>, left: int, mid: int, right: int)
    requires 0 <= left <= mid < right < |s2| == |s3|
    requires Sorted(c, s2[left..mid + 1]) && Sorted(c, s2[mid + 1..right + 1])
    requires s3[left..right + 1] == MergeSeq(c, s2[left..mid + 1], s2[mid + 1..right + 1])
    ensures Sorted(c, s3[left..right + 1])
  {
    MergeSeqSorted(c, s2[left..mid + 1], s2[mid + 1..right + 1]);
  }

  /** Merging two halves that are permutations of the original halves
      permutes the range. */
  lemma MergedPermutes<T>(c: Comparator<T>, s0: seq<T>, s2: seq<T>, s3: seq<T>, left: int, mid: int, right: int)
    requires 0 <= left <= mid < right < |s0| == |s2| == |s3|
    requires multiset(s2[left..mid + 1]) == multiset(s0[left..mid + 1])
    requires multiset(s2[mid + 1..right + 1]) == multiset(s0[mid + 1..right + 1])
    requires s3[left..right + 1] == MergeSeq(c, s2[left..mid + 1], s2[mid + 1..right + 1])
    ensures multiset(s3[left..right + 1]) == multiset(s0[left..right + 1])
  {
    MergeSeqPermutes(c, s2[left..mid + 1], s2[mid + 1..right + 1]);
    SliceSplitMultiset(s0, left, mid + 1, right + 1);
  }

  /** The multiset of a slice is that of its two halves together. */
  lemma SliceSplitMultiset<T>(s: seq<T>, i: int, m: int, j: int)
    requires 0 <= i <= m <= j <= |s|
    ensures multiset(s[i..j]) == multiset(s[i..m]) + multiset(s[m..j])
  {
    SliceSplit(s, i, m, j);
  }

  /** A slice is its two halves one after the other. */
  lemma SliceSplit<T>(s: seq<T>, i: int, m: int, j: int)
    requires 0 <= i <= m <= j <= |s|
    ensures s[i..j] == s[i..m] + s[m..j]
  {
    assert |s[i..j]| == |s[i..m] + s[m..j]|;
    forall k | 0 <= k < j - i ensures s[i..j][k] == (s[i..m] + s[m..j])[k] {
      if k < m - i {
        assert s[i..j][k] == s[i + k] == s[i..m][k];
      } else {
        assert s[i..j][k] == s[i + k] == s[m..j][k - (m - i)];
      }
    }
  }

  /** Neither half's sort nor the merge touches anything outside the range. */
  lemma MergedFrame<T>(s0: seq<T>, s1: seq<T>, s2: seq<T>, s3: seq<T>, left: int, mid: int, right: int)
    requires 0 <= left <= mid < right < |s0| == |s1| == |s2| == |s3|
    requires s1[..left] == s0[..left] && s1[mid + 1..] == s0[mid + 1..]
    requires s2[..mid + 1] == s1[..mid + 1] && s2[right + 1..] == s1[right + 1..]
    requires s3[..left] == s2[..left] && s3[right + 1..] == s2[right + 1..]
    ensures s3[..left] == s0[..left] && s3[right + 1..] == s0[right + 1..]
  {
    PrefixInPrefix(s2, s1, mid + 1, left);
    SuffixInSuffix(s1, s0, mid + 1, right + 1);
  }

  /** Sequences that agree below n agree on every slice below n. */
  lemma SliceInPrefix<T>(a: seq<T>, b: seq<T>, n: int, i: int, j: int)
    requires 0 <= i <= j <= n <= |a| && n <= |b| && a[..n] == b[..n]
    ensures a[i..j] == b[i..j]
  {
    assert a[i..j] == a[..n][i..j];
    assert b[i..j] == b[..n][i..j];
  }

  /** Sequences that agree below n agree below any smaller bound. */
  lemma PrefixInPrefix<T>(a: seq<T>, b: seq<T>, n: int, j: int)
    requires 0 <= j <= n <= |a| && n <= |b| && a[..n] == b[..n]
    ensures a[..j] == b[..j]
  {
    assert a[..j] == a[..n][..j];
    assert b[..j] == b[..n][..j];
  }

  /** Sequences that agree from n on agree on every slice from n on. */
  lemma SliceInSuffix<T>(a: seq<T>, b: seq<T>, n: int, i: int, j: int)
    requires 0 <= n <= i <= j <= |a| == |b| && a[n..] == b[n..]
    ensures a[i..j] == b[i..j]
  {
    forall k | 0 <= k < j - i ensures a[i..j][k] == b[i..j][k] {
      assert a[i + k] == a[n..][i + k - n];
      assert b[i + k] == b[n..][i + k - n];
    }
  }

  /** Sequences that agree from n on agree from any larger bound on. */
  lemma SuffixInSuffix<T>(a: seq<T>, b: seq<T>, n: int, j: int)
    requires 0 <= n <= j <= |a| == |b| && a[n..] == b[n..]
    ensures a[j..] == b[j..]
  {
    assert a[j..] == a[n..][j - n..];
    assert b[j..] == b[n..][j - n..];
  }

  /** The merge of two runs that the merge loop computes: the smaller head
      goes first, and on a tie the head of the second run goes first. */
  function MergeSeq<T>(c: Comparator<T>, xs: seq<T>, ys: seq<T>): (r: seq<T>)
    ensures |r| == |xs| + |ys|
    decreases |xs| + |ys|
  {
    if xs == [] then ys
    else if ys == [] then xs
    else if c.LessThan(xs[0], ys[0]) then [xs[0]] + MergeSeq(c, xs[1..], ys)
    else [ys[0]] + MergeSeq(c, xs, ys[1..])
  }

  /** The merge is a rearrangement of the two runs. */
  lemma {:induction false} MergeSeqPermutes<T>(c: Comparator<T>, xs: seq<T>, ys: seq<T>)
    ensures multiset(MergeSeq(c, xs, ys)) == multiset(xs) + multiset(ys)
    decreases |xs| + |ys|
  {
    if xs == [] || ys == [] {
    } else if c.LessThan(xs[0], ys[0]) {
      MergeSeqPermutes(c, xs[1..], ys);
      HeadAndTail(xs);
    } else {
      MergeSeqPermutes(c, xs, ys[1..]);
      HeadAndTail(ys);
    }
  }

  /** A non-empty sequence is its head and its tail. */
  lemma HeadAndTail<T>(s: seq<T>)
    requires s != []
    ensures multiset(s) == multiset{s[0]} + multiset(s[1..])
  {
    assert s == [s[0]] + s[1..];
  }

  /** Every element of the merge comes from one of the runs. */
  lemma MergeSeqElements<T>(c: Comparator<T>, xs: seq<T>, ys: seq<T>, x: T)
    requires x in MergeSeq(c, xs, ys)
    ensures x in xs || x in ys
  {
    MergeSeqPermutes(c, xs, ys);
    assert x in multiset(MergeSeq(c, xs, ys));
  }

  /** The merge of two sorted runs is sorted. */
  lemma {:induction false} MergeSeqSorted<T>(c: Comparator<T>, xs: seq<T>, ys: seq<T>)
    requires Sorted(c, xs) && Sorted(c, ys)
    ensures Sorted(c, MergeSeq(c, xs, ys))
    decreases |xs| + |ys|
  {
    if xs == [] || ys == [] {
    } else {
      var r := MergeSeq(c, xs, ys);
      var head := if c.LessThan(xs[0], ys[0]) then xs[0] else ys[0];
      var rest := if c.LessThan(xs[0], ys[0]) then MergeSeq(c, xs[1..], ys) else MergeSeq(c, xs, ys[1..]);
      if c.LessThan(xs[0], ys[0]) {
        MergeSeqSorted(c, xs[1..], ys);
      } else {
        MergeSeqSorted(c, xs, ys[1..]);
      }
      assert r == [head] + rest;
      forall x | x in rest ensures c.key(head) <= c.key(x) {
        if c.LessThan(xs[0], ys[0]) {
          MergeSeqElements(c, xs[1..], ys, x);
        } else {
          MergeSeqElements(c, xs, ys[1..], x);
        }
      }
    }
  }

  /** One step of the merge: its first element is the head of the run the
      loop takes from. */
  lemma TakeHead<T>(c: Comparator<T>, xs: seq<T>, ys: seq<T>, fromXs: bool)
    requires fromXs ==> xs != [] && (ys != [] ==> c.LessThan(xs[0], ys[0]))
    requires !fromXs ==> ys != [] && (xs != [] ==> !c.LessThan(xs[0], ys[0]))
    ensures fromXs ==> MergeSeq(c, xs, ys) == [xs[0]] + MergeSeq(c, xs[1..], ys)
    ensures !fromXs ==> MergeSeq(c, xs, ys) == [ys[0]] + MergeSeq(c, xs, ys[1..])
  {
    if fromXs && ys == [] {
      assert xs == [xs[0]] + xs[1..];
    } else if !fromXs && xs == [] {
      assert ys == [ys[0]] + ys[1..];
    }
  }

  /** The merge of s[l..mid] and s[r..right] taken pointer by pointer, as
      the merge loop takes it. */
  ghost function MergeFrom<T>(c: Comparator<T>, s: seq<T>, l: int, mid: int, r: int, right: int): seq<T>
    requires 0 <= l <= mid + 1 <= r <= right + 1 <= |s|
    decreases (mid + 1 - l) + (right + 1 - r)
  {
    if l > mid && r > right then []
    else if l <= mid && (r > right || c.LessThan(s[l], s[r])) then [s[l]] + MergeFrom(c, s, l + 1, mid, r, right)
    else [s[r]] + MergeFrom(c, s, l, mid, r + 1, right)
  }

  /** Walking the pointers computes the merge of the two runs. */
  lemma {:induction false} MergeFromIsMergeSeq<T>(c: Comparator<T>, s: seq<T>, l: int, mid: int, r: int, right: int)
    requires 0 <= l <= mid + 1 <= r <= right + 1 <= |s|
    ensures MergeFrom(c, s, l, mid, r, right) == MergeSeq(c, s[l..mid + 1], s[r..right + 1])
    decreases (mid + 1 - l) + (right + 1 - r)
  {
    var xs, ys := s[l..mid + 1], s[r..right + 1];
    if l > mid && r > right {
      assert xs == [] && ys == [];
    } else if l <= mid && (r > right || c.LessThan(s[l], s[r])) {
      MergeFromIsMergeSeq(c, s, l + 1, mid, r, right);
      assert xs[1..] == s[l + 1..mid + 1];
      TakeHead(c, xs, ys, true);
    } else {
      MergeFromIsMergeSeq(c, s, l, mid, r + 1, right);
      assert ys[1..] == s[r + 1..right + 1];
      TakeHead(c, xs, ys, false);
    }
  }

  /** The state of the merge loop: with the pointers at l and r, `acc`
      followed by the rest of the merge is the whole merge of s[left..mid]
      and s[mid+1..right]. */
  ghost predicate Merging<T>(c: Comparator<T>, s: seq<T>, left: int, mid: int, right: int, l: int, r: int, acc: seq<T>) {
    0 <= left <= l <= mid + 1 <= r <= right + 1 <= |s| &&
    acc + MergeFrom(c, s, l, mid, r, right) == MergeFrom(c, s, left, mid, mid + 1, right)
  }

  /** Appending x, the head of the first run, keeps the loop state. */
  lemma TakeLeft<T>(c: Comparator<T>, s: seq<T>, left: int, mid: int, right: int, l: int, r: int, acc: seq<T>, x: T)
    requires Merging(c, s, left, mid, right, l, r, acc) && l <= mid && x == s[l]
    requires r > right || c.LessThan(s[l], s[r])
    ensures Merging(c, s, left, mid, right, l + 1, r, acc + [x])
  {
    var rest := MergeFrom(c, s, l + 1, mid, r, right);
    assert MergeFrom(c, s, l, mid, r, right) == [x] + rest;
    assert (acc + [x]) + rest == acc + ([x] + rest);
  }

  /** Appending y, the head of the second run, keeps the loop state. */
  lemma TakeRight<T>(c: Comparator<T>, s: seq<T>, left: int, mid: int, right: int, l: int, r: int, acc: seq<T>, y: T)
    requires Merging(c, s, left, mid, right, l, r, acc) && r <= right && y == s[r]
    requires l <= mid ==> !c.LessThan(s[l], s[r])
    ensures Merging(c, s, left, mid, right, l, r + 1, acc + [y])
  {
    var rest := MergeFrom(c, s, l, mid, r + 1, right);
    assert MergeFrom(c, s, l, mid, r, right) == [y] + rest;
    assert (acc + [y]) + rest == acc + ([y] + rest);
  }

  /** With both runs used up, the loop has collected the merge of the runs. */
  lemma MergeDone<T>(c: Comparator<T>, s: seq<T>, left: int, mid: int, right: int, acc: seq<T>)
    requires Merging(c, s, left, mid, right, mid + 1, right + 1, acc)
    ensures acc == MergeSeq(c, s[left..mid + 1], s[mid + 1..right + 1])
  {
    MergeFromIsMergeSeq(c, s, left, mid, mid + 1, right);
  }

  /** Merges the runs items[left..mid] and items[mid+1..right]: the merge loop
      collects MergeSeq of the two runs, which is then copied back over
      items[left..right]. */
  method Merge<T>(items: array<T>, left: int, mid: int, right: int, comparator: Comparator<T>)
    requires 0 <= left <= mid < right < items.Length
    modifies items
    ensures items[left..right + 1] ==
      MergeSeq(comparator, old(items[left..mid + 1]), old(items[mid + 1..right + 1]))
    ensures items[..left] == old(items[..left])
    ensures items[right + 1..] == old(items[right + 1..])
  {
    var tempSlice := MergeRuns(items, left, mid, right, comparator);
    CopyInto(items, left, tempSlice);
    assert items[left..right + 1] == tempSlice;
  }

  /** The loop of the merge: walks both runs with one pointer each and
      appends the smaller head (the right one on a tie) to tempSlice. */
  method MergeRuns<T>(items: array<T>, left: int, mid: int, right: int, comparator: Comparator<T>)
    returns (tempSlice: seq<T>)
    requires 0 <= left <= mid < right < items.Length
    ensures tempSlice == MergeSeq(comparator, items[left..mid + 1], items[mid + 1..right + 1])
  {
    ghost var s := items[..];
    var lPtr, rPtr := left, mid + 1;
    tempSlice := [];
    while lPtr <= mid || rPtr <= right
      invariant left <= lPtr <= mid + 1 <= rPtr <= right + 1
      invariant Merging(comparator, s, left, mid, right, lPtr, rPtr, tempSlice)
      decreases (mid + 1 - lPtr) + (right + 1 - rPtr)
    {
      if lPtr <= mid && (rPtr > right || comparator.LessThan(items[lPtr], items[rPtr])) {
        var next := items[lPtr];
        TakeLeft(comparator, s, left, mid, right, lPtr, rPtr, tempSlice, next);
        tempSlice := tempSlice + [next];
        lPtr := lPtr + 1;
      } else {
        var next := items[rPtr];
        TakeRight(comparator, s, left, mid, right, lPtr, rPtr, tempSlice, next);
        tempSlice := tempSlice + [next];
        rPtr := rPtr + 1;
      }
    }
    MergeDone(comparator, s, left, mid, right, tempSlice);
  }

  /** Overwrites dst[start..start+|src|) with `src`, as Go's copy into a
      sub-slice does. */
  method CopyInto<T>(dst: array<T>, start: int, src: seq<T>)
    requires 0 <= start && start + |src| <= dst.Length
    modifies dst
    ensures dst[..] == old(dst[..start]) + src + old(dst[start + |src|..])
  {
    forall k | 0 <= k < |src| {
      dst[start + k] := src[k];
    }
  }
}
