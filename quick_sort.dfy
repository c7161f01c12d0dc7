/** Quick sort (sorting/quick.go): a three-way partition around the middle
    element into new lists of smaller, equal and greater elements, sorted
    recursively and concatenated. */
module QuickSorting {
  import opened Comparators

  /** Which of the three buckets an element falls in, by its key against the
      pivot's key. */
  datatype Side = Below | Level | Above

  predicate OnSide(side: Side, k: int, pivotKey: int) {
    match side
    case Below => k < pivotKey
    case Level => k == pivotKey
    case Above => k > pivotKey
  }

  /** The elements of `s` on `side` of the pivot key, in their order in `s`. */
  function Bucket<T>(c: Comparator<T>, s: seq<T>, pivotKey: int, side: Side): (r: seq<T>)
    ensures |r| <= |s|
  {
    if s == [] then []
    else
      var last := s[|s| - 1];
      Bucket(c, s[..|s| - 1], pivotKey, side) + (if OnSide(side, c.key(last), pivotKey) then [last] else [])
  }

  /** Taking one more element into account adds it to exactly its own
      bucket. */
  lemma BucketSnoc<T>(c: Comparator<T>, s: seq<T>, pivotKey: int, side: Side)
    requires s != []
    ensures multiset(Bucket(c, s, pivotKey, side)) == multiset(Bucket(c, s[..|s| - 1], pivotKey, side))
      + if OnSide(side, c.key(s[|s| - 1]), pivotKey) then multiset{s[|s| - 1]} else multiset{}
  {
  }

  /** The three buckets split `s`: their multisets add up to that of `s`
      (and so do their sizes). */
  lemma {:induction false} BucketsSplit<T>(c: Comparator<T>, s: seq<T>, pivotKey: int)
    ensures multiset(Bucket(c, s, pivotKey, Below)) + multiset(Bucket(c, s, pivotKey, Level))
            + multiset(Bucket(c, s, pivotKey, Above)) == multiset(s)
  {
    if s != [] {
      var init, last := s[..|s| - 1], s[|s| - 1];
      BucketsSplit(c, init, pivotKey);
      assert s == init + [last];
      BucketSnoc(c, s, pivotKey, Below);
      BucketSnoc(c, s, pivotKey, Level);
      BucketSnoc(c, s, pivotKey, Above);
    }
  }

  /** Every element of a bucket is on that bucket's side of the pivot. */
  lemma {:induction false} BucketKeys<T>(c: Comparator<T>, s: seq<T>, pivotKey: int, side: Side)
    ensures forall x :: x in Bucket(c, s, pivotKey, side) ==> OnSide(side, c.key(x), pivotKey)
  {
    if s != [] {
      BucketKeys(c, s[..|s| - 1], pivotKey, side);
    }
  }

  /** A bucket keeps the order of the elements of each key it takes, and holds
      none of the other keys. */
  lemma {:induction false} BucketKeyFilter<T>(c: Comparator<T>, s: seq<T>, pivotKey: int, side: Side, k: int)
    ensures KeyFilter(c, k, Bucket(c, s, pivotKey, side)) == if OnSide(side, k, pivotKey) then KeyFilter(c, k, s) else []
  {
    if s != [] {
      var init, last := s[..|s| - 1], s[|s| - 1];
      BucketKeyFilter(c, init, pivotKey, side, k);
      assert s == init + [last];
      KeyFilterAppend(c, k, init, [last]);
      var tail := if OnSide(side, c.key(last), pivotKey) then [last] else [];
      KeyFilterAppend(c, k, Bucket(c, init, pivotKey, side), tail);
    }
  }

  /** When the pivot is an element of `s`, the smaller and the greater buckets
      are strictly shorter than `s`. */
  lemma PivotBucketsShorter<T>(c: Comparator<T>, s: seq<T>, p: int)
    requires 0 <= p < |s|
    ensures |Bucket(c, s, c.key(s[p]), Below)| < |s|
    ensures |Bucket(c, s, c.key(s[p]), Above)| < |s|
  {
    var pk := c.key(s[p]);
    BucketSizes(c, s, pk);
    assert |Bucket(c, s[..p + 1], pk, Level)| >= 1 by {
      assert s[..p + 1][..p] == s[..p];
    }
    LevelBucketGrows(c, s, p + 1, pk);
  }

  /** The sizes of the three buckets add up to the size of `s`. */
  lemma BucketSizes<T>(c: Comparator<T>, s: seq<T>, pivotKey: int)
    ensures |Bucket(c, s, pivotKey, Below)| + |Bucket(c, s, pivotKey, Level)| + |Bucket(c, s, pivotKey, Above)| == |s|
  {
    var below, level, above := Bucket(c, s, pivotKey, Below), Bucket(c, s, pivotKey, Level), Bucket(c, s, pivotKey, Above);
    BucketsSplit(c, s, pivotKey);
    assert |multiset(below) + multiset(level) + multiset(above)| == |multiset(s)|;
  }

  /** The equal bucket of a prefix is no longer than that of the whole. */
  lemma {:induction false} LevelBucketGrows<T>(c: Comparator<T>, s: seq<T>, n: int, pivotKey: int)
    requires 0 <= n <= |s|
    ensures |Bucket(c, s[..n], pivotKey, Level)| <= |Bucket(c, s, pivotKey, Level)|
    decreases |s| - n
  {
    if n < |s| {
      LevelBucketGrows(c, s, n + 1, pivotKey);
      assert s[..n + 1][..n] == s[..n];
    } else {
      assert s[..n] == s;
    }
  }

  /** The result of quickSort as a function of its input. */
  function QuickSortSeq<T>(c: Comparator<T>, s: seq<T>): (r: seq<T>)
    ensures |s| <= 1 ==> r == s
    decreases |s|
  {
    if |s| <= 1 then s
    else
      var pivotKey := c.key(s[|s| / 2]);
      PivotBucketsShorter(c, s, |s| / 2);
      QuickSortSeq(c, Bucket(c, s, pivotKey, Below))
        + Bucket(c, s, pivotKey, Level)
        + QuickSortSeq(c, Bucket(c, s, pivotKey, Above))
  }

  /** quickSort returns a rearrangement of its input. */
  lemma {:induction false} QuickSortPermutes<T>(c: Comparator<T>, s: seq<T>)
    ensures multiset(QuickSortSeq(c, s)) == multiset(s)
    decreases |s|
  {
    if |s| > 1 {
      var pivotKey := c.key(s[|s| / 2]);
      PivotBucketsShorter(c, s, |s| / 2);
      QuickSortPermutes(c, Bucket(c, s, pivotKey, Below));
      QuickSortPermutes(c, Bucket(c, s, pivotKey, Above));
      BucketsSplit(c, s, pivotKey);
    }
  }

  /** Every key of the sorted result lies on the side of a bound that every
      key of the input lies on. */
  lemma QuickSortKeepsSide<T>(c: Comparator<T>, s: seq<T>, bound: int, side: Side)
    requires forall x :: x in s ==> OnSide(side, c.key(x), bound)
    ensures forall x :: x in QuickSortSeq(c, s) ==> OnSide(side, c.key(x), bound)
  {
    QuickSortPermutes(c, s);
    forall x | x in QuickSortSeq(c, s) ensures OnSide(side, c.key(x), bound) {
      assert x in multiset(QuickSortSeq(c, s));
    }
  }

  /** quickSort returns an ascending sequence. */
  lemma {:induction false} QuickSortSorted<T>(c: Comparator<T>, s: seq<T>)
    ensures Sorted(c, QuickSortSeq(c, s))
    decreases |s|
  {
    if |s| > 1 {
      var pivotKey := c.key(s[|s| / 2]);
      PivotBucketsShorter(c, s, |s| / 2);
      var below, level, above := Bucket(c, s, pivotKey, Below), Bucket(c, s, pivotKey, Level), Bucket(c, s, pivotKey, Above);
      QuickSortSorted(c, below);
      QuickSortSorted(c, above);
      BucketKeys(c, s, pivotKey, Below);
      BucketKeys(c, s, pivotKey, Level);
      BucketKeys(c, s, pivotKey, Above);
      QuickSortKeepsSide(c, below, pivotKey, Below);
      QuickSortKeepsSide(c, above, pivotKey, Above);
      var left, right := QuickSortSeq(c, below), QuickSortSeq(c, above);
      var r := left + level + right;
      forall a, b | 0 <= a < b < |r| ensures c.key(r[a]) <= c.key(r[b]) {
        if b < |left| {
        } else if a < |left| {
          assert left[a] in left;
          if b < |left| + |level| {
            assert level[b - |left|] in level;
          } else {
            assert right[b - |left| - |level|] in right;
          }
        } else if a < |left| + |level| {
          assert level[a - |left|] in level;
          if b < |left| + |level| {
            assert level[b - |left|] in level;
          } else {
            assert right[b - |left| - |level|] in right;
          }
        } else {
          assert r[a] == right[a - |left| - |level|] && r[b] == right[b - |left| - |level|];
        }
      }
    }
  }

  /** quickSort is stable: elements with equal keys keep their input order. */
  lemma {:induction false} QuickSortStable<T>(c: Comparator<T>, s: seq<T>)
    ensures SameOrderPerKey(c, s, QuickSortSeq(c, s))
    decreases |s|
  {
    if |s| > 1 {
      var pivotKey := c.key(s[|s| / 2]);
      PivotBucketsShorter(c, s, |s| / 2);
      var below, level, above := Bucket(c, s, pivotKey, Below), Bucket(c, s, pivotKey, Level), Bucket(c, s, pivotKey, Above);
      QuickSortStable(c, below);
      QuickSortStable(c, above);
      var left, right := QuickSortSeq(c, below), QuickSortSeq(c, above);
      forall k ensures KeyFilter(c, k, s) == KeyFilter(c, k, left + level + right) {
        KeyFilterAppend(c, k, left + level, right);
        KeyFilterAppend(c, k, left, level);
        assert KeyFilter(c, k, left) == KeyFilter(c, k, below);
        assert KeyFilter(c, k, right) == KeyFilter(c, k, above);
        BucketKeyFilter(c, s, pivotKey, Below, k);
        BucketKeyFilter(c, s, pivotKey, Level, k);
        BucketKeyFilter(c, s, pivotKey, Above, k);
      }
    }
  }

  /** quickSort: scans the input once, appending each element to the bucket
      its comparison with the pivot picks, then sorts the outer buckets
      recursively and concatenates. */
  method QuickSortRec<T>(items: seq<T>, comparator: Comparator<T>) returns (r: seq<T>)
    ensures r == QuickSortSeq(comparator, items)
    decreases |items|
  {
    if |items| <= 1 {
      return items;
    }
    var left, middle, right: seq<T> := [], [], [];
    var pivot := |items| / 2;
    ghost var pivotKey := comparator.key(items[pivot]);
    var i := 0;
    while i < |items|
      invariant 0 <= i <= |items|
      invariant left == Bucket(comparator, items[..i], pivotKey, Below)
      invariant middle == Bucket(comparator, items[..i], pivotKey, Level)
      invariant right == Bucket(comparator, items[..i], pivotKey, Above)
    {
      assert items[..i + 1][..i] == items[..i];
      if comparator.LessThan(items[i], items[pivot]) {
        left := left + [items[i]];
      } else if comparator.EqualTo(items[i], items[pivot]) {
        middle := middle + [items[i]];
      } else if comparator.GreaterThan(items[i], items[pivot]) {
        right := right + [items[i]];
      }
      i := i + 1;
    }
    assert items[..i] == items;
    PivotBucketsShorter(comparator, items, pivot);
    var sortedLeft := QuickSortRec(left, comparator);
    var sortedRight := QuickSortRec(right, comparator);
    r := sortedLeft + middle + sortedRight;
  }

  /** Sorts `items` in natural order by writing quickSort's result back. */
  method QuickSort(items: array<int>)
    modifies items
    ensures items[..] == QuickSortSeq(DefaultComparator(), old(items[..]))
    ensures Sorted(DefaultComparator(), items[..])
    ensures multiset(items[..]) == multiset(old(items[..]))
  {
    QuickSortWithComparator(items, DefaultComparator());
  }

  /** Sorts `items` under `comparator` by writing quickSort's result back. */
  method QuickSortWithComparator<T>(items: array<T>, comparator: Comparator<T>)
    modifies items
    ensures items[..] == QuickSortSeq(comparator, old(items[..]))
    ensures Sorted(comparator, items[..])
    ensures multiset(items[..]) == multiset(old(items[..]))
    ensures SameOrderPerKey(comparator, old(items[..]), items[..])
  {
    var sorted := QuickSortRec(items[..], comparator);
    QuickSortPermutes(comparator, items[..]);
    QuickSortSorted(comparator, items[..]);
    QuickSortStable(comparator, items[..]);
    assert |sorted| == items.Length by {
      assert |multiset(sorted)| == |multiset(items[..])|;
    }
    forall k | 0 <= k < items.Length {
      items[k] := sorted[k];
    }
    assert items[..] == sorted;
  }
}
