/** Selection sort (sorting/selection.go), written as a recursive swap sort:
    swapSort(items, from) walks i over from.., and whenever items[i] is not
    greater than items[from] it swaps the two and re-sorts items[from+1..]
    recursively. */
module SelectionSorting {
  import opened Comparators

  /** A head no greater than every element of a sorted tail makes the whole
      suffix sorted. */
  lemma SortedWithHead<T>(c: Comparator<T>, s: seq<T>, from: int)
    requires 0 <= from < |s|
    requires Sorted(c, s[from + 1..]) && AllAtLeast(c, s[from + 1..], c.key(s[from]))
    ensures Sorted(c, s[from..])
  {
    forall a, b | from <= a < b < |s| ensures c.key(s[a]) <= c.key(s[b]) {
      assert s[b] == s[from + 1..][b - from - 1];
      if a > from {
        assert s[a] == s[from + 1..][a - from - 1];
      }
    }
  }

  /** Once the tail s[from+1..] is sorted, a swap of s[i] (i > from) into the
      head, taken because s[i] is not greater than s[from], leaves a head no
      greater than anything in the new tail. */
  lemma SwapKeepsHeadLeast<T>(c: Comparator<T>, s: seq<T>, from: int, i: int)
    requires 0 <= from < i < |s|
    requires Sorted(c, s[from + 1..])
    requires i > from + 1 ==> Sorted(c, s[from..])
    requires c.key(s[i]) <= c.key(s[from])
    ensures AllAtLeast(c, Swap(s, from, i)[from + 1..], c.key(s[i]))
  {
    var t := Swap(s, from, i);
    forall x | x in t[from + 1..] ensures c.key(x) >= c.key(s[i]) {
      var k :| from + 1 <= k < |t| && t[k] == x;
      if k != i {
        assert s[k] == s[from + 1..][k - from - 1];
        assert s[i] == s[from + 1..][i - from - 1];
        if i > from + 1 {
          assert s[from + 1] == s[from + 1..][0];
          assert c.key(s[from]) <= c.key(s[from + 1]);
        }
        if k < i {
          assert c.key(s[from + 1]) <= c.key(s[k]);
        }
      }
    }
  }

  /** When the first compared tail element is greater than the head and the
      tail is sorted, the suffix is sorted already. */
  lemma GreaterNextKeepsOrder<T>(c: Comparator<T>, s: seq<T>, from: int)
    requires 0 <= from && from + 1 < |s|
    requires Sorted(c, s[from + 1..]) && c.key(s[from + 1]) > c.key(s[from])
    ensures Sorted(c, s[from..])
  {
    forall x | x in s[from + 1..] ensures c.key(x) >= c.key(s[from]) {
      var k :| from + 1 <= k < |s| && s[k] == x;
      assert s[k] == s[from + 1..][k - from - 1];
      assert s[from + 1] == s[from + 1..][0];
    }
    SortedWithHead(c, s, from);
  }

  /** One taken step of the loop: swap s[i] into the head, then re-sort the
      tail (giving `u`). The prefix before `from` stays as in `o`, the suffix
      stays a rearrangement of o[from..], the tail is sorted, and from the
      second step on the whole suffix is sorted. */
  lemma SwapStep<T>(c: Comparator<T>, o: seq<T>, s: seq<T>, u: seq<T>, from: int, i: int)
    requires 0 <= from <= i < |s| == |o| == |u|
    requires s[..from] == o[..from] && multiset(s[from..]) == multiset(o[from..])
    requires i > from ==> Sorted(c, s[from + 1..])
    requires i > from + 1 ==> Sorted(c, s[from..])
    requires c.key(s[i]) <= c.key(s[from])
    requires u[..from + 1] == Swap(s, from, i)[..from + 1]
    requires multiset(u[from + 1..]) == multiset(Swap(s, from, i)[from + 1..])
    requires Sorted(c, u[from + 1..])
    ensures u[..from] == o[..from] && multiset(u[from..]) == multiset(o[from..])
    ensures i > from ==> Sorted(c, u[from..])
  {
    var t := Swap(s, from, i);
    assert t[from..] == Swap(s[from..], 0, i - from);
    assert u[..from] == u[..from + 1][..from];
    assert t[..from] == t[..from + 1][..from];
    assert t[..from] == s[..from];
    assert u[from] == u[..from + 1][from] && t[from] == t[..from + 1][from];
    assert u[from..] == [u[from]] + u[from + 1..];
    assert t[from..] == [t[from]] + t[from + 1..];
    if i > from {
      SwapKeepsHeadLeast(c, s, from, i);
      PermutationKeepsBounds(c, t[from + 1..], u[from + 1..], c.key(t[from]), 0);
      SortedWithHead(c, u, from);
    }
  }

  /** Sorts `items` ascending in natural order. */
  method SelectionSort(items: array<int>)
    modifies items
    ensures Sorted(DefaultComparator(), items[..])
    ensures multiset(items[..]) == multiset(old(items[..]))
  {
    SwapSort(items, 0, DefaultComparator());
  }

  /** Sorts `items` ascending under `comparator`. */
  method SelectionSortWithComparator<T>(items: array<T>, comparator: Comparator<T>)
    modifies items
    ensures Sorted(comparator, items[..])
    ensures multiset(items[..]) == multiset(old(items[..]))
  {
    SwapSort(items, 0, comparator);
  }

  /** Sorts items[from..] in place and leaves items[..from] alone; a slice of
      length at most one is left untouched. */
  method SwapSort<T>(items: array<T>, from: int, comparator: Comparator<T>)
    requires 0 <= from <= items.Length
    modifies items
    ensures items.Length <= 1 ==> items[..] == old(items[..])
    ensures items[..from] == old(items[..from])
    ensures multiset(items[from..]) == multiset(old(items[from..]))
    ensures Sorted(comparator, items[from..])
    decreases items.Length - from
  {
    if items.Length <= 1 {
      return;
    }
    var i := from;
    while i < items.Length
      invariant from <= i <= items.Length
      invariant items[..from] == old(items[..from])
      invariant multiset(items[from..]) == multiset(old(items[from..]))
      invariant i > from ==> Sorted(comparator, items[from + 1..])
      invariant i > from + 1 ==> Sorted(comparator, items[from..])
    {
      ghost var s := items[..];
      if comparator.LessThan(items[i], items[from]) || comparator.EqualTo(items[i], items[from]) {
        items[from], items[i] := items[i], items[from];
        assert items[..] == Swap(s, from, i);
        SwapSort(items, from + 1, comparator);
        SwapStep(comparator, old(items[..]), s, items[..], from, i);
      } else if i == from + 1 {
        GreaterNextKeepsOrder(comparator, s, from);
      }
      i := i + 1;
    }
    if from < items.Length <= from + 1 {
      assert items[from..] == [items[from]];
    }
  }
}
