/** Insertion sort (sorting/insertion.go): grows a sorted prefix one element
    at a time, shifting the greater elements of the prefix one place right and
    dropping the new element into the gap. The "greater than" closure that
    drives it is the GreaterThan of a key-order comparator. */
module InsertionSorting {
  import opened Comparators

  /** `s` with its element at `i` moved back to position `p`, the elements in
      between moving one place right. */
  function MoveBack<T>(s: seq<T>, i: int, p: int): (r: seq<T>)
    requires 0 <= p <= i < |s|
    ensures |r| == |s|
    ensures r[..p] == s[..p] && r[p] == s[i] && r[i + 1..] == s[i + 1..]
    ensures forall k :: p < k <= i ==> r[k] == s[k - 1]
  {
    s[..p] + [s[i]] + s[p..i] + s[i + 1..]
  }

  /** Moving an element back keeps the multiset. */
  lemma MoveBackPermutes<T>(s: seq<T>, i: int, p: int)
    requires 0 <= p <= i < |s|
    ensures multiset(MoveBack(s, i, p)) == multiset(s)
  {
    assert s == s[..p] + s[p..i] + [s[i]] + s[i + 1..];
  }

  /** When `p` is the slot after the last element of the sorted prefix s[..i]
      whose key is not greater than that of s[i], moving s[i] there makes the
      prefix s[..i+1] sorted. */
  lemma MoveBackSorts<T>(c: Comparator<T>, s: seq<T>, i: int, p: int)
    requires 0 <= p <= i < |s|
    requires Sorted(c, s[..i])
    requires p > 0 ==> c.key(s[p - 1]) <= c.key(s[i])
    requires forall k :: p <= k < i ==> c.key(s[k]) > c.key(s[i])
    ensures Sorted(c, MoveBack(s, i, p)[..i + 1])
  {
    var r := MoveBack(s, i, p);
    forall a, b | 0 <= a < b < i + 1 ensures c.key(r[a]) <= c.key(r[b]) {
      if b < p {
        assert r[a] == s[a] && r[b] == s[b];
      } else if b == p {
        assert r[a] == s[a];
        if a < p - 1 {
          assert c.key(s[a]) <= c.key(s[p - 1]);
        }
      } else if a == p {
        assert r[b] == s[b - 1];
      } else if a < p {
        assert r[a] == s[a] && r[b] == s[b - 1];
      } else {
        assert r[a] == s[a - 1] && r[b] == s[b - 1];
      }
    }
  }

  /** Filtering four blocks filters each of them. */
  lemma FilterFour<T>(c: Comparator<T>, k: int, p: seq<T>, q: seq<T>, u: seq<T>, v: seq<T>)
    ensures KeyFilter(c, k, p + q + u + v) ==
      KeyFilter(c, k, p) + KeyFilter(c, k, q) + KeyFilter(c, k, u) + KeyFilter(c, k, v)
  {
    KeyFilterAppend(c, k, p, q);
    KeyFilterAppend(c, k, p + q, u);
    KeyFilterAppend(c, k, p + q + u, v);
  }

  /** Swapping two adjacent blocks, one of which holds no element of key `k`,
      leaves the elements of key `k` in the same order. */
  lemma SwapBlocksFilter<T>(c: Comparator<T>, k: int, pre: seq<T>, a: seq<T>, b: seq<T>, post: seq<T>)
    requires KeyFilter(c, k, a) == [] || KeyFilter(c, k, b) == []
    ensures KeyFilter(c, k, pre + a + b + post) == KeyFilter(c, k, pre + b + a + post)
  {
    var fp, fa, fb, fq := KeyFilter(c, k, pre), KeyFilter(c, k, a), KeyFilter(c, k, b), KeyFilter(c, k, post);
    assert KeyFilter(c, k, pre + a + b + post) == fp + fa + fb + fq by {
      FilterFour(c, k, pre, a, b, post);
    }
    assert KeyFilter(c, k, pre + b + a + post) == fp + fb + fa + fq by {
      FilterFour(c, k, pre, b, a, post);
    }
    assert fp + fa + fb + fq == fp + fb + fa + fq by {
      if fa == [] {
        assert fp + fa + fb + fq == fp + fb + fq == fp + fb + fa + fq;
      } else {
        assert fp + fa + fb + fq == fp + fa + fq == fp + fb + fa + fq;
      }
    }
  }

  /** Moving s[i] back past elements all of a greater key keeps the order of
      the elements of every key. */
  lemma MoveBackKeepsKeyOrder<T>(c: Comparator<T>, s: seq<T>, i: int, p: int)
    requires 0 <= p <= i < |s|
    requires forall k :: p <= k < i ==> c.key(s[k]) > c.key(s[i])
    ensures SameOrderPerKey(c, s, MoveBack(s, i, p))
  {
    var pre, mid, x, post := s[..p], s[p..i], [s[i]], s[i + 1..];
    assert s == pre + mid + x + post;
    assert MoveBack(s, i, p) == pre + x + mid + post;
    forall k ensures KeyFilter(c, k, pre + mid + x + post) == KeyFilter(c, k, pre + x + mid + post) {
      if k == c.key(s[i]) {
        KeyFilterNone(c, k, mid);
      } else {
        KeyFilterNone(c, k, x);
      }
      SwapBlocksFilter(c, k, pre, mid, x, post);
    }
  }

  /** The state of the inner loop that makes room for `key` = s[i]: the
      elements s[j+1..i), all greater than the key, have moved one place right;
      d[j+1] is a stale copy that the key will overwrite. */
  ghost predicate Shifting<T>(c: Comparator<T>, s: seq<T>, d: seq<T>, i: int, j: int)
  {
    -1 <= j < i < |s| == |d| &&
    d[..j + 1] == s[..j + 1] && d[j + 2..i + 1] == s[j + 1..i] && d[i + 1..] == s[i + 1..] &&
    forall k :: j + 1 <= k < i ==> c.key(s[k]) > c.key(s[i])
  }

  /** One shift of the inner loop. */
  lemma ShiftStep<T>(c: Comparator<T>, s: seq<T>, d: seq<T>, i: int, j: int)
    requires Shifting(c, s, d, i, j) && j >= 0 && c.GreaterThan(d[j], s[i])
    ensures Shifting(c, s, d[j + 1 := d[j]], i, j - 1)
  {
    var d' := d[j + 1 := d[j]];
    assert d[j] == s[j];
    assert d'[..j] == s[..j];
    assert d'[j + 1..i + 1] == [s[j]] + d[j + 2..i + 1];
    assert s[j..i] == [s[j]] + s[j + 1..i];
  }

  /** Dropping the key into the gap completes the move of s[i] to j+1. */
  lemma ShiftDone<T>(c: Comparator<T>, s: seq<T>, d: seq<T>, i: int, j: int)
    requires Shifting(c, s, d, i, j) && (j >= 0 ==> !c.GreaterThan(d[j], s[i]))
    ensures d[j + 1 := s[i]] == MoveBack(s, i, j + 1)
    ensures j >= 0 ==> c.key(s[j]) <= c.key(s[i])
  {
    var d' := d[j + 1 := s[i]];
    assert d' == d'[..j + 1] + [d'[j + 1]] + d'[j + 2..i + 1] + d'[i + 1..];
    if j >= 0 {
      assert d[j] == s[j];
    }
  }

  /** What the outer loop keeps: the first i elements are sorted, and the array
      is a rearrangement of the input that keeps the order of equal elements. */
  ghost predicate Inserted<T>(c: Comparator<T>, input: seq<T>, d: seq<T>, i: int) {
    1 <= i <= |d| && Sorted(c, d[..i]) &&
    multiset(d) == multiset(input) && SameOrderPerKey(c, input, d)
  }

  /** One step of the outer loop: moving s[i] back to p, past exactly the
      greater elements, keeps Inserted one element further on. */
  lemma InsertStep<T>(c: Comparator<T>, input: seq<T>, s: seq<T>, d: seq<T>, i: int, p: int)
    requires Inserted(c, input, s, i) && 0 <= p <= i < |s|
    requires p > 0 ==> c.key(s[p - 1]) <= c.key(s[i])
    requires forall k :: p <= k < i ==> c.key(s[k]) > c.key(s[i])
    requires d == MoveBack(s, i, p)
    ensures Inserted(c, input, d, i + 1)
  {
    MoveBackSorts(c, s, i, p);
    MoveBackPermutes(s, i, p);
    MoveBackKeepsKeyOrder(c, s, i, p);
    SameOrderPerKeyTrans(c, input, s, MoveBack(s, i, p));
  }

  /** Dropping the key into the gap the shifts left completes one pass of the
      outer loop. */
  lemma InsertDone<T>(c: Comparator<T>, input: seq<T>, s: seq<T>, shifted: seq<T>, d: seq<T>, i: int, j: int)
    requires Inserted(c, input, s, i) && i < |s|
    requires Shifting(c, s, shifted, i, j) && (j >= 0 ==> !c.GreaterThan(shifted[j], s[i]))
    requires d == shifted[j + 1 := s[i]]
    ensures d == MoveBack(s, i, j + 1)
    ensures Inserted(c, input, d, i + 1)
  {
    ShiftDone(c, s, shifted, i, j);
    InsertStep(c, input, s, d, i, j + 1);
  }

  /** In a sorted sequence no element is greater than its successor. */
  lemma SortedHasNoInversion<T>(c: Comparator<T>, s: seq<T>)
    requires Sorted(c, s)
    ensures forall k :: 0 <= k < |s| - 1 ==> !c.GreaterThan(s[k], s[k + 1])
  {
  }

  /** Sorts `data` ascending under the default "greater than" closure. */
  method InsertionSort(data: array<int>)
    modifies data
    ensures forall k :: 0 <= k < data.Length - 1 ==> !DefaultInsertionComparator()(data[k], data[k + 1])
    ensures Sorted(DefaultComparator(), data[..])
    ensures multiset(data[..]) == multiset(old(data[..]))
  {
    Sort(data, DefaultComparator());
  }

  /** Sorts `data` so that no element is greater than its successor under the
      comparator's "greater than". */
  method InsertionSortWithComparator<T>(data: array<T>, comparator: Comparator<T>)
    modifies data
    ensures forall k :: 0 <= k < data.Length - 1 ==> !comparator.GreaterThan(data[k], data[k + 1])
    ensures Sorted(comparator, data[..])
    ensures multiset(data[..]) == multiset(old(data[..]))
    ensures SameOrderPerKey(comparator, old(data[..]), data[..])
  {
    Sort(data, comparator);
  }

  /** One pass of the outer loop: the key data[i] is moved left past the
      greater elements, which shift one place right. */
  method InsertNext<T>(data: array<T>, comparator: Comparator<T>, i: int, ghost input: seq<T>)
    requires i < data.Length && Inserted(comparator, input, data[..], i)
    modifies data
    ensures Inserted(comparator, input, data[..], i + 1)
    ensures exists p :: 0 <= p <= i && data[..] == MoveBack(old(data[..]), i, p)
    ensures data[i + 1..] == old(data[i + 1..])
  {
    ghost var s := data[..];
    var key := data[i];
    var j := i - 1;
    while j >= 0 && comparator.GreaterThan(data[j], key)
      invariant Shifting(comparator, s, data[..], i, j)
      decreases j
    {
      ShiftStep(comparator, s, data[..], i, j);
      data[j + 1] := data[j];
      j := j - 1;
    }
    ghost var shifted := data[..];
    data[j + 1] := key;
    InsertDone(comparator, input, s, shifted, data[..], i, j);
    assert 0 <= j + 1 <= i && data[..] == MoveBack(s, i, j + 1);
  }

  /** The insertion sort proper. */
  method Sort<T>(data: array<T>, comparator: Comparator<T>)
    modifies data
    ensures forall k :: 0 <= k < data.Length - 1 ==> !comparator.GreaterThan(data[k], data[k + 1])
    ensures Sorted(comparator, data[..])
    ensures multiset(data[..]) == multiset(old(data[..]))
    ensures SameOrderPerKey(comparator, old(data[..]), data[..])
  {
    ghost var input := data[..];
    var n := data.Length;
    var i := 1;
    if n > 0 {
      assert Inserted(comparator, input, data[..], i);
    }
    while i < n
      invariant n == 0 || Inserted(comparator, input, data[..], i)
    {
      InsertNext(data, comparator, i, input);
      i := i + 1;
    }
    if n > 0 {
      assert data[..] == data[..i];
    } else {
      assert data[..] == [] && old(data[..]) == [];
    }
    SortedHasNoInversion(comparator, data[..]);
  }
}
