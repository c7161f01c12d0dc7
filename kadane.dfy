/** Kadane's maximum-subarray search (searching/kadane.go). The empty run
    counts, so the answer is never negative. */
module Kadane {

  /** The sum of a run, added up from the right. */
  function Sum(s: seq<int>): (r: int)
    ensures s == [] ==> r == 0
  {
    if s == [] then 0 else Sum(s[..|s| - 1]) + s[|s| - 1]
  }

  /** Go's built-in max on two ints. */
  function Max(a: int, b: int): (r: int)
    ensures r >= a && r >= b && (r == a || r == b)
  {
    if a >= b then a else b
  }

  /** The largest sum of a suffix s[lo..] with lo >= from (the empty suffix
      included). */
  ghost function MaxSuffixFrom(s: seq<int>, from: int): int
    requires 0 <= from <= |s|
    decreases |s| - from
  {
    if from == |s| then 0 else Max(Sum(s[from..]), MaxSuffixFrom(s, from + 1))
  }

  /** The reference answer: the largest sum of any run s[lo..hi], the empty run
      included, taken run end by run end. */
  ghost function MaxRunSum(s: seq<int>): int
    decreases |s|
  {
    if s == [] then 0 else Max(MaxRunSum(s[..|s| - 1]), MaxSuffixFrom(s, 0))
  }

  /** Extending a run to the right adds the new element. */
  lemma SumSnoc(s: seq<int>, lo: int, hi: int)
    requires 0 <= lo <= hi < |s|
    ensures Sum(s[lo..hi + 1]) == Sum(s[lo..hi]) + s[hi]
  {
    assert s[lo..hi + 1][..hi - lo] == s[lo..hi];
  }

  /** MaxSuffixFrom bounds every suffix from `from` on and is one of them. */
  lemma {:induction false} MaxSuffixFromIsMax(s: seq<int>, from: int)
    requires 0 <= from <= |s|
    ensures forall lo :: from <= lo <= |s| ==> Sum(s[lo..]) <= MaxSuffixFrom(s, from)
    ensures exists lo :: from <= lo <= |s| && Sum(s[lo..]) == MaxSuffixFrom(s, from)
    decreases |s| - from
  {
    if from == |s| {
      assert Sum(s[|s|..]) == 0;
    } else {
      MaxSuffixFromIsMax(s, from + 1);
      var lo :| from + 1 <= lo <= |s| && Sum(s[lo..]) == MaxSuffixFrom(s, from + 1);
      if Sum(s[from..]) >= MaxSuffixFrom(s, from + 1) {
        assert Sum(s[from..]) == MaxSuffixFrom(s, from);
      } else {
        assert Sum(s[lo..]) == MaxSuffixFrom(s, from);
      }
    }
  }

  /** MaxRunSum is at least the sum of every run. */
  lemma {:induction false} MaxRunSumIsUpperBound(s: seq<int>)
    ensures forall lo, hi :: 0 <= lo <= hi <= |s| ==> Sum(s[lo..hi]) <= MaxRunSum(s)
    decreases |s|
  {
    if s != [] {
      var n := |s|;
      var init := s[..n - 1];
      assert MaxRunSum(s) == Max(MaxRunSum(init), MaxSuffixFrom(s, 0));
      MaxRunSumIsUpperBound(init);
      MaxSuffixFromIsMax(s, 0);
      forall lo, hi | 0 <= lo <= hi <= n ensures Sum(s[lo..hi]) <= MaxRunSum(s) {
        if hi <= n - 1 {
          assert s[lo..hi] == init[lo..hi];
          assert Sum(init[lo..hi]) <= MaxRunSum(init);
        } else {
          assert s[lo..hi] == s[lo..];
          assert Sum(s[lo..]) <= MaxSuffixFrom(s, 0);
        }
      }
    }
  }

  /** MaxRunSum is the sum of some run. */
  lemma {:induction false} MaxRunSumIsAttained(s: seq<int>)
    ensures exists lo, hi :: 0 <= lo <= hi <= |s| && Sum(s[lo..hi]) == MaxRunSum(s)
    decreases |s|
  {
    if s == [] {
      assert Sum(s[0..0]) == 0;
    } else {
      var n := |s|;
      MaxSuffixFromIsMax(s, 0);
      if MaxRunSum(s[..n - 1]) >= MaxSuffixFrom(s, 0) {
        MaxRunSumIsAttained(s[..n - 1]);
        var lo, hi :| 0 <= lo <= hi <= n - 1 && Sum(s[..n - 1][lo..hi]) == MaxRunSum(s[..n - 1]);
        assert s[..n - 1][lo..hi] == s[lo..hi];
      } else {
        var lo :| 0 <= lo <= n && Sum(s[lo..]) == MaxSuffixFrom(s, 0);
        assert s[lo..n] == s[lo..];
      }
    }
  }

  /** Any value that bounds every run and is the sum of one is MaxRunSum. */
  lemma MaxRunSumUnique(s: seq<int>, r: int, lo: int, hi: int)
    requires forall a, b :: 0 <= a <= b <= |s| ==> Sum(s[a..b]) <= r
    requires 0 <= lo <= hi <= |s| && Sum(s[lo..hi]) == r
    ensures r == MaxRunSum(s)
  {
    MaxRunSumIsUpperBound(s);
    MaxRunSumIsAttained(s);
  }

  /** When every number is negative, the best run is the empty one. */
  lemma AllNegativeGivesZero(s: seq<int>)
    requires forall k :: 0 <= k < |s| ==> s[k] < 0
    ensures MaxRunSum(s) == 0
  {
    MaxRunSumIsAttained(s);
    var lo, hi :| 0 <= lo <= hi <= |s| && Sum(s[lo..hi]) == MaxRunSum(s);
    NegativeRunSum(s, lo, hi);
    MaxRunSumIsUpperBound(s);
    assert Sum(s[0..0]) == 0;
  }

  /** A run of negative numbers sums to at most zero. */
  lemma {:induction false} NegativeRunSum(s: seq<int>, lo: int, hi: int)
    requires 0 <= lo <= hi <= |s|
    requires forall k :: 0 <= k < |s| ==> s[k] < 0
    ensures Sum(s[lo..hi]) <= 0
    decreases hi - lo
  {
    if lo < hi {
      NegativeRunSum(s, lo, hi - 1);
      SumSnoc(s, lo, hi - 1);
    }
  }

  /** When no number is negative, the best run is the whole input. */
  lemma NonNegativeGivesTotal(s: seq<int>)
    requires forall k :: 0 <= k < |s| ==> s[k] >= 0
    ensures MaxRunSum(s) == Sum(s)
  {
    forall lo, hi | 0 <= lo <= hi <= |s| ensures Sum(s[lo..hi]) <= Sum(s) {
      RunAtMostTotal(s, lo, hi);
    }
    assert s[0..|s|] == s;
    MaxRunSumUnique(s, Sum(s), 0, |s|);
  }

  /** Without negative numbers, a run sums to at most the whole input. */
  lemma {:induction false} RunAtMostTotal(s: seq<int>, lo: int, hi: int)
    requires 0 <= lo <= hi <= |s|
    requires forall k :: 0 <= k < |s| ==> s[k] >= 0
    ensures Sum(s[lo..hi]) <= Sum(s)
    decreases lo + |s| - hi
  {
    if hi < |s| {
      RunAtMostTotal(s, lo, hi + 1);
      SumSnoc(s, lo, hi);
    } else if lo > 0 {
      RunAtMostTotal(s, lo - 1, hi);
      assert s[lo - 1..hi] == [s[lo - 1]] + s[lo..hi];
      SumCons(s[lo - 1], s[lo..hi]);
    } else {
      assert s[lo..hi] == s;
    }
  }

  /** Adding an element on the left adds it to the sum. */
  lemma {:induction false} SumCons(x: int, s: seq<int>)
    ensures Sum([x] + s) == x + Sum(s)
    decreases |s|
  {
    if s != [] {
      var t := [x] + s;
      assert t[..|t| - 1] == [x] + s[..|s| - 1];
      SumCons(x, s[..|s| - 1]);
    }
  }

  /** One step of the local maximum: from the best run ending at i (at least
      that of every non-empty one) to the best non-empty run ending at
      next = i+1. */
  lemma LocalStep(s: seq<int>, i: int, next: int, local: int, lLo: int)
    requires 0 <= lLo <= i < |s| && next == i + 1 && Sum(s[lLo..i]) == local
    requires forall lo :: 0 <= lo < i ==> Sum(s[lo..i]) <= local
    ensures forall lo :: 0 <= lo < next ==> Sum(s[lo..next]) <= Max(s[i], s[i] + local)
    ensures Sum(s[(if s[i] >= s[i] + local then i else lLo)..next]) == Max(s[i], s[i] + local)
  {
    SumSnoc(s, lLo, i);
    assert Sum(s[i..next]) == s[i] by {
      assert s[i..next][..0] == [];
    }
    forall lo | 0 <= lo < next ensures Sum(s[lo..next]) <= Max(s[i], s[i] + local) {
      if lo < i {
        SumSnoc(s, lo, i);
      }
    }
  }

  /** One step of the global maximum: runs ending at next = i+1 are covered
      by the new local maximum. */
  lemma GlobalStep(s: seq<int>, i: int, next: int, local: int, global: int)
    requires 0 <= i < |s| && next == i + 1
    requires forall lo :: 0 <= lo < next ==> Sum(s[lo..next]) <= local
    requires forall lo, hi :: 0 <= lo <= hi <= i ==> Sum(s[lo..hi]) <= global
    ensures forall lo, hi :: 0 <= lo <= hi <= next ==> Sum(s[lo..hi]) <= Max(local, global)
  {
    assert Sum(s[next..next]) == 0 && Sum(s[i..i]) == 0;
  }

  /** The state of the scan after i numbers: localMax is the largest sum of
      a run ending at i (the run lLo..i attains it), and globalMax bounds every
      run ending at or before i (the run gLo..gHi attains it). */
  ghost predicate KadaneState(s: seq<int>, i: int, localMax: int, lLo: int, globalMax: int, gLo: int, gHi: int) {
    1 <= i <= |s| &&
    0 <= lLo <= i && Sum(s[lLo..i]) == localMax &&
    (forall lo :: 0 <= lo < i ==> Sum(s[lo..i]) <= localMax) &&
    0 <= gLo <= gHi <= i && Sum(s[gLo..gHi]) == globalMax &&
    (forall lo, hi :: 0 <= lo <= hi <= i ==> Sum(s[lo..hi]) <= globalMax)
  }

  /** One iteration of the scan keeps its state; the runs that attain the new
      maxima are returned. */
  lemma KadaneStep(s: seq<int>, i: int, localMax: int, lLo: int, globalMax: int, gLo: int, gHi: int)
    returns (lLo': int, gLo': int, gHi': int)
    requires KadaneState(s, i, localMax, lLo, globalMax, gLo, gHi) && i < |s|
    ensures KadaneState(s, i + 1, Max(s[i], s[i] + localMax), lLo',
                        Max(Max(s[i], s[i] + localMax), globalMax), gLo', gHi')
  {
    LocalStep(s, i, i + 1, localMax, lLo);
    var local' := Max(s[i], s[i] + localMax);
    lLo' := if s[i] >= s[i] + localMax then i else lLo;
    GlobalStep(s, i, i + 1, local', globalMax);
    if local' >= globalMax {
      gLo', gHi' := lLo', i + 1;
    } else {
      gLo', gHi' := gLo, gHi;
    }
  }

  /** KadaneSearch: the largest sum of a contiguous run of `numbers`, 0 when
      every number is negative or there are none. */
  method KadaneSearch(numbers: seq<int>) returns (r: int)
    ensures forall lo, hi :: 0 <= lo <= hi <= |numbers| ==> Sum(numbers[lo..hi]) <= r
    ensures exists lo, hi :: 0 <= lo <= hi <= |numbers| && Sum(numbers[lo..hi]) == r
    ensures r == MaxRunSum(numbers)
  {
    if |numbers| == 0 {
      assert Sum(numbers[0..0]) == 0;
      MaxRunSumUnique(numbers, 0, 0, 0);
      return 0;
    }
    var globalMax, localMax := 0, 0;
    ghost var gLo, gHi, lLo := 1, 1, 1;
    if numbers[0] > 0 {
      globalMax := numbers[0];
      localMax := numbers[0];
      gLo, gHi, lLo := 0, 1, 0;
    }
    assert Sum(numbers[0..1]) == numbers[0];
    assert Sum(numbers[1..1]) == 0 && Sum(numbers[0..0]) == 0;
    var i := 1;
    while i < |numbers|
      invariant KadaneState(numbers, i, localMax, lLo, globalMax, gLo, gHi)
    {
      lLo, gLo, gHi := KadaneStep(numbers, i, localMax, lLo, globalMax, gLo, gHi);
      localMax := Max(numbers[i], numbers[i] + localMax);
      globalMax := Max(localMax, globalMax);
      i := i + 1;
    }
    MaxRunSumUnique(numbers, globalMax, gLo, gHi);
    return globalMax;
  }
}
