/** The comparator capability shared by the sorts and the heap.

    A comparator answers "less than", "greater than" and "equal to" for two
    values. Both comparators of the library order values by one integer key:
    the natural order of an integer (DefaultComparator) or a person's date of
    birth (PersonComparator). A comparator is therefore modelled as the key it
    orders by, which makes every comparator a total preorder. */
module Comparators {

  datatype Comparator<!T> = Comparator(key: T -> int) {

    predicate LessThan(a: T, b: T) {
      key(a) < key(b)
    }

    predicate GreaterThan(a: T, b: T) {
      key(a) > key(b)
    }

    predicate EqualTo(a: T, b: T) {
      key(a) == key(b)
    }
  }

  /** The comparator of naturally ordered values, over integers. */
  function DefaultComparator(): (c: Comparator<int>)
    ensures forall a: int, b: int :: c.LessThan(a, b) <==> a < b
    ensures forall a: int, b: int :: c.GreaterThan(a, b) <==> a > b
    ensures forall a: int, b: int :: c.EqualTo(a, b) <==> a == b
  {
    Comparator(x => x)
  }

  /** The default "greater than" closure that insertion sort uses: it answers
      exactly as the GreaterThan of DefaultComparator. */
  function DefaultInsertionComparator(): (gt: (int, int) -> bool)
    ensures forall a: int, b: int :: gt(a, b) <==> a > b
    ensures forall a: int, b: int :: gt(a, b) <==> DefaultComparator().GreaterThan(a, b)
  {
    (a, b) => a > b
  }

  /** A date of birth is reduced to an integer instant. */
  datatype Person = Person(name: string, dob: int)

  /** Orders persons by date of birth only. */
  function PersonComparator(): (c: Comparator<Person>)
    ensures forall a: Person, b: Person :: c.LessThan(a, b) <==> a.dob < b.dob
    ensures forall a: Person, b: Person :: c.GreaterThan(a, b) <==> a.dob > b.dob
    ensures forall a: Person, b: Person :: c.EqualTo(a, b) <==> a.dob == b.dob
  {
    Comparator((p: Person) => p.dob)
  }

  /** Exactly one of the three answers holds for any two values. */
  lemma Trichotomy<T>(c: Comparator<T>, a: T, b: T)
    ensures c.LessThan(a, b) || c.GreaterThan(a, b) || c.EqualTo(a, b)
    ensures !(c.LessThan(a, b) && c.GreaterThan(a, b))
    ensures !(c.LessThan(a, b) && c.EqualTo(a, b))
    ensures !(c.GreaterThan(a, b) && c.EqualTo(a, b))
  {
  }

  lemma LessThanIsConverseOfGreaterThan<T>(c: Comparator<T>, a: T, b: T)
    ensures c.LessThan(a, b) <==> c.GreaterThan(b, a)
  {
  }

  lemma EqualToIsReflexive<T>(c: Comparator<T>, a: T)
    ensures c.EqualTo(a, a)
  {
  }

  /** Two persons born at the same instant compare equal whatever their names. */
  lemma PersonsCompareByBirthOnly(a: Person, b: Person)
    requires a.dob == b.dob
    ensures PersonComparator().EqualTo(a, b)
    ensures !PersonComparator().LessThan(a, b) && !PersonComparator().GreaterThan(a, b)
  {
  }

  /** `s` with positions `i` and `j` exchanged, the swap the sorts and the
      heap perform on their slices. */
  function Swap<T>(s: seq<T>, i: int, j: int): (r: seq<T>)
    requires 0 <= i < |s| && 0 <= j < |s|
    ensures |r| == |s| && r[i] == s[j] && r[j] == s[i]
    ensures forall k :: 0 <= k < |s| && k != i && k != j ==> r[k] == s[k]
    ensures multiset(r) == multiset(s)
  {
    s[i := s[j]][j := s[i]]
  }

  /** `s` is in ascending order under `c`: no element is greater than a later one. */
  ghost predicate Sorted<T>(c: Comparator<T>, s: seq<T>) {
    forall i, j :: 0 <= i < j < |s| ==> c.key(s[i]) <= c.key(s[j])
  }

  /** Every element of `s` has a key of at least `lo`. */
  ghost predicate AllAtLeast<T>(c: Comparator<T>, s: seq<T>, lo: int) {
    forall x :: x in s ==> c.key(x) >= lo
  }

  /** Every element of `s` has a key of at most `hi`. */
  ghost predicate AllAtMost<T>(c: Comparator<T>, s: seq<T>, hi: int) {
    forall x :: x in s ==> c.key(x) <= hi
  }

  /** A key bound on the elements survives a permutation. */
  lemma PermutationKeepsBounds<T>(c: Comparator<T>, s: seq<T>, t: seq<T>, lo: int, hi: int)
    requires multiset(s) == multiset(t)
    ensures AllAtLeast(c, s, lo) ==> AllAtLeast(c, t, lo)
    ensures AllAtMost(c, s, hi) ==> AllAtMost(c, t, hi)
  {
    forall x | x in t ensures x in s {
      assert x in multiset(t);
    }
  }

  /** The elements of `s` whose key is `k`, in their order in `s`. */
  function KeyFilter<T>(c: Comparator<T>, k: int, s: seq<T>): (r: seq<T>)
    ensures |r| <= |s|
  {
    if s == [] then []
    else if c.key(s[0]) == k then [s[0]] + KeyFilter(c, k, s[1..])
    else KeyFilter(c, k, s[1..])
  }

  /** Filtering distributes over concatenation. */
  lemma {:induction false} KeyFilterAppend<T>(c: Comparator<T>, k: int, a: seq<T>, b: seq<T>)
    ensures KeyFilter(c, k, a + b) == KeyFilter(c, k, a) + KeyFilter(c, k, b)
  {
    if a == [] {
      assert a + b == b;
    } else {
      assert (a + b)[1..] == a[1..] + b;
      KeyFilterAppend(c, k, a[1..], b);
    }
  }

  /** A sequence none of whose elements has key `k` filters to nothing. */
  lemma {:induction false} KeyFilterNone<T>(c: Comparator<T>, k: int, s: seq<T>)
    requires forall x :: x in s ==> c.key(x) != k
    ensures KeyFilter(c, k, s) == []
  {
    if s != [] {
      assert forall x :: x in s[1..] ==> x in s;
      KeyFilterNone(c, k, s[1..]);
    }
  }

  /** `t` lists the elements of every key in the same order as `s`: a
      rearrangement of `s` that keeps equal elements in their input order. */
  ghost predicate SameOrderPerKey<T>(c: Comparator<T>, s: seq<T>, t: seq<T>) {
    forall k :: KeyFilter(c, k, s) == KeyFilter(c, k, t)
  }

  /** Keeping the order per key is transitive. */
  lemma SameOrderPerKeyTrans<T>(c: Comparator<T>, s: seq<T>, t: seq<T>, u: seq<T>)
    requires SameOrderPerKey(c, s, t) && SameOrderPerKey(c, t, u)
    ensures SameOrderPerKey(c, s, u)
  {
    forall k ensures KeyFilter(c, k, s) == KeyFilter(c, k, u) {
      assert KeyFilter(c, k, s) == KeyFilter(c, k, t);
    }
  }
}
