# algos in Dafny

This project models the algorithmic core of the Go library `algos`.

- **The indexable binary heap** (`types/heap.go`, duplicated in `sorting/ds/heap.go`). A min- or max-heap over a growable array, with `Insert`, `Delete(i)`, `Heapify`, `HeapifyToIndex` and `IsValidHeap`.
- **Heap sort**, built on that heap.
- **The comparator capability** (`types/types.go`). It is shared by four comparison sorts: insertion, selection (a recursive swap sort), merge and a three-way quick sort.
- **Hoare's two-pointer partition.**
- **Two searches:** Knuth-Morris-Pratt substring search with its longest-prefix-suffix table, and Kadane's maximum-subarray scan.

One Dafny module covers each source file:

| file | module |
|---|---|
| `comparators.dfy` | `Comparators` |
| `heap.dfy` | `Heaps` |
| `heap_sort.dfy` | `HeapSorting` |
| `insertion_sort.dfy` | `InsertionSorting` |
| `selection_sort.dfy` | `SelectionSorting` |
| `merge_sort.dfy` | `MergeSorting` |
| `quick_sort.dfy` | `QuickSorting` |
| `hoare.dfy` | `Partitioning` |
| `kmp.dfy` | `KnuthMorrisPratt` |
| `kadane.dfy` | `Kadane` |

Code that mutates state is modelled imperatively:
- The heap is a class whose `data` field the methods reassign.
- The sorts, the partition and the searches are methods with loops over arrays or sequences.

Each method is proved against a specification:
- Heap repairs: pure functions `SiftDown`, `SiftUp` and `DeleteAt` state what the repairs compute, and lemmas state what they achieve.
- Merge: `MergeSeq` is the merge specification.
- Quick sort: `QuickSortSeq` is the result of `quickSort`. The source's `quickSort` builds new lists, so it is a function of its input.
- KMP: `Occurrences` is the specification, along with `LongestBorder` for the table.
- Kadane: `MaxRunSum` is the largest sum of a contiguous run.

A comparator is modelled as the integer key it orders by. That is the identity for `DefaultComparator` over integers, and the date of birth for `PersonComparator`. So every comparator is a total preorder, and "ascending" means ascending keys.

## Model

| member | source | states |
|---|---|---|
| Comparators.DefaultComparator | types/types.go:14-18 | LessThan, GreaterThan and EqualTo are exactly <, > and == on integers |
| Comparators.DefaultInsertionComparator | sorting/common.go:9-13 | the default insertion-sort closure holds exactly when a > b, which is exactly the GreaterThan of DefaultComparator that the model's InsertionSort sorts with |
| Comparators.PersonComparator | types/types.go:29-33 | persons are ordered by date of birth: before, after, same instant |
| Comparators.Trichotomy | types/types.go:8-12 | for any two values exactly one of LessThan, GreaterThan, EqualTo holds |
| Comparators.LessThanIsConverseOfGreaterThan | types/types.go:16-17 | LessThan(a, b) holds exactly when GreaterThan(b, a) does |
| Comparators.EqualToIsReflexive | types/types.go:18 | every value is EqualTo itself |
| Comparators.PersonsCompareByBirthOnly | types/types.go:31-33 | two persons born at the same instant are EqualTo and neither is before the other, whatever their names |
| Comparators.Swap | sorting/selection.go:20 | the swap exchanges two positions, changes no other and keeps the multiset; the heap (types/heap.go:84, :102 and :120) and heap sort use the same swap |
| Comparators.KeyFilterAppend | sorting/quick.go:26-37 | taking the elements of one key distributes over concatenation (the basis of the stability proofs) |
| Heaps.CompareIsDefaultComparator | types/heap.go:20-28 | the heap order is DefaultComparator's LessThan for a min-heap and its GreaterThan for a max-heap |
| Heaps.Left | types/heap.go:146-148 | the left child 2i+1 of i >= 0 is a later index whose parent is i |
| Heaps.Right | types/heap.go:151-153 | the right child is left(i)+1, a later index whose parent is i |
| Heaps.Best | types/heap.go:91-99 | the index bubbleDown picks is i itself, when no child in range is ahead of it, or a child ahead of s[i] that no sibling is ahead of; the right child is picked only when it is strictly ahead of the left one, so a tie goes to the left child |
| Heaps.SiftDown | types/heap.go:90-123 | bubbleDown(ToIndex) keeps the length and the multiset of the prefix below maxIdx, and leaves everything from maxIdx on unchanged |
| Heaps.SiftDownRestoresOrder | types/heap.go:90-105 | when only the pairs under index i may be out of order, sifting down from i puts every pair from lo on in heap order |
| Heaps.SiftDownKeepsHeap | types/heap.go:101-104 | bubbleDown on a heap changes nothing, because it swaps only on a strict comparison |
| Heaps.RootIsExtreme | types/heap.go:9-12 | no element of a heap is ahead of the root: the root of a min-heap is its minimum, that of a max-heap its maximum |
| Heaps.SiftUp | types/heap.go:79-87 | bubbleUp(i) keeps length and multiset and changes only the indices i, i/2, i/4, …, 0 |
| Heaps.DeleteAt | types/heap.go:42-62 | Delete(i) with i out of range changes nothing; otherwise it removes exactly one copy of s[i], and deleting the last index only truncates |
| Heaps.DeleteRootKeepsHeap | types/heap.go:56-61 | Delete(0) on a heap leaves a heap |
| Heaps.DeleteLastKeepsHeap | types/heap.go:53-55 | deleting the last element of a heap leaves a heap |
| Heaps.DeleteInteriorBreaksHeap | types/heap.go:56-61 | Delete(3) on the min-heap [1,10,2,11,12,3,4] gives [1,10,2,4,12,3], which is not a heap |
| Heaps.InsertBreaksHeap | types/heap.go:79-87 | inserting 4 into the min-heap [1,5,3,6] gives [1,5,3,6,4], which is not a heap |
| Heaps.InsertSwapsEqualValues | types/heap.go:83-85 | inserting 5 into the min-heap [5,10,5,10] swaps it upward past an equal value, giving [5,5,10,10,5] |
| Heaps.SiftUpFixed | types/heap.go:79-87 | the sift-up with parent (i-1)/2 keeps length and multiset |
| Heaps.SiftUpFixedRestoresHeap | types/heap.go:79-87 | the corrected sift-up turns a heap with one element out of place into a heap |
| Heaps.InsertFixedKeepsHeap | types/heap.go:36-39 | Insert with the corrected sift-up keeps a heap a heap and adds the item to the multiset |
| Heaps.DeleteAtFixed | types/heap.go:42-62 | the corrected Delete has DeleteAt's out-of-range and removal behaviour |
| Heaps.DeleteAtFixedKeepsHeap | types/heap.go:42-62 | the corrected Delete keeps a heap a heap for every index |
| Heaps.Heap.constructor | types/heap.go:20-33 | NewHeap gives a heap of the requested polarity that is a permutation of the elements, unchanged when they already form a heap |
| Heaps.Heap.Insert | types/heap.go:36-39 | Insert appends and bubbles up: the data grows by one and gains the item |
| Heaps.Heap.Delete | types/heap.go:42-62 | Delete(i) computes DeleteAt; deleting index 0 or the last index keeps a heap a heap |
| Heaps.Heap.Heapify | types/heap.go:65-69 | Heapify makes the data a heap with the same multiset, and leaves an existing heap unchanged (so it is idempotent) |
| Heaps.Heap.HeapifyToIndex | types/heap.go:72-76 | HeapifyToIndex(maxIdx) heap-orders the prefix below maxIdx as a permutation of it, leaves the rest untouched, and leaves an ordered prefix unchanged |
| Heaps.Heap.BubbleUp | types/heap.go:79-87 | bubbleUp computes SiftUp |
| Heaps.Heap.BubbleDown | types/heap.go:90-105 | bubbleDown computes SiftDown over the whole data |
| Heaps.Heap.BubbleDownToIndex | types/heap.go:108-123 | bubbleDownToIndex computes SiftDown over the prefix below maxIdx |
| Heaps.Heap.IsValidHeap | types/heap.go:126-138 | returns true exactly when no in-range child is ahead of its parent |
| HeapSorting.ExtractionStep | sorting/heap_sort.go:13-16 | swapping the root of the heap prefix to i and re-heapifying extends the ascending, partitioned suffix by one |
| HeapSorting.HeapSort | sorting/heap_sort.go:8-17 | the data ends ascending and a permutation of the input |
| InsertionSorting.MoveBack | sorting/insertion.go:24-35 | moving s[i] back to p keeps s[..p] and s[i+1..], puts s[i] at p and shifts s[p..i] one place right |
| InsertionSorting.MoveBackPermutes | sorting/insertion.go:29-34 | moving an element back is a permutation |
| InsertionSorting.MoveBackSorts | sorting/insertion.go:24-35 | moving s[i] past exactly the greater elements of the sorted prefix makes s[..i+1] sorted |
| InsertionSorting.MoveBackKeepsKeyOrder | sorting/insertion.go:29-31 | moving past only strictly greater elements keeps the input order of equal elements |
| InsertionSorting.ShiftStep | sorting/insertion.go:29-32 | one shift data[j+1] = data[j] keeps the inner-loop state with j one lower |
| InsertionSorting.ShiftDone | sorting/insertion.go:33-34 | writing the key into the gap at j+1 completes the move of s[i] to j+1 |
| InsertionSorting.InsertStep | sorting/insertion.go:24-35 | one outer pass keeps the prefix sorted one element further, a permutation of the input, equal elements in input order |
| InsertionSorting.InsertDone | sorting/insertion.go:29-34 | the state the inner loop exits in, followed by the write of the key, moves s[i] back to j+1 and completes one outer pass |
| InsertionSorting.SortedHasNoInversion | sorting/insertion.go:29 | in a sorted sequence no element is greater than its successor |
| InsertionSorting.InsertionSort | sorting/insertion.go:7-9 | no adjacent pair satisfies the default a > b closure; the data is ascending and a permutation of the input |
| InsertionSorting.InsertionSortWithComparator | sorting/insertion.go:15-17 | no adjacent pair is in GreaterThan order; the data is sorted, a permutation, and stable |
| InsertionSorting.InsertNext | sorting/insertion.go:25-34 | one outer iteration moves data[i] back to some p <= i past the greater elements (MoveBack), leaves data[i+1..] as it was, and extends the sorted, stable prefix from i to i+1 |
| InsertionSorting.Sort | sorting/insertion.go:22-36 | no adjacent pair is in GreaterThan order; the data is sorted, a permutation, and keeps equal elements in input order |
| SelectionSorting.SortedWithHead | sorting/selection.go:18-23 | a head no greater than every element of a sorted tail gives a sorted sequence |
| SelectionSorting.SwapKeepsHeadLeast | sorting/selection.go:19-21 | swapping a not-greater s[i] into the head keeps the new head least over the tail |
| SelectionSorting.GreaterNextKeepsOrder | sorting/selection.go:18-23 | an untaken step on a sorted range keeps it sorted |
| SelectionSorting.SwapStep | sorting/selection.go:19-22 | a taken step (swap, then recursive re-sort of the tail) keeps the prefix, the multiset and the sortedness of items[from..] |
| SelectionSorting.SelectionSort | sorting/selection.go:5-7 | the items end ascending and a permutation of the input |
| SelectionSorting.SelectionSortWithComparator | sorting/selection.go:9-11 | the items end sorted under the comparator and a permutation of the input |
| SelectionSorting.SwapSort | sorting/selection.go:13-26 | swapSort(from) leaves items[..from] alone, and items[from..] ends sorted and a permutation; length <= 1 is a no-op |
| MergeSorting.MergeSort | sorting/merge.go:9-11 | the items end ascending and a permutation of the input |
| MergeSorting.MergeSortWithComparator | sorting/merge.go:17-19 | the items end sorted under the comparator and a permutation of the input |
| MergeSorting.SplitAndSort | sorting/merge.go:23-42 | items[left..right] ends sorted and a permutation of itself, and nothing outside it changes; an empty slice is untouched |
| MergeSorting.OrderedPair | sorting/merge.go:27-32 | two neighbours the first of which is not GreaterThan the second are already sorted |
| MergeSorting.SwapPair | sorting/merge.go:27-31 | swapping two neighbours the first of which is GreaterThan the second sorts them, keeps their multiset and changes nothing else |
| MergeSorting.HalvesMerged | sorting/merge.go:34-40 | sorting both halves and then merging them sorts the range as a permutation, and leaves the rest alone |
| MergeSorting.MergedSorted | sorting/merge.go:34-40 | merging two sorted halves gives a sorted range |
| MergeSorting.MergedPermutes | sorting/merge.go:34-40 | merging two halves that are permutations of the original halves gives a permutation of the original range |
| MergeSorting.MergedFrame | sorting/merge.go:34-40 | sorting the halves and merging them leaves everything outside items[left..right] as it was |
| MergeSorting.MergeSeqPermutes | sorting/merge.go:47-70 | the merge is a permutation of the two runs together |
| MergeSorting.MergeSeqElements | sorting/merge.go:47-70 | every element of the merge comes from one of the runs |
| MergeSorting.MergeSeqSorted | sorting/merge.go:47-70 | the merge of two sorted runs is sorted |
| MergeSorting.TakeHead | sorting/merge.go:53-60 | the merge starts with the left head when it is LessThan the right head, and with the right head otherwise |
| MergeSorting.MergeFromIsMergeSeq | sorting/merge.go:51-70 | walking the two pointers, as the loop does, produces exactly the merge of the two runs |
| MergeSorting.TakeLeft | sorting/merge.go:53-69 | appending the first run's head, when it is LessThan the other head or the second run is used up, keeps the collected prefix followed by the rest equal to the whole merge |
| MergeSorting.TakeRight | sorting/merge.go:53-64 | appending the second run's head, on a tie, a greater left head or an exhausted first run, keeps the same loop state |
| MergeSorting.MergeDone | sorting/merge.go:51-70 | with both pointers past their runs, tempSlice is the merge of the two runs |
| MergeSorting.Merge | sorting/merge.go:47-74 | items[left..right] becomes the merge of the two runs; nothing else changes |
| MergeSorting.MergeRuns | sorting/merge.go:48-70 | the pointer loop collects exactly the merge of items[left..mid] and items[mid+1..right] |
| MergeSorting.CopyInto | sorting/merge.go:73 | copy overwrites dst[start..start+len(src)) with src and keeps the rest |
| QuickSorting.BucketsSplit | sorting/quick.go:26-35 | the three buckets together are a permutation of the input |
| QuickSorting.BucketSizes | sorting/quick.go:26-35 | the sizes of left, middle and right add up to the size of the input |
| QuickSorting.BucketKeys | sorting/quick.go:27-34 | left holds only elements LessThan the pivot, middle only EqualTo, right only GreaterThan |
| QuickSorting.BucketKeyFilter | sorting/quick.go:26-35 | a bucket keeps, in input order, exactly the elements of each key on its side |
| QuickSorting.PivotBucketsShorter | sorting/quick.go:24-37 | left and right are strictly shorter than the input, because the pivot lands in middle |
| QuickSorting.QuickSortSeq | sorting/quick.go:18-21 | a sequence of length <= 1 is returned as it is |
| QuickSorting.QuickSortPermutes | sorting/quick.go:18-38 | quickSort returns a permutation of its input |
| QuickSorting.QuickSortKeepsSide | sorting/quick.go:37 | a key bound that holds of the input holds of the result |
| QuickSorting.QuickSortSorted | sorting/quick.go:18-38 | quickSort returns an ascending sequence |
| QuickSorting.QuickSortStable | sorting/quick.go:26-37 | quickSort keeps elements of equal key in input order |
| QuickSorting.QuickSortRec | sorting/quick.go:18-38 | the bucket loop and the recursion compute QuickSortSeq |
| QuickSorting.QuickSort | sorting/quick.go:8-10 | the items are overwritten by quickSort's result, which is ascending and a permutation |
| QuickSorting.QuickSortWithComparator | sorting/quick.go:13-15 | the items are overwritten by quickSort's result: sorted, a permutation, and stable |
| Partitioning.HoarePartition | partitioning/hoare.go:3-31 | length <= 1 is a no-op; otherwise the array is a permutation with a split k, every element up to k at most the original elements[0] and every later one at least it |
| KnuthMorrisPratt.OccurrencesBelowExact | searching/knuth_morris_pratt.go:21-41 | the list of match offsets below n holds exactly the offsets below n where the pattern occurs |
| KnuthMorrisPratt.OccurrencesBelowIncreasing | searching/knuth_morris_pratt.go:21-41 | the offsets are strictly increasing |
| KnuthMorrisPratt.OccurrencesCorrect | searching/knuth_morris_pratt.go:8-43 | an offset is reported exactly when a non-empty pattern occurs there, overlapping matches included, in strictly increasing order |
| KnuthMorrisPratt.Utf8Length | searching/knuth_morris_pratt.go:11 | Go's len of a valid UTF-8 string: between one and four bytes per code point |
| KnuthMorrisPratt.Utf8LengthAppend | searching/knuth_morris_pratt.go:11 | the byte length of a concatenation is the sum of the byte lengths |
| KnuthMorrisPratt.MatchFitsEncoding | searching/knuth_morris_pratt.go:11-13 | a pattern that occurs in the text takes no more bytes than the text |
| KnuthMorrisPratt.LongEncodingNeverOccurs | searching/knuth_morris_pratt.go:11-13 | a pattern with more bytes than the text occurs nowhere, so the byte-length early exit loses no occurrence |
| KnuthMorrisPratt.BorderOfBorder | searching/knuth_morris_pratt.go:60-61 | a border of a border is a border |
| KnuthMorrisPratt.ShorterBorder | searching/knuth_morris_pratt.go:60-61 | a shorter border of a prefix is a border of any longer border |
| KnuthMorrisPratt.ExtendBorder | searching/knuth_morris_pratt.go:53-57 | a border followed by a matching character is a border one longer |
| KnuthMorrisPratt.ShrinkBorder | searching/knuth_morris_pratt.go:53-67 | a non-empty border of pattern[..i+1] is a border of pattern[..i] extended by pattern[i] |
| KnuthMorrisPratt.LpsMatchStep | searching/knuth_morris_pratt.go:53-57 | on a match lps[i] = j+1 is the longest proper border of pattern[..i+1] |
| KnuthMorrisPratt.LpsFallbackStep | searching/knuth_morris_pratt.go:60-62 | on a mismatch with j > 0 the fallback to lps[j-1] skips no border |
| KnuthMorrisPratt.LpsZeroStep | searching/knuth_morris_pratt.go:63-66 | on a mismatch with j = 0, pattern[..i+1] has no non-empty proper border |
| KnuthMorrisPratt.CreateLps | searching/knuth_morris_pratt.go:45-73 | lps[k] is the length of the longest proper prefix of pattern[..k+1] that is also its suffix, so lps[0] = 0 and lps[k] <= k |
| KnuthMorrisPratt.MatchGivesBorder | searching/knuth_morris_pratt.go:32 | a match starting inside a partial match gives a border of the matched prefix |
| KnuthMorrisPratt.NoMatchInSkip | searching/knuth_morris_pratt.go:32-36 | falling back to the longest border skips no occurrence |
| KnuthMorrisPratt.MismatchRulesOut | searching/knuth_morris_pratt.go:33-39 | a mismatch after a partial match rules out a match at its start |
| KnuthMorrisPratt.SearchAdvance | searching/knuth_morris_pratt.go:23-26 | a matching character extends the partial match |
| KnuthMorrisPratt.SearchFoundStep | searching/knuth_morris_pratt.go:27-32 | a full match records its start i-j and falls back to lps[m-1], and the recorded list stays exactly the occurrences found so far |
| KnuthMorrisPratt.RecordMatch | searching/knuth_morris_pratt.go:31 | appending the start of a full match extends the occurrence list by one offset |
| KnuthMorrisPratt.BorderSuffix | searching/knuth_morris_pratt.go:32-36 | the text also ends in every border of the matched prefix |
| KnuthMorrisPratt.SearchFallbackStep | searching/knuth_morris_pratt.go:33-36 | a mismatch with j > 0 falls back to lps[j-1] without losing an occurrence |
| KnuthMorrisPratt.SearchSkipStep | searching/knuth_morris_pratt.go:37-38 | a mismatch with j = 0 moves on to i+1 without losing an occurrence |
| KnuthMorrisPratt.SearchEnd | searching/knuth_morris_pratt.go:21-42 | at the end of the text the recorded offsets are all the occurrences |
| KnuthMorrisPratt.KmpSearch | searching/knuth_morris_pratt.go:8-43 | returns exactly the occurrence offsets, with the early exit on byte lengths as written; empty for an empty pattern or one with more bytes than the text |
| Kadane.Max | searching/kadane.go:20-21 | max returns one of its arguments and is at least both |
| Kadane.MaxRunSumIsUpperBound | searching/kadane.go:7-26 | no contiguous run sums to more than MaxRunSum |
| Kadane.MaxRunSumIsAttained | searching/kadane.go:7-26 | some contiguous run (possibly empty) sums to MaxRunSum |
| Kadane.MaxRunSumUnique | searching/kadane.go:7-26 | a value that bounds every run and is the sum of one is MaxRunSum |
| Kadane.AllNegativeGivesZero | searching/kadane.go:13-17 | when every number is negative the answer is 0 |
| Kadane.NonNegativeGivesTotal | searching/kadane.go:19-22 | when no number is negative the answer is the total sum |
| Kadane.LocalStep | searching/kadane.go:20 | after step i, localMax is the largest sum of a non-empty run ending at i and is attained |
| Kadane.GlobalStep | searching/kadane.go:21 | after step i, globalMax bounds every run ending at or before i |
| Kadane.KadaneStep | searching/kadane.go:19-22 | one iteration keeps the scan's state: localMax is the best run ending at the new position and globalMax bounds, and is the sum of, a run seen so far |
| Kadane.KadaneSearch | searching/kadane.go:7-26 | the result bounds every contiguous run sum and is one of them (so it is at least 0, and 0 for an empty input): it equals MaxRunSum |

## Left out

- Go slices alias their backing arrays, and the model does not capture this.
  - `NewHeap` keeps the caller's slice, so heap sort sorts the caller's storage. `HeapSort` instead builds the heap over a copy and writes the result back at the end.
  - `copy` in merge and quick sort is modelled as a write into an array.
- Generic `constraints.Ordered` element types, floats and NaN are not modelled. The heap holds `int`s, and comparators order values by an integer key.
- A `time.Time` date of birth is reduced to an integer instant.
- The `Comparator` and `DefaultComparator` of the `sorting` package, which merge, selection and quick sort use, are not part of this model. They are taken to have the shape of those in `types/types.go`.
- InsertionSortWithComparator: it takes a key-based comparator and uses its "greater than". It does not take an arbitrary `func(a, b T) bool` closure, so closures that are not an ordering are not covered.
- `sorting/ds/heap.go` is the same code as `types/heap.go`, without `HeapifyToIndex`. The `Heaps` module models both.
- Heaps.Heap.Insert: its contract does not claim that the heap property is kept, because the source does not keep it (see Findings).
- Heaps.Heap.Delete: its contract claims that the heap property is kept only for index 0 and the last index, because the source does not keep it for interior indices (see Findings).
- Heaps.Heap.HeapifyToIndex: it requires `maxIdx <= len(Data)`. For a larger `maxIdx`, the source can index `Data` out of range.
- Kadane.KadaneSearch: it does not model Go's 64-bit `int` wrap-around. Sums are unbounded integers.
- KMP logging is I/O on the process-global logger, so it is not modelled. That covers `enableLogging` and the `log.Printf` calls in `createLps`.
- KnuthMorrisPratt.KmpSearch: text and pattern are sequences of code points, which is Go strings holding valid UTF-8 only. The early exit compares their UTF-8 byte lengths, as Go's len does. Go strings holding invalid UTF-8 are not modelled. `[]rune` turns each invalid byte into U+FFFD (3 bytes), so on such strings the byte-length exit can return nothing where the code points match. For example, text "\xff" (1 byte) and pattern "\uFFFD" (3 bytes) give `[]` in the source, though the text decodes to the pattern.
- Partitioning.HoarePartition: the contract states the permutation and the split point. It does not state the exact arrangement the source produces, such as `[4,3,2,1]` becoming `[1,3,2,4]`.
- MergeSorting.MergeSortWithComparator: no stability claim is made. On a tie, merge takes the right run's element first, so merge sort is not stable.
- Running time is not modelled. That includes the full rebuild per heap-sort step and the exponential recursion of `swapSort`.
- Benchmarks and test fixtures are not modelled.

## Findings

| source | as written | input that shows it | evidently intended | confidence | as-written member | corrected member |
|---|---|---|---|---|---|---|
| types/heap.go:83-85 | bubbleUp compares index i with i/2, which is not the parent (i-1)/2 of i in the 2i+1 / 2i+2 layout | insert 4 into the min-heap [1,5,3,6]: 4 is compared with 3 at index 2, not with its parent 5 at index 1, and [1,5,3,6,4] results, with 4 below 5 | compare with and swap against (i-1)/2, so that Insert keeps the heap property | not executed | Heaps.InsertBreaksHeap | Heaps.InsertFixedKeepsHeap |
| types/heap.go:56-61 | Delete(i) with i > 0 moves the last element into slot i and only sifts it down | Delete(3) on the min-heap [1,10,2,11,12,3,4]: 4 moves under 10 and stays, giving [1,10,2,4,12,3] | sift the moved element up when it is ahead of its new parent, and down otherwise, so that Delete keeps the heap property | not executed | Heaps.DeleteInteriorBreaksHeap | Heaps.DeleteAtFixedKeepsHeap |

The as-written members `Heaps.SiftUp` and `Heaps.DeleteAt` model the code as it stands, and the `Heaps.Heap` class is proved to compute them. The corrected `Heaps.SiftUpFixed` and `Heaps.DeleteAtFixed` carry the heap-preservation proofs that the source evidently intended.
