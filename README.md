# Instrumented sorting routines, modelled and verified in Dafny

This project models `algorithms.py` of a sorting benchmark. The file holds four
sorting routines over lists of integers: insertion sort, selection sort, merge
sort (with its `merge` step) and heap sort (with its nested `heapify`). Each
routine sorts a copy of its input and returns the sorted list together with a
metrics record. The record counts `comparisons`, `swaps` and `extra_bytes`
according to rules peculiar to each routine. A `measure_time` decorator copies
the caller's list before the call and adds a wall-clock `time_ms` entry.

Layout, one module per file:

- `Ordering.dfy` (`Ordering`) holds the vocabulary every sort shares:
  - sortedness and bounds predicates;
  - `Swap` on sequences and `Exchange`, the in-place swap of two array cells.
- `Instrumentation.dfy` (`Instrumentation`) holds the records and the copy:
  - the `Metrics` record, updated with `Add`;
  - the `Run` record (output plus counters) produced by the reference functions;
  - `CopyOf`, the wrapper's `arr.copy()`.
- `Insertion.dfy`, `Selection.dfy`, `Merge.dfy` (`Merging`) and `Heap.dfy`
  (`Heaps`) hold one routine each.

The in-place routines are modelled in the source's own imperative form: methods
over `array<int>` with `while` loops, `Exchange` calls, and recursion where the
source recurses. This covers insertion sort, selection sort, heap sort and
`heapify`. `merge` and `_merge_sort` build new lists rather than sorting in
place. They are modelled as a two-cursor loop method (`Merge`) and a recursive
method (`SortRec`) over `seq<int>` values. Every such method is proved equal to
a reference function on sequence values, for both the output and the counters:

| routine | reference function |
|---|---|
| selection sort | `SelectionRun` |
| `merge` | `MergeRun` |
| `_merge_sort` | `MergeSortRun` |
| `heapify` | `Sift` |
| heap sort build loop | `BuildRun` |
| heap sort extraction loop | `ExtractRun` |

The promises of the source are then proved as lemmas about those functions.
Insertion sort's counters are tied directly to the input instead. Swaps are its
inversions. Comparisons are the inversions plus one for every pass whose scan
stops on an element rather than at the left end.

Each decorated routine is a wrapper method, such as `InsertionSort` or
`MergeSort`, that takes the caller's array. It copies the array with `CopyOf`
and runs the routine on the copy. The wrapper has no `modifies` clause
on the caller's array, so Dafny's frame rules prove that array unchanged.

`[3, 1, 2]` through insertion sort costs 3 comparisons. Lines 27-28 also
count the failed `arr[j] > key` test that ends the second pass at `j = 0`
(`Insertion.Example`).

## Model

| member | source | states |
|---|---|---|
| Instrumentation.CopyOf | algorithms.py:7-12 | the sort receives a fresh array holding exactly the caller's elements |
| Ordering.SwapSpec | algorithms.py:44 | a tuple swap exchanges exactly the two positions, leaves every other position alone and keeps the multiset of values |
| Ordering.Exchange | algorithms.py:98 | the in-place swap of two array cells leaves the array equal to `Swap` of its old contents |
| Insertion.Inversions | algorithms.py:22-26 | the inversions of the input, counted pass by pass as the prefix elements greater than the key, are at most `n(n-1)/2` |
| Insertion.Stops | algorithms.py:27-28 | the passes whose scan stops on an element (`j >= 0`) number at most `n - 1`, one per pass |
| Insertion.Cost | algorithms.py:18-29 | the record `insertion_sort` reports: swaps are the inversions, comparisons exceed them by the stopping passes (at most `n - 1`), extra bytes 0 |
| Insertion.CountGreaterBelowLength | algorithms.py:22-28 | a pass's scan stops on an element (`j >= 0`) exactly when some predecessor of the key is at most the key |
| Insertion.ShiftCount | algorithms.py:22-26 | the number of right shifts in a pass equals the number of elements of the sorted prefix greater than the key |
| Insertion.PlacedSorted | algorithms.py:29 | dropping the key into the gap the scan left keeps the prefix sorted |
| Insertion.InsertKey | algorithms.py:20-29 | one pass ends with `-1 <= j < i`, with every element between `j` and `i` greater than the key and `arr[j] <= key` when `j >= 0`; the array becomes the prefix up to `j`, the key, then the shifted elements; the pass adds one comparison per shift plus one when `j >= 0`, and one swap per shift |
| Insertion.PassKeepsInserted | algorithms.py:19-29 | the outer loop keeps `arr[..i]` a sorted rearrangement of the input's first `i` elements and leaves the rest untouched |
| Insertion.PassCost | algorithms.py:19-29 | the counters of one pass are exactly the inversions and the stop that the new element contributes |
| Insertion.SortInPlace | algorithms.py:17-30 | the array ends sorted and a permutation of its input; swaps are the inversions of the input, comparisons are the inversions plus the stopping passes, extra bytes 0 |
| Insertion.InsertionSort | algorithms.py:16-30 | the decorated routine returns a sorted permutation of the caller's array, leaves that array unchanged, and reports these counters |
| Insertion.SortedInputCost | algorithms.py:19-29 | non-decreasing non-empty input costs 0 swaps and `n - 1` comparisons |
| Insertion.ComparisonsBound | algorithms.py:19-29 | comparisons never exceed `n(n-1)/2` |
| Insertion.ExampleCounts | algorithms.py:19-29 | `[3, 1, 2]` has 2 inversions and 1 stopping pass |
| Insertion.Example | algorithms.py:16-30 | `[3, 1, 2]` gives `[1, 2, 3]` with 3 comparisons, 2 swaps and 0 extra bytes |
| Selection.FirstMin | algorithms.py:38-42 | the scan settles on a minimum of the suffix, and every earlier position is strictly larger (the first minimum) |
| Selection.FirstMinGrow | algorithms.py:39-42 | one more scan step moves the candidate exactly when the new element is strictly smaller |
| Selection.Unselected | algorithms.py:43-44 | after the minimum is exchanged to the front, the minimum and the remaining suffix together hold the old values |
| Selection.SelectionRun | algorithms.py:36-45 | the output has the input's length and multiset |
| Selection.SelectionRunSorted | algorithms.py:36-45 | the output is non-decreasing |
| Selection.SelectionComparisons | algorithms.py:39-40 | comparisons are exactly `n(n-1)/2` whatever the contents |
| Selection.SelectionSwapsBound | algorithms.py:43-45 | at most `n - 1` swaps on a non-empty input |
| Selection.SelectionSortedInput | algorithms.py:41-45 | on non-decreasing input the strict `<` never moves the candidate, so there are no swaps and the output is the input |
| Selection.ScanMin | algorithms.py:38-42 | the inner loop finds `i + FirstMin(arr[i..])` and counts one comparison per later element |
| Selection.PlaceMin | algorithms.py:43-45 | the minimum is exchanged into place, and a swap is counted only when it was elsewhere |
| Selection.SelectionStep | algorithms.py:37-45 | one outer pass leaves the pending outcome (settled prefix plus reference run on the rest) unchanged |
| Selection.SortInPlace | algorithms.py:34-46 | the array ends as `SelectionRun`'s output, with its counters and 0 extra bytes |
| Selection.SelectionSort | algorithms.py:33-46 | the decorated routine returns a sorted permutation of the caller's array, leaves that array unchanged, counts `n(n-1)/2` comparisons and at most `n - 1` swaps |
| Merging.MergeRun | algorithms.py:49-63 | the merged list has length `len(left) + len(right)` |
| Merging.MergePermutation | algorithms.py:49-63 | the merged list is a permutation of `left + right` |
| Merging.MergeSorted | algorithms.py:52-62 | merging two sorted lists gives a sorted list |
| Merging.MergeCostBound | algorithms.py:52-60 | at most `len(left) + len(right) - 1` comparisons, and at most `len(right)` swaps |
| Merging.MergeSwaps | algorithms.py:57-60 | swaps are exactly the right elements taken inside the loop: those strictly below the last left element |
| Merging.MergeComparisons | algorithms.py:52-53 | comparisons are exactly the loop iterations: left elements at most the last right element plus right elements below the last left element |
| Merging.SourcesTraced | algorithms.py:52-62 | each output element is traced to the input position it came from, and equal elements keep their input order |
| Merging.MergeStable | algorithms.py:54-59 | ties take the left head, so the merge is stable: each output element is the element at a distinct input position, and equal output elements come from increasing input positions |
| Merging.TakeLeft | algorithms.py:54-56 | taking the left head counts one comparison and leaves the pending outcome unchanged |
| Merging.TakeRight | algorithms.py:57-60 | taking the right head counts one comparison and one swap and leaves the pending outcome unchanged |
| Merging.Drained | algorithms.py:61-62 | once one side is exhausted, appending both tails completes the merge |
| Merging.Merge | algorithms.py:49-63 | the two-cursor loop returns `MergeRun`'s output and adds its counters to the shared record |
| Merging.MergeSortRun | algorithms.py:70-76 | the result has the input's length |
| Merging.MergeSortSorted | algorithms.py:70-76 | merge sort's output is non-decreasing |
| Merging.MergeSortPermutation | algorithms.py:70-76 | merge sort's output is a permutation of its input |
| Merging.MergeSortShort | algorithms.py:71-72 | inputs of length at most one come back unchanged with nothing counted |
| Merging.MergeSortSplit | algorithms.py:73-76 | unfolding step of `MergeSortRun`: a longer input is split at `len // 2`, and the counters of the halves and of the merge add up |
| Merging.MergeSortExample | algorithms.py:67-78 | `[4, 3, 2, 1]` sorts to `[1, 2, 3, 4]` with 4 comparisons and 4 swaps |
| Merging.SortRec | algorithms.py:70-76 | `_merge_sort` returns `MergeSortRun`'s output and adds its counters to the shared record |
| Merging.MergeSort | algorithms.py:67-79 | the decorated routine returns a sorted permutation of the caller's array, leaves that array unchanged, and fixes extra bytes at `4 * len(arr)` |
| Merging.Example | algorithms.py:66-79 | `[4, 3, 2, 1]` gives `[1, 2, 3, 4]` with comparisons 4, swaps 4, extra bytes 16 |
| Heaps.Children | algorithms.py:89-94 | `heapify` makes at most two comparisons at a node, and none exactly when the node has no child below `n` |
| Heaps.Largest | algorithms.py:87-96 | the index `heapify` settles on is `i` itself or a child position strictly between `i` and `n` (its full choice is in `LargestSpec`) |
| Heaps.Sift | algorithms.py:86-100 | `heapify`'s reference on sequence values, recursing into the chosen child after each counted swap; the output keeps the input's length (frame, permutation, cost and heap order are in the lemmas below) |
| Heaps.LargestSpec | algorithms.py:87-96 | the chosen index is `i` or a child below `n` strictly larger than `arr[i]`, and it holds the maximum of `arr[i]` and its existing children |
| Heaps.SiftFrame | algorithms.py:86-100 | `heapify(n, i)` writes only positions in the subtree of `i` below `n`, and hence only positions in `[i, n)` |
| Heaps.SiftPermutation | algorithms.py:97-100 | `heapify` preserves the multiset of values |
| Heaps.SiftCost | algorithms.py:89-100 | at most two comparisons per level visited, and one level per swap plus the first |
| Heaps.SiftTop | algorithms.py:97-100 | after sifting, position `i` holds the largest of `arr[i]` and its children |
| Heaps.SiftHeapStep | algorithms.py:97-100 | exchanging with the larger child and sifting there makes the whole subtree of `i` a max-heap |
| Heaps.SiftHeap | algorithms.py:86-100 | if every node of the subtree of `i` other than `i` is in heap order, the whole subtree is a max-heap afterwards |
| Heaps.BuildRun | algorithms.py:103-104 | the build loop's reference: `heapify(n, k)` for `k` from the current index down to 0, counters adding up; the output keeps the input's length |
| Heaps.BuildPermutation | algorithms.py:103-104 | the build loop preserves the multiset of values |
| Heaps.BuildHeap | algorithms.py:103-104 | the build loop keeps every node at or after the current index in heap order |
| Heaps.BuildMaxHeap | algorithms.py:102-104 | after the build loop `arr[0..n)` is a max-heap |
| Heaps.ExtractRun | algorithms.py:105-108 | the extraction loop's reference: for `i` down to 1, exchange the root with `arr[i]`, count that swap, and sift within `[0, i)`; the output keeps the input's length |
| Heaps.ExtractOnce | algorithms.py:105-108 | unfolding step of `ExtractRun`: one extraction step swaps the root to position `i`, counts that swap, and sifts the root within `[0, i)` |
| Heaps.ExtractHeap | algorithms.py:105-108 | after the exchange and the sift, `arr[0..i)` is again a max-heap |
| Heaps.ExtractStep | algorithms.py:105-108 | after the step for index `i`, `arr[i..n)` is sorted and no element of `arr[0..i)` exceeds any element of it, and the prefix is a max-heap |
| Heaps.ExtractSorted | algorithms.py:105-108 | the extraction loop leaves the array sorted |
| Heaps.ExtractPermutation | algorithms.py:105-108 | the extraction loop preserves the multiset of values |
| Heaps.ExtractSwaps | algorithms.py:105-108 | every extraction step adds at least its own swap |
| Heaps.HeapSortRun | algorithms.py:102-109 | `heap_sort`'s reference: the build loop, then the extraction loop over the built heap, their counters added; the output keeps the input's length |
| Heaps.HeapSortPermutation | algorithms.py:102-109 | heap sort's output is a permutation of its input |
| Heaps.HeapSortSorted | algorithms.py:102-109 | heap sort's output is non-decreasing |
| Heaps.HeapSortSwaps | algorithms.py:105-108 | a non-empty input costs at least `n - 1` swaps |
| Heaps.ExampleBuild | algorithms.py:102-104 | building on `[1, 3, 2]` gives `[3, 1, 2]` with 2 comparisons and 1 swap |
| Heaps.HeapSortExample | algorithms.py:102-109 | `[1, 3, 2]` sorts to `[1, 2, 3]` with 3 comparisons and 3 swaps |
| Heaps.PickLargest | algorithms.py:87-96 | the index chosen is `Largest`, after one comparison per existing child |
| Heaps.Heapify | algorithms.py:86-100 | recursive `heapify` leaves the array as `Sift` of its old contents and adds `Sift`'s counters |
| Heaps.BuildStep | algorithms.py:103-104 | one build iteration leaves the pending build outcome unchanged |
| Heaps.ExtractStepRun | algorithms.py:105-108 | one extraction iteration leaves the pending extraction outcome unchanged |
| Heaps.BuildInPlace | algorithms.py:102-104 | the build loop leaves the array as `BuildRun`'s output and adds its counters |
| Heaps.ExtractInPlace | algorithms.py:105-108 | the extraction loop leaves the array as `ExtractRun`'s output and adds its counters |
| Heaps.SortInPlace | algorithms.py:83-109 | the array ends as `HeapSortRun`'s output, with its counters and 0 extra bytes |
| Heaps.HeapSort | algorithms.py:82-109 | the decorated routine returns a sorted permutation of the caller's array, leaves that array unchanged, and uses 0 extra bytes |
| Heaps.Example | algorithms.py:82-109 | `[1, 3, 2]` gives `[1, 2, 3]` with 3 comparisons, 3 swaps and 0 extra bytes |

## Left out

- `time_ms` (algorithms.py:8-11) is not modelled. It is wall-clock floating-point data from `time.perf_counter`. The wrappers model `measure_time` as copy, call, and return the routine's counters unchanged.
- `experiments.py` is not part of this model. Its data generation is random, and its experiment grid writes CSV files and prints.
- `visualize.py` is not part of this model. It plots through foreign libraries and writes image files.
- `main.py` is not part of this model. It only chains the two scripts above.
- Recursion depth is not modelled. `_merge_sort` and `heapify` recurse, and running out of stack in the source has no counterpart here.
- Elements are `int`. The source accepts any comparable values.
- The metrics dictionary is not modelled as a mutable object. The source mutates it in place and shares it across calls; the model threads a `Metrics` value through every call and returns the updated record.
- Lists that `merge` and `_merge_sort` build or slice are modelled as sequence values. These are `merged`, `left[i:]`, `right[j:]`, `a[:mid]` and `a[mid:]`; all of them are fresh lists in the source, so aliasing plays no part.
- Merging.MergeStable: stability is stated for a sorted `left`, which is how `_merge_sort` calls `merge`. It is not stated for arbitrary lists.
