/**
 * Heap sort (algorithms.py, `heap_sort` and its nested `heapify`): a max-heap
 * is built in place by sifting down every inner node from the last one to the
 * root, then the root is repeatedly exchanged with the last element of the
 * shrinking heap and sifted down again.
 *
 * `Sift`, `BuildRun` and `ExtractRun` are the references on sequence values;
 * the recursive method `Heapify` and the loops of `SortInPlace` are proved to
 * compute exactly their outputs and counters.
 */
module Heaps {
  import opened Ordering
  import opened Instrumentation

  /** Position `k` lies in the subtree rooted at `i` (children of `p` are `2p+1` and `2p+2`). */
  predicate Desc(i: nat, k: nat)
    decreases k
  {
    k == i || (k > i && Desc(i, (k - 1) / 2))
  }

  /** The subtree of a child lies inside the subtree of its parent. */
  lemma {:induction false} DescTrans(i: nat, c: nat, k: nat)
    requires (c == 2 * i + 1 || c == 2 * i + 2) && Desc(c, k)
    ensures Desc(i, k)
    decreases k
  {
    if k != c {
      DescTrans(i, c, (k - 1) / 2);
    }
  }

  lemma DescTransAll(i: nat, c: nat)
    requires c == 2 * i + 1 || c == 2 * i + 2
    ensures forall k: nat :: Desc(c, k) ==> Desc(i, k)
  {
    forall k: nat | Desc(c, k) ensures Desc(i, k) {
      DescTrans(i, c, k);
    }
  }

  /** Every position lies in the subtree of the root. */
  lemma {:induction false} DescRoot(k: nat)
    ensures Desc(0, k)
    decreases k
  {
    if k > 0 {
      DescRoot((k - 1) / 2);
    }
  }

  /** Node `k` is no smaller than those of its children that lie below `n`. */
  ghost predicate NodeOk(s: seq<int>, n: nat, k: nat)
    requires n <= |s|
  {
    (2 * k + 1 < n ==> s[2 * k + 1] <= s[k]) && (2 * k + 2 < n ==> s[2 * k + 2] <= s[k])
  }

  /** `s[0..m)` is a max-heap. */
  ghost predicate Heap(s: seq<int>, m: nat)
    requires m <= |s|
  {
    forall k :: 0 <= k < m ==> NodeOk(s, m, k)
  }

  /** In a max-heap no element exceeds the root. */
  lemma {:induction false} RootMaxAt(s: seq<int>, m: nat, k: nat)
    requires m <= |s| && Heap(s, m) && k < m
    ensures s[k] <= s[0]
    decreases k
  {
    if k > 0 {
      var p := (k - 1) / 2;
      assert NodeOk(s, m, p);
      RootMaxAt(s, m, p);
    }
  }

  /** How many children of `i` lie below `n`: the comparisons `heapify` makes at `i`. */
  function Children(n: nat, i: nat): (c: nat)
    ensures c <= 2
    ensures c == 0 <==> 2 * i + 1 >= n
  {
    (if 2 * i + 1 < n then 1 else 0) + (if 2 * i + 2 < n then 1 else 0)
  }

  /**
   * The index `heapify` settles on: `i` unless a child below `n` is strictly
   * larger, in which case the larger child (the left one on a tie).
   */
  function Largest(s: seq<int>, n: nat, i: nat): (m: nat)
    requires n <= |s|
    ensures m != i ==> i < m < n
  {
    var l, r := 2 * i + 1, 2 * i + 2;
    var m := if l < n && s[l] > s[i] then l else i;
    if r < n && s[r] > s[m] then r else m
  }

  /**
   * `Largest` picks the maximum of `s[i]` and its children below `n`, moving
   * off `i` only to a child that is strictly larger.
   */
  lemma LargestSpec(s: seq<int>, n: nat, i: nat)
    requires n <= |s|
    ensures var m := Largest(s, n, i);
      m == i || ((m == 2 * i + 1 || m == 2 * i + 2) && m < n && s[i] < s[m])
    ensures 2 * i + 1 < n ==> s[2 * i + 1] <= s[Largest(s, n, i)] && s[i] <= s[Largest(s, n, i)]
    ensures 2 * i + 2 < n ==> s[2 * i + 2] <= s[Largest(s, n, i)]
  {
  }

  /**
   * `heapify(n, i)` on a sequence: one comparison per existing child, and,
   * when a child is larger, an exchange with it and a sift from there.
   */
  function Sift(s: seq<int>, n: nat, i: nat): (r: Run)
    requires n <= |s|
    ensures |r.output| == |s|
    decreases n - i
  {
    var m := Largest(s, n, i);
    if m != i then
      var rest := Sift(Swap(s, i, m), n, m);
      Run(rest.output, Children(n, i) + rest.comparisons, rest.swaps + 1)
    else
      Run(s, Children(n, i), 0)
  }

  /** Sifting at `i` writes only the subtree of `i` below `n`, hence only `[i, n)`. */
  lemma {:induction false} SiftFrame(s: seq<int>, n: nat, i: nat)
    requires n <= |s|
    ensures forall k :: 0 <= k < |s| && !(k < n && Desc(i, k)) ==> Sift(s, n, i).output[k] == s[k]
    ensures forall k :: 0 <= k < |s| && (k < i || n <= k) ==> Sift(s, n, i).output[k] == s[k]
    decreases n - i
  {
    var m := Largest(s, n, i);
    if m != i {
      LargestSpec(s, n, i);
      SiftFrame(Swap(s, i, m), n, m);
      DescTransAll(i, m);
    }
  }

  /** Sifting rearranges the elements. */
  lemma {:induction false} SiftPermutation(s: seq<int>, n: nat, i: nat)
    requires n <= |s|
    ensures multiset(Sift(s, n, i).output) == multiset(s)
    decreases n - i
  {
    var m := Largest(s, n, i);
    if m != i {
      SwapSpec(s, i, m);
      SiftPermutation(Swap(s, i, m), n, m);
    }
  }

  /** At most two comparisons per level visited, and a level is visited per swap plus the first. */
  lemma {:induction false} SiftCost(s: seq<int>, n: nat, i: nat)
    requires n <= |s|
    ensures Sift(s, n, i).comparisons <= 2 * (Sift(s, n, i).swaps + 1)
    decreases n - i
  {
    var m := Largest(s, n, i);
    if m != i {
      SiftCost(Swap(s, i, m), n, m);
    }
  }

  /** After sifting at `i`, position `i` holds the largest of `s[i]` and its children. */
  lemma SiftTop(s: seq<int>, n: nat, i: nat)
    requires i < n <= |s|
    ensures Sift(s, n, i).output[i] == s[Largest(s, n, i)]
  {
    var m := Largest(s, n, i);
    if m != i {
      SiftFrame(Swap(s, i, m), n, m);
    }
  }

  /** A node outside the subtree of `i`, other than the parent of `i`, keeps its order when only that subtree changes. */
  lemma NodeOkOutside(s: seq<int>, out: seq<int>, n: nat, i: nat, k: nat)
    requires n <= |s| == |out| && k < n && !Desc(i, k) && NodeOk(s, n, k)
    requires 2 * k + 1 != i && 2 * k + 2 != i
    requires forall x :: 0 <= x < |s| && !(x < n && Desc(i, x)) ==> out[x] == s[x]
    ensures NodeOk(out, n, k)
  {
    assert (2 * k + 1 - 1) / 2 == k && (2 * k + 2 - 1) / 2 == k;
    assert !Desc(i, 2 * k + 1) && !Desc(i, 2 * k + 2);
  }

  /** After exchanging with the larger child `m` and sifting there, `i` is in order. */
  lemma SiftRootOk(s: seq<int>, n: nat, i: nat, m: nat, t: seq<int>, out: seq<int>)
    requires n <= |s| && i < n && m == Largest(s, n, i) && m != i
    requires t == Swap(s, i, m) && out == Sift(t, n, m).output
    requires NodeOk(s, n, m)
    ensures NodeOk(out, n, i)
  {
    LargestSpec(s, n, i);
    LargestSpec(t, n, m);
    SiftFrame(t, n, m);
    SiftTop(t, n, m);
    var o := if m == 2 * i + 1 then 2 * i + 2 else 2 * i + 1;
    assert !Desc(m, o) && !Desc(m, i);
  }

  /** Nodes of the subtree of `i` outside the subtree of `m` are left in order. */
  lemma SiftOthersOk(s: seq<int>, n: nat, i: nat, m: nat, t: seq<int>, out: seq<int>)
    requires n <= |s| && i < n && m < n && (m == 2 * i + 1 || m == 2 * i + 2)
    requires t == Swap(s, i, m) && out == Sift(t, n, m).output
    requires forall k :: 0 <= k < n && Desc(i, k) && k != i ==> NodeOk(s, n, k)
    ensures forall k :: 0 <= k < n && Desc(i, k) && k != i && !Desc(m, k) ==> NodeOk(out, n, k)
  {
    SiftFrame(t, n, m);
    forall k | 0 <= k < n && Desc(i, k) && k != i && !Desc(m, k) ensures NodeOk(out, n, k) {
      assert NodeOk(s, n, k);
      assert NodeOk(t, n, k);
      NodeOkOutside(t, out, n, m, k);
    }
  }

  /** Sifting at `i` when it exchanges with child `m`: the subtree of `i` becomes a heap. */
  lemma SiftHeapStep(s: seq<int>, n: nat, i: nat, m: nat, t: seq<int>, out: seq<int>)
    requires n <= |s| && i < n && m == Largest(s, n, i) && m != i
    requires t == Swap(s, i, m) && out == Sift(t, n, m).output
    requires forall k :: 0 <= k < n && Desc(i, k) && k != i ==> NodeOk(s, n, k)
    requires forall k :: 0 <= k < n && Desc(m, k) ==> NodeOk(out, n, k)
    ensures forall k :: 0 <= k < n && Desc(i, k) ==> NodeOk(out, n, k)
  {
    LargestSpec(s, n, i);
    assert Desc(i, m) by {
      assert (m - 1) / 2 == i;
    }
    SiftRootOk(s, n, i, m, t, out);
    SiftOthersOk(s, n, i, m, t, out);
  }

  /**
   * `heapify` restores the heap: if the subtrees of both children of `i` are
   * max-heaps, the subtree of `i` is one afterwards.
   */
  lemma {:induction false} SiftHeap(s: seq<int>, n: nat, i: nat)
    requires n <= |s|
    requires forall k :: 0 <= k < n && Desc(i, k) && k != i ==> NodeOk(s, n, k)
    ensures forall k :: 0 <= k < n && Desc(i, k) ==> NodeOk(Sift(s, n, i).output, n, k)
    decreases n - i
  {
    var m := Largest(s, n, i);
    LargestSpec(s, n, i);
    if m != i {
      var t := Swap(s, i, m);
      DescTransAll(i, m);
      forall k | 0 <= k < n && Desc(m, k) && k != m ensures NodeOk(t, n, k) {
        assert NodeOk(s, n, k);
      }
      SiftHeap(t, n, m);
      SiftHeapStep(s, n, i, m, t, Sift(t, n, m).output);
    }
  }

  /** The build loop over indices `i - 1` down to `0`: `heapify(n, k)` for each, counts adding up. */
  function BuildRun(s: seq<int>, n: nat, i: nat): (r: Run)
    requires n <= |s|
    ensures |r.output| == |s|
    decreases i
  {
    if i == 0 then Run(s, 0, 0)
    else
      var h := Sift(s, n, i - 1);
      var rest := BuildRun(h.output, n, i - 1);
      Run(rest.output, h.comparisons + rest.comparisons, h.swaps + rest.swaps)
  }

  lemma {:induction false} BuildPermutation(s: seq<int>, n: nat, i: nat)
    requires n <= |s|
    ensures multiset(BuildRun(s, n, i).output) == multiset(s)
    decreases i
  {
    if i > 0 {
      SiftPermutation(s, n, i - 1);
      BuildPermutation(Sift(s, n, i - 1).output, n, i - 1);
    }
  }

  /** If the nodes from `i` on are in heap order, the build loop from `i - 1` down puts every node in order. */
  lemma {:induction false} BuildHeap(s: seq<int>, n: nat, i: nat)
    requires n <= |s|
    requires forall k :: i <= k < n ==> NodeOk(s, n, k)
    ensures forall k :: 0 <= k < n ==> NodeOk(BuildRun(s, n, i).output, n, k)
    decreases i
  {
    if i > 0 {
      var h := Sift(s, n, i - 1).output;
      SiftHeap(s, n, i - 1);
      SiftFrame(s, n, i - 1);
      forall k | i <= k < n ensures NodeOk(h, n, k) {
        if !Desc(i - 1, k) {
          NodeOkOutside(s, h, n, i - 1, k);
        }
      }
      BuildHeap(h, n, i - 1);
    }
  }

  /** After the build loop of `heap_sort`, the whole array is a max-heap. */
  lemma BuildMaxHeap(s: seq<int>)
    ensures Heap(BuildRun(s, |s|, |s| / 2).output, |s|)
  {
    forall k | |s| / 2 <= k < |s| ensures NodeOk(s, |s|, k) {
      assert 2 * k + 1 >= |s|;
    }
    BuildHeap(s, |s|, |s| / 2);
  }

  /**
   * The extraction loop over indices `i` down to `1`: the root is exchanged
   * with position `k`, counted as one swap, and sifted down within `[0, k)`.
   */
  function ExtractRun(s: seq<int>, i: nat): (r: Run)
    requires i == 0 || i < |s|
    ensures |r.output| == |s|
    decreases i
  {
    if i == 0 then Run(s, 0, 0)
    else
      var h := Sift(Swap(s, i, 0), i, 0);
      var rest := ExtractRun(h.output, i - 1);
      Run(rest.output, h.comparisons + rest.comparisons, h.swaps + rest.swaps + 1)
  }

  /** One extraction step, unfolded. */
  lemma ExtractOnce(s: seq<int>, i: nat, h: Run)
    requires 0 < i < |s| && h == Sift(Swap(s, i, 0), i, 0)
    ensures ExtractRun(s, i) == Run(ExtractRun(h.output, i - 1).output,
      h.comparisons + ExtractRun(h.output, i - 1).comparisons, h.swaps + ExtractRun(h.output, i - 1).swaps + 1)
  {
  }

  /**
   * The state of the extraction loop once positions `m` and after are done:
   * `s[0..m)` is a max-heap, `s[m..]` is sorted, and nothing before `m`
   * exceeds anything from `m` on.
   */
  ghost predicate SortedTail(s: seq<int>, m: nat)
    requires m <= |s|
  {
    Heap(s, m) && Sorted(s[m..]) && forall a, b :: 0 <= a < m <= b < |s| ==> s[a] <= s[b]
  }

  /** The heap below the new root, after the root is exchanged with position `i`. */
  lemma ChildrenHeapsAfterExchange(s: seq<int>, i: nat, t: seq<int>)
    requires 0 < i < |s| && t == Swap(s, i, 0) && Heap(s, i + 1)
    ensures forall k :: 0 <= k < i && Desc(0, k) && k != 0 ==> NodeOk(t, i, k)
  {
    forall k | 0 < k < i ensures NodeOk(t, i, k) {
      assert NodeOk(s, i + 1, k);
    }
  }

  /** The exchange and sift of one extraction step leave a max-heap on `[0, i)`. */
  lemma ExtractHeap(s: seq<int>, i: nat)
    requires 0 < i < |s| && Heap(s, i + 1)
    ensures Heap(Sift(Swap(s, i, 0), i, 0).output, i)
  {
    var t := Swap(s, i, 0);
    var out := Sift(t, i, 0).output;
    ChildrenHeapsAfterExchange(s, i, t);
    SiftHeap(t, i, 0);
    forall k | 0 <= k < i ensures NodeOk(out, i, k) {
      DescRoot(k);
    }
  }

  /** After the root is exchanged with position `i`, `[i..]` is sorted. */
  lemma ExchangedTailSorted(s: seq<int>, i: nat, t: seq<int>)
    requires 0 < i < |s| && t == Swap(s, i, 0) && Sorted(s[i + 1..])
    requires forall b :: i < b < |s| ==> s[0] <= s[b]
    ensures Sorted(t[i..])
  {
    forall a, b | i <= a < b < |t| ensures t[a] <= t[b] {
      if a > i {
        assert s[i + 1..][a - i - 1] == s[a] && s[i + 1..][b - i - 1] == s[b];
      }
    }
  }

  /** After the root is exchanged with position `i`, everything before `i` is at most the old root. */
  lemma ExchangedPrefixBelow(s: seq<int>, i: nat, t: seq<int>)
    requires 0 < i < |s| && t == Swap(s, i, 0) && Heap(s, i + 1)
    ensures AllAtMost(t[..i], s[0])
  {
    forall a | 0 <= a < i ensures t[..i][a] <= s[0] {
      if a == 0 {
        RootMaxAt(s, i + 1, i);
      } else {
        RootMaxAt(s, i + 1, a);
      }
    }
  }

  /** Rearranging `[0, i)` of the exchanged sequence keeps the order between prefix and suffix. */
  lemma SplitOrder(s: seq<int>, i: nat, t: seq<int>, out: seq<int>)
    requires 0 < i < |s| && t == Swap(s, i, 0) && |out| == |t|
    requires out[i..] == t[i..] && AllAtMost(out[..i], s[0]) && Sorted(t[i..])
    ensures Sorted(out[i..])
    ensures forall a, b :: 0 <= a < i <= b < |out| ==> out[a] <= out[b]
  {
    forall a, b | 0 <= a < i <= b < |out| ensures out[a] <= out[b] {
      assert out[..i][a] == out[a];
      assert out[b] == t[i..][b - i];
      assert t[i..][0] == s[0];
    }
  }

  /** One step of the extraction loop keeps its state, with one more position done. */
  lemma ExtractStep(s: seq<int>, i: nat)
    requires 0 < i < |s| && SortedTail(s, i + 1)
    ensures SortedTail(Sift(Swap(s, i, 0), i, 0).output, i)
  {
    var t: seq<int> := Swap(s, i, 0);
    var out: seq<int> := Sift(t, i, 0).output;
    assert Heap(out, i) by {
      ExtractHeap(s, i);
    }
    assert out[i..] == t[i..] by {
      SiftFrame(t, i, 0);
    }
    assert (multiset(t[..i]) == multiset(out[..i])) by {
      SiftPermutation(t, i, 0);
      PrefixPermuted(t, out, i);
    }
    assert AllAtMost(out[..i], s[0]) by {
      ExchangedPrefixBelow(s, i, t);
      AllAtMostPermuted(t[..i], out[..i], s[0]);
    }
    assert Sorted(t[i..]) by {
      ExchangedTailSorted(s, i, t);
    }
    SplitOrder(s, i, t, out);
  }

  /** The extraction loop, entered in the state for `i + 1`, leaves the array sorted. */
  lemma {:induction false} ExtractSorted(s: seq<int>, i: nat)
    requires i < |s| && SortedTail(s, i + 1)
    ensures Sorted(ExtractRun(s, i).output)
    decreases i
  {
    if i == 0 {
      assert s == [s[0]] + s[1..];
      SortedCons(s[0], s[1..]);
    } else {
      var h := Sift(Swap(s, i, 0), i, 0);
      ExtractOnce(s, i, h);
      ExtractStep(s, i);
      ExtractSorted(h.output, i - 1);
    }
  }

  lemma {:induction false} ExtractPermutation(s: seq<int>, i: nat)
    requires i == 0 || i < |s|
    ensures multiset(ExtractRun(s, i).output) == multiset(s)
    decreases i
  {
    if i > 0 {
      var h := Sift(Swap(s, i, 0), i, 0);
      ExtractOnce(s, i, h);
      SwapSpec(s, i, 0);
      SiftPermutation(Swap(s, i, 0), i, 0);
      ExtractPermutation(h.output, i - 1);
    }
  }

  /** Every extraction step swaps the root away, so there are at least as many swaps as steps. */
  lemma {:induction false} ExtractSwaps(s: seq<int>, i: nat)
    requires i == 0 || i < |s|
    ensures ExtractRun(s, i).swaps >= i
    decreases i
  {
    if i > 0 {
      var h := Sift(Swap(s, i, 0), i, 0);
      ExtractOnce(s, i, h);
      ExtractSwaps(h.output, i - 1);
    }
  }

  /** `heap_sort` on a sequence: the build loop, then the extraction loop, counts adding up. */
  function HeapSortRun(s: seq<int>): (r: Run)
    ensures |r.output| == |s|
  {
    var b := BuildRun(s, |s|, |s| / 2);
    var e := ExtractRun(b.output, if |s| > 0 then |s| - 1 else 0);
    Run(e.output, b.comparisons + e.comparisons, b.swaps + e.swaps)
  }

  /** A whole-array max-heap is the state the extraction loop starts from. */
  lemma HeapSortedTail(b: seq<int>)
    requires Heap(b, |b|)
    ensures SortedTail(b, |b|)
  {
    assert b[|b|..] == [];
  }

  /** Heap sort rearranges its input. */
  lemma HeapSortPermutation(s: seq<int>)
    ensures multiset(HeapSortRun(s).output) == multiset(s)
  {
    BuildPermutation(s, |s|, |s| / 2);
    ExtractPermutation(BuildRun(s, |s|, |s| / 2).output, if |s| > 0 then |s| - 1 else 0);
  }

  /** Heap sort outputs its input in non-decreasing order. */
  lemma HeapSortSorted(s: seq<int>)
    ensures Sorted(HeapSortRun(s).output)
  {
    if s != [] {
      var b := BuildRun(s, |s|, |s| / 2).output;
      BuildMaxHeap(s);
      HeapSortedTail(b);
      ExtractSorted(b, |s| - 1);
    }
  }

  /** One swap per extraction step: at least `n - 1` swaps for a non-empty input. */
  lemma HeapSortSwaps(s: seq<int>)
    requires s != []
    ensures HeapSortRun(s).swaps >= |s| - 1
  {
    ExtractSwaps(BuildRun(s, |s|, |s| / 2).output, |s| - 1);
  }

  /** `heap_sort([1, 3, 2])`: three comparisons and three swaps. */
  lemma ExampleBuild()
    ensures BuildRun([1, 3, 2], 3, 1) == Run([3, 1, 2], 2, 1)
  {
    assert Largest([1, 3, 2], 3, 0) == 1;
    assert Swap([1, 3, 2], 0, 1) == [3, 1, 2];
    assert Largest([3, 1, 2], 3, 1) == 1;
    assert Sift([3, 1, 2], 3, 1) == Run([3, 1, 2], 0, 0);
    assert Sift([1, 3, 2], 3, 0) == Run([3, 1, 2], 2, 1);
  }

  lemma ExampleFirstExtraction(s: seq<int>, t: seq<int>)
    requires s == [3, 1, 2] && t == Swap(s, 2, 0)
    ensures t == [2, 1, 3] && Sift(t, 2, 0) == Run(t, 1, 0)
  {
    assert t == [2, 1, 3];
    assert Largest(t, 2, 0) == 0;
  }

  lemma ExampleSecondExtraction(s: seq<int>, t: seq<int>)
    requires s == [2, 1, 3] && t == Swap(s, 1, 0)
    ensures t == [1, 2, 3] && Sift(t, 1, 0) == Run(t, 0, 0)
  {
    assert t == [1, 2, 3];
    assert Largest(t, 1, 0) == 0;
  }

  lemma ExampleExtract(s: seq<int>)
    requires s == [3, 1, 2]
    ensures ExtractRun(s, 2) == Run([1, 2, 3], 1, 2)
  {
    var t := Swap(s, 2, 0);
    ExampleFirstExtraction(s, t);
    var u := Swap(t, 1, 0);
    ExampleSecondExtraction(t, u);
    ExtractOnce(t, 1, Run(u, 0, 0));
    ExtractOnce(s, 2, Run(t, 1, 0));
  }

  lemma HeapSortExample()
    ensures HeapSortRun([1, 3, 2]) == Run([1, 2, 3], 3, 3)
  {
    ExampleBuild();
    ExampleExtract([3, 1, 2]);
  }

  /** Lines 87-95 of `heapify`: one comparison per existing child, settling on the larger one. */
  method PickLargest(a: array<int>, n: nat, i: nat) returns (largest: nat, compared: nat)
    requires n <= a.Length
    ensures largest == Largest(a[..], n, i) && compared == Children(n, i)
  {
    largest := i;
    compared := 0;
    var l, r := 2 * i + 1, 2 * i + 2;
    if l < n {
      compared := compared + 1;
      if a[l] > a[largest] {
        largest := l;
      }
    }
    if r < n {
      compared := compared + 1;
      if a[r] > a[largest] {
        largest := r;
      }
    }
  }

  /** `heapify(n, i)` on the array being sorted, with the shared counters. */
  method Heapify(a: array<int>, n: nat, i: nat, metrics: Metrics) returns (after: Metrics)
    requires n <= a.Length
    modifies a
    ensures a[..] == Sift(old(a[..]), n, i).output
    ensures after == metrics.Add(Sift(old(a[..]), n, i).comparisons, Sift(old(a[..]), n, i).swaps)
    decreases n - i
  {
    var largest, compared := PickLargest(a, n, i);
    after := metrics.Add(compared, 0);
    if largest != i {
      Exchange(a, i, largest);
      after := Heapify(a, n, largest, after.Add(0, 1));
    }
  }

  /** A run continued from counters `m`. */
  ghost function After(m: Metrics, r: Run): Run {
    Run(r.output, m.comparisons + r.comparisons, m.swaps + r.swaps)
  }

  /** One pass of the build loop leaves the same outcome pending. */
  lemma BuildStep(s: seq<int>, n: nat, i: nat, m: Metrics, h: Run, m2: Metrics)
    requires n <= |s| && h == Sift(s, n, i)
    requires m2 == m.Add(h.comparisons, h.swaps)
    ensures After(m2, BuildRun(h.output, n, i)) == After(m, BuildRun(s, n, i + 1))
  {
  }

  /** One pass of the extraction loop leaves the same outcome pending. */
  lemma ExtractStepRun(s: seq<int>, k: nat, m: Metrics, m2: Metrics, t: seq<int>)
    requires 0 < k < |s|
    requires t == Sift(Swap(s, k, 0), k, 0).output
    requires m2 == m.Add(0, 1).Add(Sift(Swap(s, k, 0), k, 0).comparisons, Sift(Swap(s, k, 0), k, 0).swaps)
    ensures After(m2, ExtractRun(t, k - 1)) == After(m, ExtractRun(s, k))
  {
  }

  /** The build loop of `heap_sort` (algorithms.py:103-104). */
  method BuildInPlace(a: array<int>, metrics: Metrics) returns (after: Metrics)
    modifies a
    ensures a[..] == BuildRun(old(a[..]), a.Length, a.Length / 2).output
    ensures after == metrics.Add(BuildRun(old(a[..]), a.Length, a.Length / 2).comparisons,
                                 BuildRun(old(a[..]), a.Length, a.Length / 2).swaps)
  {
    ghost var g := a[..];
    ghost var goal := After(metrics, BuildRun(g, a.Length, a.Length / 2));
    var n := a.Length;
    after := metrics;
    var i := n / 2;
    while i > 0
      invariant 0 <= i <= n / 2 && a[..] == g && |g| == n
      invariant After(after, BuildRun(g, n, i)) == goal
      invariant after.extraBytes == metrics.extraBytes
    {
      i := i - 1;
      ghost var before := after;
      ghost var h := Sift(g, n, i);
      after := Heapify(a, n, i, after);
      assert a[..] == h.output;
      BuildStep(g, n, i, before, h, after);
      g := a[..];
    }
  }

  /** The extraction loop of `heap_sort` (algorithms.py:105-108), over indices `k` down to `1`. */
  method ExtractInPlace(a: array<int>, k: nat, metrics: Metrics) returns (after: Metrics)
    requires k == 0 || k < a.Length
    modifies a
    ensures a[..] == ExtractRun(old(a[..]), k).output
    ensures after == metrics.Add(ExtractRun(old(a[..]), k).comparisons, ExtractRun(old(a[..]), k).swaps)
  {
    ghost var g := a[..];
    ghost var goal := After(metrics, ExtractRun(g, k));
    after := metrics;
    var i := k;
    while i > 0
      invariant 0 <= i <= k && a[..] == g && |g| == a.Length
      invariant After(after, ExtractRun(g, i)) == goal
      invariant after.extraBytes == metrics.extraBytes
    {
      ghost var before := after;
      Exchange(a, i, 0);
      after := after.Add(0, 1);
      after := Heapify(a, i, 0, after);
      ExtractStepRun(g, i, before, after, a[..]);
      g := a[..];
      i := i - 1;
    }
  }

  /** `heap_sort`'s body, run on the copy the wrapper hands it. */
  method SortInPlace(a: array<int>) returns (metrics: Metrics)
    modifies a
    ensures a[..] == HeapSortRun(old(a[..])).output
    ensures metrics == Metrics(HeapSortRun(old(a[..])).comparisons, HeapSortRun(old(a[..])).swaps, 0)
  {
    var n := a.Length;
    metrics := BuildInPlace(a, Metrics(0, 0, 0));
    metrics := ExtractInPlace(a, if n > 0 then n - 1 else 0, metrics);
  }

  /**
   * `heap_sort` as the timing wrapper exposes it: the caller's array is
   * copied and left as it was; the copy is sorted with no extra storage.
   */
  method HeapSort(arr: array<int>) returns (sorted: seq<int>, metrics: Metrics)
    ensures sorted == HeapSortRun(arr[..]).output && Sorted(sorted) && multiset(sorted) == multiset(arr[..])
    ensures metrics == Metrics(HeapSortRun(arr[..]).comparisons, HeapSortRun(arr[..]).swaps, 0)
  {
    HeapSortSorted(arr[..]);
    HeapSortPermutation(arr[..]);
    var a := CopyOf(arr);
    metrics := SortInPlace(a);
    sorted := a[..];
  }

  /** `heap_sort([1, 3, 2])` yields `[1, 2, 3]` with 3 comparisons, 3 swaps and no extra bytes. */
  method Example() returns (sorted: seq<int>, metrics: Metrics)
    ensures sorted == [1, 2, 3] && metrics == Metrics(3, 3, 0)
  {
    var arr := new int[3] [1, 3, 2];
    assert arr[..] == [1, 3, 2];
    HeapSortExample();
    sorted, metrics := HeapSort(arr);
  }
}
