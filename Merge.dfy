/**
 * Merge sort (algorithms.py, `merge` and `merge_sort`): `merge` runs two
 * cursors over the sorted halves, taking the left head on a tie, and appends
 * whatever is left over; `_merge_sort` splits at `len // 2`, sorts the
 * halves on slices and merges them.
 *
 * `MergeRun` and `MergeSortRun` are the references on sequence values. The
 * loop method `Merge` and the recursive method `SortRec` are proved to
 * compute exactly their outputs and counters.
 */
module Merging {
  import opened Ordering
  import opened Instrumentation

  /** The number of elements of `s` strictly below `x`. */
  function CountLess(s: seq<int>, x: int): (c: nat)
    ensures c <= |s|
  {
    if s == [] then 0 else (if s[0] < x then 1 else 0) + CountLess(s[1..], x)
  }

  /** The number of elements of `s` at most `x`. */
  function CountAtMost(s: seq<int>, x: int): (c: nat)
    ensures c <= |s|
  {
    if s == [] then 0 else (if s[0] <= x then 1 else 0) + CountAtMost(s[1..], x)
  }

  lemma {:induction false} CountLessNone(s: seq<int>, x: int)
    requires AllAtLeast(s, x)
    ensures CountLess(s, x) == 0
  {
    if s != [] {
      CountLessNone(s[1..], x);
    }
  }

  lemma {:induction false} CountAtMostNone(s: seq<int>, x: int)
    requires forall k :: 0 <= k < |s| ==> x < s[k]
    ensures CountAtMost(s, x) == 0
  {
    if s != [] {
      CountAtMostNone(s[1..], x);
    }
  }

  /**
   * `merge`: one comparison per element taken inside the loop, a swap
   * whenever the right head is strictly smaller, the left head on a tie,
   * and the rest of the non-empty side appended when the other runs out.
   */
  function MergeRun(l: seq<int>, r: seq<int>): (m: Run)
    ensures |m.output| == |l| + |r|
    decreases |l| + |r|
  {
    if l == [] then Run(r, 0, 0)
    else if r == [] then Run(l, 0, 0)
    else if l[0] <= r[0] then
      var rest := MergeRun(l[1..], r);
      Run([l[0]] + rest.output, rest.comparisons + 1, rest.swaps)
    else
      var rest := MergeRun(l, r[1..]);
      Run([r[0]] + rest.output, rest.comparisons + 1, rest.swaps + 1)
  }

  /** The output is a rearrangement of `left + right`. */
  lemma {:induction false} MergePermutation(l: seq<int>, r: seq<int>)
    ensures multiset(MergeRun(l, r).output) == multiset(l) + multiset(r)
    decreases |l| + |r|
  {
    if l != [] && r != [] {
      if l[0] <= r[0] {
        MergePermutation(l[1..], r);
        assert l == [l[0]] + l[1..];
      } else {
        MergePermutation(l, r[1..]);
        assert r == [r[0]] + r[1..];
      }
    }
  }

  /** Two sorted inputs merge into a sorted output. */
  lemma {:induction false} MergeSorted(l: seq<int>, r: seq<int>)
    requires Sorted(l) && Sorted(r)
    ensures Sorted(MergeRun(l, r).output)
    decreases |l| + |r|
  {
    if l != [] && r != [] {
      if l[0] <= r[0] {
        var rest := MergeRun(l[1..], r);
        MergeSorted(l[1..], r);
        MergePermutation(l[1..], r);
        AllAtLeastAppend(l[1..], r, l[0]);
        AllAtLeastPermuted(l[1..] + r, rest.output, l[0]);
        SortedCons(l[0], rest.output);
      } else {
        var rest := MergeRun(l, r[1..]);
        MergeSorted(l, r[1..]);
        MergePermutation(l, r[1..]);
        AllAtLeastAppend(l, r[1..], r[0]);
        AllAtLeastPermuted(l + r[1..], rest.output, r[0]);
        SortedCons(r[0], rest.output);
      }
    }
  }

  /**
   * At most one comparison fewer than there are elements (the last element
   * is always appended without one), and never more swaps than right
   * elements; whatever the contents.
   */
  lemma {:induction false} MergeCostBound(l: seq<int>, r: seq<int>)
    ensures l != [] || r != [] ==> MergeRun(l, r).comparisons <= |l| + |r| - 1
    ensures MergeRun(l, r).swaps <= |r|
    decreases |l| + |r|
  {
    if l != [] && r != [] {
      if l[0] <= r[0] {
        MergeCostBound(l[1..], r);
      } else {
        MergeCostBound(l, r[1..]);
      }
    }
  }

  /**
   * On sorted inputs a right element is taken inside the loop, and counted
   * as a swap, exactly when it is below the last left element.
   */
  lemma {:induction false} MergeSwaps(l: seq<int>, r: seq<int>)
    requires Sorted(l) && Sorted(r)
    ensures MergeRun(l, r).swaps == if l == [] then 0 else CountLess(r, l[|l| - 1])
    decreases |l| + |r|
  {
    if l != [] && r != [] {
      if l[0] <= r[0] {
        if |l| == 1 {
          CountLessNone(r, l[0]);
        } else {
          MergeSwaps(l[1..], r);
        }
      } else {
        MergeSwaps(l, r[1..]);
      }
    }
  }

  /**
   * On sorted inputs the comparisons are the elements taken inside the loop:
   * the left elements at most the last right element and the right elements
   * below the last left element.
   */
  lemma {:induction false} MergeComparisons(l: seq<int>, r: seq<int>)
    requires Sorted(l) && Sorted(r)
    ensures MergeRun(l, r).comparisons ==
      if l == [] || r == [] then 0 else CountAtMost(l, r[|r| - 1]) + CountLess(r, l[|l| - 1])
    decreases |l| + |r|
  {
    if l != [] && r != [] {
      if l[0] <= r[0] {
        if |l| == 1 {
          CountLessNone(r, l[0]);
        } else {
          MergeComparisons(l[1..], r);
        }
      } else {
        if |r| == 1 {
          CountAtMostNone(l, r[0]);
        } else {
          MergeComparisons(l, r[1..]);
        }
      }
    }
  }

  /**
   * Where each output position comes from, as an index into `l + r` shifted
   * so that `l` starts at `dl` and `r` at `dr`.
   */
  ghost function Sources(l: seq<int>, r: seq<int>, dl: nat, dr: nat): (o: seq<nat>)
    ensures |o| == |l| + |r|
    decreases |l| + |r|
  {
    if l == [] then seq(|r|, k => dr + k)
    else if r == [] then seq(|l|, k => dl + k)
    else if l[0] <= r[0] then [dl] + Sources(l[1..], r, dl + 1, dr)
    else [dr] + Sources(l, r[1..], dl, dr + 1)
  }

  /** Every element of `out` is the element of `l` (placed at `dl`) or `r` (placed at `dr`) that `o` names. */
  ghost predicate Drawn(l: seq<int>, r: seq<int>, dl: nat, dr: nat, o: seq<nat>, out: seq<int>)
    requires |o| == |out|
  {
    forall k :: 0 <= k < |o| ==>
      (dl <= o[k] < dl + |l| && out[k] == l[o[k] - dl]) || (dr <= o[k] < dr + |r| && out[k] == r[o[k] - dr])
  }

  /** No position is named twice. */
  ghost predicate Distinct(o: seq<nat>) {
    forall k1, k2 :: 0 <= k1 < k2 < |o| ==> o[k1] != o[k2]
  }

  /**
   * An output element precedes one from earlier in the input only when it
   * comes from `r`, the other from `l`, and it is strictly smaller.
   */
  ghost predicate Overtakes(l: seq<int>, dl: nat, dr: nat, o: seq<nat>, out: seq<int>)
    requires |o| == |out|
  {
    forall k1, k2 :: 0 <= k1 < k2 < |o| && o[k2] < o[k1] ==> dr <= o[k1] && o[k2] < dl + |l| && out[k1] < out[k2]
  }

  /** `o` traces `out` back to `l` and `r`. */
  ghost predicate Traced(l: seq<int>, r: seq<int>, dl: nat, dr: nat, o: seq<nat>, out: seq<int>)
    requires |o| == |out|
  {
    Drawn(l, r, dl, dr, o, out) && Distinct(o) && Overtakes(l, dl, dr, o, out)
  }

  /** Taking the left head: every later element is still drawn from `l` or `r`. */
  lemma DrawnLeft(l: seq<int>, r: seq<int>, dl: nat, dr: nat, o: seq<nat>, out: seq<int>)
    requires l != [] && dl + |l| <= dr && |o| == |out|
    requires Drawn(l[1..], r, dl + 1, dr, o, out)
    ensures Drawn(l, r, dl, dr, [dl] + o, [l[0]] + out)
  {
    var o2, out2 := [dl] + o, [l[0]] + out;
    forall k | 0 < k < |o2|
      ensures (dl <= o2[k] < dl + |l| && out2[k] == l[o2[k] - dl]) || (dr <= o2[k] < dr + |r| && out2[k] == r[o2[k] - dr])
    {
      assert o2[k] == o[k - 1] && out2[k] == out[k - 1];
      if dl + 1 <= o[k - 1] < dl + |l| {
        assert l[1..][o[k - 1] - dl - 1] == l[o[k - 1] - dl];
      }
    }
  }

  /** Taking the left head, named before every later source: nothing overtakes it. */
  lemma OvertakesLeft(l: seq<int>, dl: nat, dr: nat, o: seq<nat>, out: seq<int>, x: int)
    requires l != [] && |o| == |out|
    requires forall k :: 0 <= k < |o| ==> dl < o[k]
    requires Overtakes(l[1..], dl + 1, dr, o, out)
    ensures Overtakes(l, dl, dr, [dl] + o, [x] + out)
  {
    var o2, out2 := [dl] + o, [x] + out;
    forall k1, k2 | 0 < k1 < k2 < |o2| && o2[k2] < o2[k1]
      ensures dr <= o2[k1] && o2[k2] < dl + |l| && out2[k1] < out2[k2]
    {
      assert o2[k1] == o[k1 - 1] && out2[k1] == out[k1 - 1];
      assert o2[k2] == o[k2 - 1] && out2[k2] == out[k2 - 1];
    }
  }

  /** Taking the left head keeps the trace. */
  lemma TracedLeft(l: seq<int>, r: seq<int>, dl: nat, dr: nat, o: seq<nat>, out: seq<int>)
    requires l != [] && dl + |l| <= dr && |o| == |out|
    requires forall k :: 0 <= k < |o| ==> dl < o[k]
    requires Traced(l[1..], r, dl + 1, dr, o, out)
    ensures Traced(l, r, dl, dr, [dl] + o, [l[0]] + out)
  {
    DrawnLeft(l, r, dl, dr, o, out);
    OvertakesLeft(l, dl, dr, o, out, l[0]);
  }

  /** Taking the right head: every later element is still drawn from `l` or `r`. */
  lemma DrawnRight(l: seq<int>, r: seq<int>, dl: nat, dr: nat, o: seq<nat>, out: seq<int>)
    requires r != [] && dl + |l| <= dr && |o| == |out|
    requires Drawn(l, r[1..], dl, dr + 1, o, out)
    ensures Drawn(l, r, dl, dr, [dr] + o, [r[0]] + out)
  {
    var o2, out2 := [dr] + o, [r[0]] + out;
    forall k | 0 < k < |o2|
      ensures (dl <= o2[k] < dl + |l| && out2[k] == l[o2[k] - dl]) || (dr <= o2[k] < dr + |r| && out2[k] == r[o2[k] - dr])
    {
      assert o2[k] == o[k - 1] && out2[k] == out[k - 1];
      if dr + 1 <= o[k - 1] < dr + 1 + |r[1..]| {
        assert r[1..][o[k - 1] - dr - 1] == r[o[k - 1] - dr];
      }
    }
  }

  /** Taking the right head, strictly below every left element: only left elements come from before it. */
  lemma OvertakesRight(l: seq<int>, r: seq<int>, dl: nat, dr: nat, o: seq<nat>, out: seq<int>)
    requires r != [] && dl + |l| <= dr && |o| == |out|
    requires forall k :: 0 <= k < |l| ==> r[0] < l[k]
    requires Drawn(l, r[1..], dl, dr + 1, o, out) && Overtakes(l, dl, dr + 1, o, out)
    ensures Overtakes(l, dl, dr, [dr] + o, [r[0]] + out)
  {
    var o2, out2 := [dr] + o, [r[0]] + out;
    forall k | 0 < k < |o2| && o2[k] < dr
      ensures o2[k] < dl + |l| && r[0] < out2[k]
    {
      assert o2[k] == o[k - 1] && out2[k] == out[k - 1];
    }
  }

  /** Taking the right head, strictly below every left element, keeps the trace. */
  lemma TracedRight(l: seq<int>, r: seq<int>, dl: nat, dr: nat, o: seq<nat>, out: seq<int>)
    requires r != [] && dl + |l| <= dr && |o| == |out|
    requires forall k :: 0 <= k < |l| ==> r[0] < l[k]
    requires Traced(l, r[1..], dl, dr + 1, o, out)
    ensures Traced(l, r, dl, dr, [dr] + o, [r[0]] + out)
  {
    DrawnRight(l, r, dl, dr, o, out);
    OvertakesRight(l, r, dl, dr, o, out);
    assert forall k :: 0 <= k < |o| ==> dr < o[k] || o[k] < dl + |l|;
  }

  /** Once `r` is used up, `l` is copied in order. */
  lemma TracedLeftOnly(l: seq<int>, dl: nat, dr: nat)
    requires dl + |l| <= dr
    ensures Traced(l, [], dl, dr, Sources(l, [], dl, dr), MergeRun(l, []).output)
  {
  }

  /** Once `l` is used up, `r` is copied in order. */
  lemma TracedRightOnly(r: seq<int>, dl: nat, dr: nat)
    ensures Traced([], r, dl, dr, Sources([], r, dl, dr), MergeRun([], r).output)
  {
  }

  /** No source lies before the start of `l`. */
  lemma {:induction false} SourcesAbove(l: seq<int>, r: seq<int>, dl: nat, dr: nat)
    requires dl + |l| <= dr
    ensures forall k :: 0 <= k < |l| + |r| ==> dl <= Sources(l, r, dl, dr)[k]
    decreases |l| + |r|
  {
    if l != [] && r != [] {
      if l[0] <= r[0] {
        SourcesAbove(l[1..], r, dl + 1, dr);
      } else {
        SourcesAbove(l, r[1..], dl, dr + 1);
      }
    }
  }

  lemma {:induction false} SourcesTraced(l: seq<int>, r: seq<int>, dl: nat, dr: nat)
    requires Sorted(l) && dl + |l| <= dr
    ensures Traced(l, r, dl, dr, Sources(l, r, dl, dr), MergeRun(l, r).output)
    decreases |l| + |r|
  {
    if l == [] {
      TracedRightOnly(r, dl, dr);
    } else if r == [] {
      TracedLeftOnly(l, dl, dr);
    } else if l[0] <= r[0] {
      SourcesTraced(l[1..], r, dl + 1, dr);
      SourcesAbove(l[1..], r, dl + 1, dr);
      TracedLeft(l, r, dl, dr, Sources(l[1..], r, dl + 1, dr), MergeRun(l[1..], r).output);
    } else {
      SourcesTraced(l, r[1..], dl, dr + 1);
      TracedRight(l, r, dl, dr, Sources(l, r[1..], dl, dr + 1), MergeRun(l, r[1..]).output);
    }
  }

  /**
   * `merge` is stable: with `o` naming, for each output position, the index
   * in `left + right` it was taken from, every element is taken exactly
   * once, and equal elements keep their order in `left + right` (an element
   * overtakes an earlier one only when it is strictly smaller).
   */
  lemma MergeStable(l: seq<int>, r: seq<int>, o: seq<nat>, out: seq<int>)
    requires Sorted(l) && o == Sources(l, r, 0, |l|) && out == MergeRun(l, r).output
    ensures forall k :: 0 <= k < |o| ==> o[k] < |l| + |r| && out[k] == (l + r)[o[k]]
    ensures forall k1, k2 :: 0 <= k1 < k2 < |o| ==> o[k1] != o[k2]
    ensures forall k1, k2 :: 0 <= k1 < k2 < |o| && out[k1] == out[k2] ==> o[k1] < o[k2]
  {
    SourcesTraced(l, r, 0, |l|);
    assert Drawn(l, r, 0, |l|, o, out) && Distinct(o) && Overtakes(l, 0, |l|, o, out);
    forall k | 0 <= k < |o| ensures o[k] < |l| + |r| && out[k] == (l + r)[o[k]] {
      if o[k] >= |l| {
        assert (l + r)[o[k]] == r[o[k] - |l|];
      }
    }
    forall k1, k2 | 0 <= k1 < k2 < |o| && out[k1] == out[k2] ensures o[k1] < o[k2] {
      assert o[k1] != o[k2];
    }
  }

  /**
   * The state of `merge`'s loop with cursors `i`, `j`, the list `merged`
   * built so far and counters `m`: what it still produces, and the final counters.
   */
  ghost function MergePending(l: seq<int>, r: seq<int>, i: nat, j: nat, merged: seq<int>, m: Metrics): Run
    requires i <= |l| && j <= |r|
  {
    var rest := MergeRun(l[i..], r[j..]);
    Run(merged + rest.output, m.comparisons + rest.comparisons, m.swaps + rest.swaps)
  }

  /** Taking the left head: one comparison, no swap. */
  lemma TakeLeft(l: seq<int>, r: seq<int>, i: nat, j: nat, merged: seq<int>, m: Metrics, m2: Metrics)
    requires i < |l| && j < |r| && l[i] <= r[j] && m2 == m.Add(1, 0)
    ensures MergePending(l, r, i + 1, j, merged + [l[i]], m2) == MergePending(l, r, i, j, merged, m)
  {
    assert l[i..][1..] == l[i + 1..];
    AppendAssoc(merged, [l[i]], MergeRun(l[i + 1..], r[j..]).output);
  }

  /** Taking the right head: one comparison and one swap. */
  lemma TakeRight(l: seq<int>, r: seq<int>, i: nat, j: nat, merged: seq<int>, m: Metrics, m2: Metrics)
    requires i < |l| && j < |r| && r[j] < l[i] && m2 == m.Add(1, 1)
    ensures MergePending(l, r, i, j + 1, merged + [r[j]], m2) == MergePending(l, r, i, j, merged, m)
  {
    assert r[j..][1..] == r[j + 1..];
    AppendAssoc(merged, [r[j]], MergeRun(l[i..], r[j + 1..]).output);
  }

  /** Once a side is used up, the rest of both sides is appended as it is, uncounted. */
  lemma Drained(l: seq<int>, r: seq<int>, i: nat, j: nat, merged: seq<int>, m: Metrics)
    requires i <= |l| && j <= |r| && (i == |l| || j == |r|)
    ensures MergePending(l, r, i, j, merged, m) == Run(merged + l[i..] + r[j..], m.comparisons, m.swaps)
  {
    if i == |l| {
      assert l[i..] == [];
    } else {
      assert r[j..] == [];
    }
    AppendAssoc(merged, l[i..], r[j..]);
  }

  /** `merge(left, right, metrics)`: the merged list, with `metrics` advanced by the merge's counts. */
  method Merge(left: seq<int>, right: seq<int>, metrics: Metrics) returns (merged: seq<int>, after: Metrics)
    ensures merged == MergeRun(left, right).output
    ensures after == metrics.Add(MergeRun(left, right).comparisons, MergeRun(left, right).swaps)
  {
    ghost var goal := MergePending(left, right, 0, 0, [], metrics);
    merged := [];
    after := metrics;
    var i, j := 0, 0;
    while i < |left| && j < |right|
      invariant i <= |left| && j <= |right|
      invariant MergePending(left, right, i, j, merged, after) == goal
      invariant after.extraBytes == metrics.extraBytes
      decreases |left| - i + |right| - j
    {
      ghost var before := after;
      after := after.Add(1, 0);
      if left[i] <= right[j] {
        TakeLeft(left, right, i, j, merged, before, after);
        merged := merged + [left[i]];
        i := i + 1;
      } else {
        after := after.Add(0, 1);
        TakeRight(left, right, i, j, merged, before, after);
        merged := merged + [right[j]];
        j := j + 1;
      }
    }
    Drained(left, right, i, j, merged, after);
    merged := merged + left[i..];
    merged := merged + right[j..];
  }

  /**
   * `_merge_sort`: lists of length at most one come back as they are; longer
   * ones are split at `len // 2`, each half sorted, and the halves merged,
   * the counts of all three adding up.
   */
  function MergeSortRun(s: seq<int>): (r: Run)
    ensures |r.output| == |s|
    decreases |s|
  {
    if |s| <= 1 then Run(s, 0, 0)
    else
      var mid := |s| / 2;
      var left := MergeSortRun(s[..mid]);
      var right := MergeSortRun(s[mid..]);
      var m := MergeRun(left.output, right.output);
      Run(m.output, left.comparisons + right.comparisons + m.comparisons, left.swaps + right.swaps + m.swaps)
  }

  /** The output of merge sort is in non-decreasing order. */
  lemma {:induction false} MergeSortSorted(s: seq<int>)
    ensures Sorted(MergeSortRun(s).output)
    decreases |s|
  {
    if |s| > 1 {
      var mid := |s| / 2;
      var left, right := MergeSortRun(s[..mid]), MergeSortRun(s[mid..]);
      MergeSortSplit(s, mid, left, right);
      MergeSortSorted(s[..mid]);
      MergeSortSorted(s[mid..]);
      MergeSorted(left.output, right.output);
    }
  }

  /** The output of merge sort is a rearrangement of its input. */
  lemma {:induction false} MergeSortPermutation(s: seq<int>)
    ensures multiset(MergeSortRun(s).output) == multiset(s)
    decreases |s|
  {
    if |s| > 1 {
      var mid := |s| / 2;
      var left, right := MergeSortRun(s[..mid]), MergeSortRun(s[mid..]);
      MergeSortSplit(s, mid, left, right);
      MergeSortPermutation(s[..mid]);
      MergeSortPermutation(s[mid..]);
      MergePermutation(left.output, right.output);
      assert multiset(s) == multiset(s[..mid]) + multiset(s[mid..]) by {
        assert s == s[..mid] + s[mid..];
      }
    }
  }

  /** Inputs of length at most one come back unchanged, with nothing counted. */
  lemma MergeSortShort(s: seq<int>)
    requires |s| <= 1
    ensures MergeSortRun(s) == Run(s, 0, 0)
  {
  }

  /** One level of `_merge_sort` on a list of at least two elements. */
  lemma MergeSortSplit(s: seq<int>, mid: nat, left: Run, right: Run)
    requires |s| > 1 && mid == |s| / 2
    requires left == MergeSortRun(s[..mid]) && right == MergeSortRun(s[mid..])
    ensures MergeSortRun(s) == Run(MergeRun(left.output, right.output).output,
      left.comparisons + right.comparisons + MergeRun(left.output, right.output).comparisons,
      left.swaps + right.swaps + MergeRun(left.output, right.output).swaps)
  {
  }

  lemma ExampleLeftHalf()
    ensures MergeSortRun([4, 3]) == Run([3, 4], 1, 1)
  {
    assert [4, 3][..1] == [4] && [4, 3][1..] == [3];
    assert MergeRun([4], [3]) == Run([3, 4], 1, 1);
    MergeSortSplit([4, 3], 1, Run([4], 0, 0), Run([3], 0, 0));
  }

  lemma ExampleRightHalf()
    ensures MergeSortRun([2, 1]) == Run([1, 2], 1, 1)
  {
    assert [2, 1][..1] == [2] && [2, 1][1..] == [1];
    assert MergeRun([2], [1]) == Run([1, 2], 1, 1);
    MergeSortSplit([2, 1], 1, Run([2], 0, 0), Run([1], 0, 0));
  }

  lemma ExampleMerge()
    ensures MergeRun([3, 4], [1, 2]) == Run([1, 2, 3, 4], 2, 2)
  {
    assert [1, 2][1..] == [2] && [2][1..] == [];
    assert MergeRun([3, 4], []) == Run([3, 4], 0, 0);
    assert MergeRun([3, 4], [2]) == Run([2, 3, 4], 1, 1);
  }

  /** Merge sort on `[4, 3, 2, 1]`: four comparisons and four swaps. */
  lemma MergeSortExample()
    ensures MergeSortRun([4, 3, 2, 1]) == Run([1, 2, 3, 4], 4, 4)
  {
    var s := [4, 3, 2, 1];
    assert s[..2] == [4, 3] && s[2..] == [2, 1];
    ExampleLeftHalf();
    ExampleRightHalf();
    ExampleMerge();
    MergeSortSplit(s, 2, Run([3, 4], 1, 1), Run([1, 2], 1, 1));
  }

  /** `_merge_sort(a)`, threading the shared counters through both recursive calls and the merge. */
  method SortRec(a: seq<int>, metrics: Metrics) returns (sorted: seq<int>, after: Metrics)
    ensures sorted == MergeSortRun(a).output
    ensures after == metrics.Add(MergeSortRun(a).comparisons, MergeSortRun(a).swaps)
    decreases |a|
  {
    if |a| <= 1 {
      return a, metrics;
    }
    var mid := |a| / 2;
    var left, m1 := SortRec(a[..mid], metrics);
    var right, m2 := SortRec(a[mid..], m1);
    sorted, after := Merge(left, right, m2);
    MergeSortSplit(a, mid, MergeSortRun(a[..mid]), MergeSortRun(a[mid..]));
  }

  /**
   * `merge_sort` as the timing wrapper exposes it: the caller's array is
   * copied and left as it was, `extra_bytes` is fixed at four per element,
   * and the copy is sorted.
   */
  method MergeSort(arr: array<int>) returns (sorted: seq<int>, metrics: Metrics)
    ensures sorted == MergeSortRun(arr[..]).output && Sorted(sorted) && multiset(sorted) == multiset(arr[..])
    ensures metrics == Metrics(MergeSortRun(arr[..]).comparisons, MergeSortRun(arr[..]).swaps, 4 * arr.Length)
  {
    MergeSortSorted(arr[..]);
    MergeSortPermutation(arr[..]);
    var a := CopyOf(arr);
    metrics := Metrics(0, 0, a.Length * 4);
    sorted, metrics := SortRec(a[..], metrics);
  }

  /** `merge_sort([4, 3, 2, 1])` yields `[1, 2, 3, 4]` with 4 comparisons, 4 swaps and 16 extra bytes. */
  method Example() returns (sorted: seq<int>, metrics: Metrics)
    ensures sorted == [1, 2, 3, 4] && metrics == Metrics(4, 4, 16)
  {
    var arr := new int[4] [4, 3, 2, 1];
    assert arr[..] == [4, 3, 2, 1];
    MergeSortExample();
    sorted, metrics := MergeSort(arr);
  }
}
