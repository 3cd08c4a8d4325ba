/**
 * Insertion sort (algorithms.py, `insertion_sort`): each element in turn is
 * taken out as the key, every larger element of the sorted prefix is shifted
 * one place right, and the key drops into the gap.
 *
 * Its counters are characterised by the input alone: every shift is one swap
 * and one comparison, so the swaps are the inversions of the input; the scan
 * that stops at a smaller-or-equal element (rather than at the left end) costs
 * one comparison more.
 */
module Insertion {
  import opened Ordering
  import opened Instrumentation

  /** Number of elements of `s` greater than `x`. */
  function CountGreater(s: seq<int>, x: int): (c: nat)
    ensures c <= |s|
  {
    if s == [] then 0 else (if s[0] > x then 1 else 0) + CountGreater(s[1..], x)
  }

  /** Inversions of `s`: pairs of positions k < i with s[k] > s[i], grouped by i. */
  function Inversions(s: seq<int>): (v: nat)
    ensures v <= |s| * (|s| - 1) / 2
  {
    if s == [] then 0
    else
      PairsStep(|s|, |s| - 1);
      Inversions(s[..|s| - 1]) + CountGreater(s[..|s| - 1], s[|s| - 1])
  }

  /**
   * Positions i >= 1 whose element is not strictly smaller than all of its
   * predecessors (see `CountGreaterBelowLength`): the passes whose leftward
   * scan stops on an element instead of running off the left end.
   */
  function Stops(s: seq<int>): (v: nat)
    ensures s == [] || v <= |s| - 1
  {
    if s == [] then 0
    else Stops(s[..|s| - 1]) + (if CountGreater(s[..|s| - 1], s[|s| - 1]) < |s| - 1 then 1 else 0)
  }

  lemma {:induction false} CountGreaterAppend(a: seq<int>, b: seq<int>, x: int)
    ensures CountGreater(a + b, x) == CountGreater(a, x) + CountGreater(b, x)
  {
    if a == [] {
      assert a + b == b;
    } else {
      assert (a + b)[1..] == a[1..] + b;
      CountGreaterAppend(a[1..], b, x);
    }
  }

  /** The count depends only on the multiset of elements. */
  lemma {:induction false} CountGreaterPermuted(a: seq<int>, b: seq<int>, x: int)
    requires multiset(a) == multiset(b)
    ensures CountGreater(a, x) == CountGreater(b, x)
  {
    if a == [] {
      assert |b| == |multiset(b)| == 0;
    } else {
      assert a[0] in multiset(b);
      var k :| 0 <= k < |b| && b[k] == a[0];
      var rest := b[..k] + b[k + 1..];
      assert b == b[..k] + [b[k]] + b[k + 1..];
      CountGreaterAppend(b[..k] + [b[k]], b[k + 1..], x);
      CountGreaterAppend(b[..k], [b[k]], x);
      CountGreaterAppend(b[..k], b[k + 1..], x);
      assert multiset(b) == multiset(rest) + multiset{b[k]};
      MultisetTail(a);
      CountGreaterPermuted(a[1..], rest, x);
    }
  }

  lemma {:induction false} CountGreaterNone(s: seq<int>, x: int)
    requires AllAtMost(s, x)
    ensures CountGreater(s, x) == 0
  {
    if s != [] {
      CountGreaterNone(s[1..], x);
    }
  }

  /** Fewer than all elements exceed `x` exactly when some element is at most `x`. */
  lemma {:induction false} CountGreaterBelowLength(s: seq<int>, x: int)
    ensures CountGreater(s, x) < |s| <==> exists k :: 0 <= k < |s| && s[k] <= x
  {
    if s != [] {
      CountGreaterBelowLength(s[1..], x);
      if s[0] > x && exists k :: 0 <= k < |s| && s[k] <= x {
        var k :| 0 <= k < |s| && s[k] <= x;
        assert s[1..][k - 1] <= x;
      }
      if exists k :: 0 <= k < |s[1..]| && s[1..][k] <= x {
        var k :| 0 <= k < |s[1..]| && s[1..][k] <= x;
        assert s[k + 1] <= x;
      }
    }
  }

  /**
   * `t` after one pass of the outer loop for index `i` whose scan ended at
   * `j`: `t[i]` sits at `j + 1` and `t[j + 1..i]` has moved one place right.
   */
  function Placed(t: seq<int>, i: nat, j: int): (u: seq<int>)
    requires -1 <= j < i < |t|
    ensures |u| == |t|
  {
    seq(|t|, k requires 0 <= k < |t| => if k <= j || i < k then t[k] else if k == j + 1 then t[i] else t[k - 1])
  }

  /** The pass as sequence surgery: the prefix is rebuilt around the key, the suffix is untouched. */
  lemma PlacedPieces(t: seq<int>, i: nat, j: int)
    requires -1 <= j < i < |t|
    ensures Placed(t, i, j)[..i + 1] == t[..j + 1] + [t[i]] + t[j + 1..i]
    ensures Placed(t, i, j)[i + 1..] == t[i + 1..]
    ensures t[..i] == t[..j + 1] + t[j + 1..i]
  {
    var u := Placed(t, i, j);
    var q := t[..j + 1] + [t[i]] + t[j + 1..i];
    assert |q| == i + 1;
    forall k | 0 <= k <= i ensures u[k] == q[k] {
      if k <= j {
        assert q[k] == t[..j + 1][k];
      } else if k > j + 1 {
        assert q[k] == t[j + 1..i][k - j - 2];
      }
    }
    assert u[..i + 1] == q;
  }

  /** What the scan that ended at `j` tells about the sorted prefix `t[..i]` and the key `t[i]`. */
  ghost predicate ScanEnded(t: seq<int>, i: nat, j: int)
    requires -1 <= j < i < |t|
  {
    (j >= 0 ==> t[j] <= t[i]) && forall k :: j < k < i ==> t[k] > t[i]
  }

  /** Putting the key at its insertion position keeps the prefix sorted. */
  lemma PlacedSorted(t: seq<int>, i: nat, j: int)
    requires -1 <= j < i < |t| && Sorted(t[..i]) && ScanEnded(t, i, j)
    ensures Sorted(Placed(t, i, j)[..i + 1])
  {
    var u := Placed(t, i, j);
    assert forall v, w :: 0 <= v < w < i ==> t[v] <= t[w] by {
      forall v, w | 0 <= v < w < i ensures t[v] <= t[w] {
        assert t[..i][v] == t[v] && t[..i][w] == t[w];
      }
    }
    forall v, w | 0 <= v < w < i + 1 ensures u[v] <= u[w] {
      if w <= j {
        assert u[v] == t[v] && u[w] == t[w];
      } else if w == j + 1 {
        assert u[v] == t[v] && u[w] == t[i];
        assert t[v] <= t[j];
      } else if v <= j {
        assert u[v] == t[v] && u[w] == t[w - 1];
        assert t[v] <= t[j];
      } else if v == j + 1 {
        assert u[v] == t[i] && u[w] == t[w - 1];
      } else {
        assert u[v] == t[v - 1] && u[w] == t[w - 1];
      }
    }
    assert forall v, w :: 0 <= v < w < i + 1 ==> u[..i + 1][v] == u[v] && u[..i + 1][w] == u[w];
  }

  /** The part of the sorted prefix up to where the scan stopped holds nothing greater than the key. */
  lemma ShiftCountBelow(t: seq<int>, i: nat, j: int, lo: seq<int>)
    requires -1 <= j < i < |t| && Sorted(t[..i]) && ScanEnded(t, i, j) && lo == t[..j + 1]
    ensures CountGreater(lo, t[i]) == 0
  {
    forall k | 0 <= k < |lo| ensures lo[k] <= t[i] {
      assert lo[k] == t[..i][k] && t[..i][j] == t[j];
    }
    CountGreaterNone(lo, t[i]);
  }

  /** A stretch `t[a..b]` of elements all greater than `x` counts in full. */
  lemma {:induction false} CountGreaterRange(t: seq<int>, a: nat, b: nat, x: int)
    requires a <= b <= |t| && forall k :: a <= k < b ==> t[k] > x
    ensures CountGreater(t[a..b], x) == b - a
    decreases b - a
  {
    if a < b {
      assert t[a..b][1..] == t[a + 1..b];
      CountGreaterRange(t, a + 1, b, x);
    }
  }

  /** The scan shifts exactly the elements of the prefix greater than the key. */
  lemma ShiftCount(t: seq<int>, i: nat, j: int)
    requires -1 <= j < i < |t| && Sorted(t[..i]) && ScanEnded(t, i, j)
    ensures CountGreater(t[..i], t[i]) == i - 1 - j
  {
    var x := t[i];
    var lo, hi := t[..j + 1], t[j + 1..i];
    ShiftCountBelow(t, i, j, lo);
    CountGreaterRange(t, j + 1, i, x);
    CountGreaterAppend(lo, hi, x);
    assert t[..i] == lo + hi;
  }

  /** The state between outer passes: `t[..i]` is a sorted arrangement of `s[..i]`, the rest untouched. */
  ghost predicate Inserted(t: seq<int>, s: seq<int>, i: nat)
  {
    |t| == |s| && i <= |s| && Sorted(t[..i]) && multiset(t[..i]) == multiset(s[..i]) && t[i..] == s[i..]
  }

  lemma KeyUnmoved(t: seq<int>, s: seq<int>, i: nat)
    requires Inserted(t, s, i) && i < |s|
    ensures t[i] == s[i] && t[i + 1..] == s[i + 1..]
  {
    assert t[i..][0] == s[i..][0];
    assert t[i + 1..] == t[i..][1..];
    assert s[i + 1..] == s[i..][1..];
  }

  /** The outer loop's invariant survives one pass. */
  lemma PassKeepsInserted(s: seq<int>, t: seq<int>, i: nat, j: int)
    requires Inserted(t, s, i) && i < |s| && -1 <= j < i && ScanEnded(t, i, j)
    ensures Inserted(Placed(t, i, j), s, i + 1)
  {
    var u := Placed(t, i, j);
    KeyUnmoved(t, s, i);
    PlacedPieces(t, i, j);
    PlacedSorted(t, i, j);
    assert s[..i + 1] == s[..i] + [s[i]];
    calc {
      multiset(u[..i + 1]);
      multiset(t[..j + 1]) + multiset([t[i]]) + multiset(t[j + 1..i]);
      multiset(t[..i]) + multiset([s[i]]);
      multiset(s[..i]) + multiset([s[i]]);
      multiset(s[..i + 1]);
    }
  }

  /** The cost of one pass, read off the input: `i - 1 - j` shifts, and a stopping comparison when `j >= 0`. */
  lemma PassCost(s: seq<int>, t: seq<int>, i: nat, j: int)
    requires Inserted(t, s, i) && i < |s| && -1 <= j < i && ScanEnded(t, i, j)
    ensures Cost(s[..i + 1]) == Cost(s[..i]).Add(i - 1 - j + (if j >= 0 then 1 else 0), i - 1 - j)
  {
    KeyUnmoved(t, s, i);
    ShiftCount(t, i, j);
    CountGreaterPermuted(t[..i], s[..i], s[i]);
    var w := s[..i + 1];
    assert w[..|w| - 1] == s[..i] && w[|w| - 1] == s[i];
  }

  /**
   * One pass of the outer loop (algorithms.py:20-29): the elements before `i`
   * that exceed the key `a[i]` move one place right, each move costing a
   * comparison and a swap; a scan that stops on an element at most the key
   * costs one more comparison; the key lands at `j + 1`.
   */
  method InsertKey(a: array<int>, i: nat, metrics: Metrics) returns (j: int, after: Metrics)
    requires 1 <= i < a.Length
    modifies a
    ensures -1 <= j < i
    ensures a[..] == Placed(old(a[..]), i, j)
    ensures ScanEnded(old(a[..]), i, j)
    ensures after == metrics.Add(i - 1 - j + (if j >= 0 then 1 else 0), i - 1 - j)
  {
    ghost var p := a[..];
    after := metrics;
    var key := a[i];
    j := i - 1;
    while j >= 0 && a[j] > key
      invariant -1 <= j <= i - 1
      invariant forall k :: 0 <= k <= j ==> a[k] == p[k]
      invariant forall k :: j + 1 < k <= i ==> a[k] == p[k - 1]
      invariant forall k :: i < k < a.Length ==> a[k] == p[k]
      invariant forall k :: j < k < i ==> p[k] > key
      invariant after == metrics.Add(i - 1 - j, i - 1 - j)
    {
      after := after.Add(1, 0);
      a[j + 1] := a[j];
      after := after.Add(0, 1);
      j := j - 1;
    }
    if j >= 0 {
      after := after.Add(1, 0);
    }
    a[j + 1] := key;
    ghost var u := Placed(p, i, j);
    forall k | 0 <= k < a.Length ensures a[k] == u[k] {
    }
    assert a[..] == u;
  }

  /** The metrics `insertion_sort` reports for input `s`. */
  function Cost(s: seq<int>): (m: Metrics)
    ensures m.extraBytes == 0 && m.swaps <= m.comparisons
    ensures s == [] || m.comparisons - m.swaps <= |s| - 1
  {
    Metrics(Inversions(s) + Stops(s), Inversions(s), 0)
  }

  lemma CostOfOne(s: seq<int>)
    requires |s| == 1
    ensures Cost(s) == Metrics(0, 0, 0)
  {
    var e := s[..0];
    assert e == [];
    assert Inversions(e) == 0 && Stops(e) == 0 && CountGreater(e, s[0]) == 0;
  }

  /** `insertion_sort`'s body, run on the copy the wrapper hands it. */
  method SortInPlace(a: array<int>) returns (metrics: Metrics)
    modifies a
    ensures Sorted(a[..]) && multiset(a[..]) == multiset(old(a[..]))
    ensures metrics == Cost(old(a[..]))
  {
    ghost var s := a[..];
    metrics := Metrics(0, 0, 0);
    var n := a.Length;
    var i := 1;
    if n > 0 {
      CostOfOne(s[..1]);
    }
    while i < n
      invariant |s| == n && 1 <= i && (i <= n || n == 0)
      invariant Inserted(a[..], s, if i <= n then i else n)
      invariant metrics == Cost(s[..if i <= n then i else n])
    {
      ghost var t := a[..];
      var j;
      j, metrics := InsertKey(a, i, metrics);
      PassKeepsInserted(s, t, i, j);
      PassCost(s, t, i, j);
      i := i + 1;
    }
    assert a[..][..n] == a[..] && s[..n] == s;
  }

  /**
   * `insertion_sort` as the timing wrapper exposes it: the caller's array is
   * copied and left as it was; the copy is sorted.
   */
  method InsertionSort(arr: array<int>) returns (sorted: seq<int>, metrics: Metrics)
    ensures Sorted(sorted) && multiset(sorted) == multiset(arr[..])
    ensures metrics.swaps == Inversions(arr[..])
    ensures metrics.comparisons == Inversions(arr[..]) + Stops(arr[..])
    ensures metrics.extraBytes == 0
  {
    var a := CopyOf(arr);
    metrics := SortInPlace(a);
    sorted := a[..];
  }

  /** Non-decreasing input: no shift at all, and one stopping comparison per pass. */
  lemma {:induction false} SortedInputCost(s: seq<int>)
    requires Sorted(s) && s != []
    ensures Inversions(s) == 0 && Stops(s) == |s| - 1
  {
    var init := s[..|s| - 1];
    if init != [] {
      SortedInputCost(init);
      CountGreaterNone(init, s[|s| - 1]);
    }
  }

  /** Each pass costs at most as many comparisons as the key has predecessors. */
  lemma {:induction false} ComparisonsBound(s: seq<int>)
    ensures Inversions(s) + Stops(s) <= |s| * (|s| - 1) / 2
  {
    if s != [] {
      var init, x := s[..|s| - 1], s[|s| - 1];
      ComparisonsBound(init);
      PairsStep(|s|, |init|);
      assert Inversions(s) + Stops(s) <= Inversions(init) + Stops(init) + |init| by {
        assert Inversions(s) == Inversions(init) + CountGreater(init, x);
        assert Stops(s) == Stops(init) + if CountGreater(init, x) < |init| then 1 else 0;
      }
    }
  }

  /** `[3, 1, 2]` has two inversions, and only the pass for `2` stops on an element. */
  lemma ExampleCounts(s: seq<int>)
    requires s == [3, 1, 2]
    ensures Inversions(s) == 2 && Stops(s) == 1
  {
    assert s[..2] == [3, 1] && [3, 1][..1] == [3] && [3][..0] == [];
    assert CountGreater([3, 1], 2) == 1 by {
      assert [3, 1][1..] == [1] && [1][1..] == [];
    }
    assert CountGreater([3], 1) == 1 by {
      assert [3][1..] == [];
    }
  }

  /** The only non-decreasing rearrangement of `[3, 1, 2]` is `[1, 2, 3]`. */
  lemma ExampleSorted(s: seq<int>, t: seq<int>)
    requires s == [3, 1, 2] && Sorted(t) && multiset(t) == multiset(s)
    ensures t == [1, 2, 3]
  {
    assert multiset(s) == multiset([1, 2, 3]);
    SortedUnique(t, [1, 2, 3]);
  }

  /** The `[3, 1, 2]` scenario: output `[1, 2, 3]`, 3 comparisons and 2 swaps. */
  method Example() returns (sorted: seq<int>, metrics: Metrics)
    ensures sorted == [1, 2, 3] && metrics == Metrics(3, 2, 0)
  {
    var arr := new int[3] [3, 1, 2];
    ghost var s := arr[..];
    assert s == [3, 1, 2];
    sorted, metrics := InsertionSort(arr);
    ExampleCounts(s);
    ExampleSorted(s, sorted);
  }
}
