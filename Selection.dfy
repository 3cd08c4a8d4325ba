/**
 * Selection sort (algorithms.py, `selection_sort`): for each position in
 * turn the first minimum of the unsorted suffix is found by a left-to-right
 * scan and exchanged into place.
 *
 * `SelectionRun` is the reference: the same choices on sequence values. The
 * in-place method is proved to produce exactly its output and counters, and
 * the promises of the source are proved about `SelectionRun`.
 */
module Selection {
  import opened Ordering
  import opened Instrumentation

  /**
   * The index the scan settles on: it starts at 0 and moves to a later
   * element only when that element is strictly smaller, so it is the first
   * position of the minimum.
   */
  function FirstMin(s: seq<int>): (m: nat)
    requires s != []
    ensures m < |s|
    ensures forall k :: 0 <= k < |s| ==> s[m] <= s[k]
    ensures forall k :: 0 <= k < m ==> s[m] < s[k]
  {
    if |s| == 1 then 0
    else
      var m := FirstMin(s[..|s| - 1]);
      if s[|s| - 1] < s[m] then |s| - 1 else m
  }

  /**
   * What remains after the first minimum of `s` is exchanged to the front:
   * the elements after position 0, with the old front element moved into the
   * minimum's place.
   */
  function Unselected(s: seq<int>): (rest: seq<int>)
    requires s != []
    ensures |rest| == |s| - 1
    ensures multiset(s) == multiset{s[FirstMin(s)]} + multiset(rest)
  {
    var t := Swap(s, 0, FirstMin(s));
    SwapSpec(s, 0, FirstMin(s));
    assert t == [t[0]] + t[1..];
    t[1..]
  }

  /**
   * Selection sort on a sequence: the first minimum is exchanged to the
   * front, costing one comparison per other element and a swap when it is
   * not already there; the rest is sorted the same way.
   */
  function SelectionRun(s: seq<int>): (r: Run)
    ensures |r.output| == |s| && multiset(r.output) == multiset(s)
    decreases |s|
  {
    if s == [] then Run([], 0, 0)
    else
      var m := FirstMin(s);
      var rest := SelectionRun(Unselected(s));
      Run([s[m]] + rest.output, |s| - 1 + rest.comparisons, (if m != 0 then 1 else 0) + rest.swaps)
  }

  /** The output is in non-decreasing order. */
  lemma {:induction false} SelectionRunSorted(s: seq<int>)
    ensures Sorted(SelectionRun(s).output)
    decreases |s|
  {
    if s != [] {
      var m := FirstMin(s);
      var u := Unselected(s);
      var rest := SelectionRun(u);
      SelectionRunSorted(u);
      forall k | 0 <= k < |u| ensures s[m] <= u[k] {
        assert u[k] in multiset(u);
        assert u[k] in multiset(s);
      }
      AllAtLeastPermuted(u, rest.output, s[m]);
      SortedCons(s[m], rest.output);
    }
  }

  /** Every pair of positions is compared exactly once, whatever the contents. */
  lemma {:induction false} SelectionComparisons(s: seq<int>)
    ensures SelectionRun(s).comparisons == |s| * (|s| - 1) / 2
    decreases |s|
  {
    if s != [] {
      var u := Unselected(s);
      SelectionComparisons(u);
      PairsStep(|s|, |u|);
      var c := SelectionRun(u).comparisons;
      assert SelectionRun(s).comparisons == |s| - 1 + c;
      assert c == |u| * (|u| - 1) / 2;
      assert SelectionRun(s).comparisons == |s| * (|s| - 1) / 2;
    } else {
      assert SelectionRun(s).comparisons == 0;
      assert |s| * (|s| - 1) == 0;
    }
  }

  /** At most one exchange per position but the last. */
  lemma {:induction false} SelectionSwapsBound(s: seq<int>)
    requires s != []
    ensures SelectionRun(s).swaps <= |s| - 1
    decreases |s|
  {
    if |s| > 1 {
      SelectionSwapsBound(Unselected(s));
    }
  }

  /**
   * On non-decreasing input the scan never finds a strictly smaller element,
   * so nothing is exchanged and the input comes back as it was.
   */
  lemma {:induction false} SelectionSortedInput(s: seq<int>)
    requires Sorted(s)
    ensures SelectionRun(s).swaps == 0 && SelectionRun(s).output == s
    decreases |s|
  {
    if s != [] {
      assert FirstMin(s) == 0 by {
        assert s[0] <= s[FirstMin(s)];
      }
      assert Unselected(s) == s[1..] by {
        assert Swap(s, 0, 0) == s;
      }
      SelectionSortedInput(s[1..]);
      assert s == [s[0]] + s[1..];
    }
  }

  /**
   * The outcome of `selection_sort` seen from position `i` of the outer
   * loop: the settled prefix of `p` followed by the reference run on the
   * suffix, with the counters `m` gathered so far plus those still to come.
   */
  ghost function Pending(p: seq<int>, i: nat, m: Metrics): Run
    requires i <= |p|
  {
    var rest := SelectionRun(p[i..]);
    Run(p[..i] + rest.output, m.comparisons + rest.comparisons, m.swaps + rest.swaps)
  }

  lemma PendingStart(p: seq<int>)
    ensures Pending(p, 0, Metrics(0, 0, 0)) == SelectionRun(p)
  {
    assert p[..0] + SelectionRun(p[0..]).output == SelectionRun(p).output;
  }

  lemma PendingDone(p: seq<int>, m: Metrics)
    ensures Pending(p, |p|, m) == Run(p, m.comparisons, m.swaps)
  {
    assert p[..|p|] + SelectionRun(p[|p|..]).output == p;
  }

  /** Exchanging the suffix's first minimum into position `i` leaves `Unselected` of the suffix after it. */
  lemma SwapInSuffix(p: seq<int>, i: nat, j: nat, q: seq<int>)
    requires i < |p| && j == i + FirstMin(p[i..]) && q == Swap(p, i, j)
    ensures q[..i + 1] == p[..i] + [p[j]]
    ensures q[i + 1..] == Unselected(p[i..])
  {
    var m := FirstMin(p[i..]);
    var t := Swap(p[i..], 0, m);
    forall k | 0 <= k < |t| - 1 ensures q[i + 1..][k] == t[1..][k] {
      assert q[i + 1..][k] == q[i + 1 + k];
    }
    assert q[..i + 1] == q[..i] + [q[i]];
  }

  /** One pass of the outer loop in place leaves the same output to come as one step of the reference. */
  lemma StepOutput(p: seq<int>, i: nat, j: nat, q: seq<int>)
    requires i < |p| && j == i + FirstMin(p[i..]) && q == Swap(p, i, j)
    ensures q[..i + 1] + SelectionRun(q[i + 1..]).output == p[..i] + SelectionRun(p[i..]).output
  {
    SwapInSuffix(p, i, j, q);
    AppendAssoc(p[..i], [p[j]], SelectionRun(Unselected(p[i..])).output);
  }

  /** The counters of one pass: a comparison per later element, and a swap if the minimum moved. */
  lemma StepCost(p: seq<int>, i: nat, j: nat, q: seq<int>)
    requires i < |p| && j == i + FirstMin(p[i..]) && q == Swap(p, i, j)
    ensures SelectionRun(p[i..]).comparisons == |p| - i - 1 + SelectionRun(q[i + 1..]).comparisons
    ensures SelectionRun(p[i..]).swaps == (if j != i then 1 else 0) + SelectionRun(q[i + 1..]).swaps
  {
    SwapInSuffix(p, i, j, q);
  }

  /** One pass of the outer loop in place leaves the same outcome pending as one step of the reference. */
  lemma SelectionStep(p: seq<int>, i: nat, j: nat, q: seq<int>, m: Metrics, m2: Metrics)
    requires i < |p| && j == i + FirstMin(p[i..]) && q == Swap(p, i, j)
    requires m2 == m.Add(|p| - i - 1, if j != i then 1 else 0)
    ensures Pending(q, i + 1, m2) == Pending(p, i, m)
  {
    StepOutput(p, i, j, q);
    StepCost(p, i, j, q);
  }

  lemma SwapSelf(p: seq<int>, i: nat)
    requires i < |p|
    ensures Swap(p, i, i) == p
  {
  }

  /** One more step of the scan over `q[i..]`: the minimum moves to `j` only if `q[j]` is strictly smaller. */
  lemma FirstMinGrow(q: seq<int>, i: nat, j: nat)
    requires i < j < |q|
    ensures FirstMin(q[i..j + 1]) == if q[j] < q[i + FirstMin(q[i..j])] then j - i else FirstMin(q[i..j])
  {
    var w := q[i..j + 1];
    assert w[..|w| - 1] == q[i..j];
  }

  /**
   * The inner loop of one pass (algorithms.py:38-42): it settles on the
   * first minimum of `a[i..]` and returns how many comparisons it made, one
   * for each element after `i`.
   */
  method ScanMin(a: array<int>, i: nat, ghost g: seq<int>) returns (minIdx: nat, compared: nat)
    requires i < a.Length && a[..] == g
    ensures minIdx == i + FirstMin(g[i..])
    ensures compared == a.Length - i - 1
  {
    compared := 0;
    minIdx := i;
    var j := i + 1;
    while j < a.Length
      invariant i < j <= a.Length
      invariant minIdx == i + FirstMin(g[i..j])
      invariant compared == j - i - 1
    {
      compared := compared + 1;
      FirstMinGrow(g, i, j);
      if a[j] < a[minIdx] {
        minIdx := j;
      }
      j := j + 1;
    }
    assert g[i..j] == g[i..];
  }

  /**
   * The exchange closing one pass (algorithms.py:43-45): made, and counted,
   * only when the minimum is not already at `i`.
   */
  method PlaceMin(a: array<int>, i: nat, minIdx: nat) returns (exchanged: nat)
    requires i < a.Length && minIdx < a.Length
    modifies a
    ensures a[..] == Swap(old(a[..]), i, minIdx)
    ensures exchanged == if minIdx != i then 1 else 0
  {
    exchanged := 0;
    if minIdx != i {
      Exchange(a, i, minIdx);
      exchanged := 1;
    } else {
      SwapSelf(a[..], i);
    }
  }

  /** `selection_sort`'s body, run on the copy the wrapper hands it. */
  method SortInPlace(a: array<int>) returns (metrics: Metrics)
    modifies a
    ensures a[..] == SelectionRun(old(a[..])).output
    ensures metrics == Metrics(SelectionRun(old(a[..])).comparisons, SelectionRun(old(a[..])).swaps, 0)
  {
    ghost var g := a[..];
    ghost var r := SelectionRun(g);
    PendingStart(g);
    metrics := Metrics(0, 0, 0);
    var n := a.Length;
    var i := 0;
    while i < n
      invariant 0 <= i <= n && |g| == n
      invariant a[..] == g
      invariant Pending(g, i, metrics) == r
      invariant metrics.extraBytes == 0
    {
      ghost var before := metrics;
      var minIdx, compared := ScanMin(a, i, g);
      var exchanged := PlaceMin(a, i, minIdx);
      metrics := metrics.Add(compared, exchanged);
      SelectionStep(g, i, minIdx, a[..], before, metrics);
      g := a[..];
      i := i + 1;
    }
    PendingDone(g, metrics);
  }

  /**
   * `selection_sort` as the timing wrapper exposes it: the caller's array is
   * copied and left as it was; the copy is sorted.
   */
  method SelectionSort(arr: array<int>) returns (sorted: seq<int>, metrics: Metrics)
    ensures sorted == SelectionRun(arr[..]).output && Sorted(sorted) && multiset(sorted) == multiset(arr[..])
    ensures metrics == Metrics(SelectionRun(arr[..]).comparisons, SelectionRun(arr[..]).swaps, 0)
    ensures metrics.comparisons == arr.Length * (arr.Length - 1) / 2
    ensures arr.Length > 0 ==> metrics.swaps <= arr.Length - 1
  {
    SelectionRunSorted(arr[..]);
    SelectionComparisons(arr[..]);
    if arr.Length > 0 {
      SelectionSwapsBound(arr[..]);
    }
    var a := CopyOf(arr);
    metrics := SortInPlace(a);
    sorted := a[..];
  }
}
