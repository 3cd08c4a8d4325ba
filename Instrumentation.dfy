/**
 * The metrics record every sort returns, the cost record of one step, and
 * the copy that the timing wrapper makes before it hands the input to a sort.
 */
module Instrumentation {

  /**
   * The counters of one sort invocation. The wall-clock `time_ms` entry that
   * the timing wrapper adds is not modelled.
   */
  datatype Metrics = Metrics(comparisons: nat, swaps: nat, extraBytes: nat) {

    /** The record after `c` further comparisons and `s` further swaps. */
    function Add(c: nat, s: nat): Metrics {
      Metrics(comparisons + c, swaps + s, extraBytes)
    }
  }

  /** What a sort, or one step of it, produces: its output and the comparisons and swaps it counts. */
  datatype Run = Run(output: seq<int>, comparisons: nat, swaps: nat)

  /**
   * `arr.copy()` in the timing wrapper: the sort receives a fresh array
   * holding the caller's elements, so the caller's array is never written.
   */
  method CopyOf(arr: array<int>) returns (a: array<int>)
    ensures fresh(a) && a[..] == arr[..]
  {
    a := new int[arr.Length];
    forall k | 0 <= k < arr.Length {
      a[k] := arr[k];
    }
  }
}
