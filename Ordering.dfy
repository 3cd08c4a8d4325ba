/** Order and permutation facts shared by the four sorts. */
module Ordering {

  /** Non-decreasing order: every earlier element is at most every later one. */
  predicate Sorted(s: seq<int>) {
    forall i, j :: 0 <= i < j < |s| ==> s[i] <= s[j]
  }

  /** Every element of `s` is at most `x`. */
  predicate AllAtMost(s: seq<int>, x: int) {
    forall k :: 0 <= k < |s| ==> s[k] <= x
  }

  /** Every element of `s` is at least `x`. */
  predicate AllAtLeast(s: seq<int>, x: int) {
    forall k :: 0 <= k < |s| ==> x <= s[k]
  }

  /** `s` with the elements at positions `i` and `j` exchanged. */
  function Swap(s: seq<int>, i: nat, j: nat): (t: seq<int>)
    requires i < |s| && j < |s|
    ensures |t| == |s|
  {
    s[i := s[j]][j := s[i]]
  }

  /** `Swap` exchanges exactly the two positions and so permutes `s`. */
  lemma SwapSpec(s: seq<int>, i: nat, j: nat)
    requires i < |s| && j < |s|
    ensures Swap(s, i, j)[i] == s[j] && Swap(s, i, j)[j] == s[i]
    ensures forall k :: 0 <= k < |s| && k != i && k != j ==> Swap(s, i, j)[k] == s[k]
    ensures multiset(Swap(s, i, j)) == multiset(s)
  {
    var t := Swap(s, i, j);
    if i != j {
      assert s == s[..i] + [s[i]] + s[i+1..];
    }
  }

  /** `arr[i], arr[j] = arr[j], arr[i]` on an array. */
  method Exchange(a: array<int>, i: nat, j: nat)
    requires i < a.Length && j < a.Length
    modifies a
    ensures a[..] == Swap(old(a[..]), i, j)
  {
    a[i], a[j] := a[j], a[i];
  }

  /** A sorted sequence stays sorted behind an element at most all of it. */
  lemma SortedCons(x: int, s: seq<int>)
    requires Sorted(s) && AllAtLeast(s, x)
    ensures Sorted([x] + s)
  {
    var out := [x] + s;
    forall v, w | 0 <= v < w < |out| ensures out[v] <= out[w] {
      assert out[w] == s[w - 1];
      if v > 0 {
        assert out[v] == s[v - 1];
      }
    }
  }

  /** A sequence is its prefix followed by its suffix. */
  lemma SplitAt(s: seq<int>, k: nat)
    requires k <= |s|
    ensures s == s[..k] + s[k..]
  {
  }

  /** Concatenation is associative. */
  lemma AppendAssoc(a: seq<int>, b: seq<int>, c: seq<int>)
    ensures (a + b) + c == a + (b + c)
  {
  }

  /** A lower bound on two sequences bounds their concatenation. */
  lemma AllAtLeastAppend(a: seq<int>, b: seq<int>, x: int)
    requires AllAtLeast(a, x) && AllAtLeast(b, x)
    ensures AllAtLeast(a + b, x)
  {
    forall k | 0 <= k < |a + b| ensures x <= (a + b)[k] {
      if k >= |a| {
        assert (a + b)[k] == b[k - |a|];
      }
    }
  }

  /** A bound on every element survives any rearrangement. */
  lemma AllAtMostPermuted(a: seq<int>, b: seq<int>, x: int)
    requires multiset(a) == multiset(b) && AllAtMost(a, x)
    ensures AllAtMost(b, x)
  {
    forall k | 0 <= k < |b| ensures b[k] <= x {
      assert b[k] in multiset(b);
      assert b[k] in a;
    }
  }

  lemma AllAtLeastPermuted(a: seq<int>, b: seq<int>, x: int)
    requires multiset(a) == multiset(b) && AllAtLeast(a, x)
    ensures AllAtLeast(b, x)
  {
    forall k | 0 <= k < |b| ensures x <= b[k] {
      assert b[k] in multiset(b);
      assert b[k] in a;
    }
  }

  /** Two rearrangements that agree from position `j` on also agree, as multisets, before `j`. */
  lemma PrefixPermuted(a: seq<int>, b: seq<int>, j: nat)
    requires multiset(a) == multiset(b) && j <= |a| && j <= |b| && a[j..] == b[j..]
    ensures multiset(a[..j]) == multiset(b[..j])
  {
    assert a == a[..j] + a[j..];
    assert b == b[..j] + b[j..];
    assert multiset(a) == multiset(a[..j]) + multiset(a[j..]);
    assert multiset(b) == multiset(b[..j]) + multiset(b[j..]);
    forall x ensures multiset(a[..j])[x] == multiset(b[..j])[x] {
      assert multiset(a)[x] == multiset(a[..j])[x] + multiset(a[j..])[x];
      assert multiset(b)[x] == multiset(b[..j])[x] + multiset(b[j..])[x];
    }
  }

  /** Dropping the head of a sequence removes one copy of it from its multiset. */
  lemma MultisetTail(a: seq<int>)
    requires a != []
    ensures multiset(a[1..]) == multiset(a) - multiset{a[0]}
  {
    assert a == [a[0]] + a[1..];
  }

  /** `n(n-1)/2`, the number of pairs of `n` positions, grows by `n - 1` from `n - 1` to `n`. */
  lemma PairsStep(n: nat, k: nat)
    requires k + 1 == n
    ensures n * (n - 1) / 2 == k + k * (k - 1) / 2
  {
    assert n * (n - 1) == 2 * k + k * (k - 1);
  }

  /** The head of a sorted sequence is at most any of its elements. */
  lemma SortedHead(a: seq<int>, x: int)
    requires Sorted(a) && x in multiset(a)
    ensures a != [] && a[0] <= x
  {
    assert x in a;
  }

  /** Two sorted arrangements of the same multiset start with the same element. */
  lemma SortedHeads(a: seq<int>, b: seq<int>)
    requires Sorted(a) && Sorted(b) && multiset(a) == multiset(b) && a != []
    ensures b != [] && a[0] == b[0]
  {
    assert a[0] in multiset(b);
    SortedHead(b, a[0]);
    assert b[0] in multiset(a);
    SortedHead(a, b[0]);
  }

  /** There is only one sorted arrangement of a multiset of integers. */
  lemma {:induction false} SortedUnique(a: seq<int>, b: seq<int>)
    requires Sorted(a) && Sorted(b) && multiset(a) == multiset(b)
    ensures a == b
    decreases |a|
  {
    if a == [] {
      assert |multiset(b)| == 0;
    } else {
      SortedHeads(a, b);
      var a1, b1 := a[1..], b[1..];
      assert multiset(a1) == multiset(b1) by {
        MultisetTail(a);
        MultisetTail(b);
      }
      assert Sorted(a1) && Sorted(b1);
      SortedUnique(a1, b1);
      assert a == [a[0]] + a1 && b == [b[0]] + b1;
    }
  }
}
