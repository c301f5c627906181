/** The program itself: the in-place serial and parallel drivers over a range
    [lo, hi) of an array, the adjacent-pair scan `sorted`, the generator and
    the flow of `main`. The comparator is `std::less<int>`, so "comp(x, y)" is
    `x < y` throughout. */
module BitonicSort {
  import opened Orders
  import opened PowersOfTwo
  import opened BitonicMergeSpec
  import opened ZeroOne
  import opened Generator

  /** Ranges up to this length go to the serial driver. */
  const ParallelCutoff: nat := 4194304

  /** One iteration of the pass loop, on the array's contents before (A) and
      after (B) it: if [lo, hi) held the first i steps of the pass over s,
      compare-exchanging positions lo + i and lo + half + i makes it hold the
      first i + 1, and nothing outside [lo, hi) moves. */
  lemma PassStep(s: seq<int>, A: seq<int>, B: seq<int>, lo: nat, hi: nat, i: nat)
    requires lo <= hi <= |A| && |s| == hi - lo && i < |s| / 2
    requires A[lo..hi] == PartialClean(s, i)
    requires var l, r := lo + i, lo + |s| / 2 + i;
      B == if A[r] < A[l] then A[l := A[r]][r := A[l]] else A
    ensures B[lo..hi] == PartialClean(s, i + 1)
    ensures B[..lo] == A[..lo] && B[hi..] == A[hi..]
  {
    var j := |s| / 2 + i;
    var t := CompareExchange(A[lo..hi], i, j);
    forall k | 0 <= k < hi - lo
      ensures B[lo..hi][k] == t[k]
    {
      CompareExchangeAt(A[lo..hi], i, j, k);
    }
    PartialCleanStep(s, i);
  }

  /** Two states that agree below m agree on every slice below m. */
  lemma PrefixAgrees(X: seq<int>, Y: seq<int>, m: nat, lo: nat, hi: nat)
    requires lo <= hi <= m <= |X| == |Y| && X[..m] == Y[..m]
    ensures X[lo..hi] == Y[lo..hi] && X[..hi] == Y[..hi]
  {
    assert X[lo..hi] == X[..m][lo..hi] && Y[lo..hi] == Y[..m][lo..hi];
    assert X[..hi] == X[..m][..hi] && Y[..hi] == Y[..m][..hi];
  }

  /** Two states that agree from m on agree on every slice from m on. */
  lemma SuffixAgrees(X: seq<int>, Y: seq<int>, m: nat, lo: nat, hi: nat)
    requires m <= lo <= hi <= |X| == |Y| && X[m..] == Y[m..]
    ensures X[lo..hi] == Y[lo..hi] && X[lo..] == Y[lo..]
  {
    forall k | lo <= k < |X|
      ensures X[k] == Y[k]
    {
      assert X[k] == X[m..][k - m] && Y[k] == Y[m..][k - m];
    }
    assert X[lo..hi] == Y[lo..hi];
    assert X[lo..] == Y[lo..];
  }

  /** Running the first half and then the second half of [lo, hi) after the
      pass gives the driver's result on the range, and nothing outside [lo, hi)
      moves: the array states A0 (before the pass), A1 (after it), A2 (after
      the first half) and A3 (after the second half). */
  lemma ComposeHalves(A0: seq<int>, A1: seq<int>, A2: seq<int>, A3: seq<int>, lo: nat, mid: nat, hi: nat)
    requires lo + 1 < hi <= |A0| == |A1| == |A2| == |A3| && mid == lo + (hi - lo) / 2
    requires A1[lo..hi] == HalfClean(A0[lo..hi]) && A1[..lo] == A0[..lo] && A1[hi..] == A0[hi..]
    requires A2[lo..mid] == BitonicMerge(A1[lo..mid]) && A2[..lo] == A1[..lo] && A2[mid..] == A1[mid..]
    requires A3[mid..hi] == BitonicMerge(A2[mid..hi]) && A3[..mid] == A2[..mid] && A3[hi..] == A2[hi..]
    ensures A3[lo..hi] == BitonicMerge(A0[lo..hi])
    ensures A3[..lo] == A0[..lo] && A3[hi..] == A0[hi..]
  {
    var s, t, h := A0[lo..hi], A1[lo..hi], mid - lo;
    HalvesInPlace(A1, A2, A3, lo, mid, hi);
    assert t[..h] == A1[lo..mid] && t[h..] == A1[mid..hi];
    calc {
      A3[lo..hi];
      A2[lo..mid] + A3[mid..hi];
      BitonicMerge(t[..h]) + BitonicMerge(t[h..]);
      { BitonicMergeUnfold(s, t, h); }
      BitonicMerge(s);
    }
  }

  /** The slice bookkeeping behind ComposeHalves: the first half is left as
      the first call made it, the second call starts from the pass's second
      half, and the outside of [lo, hi) is as before. */
  lemma HalvesInPlace(A1: seq<int>, A2: seq<int>, A3: seq<int>, lo: nat, mid: nat, hi: nat)
    requires lo <= mid <= hi <= |A1| == |A2| == |A3|
    requires A2[..lo] == A1[..lo] && A2[mid..] == A1[mid..]
    requires A3[..mid] == A2[..mid] && A3[hi..] == A2[hi..]
    ensures A3[lo..hi] == A2[lo..mid] + A3[mid..hi] && A2[mid..hi] == A1[mid..hi]
    ensures A3[..lo] == A1[..lo] && A3[hi..] == A1[hi..]
  {
    SuffixAgrees(A2, A1, mid, mid, hi);
    SuffixAgrees(A2, A1, mid, hi, hi);
    PrefixAgrees(A3, A2, mid, lo, mid);
    PrefixAgrees(A3, A2, mid, lo, lo);
    assert A3[lo..hi] == A3[lo..mid] + A3[mid..hi];
  }

  /** The compare-exchange loop over [lo, hi): pair i is (lo + i, lo + half + i)
      for i < half = (hi - lo) / 2, swapped when its right element is smaller. */
  method HalfCleanerPass(a: array<int>, lo: nat, hi: nat)
    requires lo <= hi <= a.Length
    modifies a
    ensures a[lo..hi] == HalfClean(old(a[lo..hi]))
    ensures a[..lo] == old(a[..lo]) && a[hi..] == old(a[hi..])
  {
    ghost var s := a[lo..hi];
    var half := (hi - lo) / 2;
    var mid := lo + half;
    var i := 0;
    while i < half
      invariant 0 <= i <= half
      invariant a[lo..hi] == PartialClean(s, i)
      invariant a[..lo] == old(a[..lo]) && a[hi..] == old(a[hi..])
    {
      ghost var A := a[..];
      var left, right := lo + i, mid + i;
      if a[right] < a[left] {
        a[left], a[right] := a[right], a[left];
      }
      PassStep(s, A, a[..], lo, hi, i);
      i := i + 1;
    }
    PartialCleanComplete(s);
  }

  /** `serial_bitonic_sort`: a range of length at most 1 is left alone;
      otherwise one pass, then the first half, then the second half. */
  method SerialBitonicSort(a: array<int>, lo: nat, hi: nat)
    requires lo <= hi <= a.Length
    modifies a
    ensures a[lo..hi] == BitonicMerge(old(a[lo..hi]))
    ensures multiset(a[lo..hi]) == multiset(old(a[lo..hi]))
    ensures a[..lo] == old(a[..lo]) && a[hi..] == old(a[hi..])
    decreases hi - lo
  {
    BitonicMergePermutes(a[lo..hi]);
    if hi - lo <= 1 {
      return;
    }
    ghost var A0 := a[..];
    HalfCleanerPass(a, lo, hi);
    ghost var A1 := a[..];
    var mid := lo + (hi - lo) / 2;
    SerialBitonicSort(a, lo, mid);
    ghost var A2 := a[..];
    SerialBitonicSort(a, mid, hi);
    ComposeHalves(A0, A1, A2, a[..], lo, mid, hi);
  }

  /** `parallel_bitonic_sort`: up to the cutoff it is the serial driver; above
      it, one pass, then the first half (spawned in the source) and the second
      half. The halves are disjoint, so running them one after the other gives
      what the joined tasks give. Its contract is the serial driver's. */
  method ParallelBitonicSort(a: array<int>, lo: nat, hi: nat)
    requires lo <= hi <= a.Length
    modifies a
    ensures a[lo..hi] == BitonicMerge(old(a[lo..hi]))
    ensures multiset(a[lo..hi]) == multiset(old(a[lo..hi]))
    ensures a[..lo] == old(a[..lo]) && a[hi..] == old(a[hi..])
    decreases hi - lo
  {
    BitonicMergePermutes(a[lo..hi]);
    if hi - lo <= ParallelCutoff {
      SerialBitonicSort(a, lo, hi);
      return;
    }
    ghost var A0 := a[..];
    HalfCleanerPass(a, lo, hi);
    ghost var A1 := a[..];
    var mid := lo + (hi - lo) / 2;
    ParallelBitonicSort(a, lo, mid);
    ghost var A2 := a[..];
    ParallelBitonicSort(a, mid, hi);
    ComposeHalves(A0, A1, A2, a[..], lo, mid, hi);
  }

  /** The two drivers leave equal arrays equal: on the same contents, the
      parallel driver ends with exactly what the serial one ends with. */
  method ParallelMatchesSerial(a: array<int>, b: array<int>, lo: nat, hi: nat)
    requires a != b && a.Length == b.Length && a[..] == b[..]
    requires lo <= hi <= a.Length
    modifies a, b
    ensures a[..] == b[..]
  {
    SerialBitonicSort(a, lo, hi);
    ParallelBitonicSort(b, lo, hi);
    assert a[..] == a[..lo] + a[lo..hi] + a[hi..];
    assert b[..] == b[..lo] + b[lo..hi] + b[hi..];
  }

  /** `sorted`: one scan over adjacent pairs of a non-empty range, stopping at
      the first pair whose right element is smaller. */
  method IsSorted(a: array<int>, lo: nat, hi: nat) returns (b: bool)
    requires lo < hi <= a.Length
    ensures b <==> NoDescent(a[lo..hi])
    ensures b <==> Sorted(a[lo..hi])
  {
    NoDescentIffSorted(a[lo..hi]);
    var it1, it2 := lo, lo + 1;
    while it2 != hi
      invariant lo < it2 <= hi && it1 == it2 - 1
      invariant forall k :: lo <= k < it1 ==> !(a[k + 1] < a[k])
      decreases hi - it2
    {
      if a[it2] < a[it1] {
        assert a[lo..hi][it1 - lo + 1] < a[lo..hi][it1 - lo];
        return false;
      }
      it1, it2 := it1 + 1, it2 + 1;
    }
    forall k | 0 <= k < hi - lo - 1
      ensures !(a[lo..hi][k + 1] < a[lo..hi][k])
    {
      assert a[lo..hi][k] == a[lo + k] && a[lo..hi][k + 1] == a[lo + k + 1];
    }
    return true;
  }

  /** `make_bitonic_sequence`: fill a vector of n ints in two loops, in
      `size_t` arithmetic, and return it by value. */
  method MakeBitonicSequence(n: nat) returns (v: seq<int>)
    ensures v == GeneratedSequence(n)
    ensures n <= IntMax ==> v == BitonicSequence(n)
  {
    var vec := new int[n];
    var switchPoint := n / 2 - (if n > 8 then n / 10 else 0);
    var i := 0;
    while i < switchPoint
      invariant 0 <= i <= switchPoint
      invariant forall k :: 0 <= k < i ==> vec[k] == GeneratedEntry(n, k)
    {
      vec[i] := ToInt(SizeT(2 * i));
      i := i + 1;
    }
    i := switchPoint;
    while i < n
      invariant switchPoint <= i <= n
      invariant forall k :: 0 <= k < i ==> vec[k] == GeneratedEntry(n, k)
    {
      vec[i] := ToInt(SizeT(SizeT(2 * SizeT(SizeT(SizeT(2 * switchPoint) - i) - 1)) - 1));
      i := i + 1;
    }
    v := vec[..];
    if n <= IntMax {
      GeneratedSequenceExact(n);
    }
  }

  /** What `main` can end in once n is read: the power-of-two assertion fails,
      or the verdict of `sorted` is printed. */
  datatype Outcome = AssertionFailed | Reported(sorted: bool)

  /** The flow of `main` for a non-negative `int` n (256 when no argument is
      given): generate, check the length is a power of two, sort with the
      parallel driver, scan. The program always reports "Sorted!" when the
      assertion passes. */
  method SortGenerated(n: nat) returns (outcome: Outcome)
    requires n <= IntMax
    ensures outcome == if IsPowerOfTwo(n) then Reported(true) else AssertionFailed
  {
    var v := MakeBitonicSequence(n);
    PowerOfTwoCheckCorrect(|v|);
    if !PowerOfTwoCheck(|v|) {
      return AssertionFailed;
    }
    var a := new int[|v|](i requires 0 <= i < |v| => v[i]);
    assert a[0..a.Length] == v;
    ParallelBitonicSort(a, 0, a.Length);
    BitonicSequenceShape(n);
    BitonicMergeSortsBitonic(v);
    var ok := IsSorted(a, 0, a.Length);
    outcome := Reported(ok);
  }

  lemma SortedEight(e: seq<int>)
    requires e == [-1, 0, 1, 2, 3, 4, 5, 6]
    ensures Sorted(e) && multiset(e) == multiset{-1, 0, 1, 2, 3, 4, 5, 6}
  {
    assert forall i :: 0 <= i < |e| ==> e[i] == i - 1;
  }

  lemma GeneratedValuesEight(v: seq<int>)
    requires v == [0, 2, 4, 6, 5, 3, 1, -1]
    ensures multiset(v) == multiset{-1, 0, 1, 2, 3, 4, 5, 6}
  {
  }

  /** The only ascending arrangement of the eight generated values. */
  lemma ArrangedEight(r: seq<int>, v: seq<int>)
    requires v == [0, 2, 4, 6, 5, 3, 1, -1]
    requires Sorted(r) && multiset(r) == multiset(v)
    ensures r == [-1, 0, 1, 2, 3, 4, 5, 6]
  {
    var e := [-1, 0, 1, 2, 3, 4, 5, 6];
    SortedEight(e);
    GeneratedValuesEight(v);
    SortedUnique(r, e);
  }

  /** The program's run at n = 8: [0, 2, 4, 6, 5, 3, 1, -1] comes out
      as [-1, 0, 1, 2, 3, 4, 5, 6]. */
  lemma SortsGeneratedEight(n: nat)
    requires n == 8
    ensures BitonicMerge(BitonicSequence(n)) == [-1, 0, 1, 2, 3, 4, 5, 6]
  {
    var v := BitonicSequence(n);
    BitonicSequenceOfEight();
    BitonicSequenceShape(n);
    assert IsPowerOfTwo(n) by {
      assert IsPowerOfTwo(n / 2 / 2 / 2);
    }
    BitonicMergeSortsBitonic(v);
    BitonicMergePermutes(v);
    ArrangedEight(BitonicMerge(v), v);
  }
}
