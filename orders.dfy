/** Orderings of integer sequences under `std::less<int>`, the only comparator
    the program instantiates. */
module Orders {

  /** Ascending order: every element is at most every later one. */
  predicate Sorted(s: seq<int>) {
    forall i, j :: 0 <= i < j < |s| ==> s[i] <= s[j]
  }

  /** What one scan over adjacent pairs checks: no pair with `s[k+1] < s[k]`. */
  predicate NoDescent(s: seq<int>) {
    forall k :: 0 <= k < |s| - 1 ==> !(s[k + 1] < s[k])
  }

  /** Non-decreasing before the split point p, non-increasing from p on. */
  predicate UpDownAt(s: seq<int>, p: int) {
    && 0 <= p <= |s|
    && (forall i, j :: 0 <= i < j < p ==> s[i] <= s[j])
    && (forall i, j :: p <= i < j < |s| ==> s[i] >= s[j])
  }

  /** A bitonic sequence in the program's sense: an ascending run followed by
      a descending run (either run may be empty). */
  ghost predicate Bitonic(s: seq<int>) {
    exists p :: UpDownAt(s, p)
  }

  /** Every element of a is at most every element of b. */
  predicate AllBelow(a: seq<int>, b: seq<int>) {
    forall i, j :: 0 <= i < |a| && 0 <= j < |b| ==> a[i] <= b[j]
  }

  /** Adjacent pairs in order carry over to every pair, by transitivity. */
  lemma {:induction false} NoDescentChain(s: seq<int>, i: int, j: int)
    requires NoDescent(s)
    requires 0 <= i <= j < |s|
    ensures s[i] <= s[j]
    decreases j - i
  {
    if i < j {
      NoDescentChain(s, i + 1, j);
    }
  }

  /** The adjacent-pair scan decides ascending order. */
  lemma NoDescentIffSorted(s: seq<int>)
    ensures NoDescent(s) <==> Sorted(s)
  {
    if NoDescent(s) {
      forall i, j | 0 <= i < j < |s|
        ensures s[i] <= s[j]
      {
        NoDescentChain(s, i, j);
      }
    }
  }

  /** Two ascending runs, the first wholly below the second, make an ascending run. */
  lemma SortedConcat(a: seq<int>, b: seq<int>)
    requires Sorted(a) && Sorted(b) && AllBelow(a, b)
    ensures Sorted(a + b)
  {
    var c := a + b;
    forall i, j | 0 <= i < j < |c|
      ensures c[i] <= c[j]
    {
      if j < |a| {
        assert c[i] == a[i] && c[j] == a[j];
      } else if i < |a| {
        assert c[i] == a[i] && c[j] == b[j - |a|];
      } else {
        assert c[i] == b[i - |a|] && c[j] == b[j - |a|];
      }
    }
  }

  /** Reordering either side keeps one side wholly below the other. */
  lemma AllBelowPermuted(a: seq<int>, b: seq<int>, a': seq<int>, b': seq<int>)
    requires AllBelow(a, b)
    requires multiset(a') == multiset(a) && multiset(b') == multiset(b)
    ensures AllBelow(a', b')
  {
    forall i, j | 0 <= i < |a'| && 0 <= j < |b'|
      ensures a'[i] <= b'[j]
    {
      assert a'[i] in multiset(a);
      assert b'[j] in multiset(b);
      var k :| 0 <= k < |a| && a[k] == a'[i];
      var m :| 0 <= m < |b| && b[m] == b'[j];
    }
  }

  lemma SortedTail(a: seq<int>)
    requires Sorted(a) && |a| > 0
    ensures Sorted(a[1..])
  {
    forall i, j | 0 <= i < j < |a| - 1
      ensures a[1..][i] <= a[1..][j]
    {
      assert a[1..][i] == a[i + 1] && a[1..][j] == a[j + 1];
    }
  }

  lemma MultisetTail(a: seq<int>, b: seq<int>)
    requires multiset(a) == multiset(b) && |a| > 0 && |b| > 0 && a[0] == b[0]
    ensures multiset(a[1..]) == multiset(b[1..])
  {
    assert a == [a[0]] + a[1..] && b == [b[0]] + b[1..];
    assert multiset(a[1..]) == multiset(a) - multiset{a[0]};
    assert multiset(b[1..]) == multiset(b) - multiset{b[0]};
  }

  /** An ascending arrangement of a multiset is unique. */
  lemma {:induction false} SortedUnique(a: seq<int>, b: seq<int>)
    requires Sorted(a) && Sorted(b) && multiset(a) == multiset(b)
    ensures a == b
    decreases |a|
  {
    assert |a| == |multiset(a)| == |multiset(b)| == |b|;
    if |a| > 0 {
      assert a[0] == b[0] by {
        assert b[0] in multiset(a) && a[0] in multiset(b);
        var j :| 0 <= j < |a| && a[j] == b[0];
        var i :| 0 <= i < |b| && b[i] == a[0];
        assert a[0] <= a[j] && b[0] <= b[i];
      }
      MultisetTail(a, b);
      SortedTail(a);
      SortedTail(b);
      SortedUnique(a[1..], b[1..]);
      assert a == [a[0]] + a[1..] && b == [b[0]] + b[1..];
    }
  }
}
