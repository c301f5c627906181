/** What the recursive driver computes, as functions on sequences: the
    compare-exchange, the half-cleaner pass built from it, and the recursion
    over the two halves. */
module BitonicMergeSpec {
  import opened Orders

  function Min(x: int, y: int): int { if x <= y then x else y }
  function Max(x: int, y: int): int { if x <= y then y else x }

  /** Compare positions i and j and swap them when `s[j] < s[i]`. */
  function CompareExchange(s: seq<int>, i: nat, j: nat): (t: seq<int>)
    requires i < j < |s|
    ensures |t| == |s|
  {
    if s[j] < s[i] then s[i := s[j]][j := s[i]] else s
  }

  /** The smaller value ends up at i, the larger at j, and nothing else moves. */
  lemma CompareExchangeAt(s: seq<int>, i: nat, j: nat, k: nat)
    requires i < j < |s| && k < |s|
    ensures CompareExchange(s, i, j)[k] ==
      if k == i then Min(s[i], s[j]) else if k == j then Max(s[i], s[j]) else s[k]
  {
  }

  lemma CompareExchangePermutes(s: seq<int>, i: nat, j: nat)
    requires i < j < |s|
    ensures multiset(CompareExchange(s, i, j)) == multiset(s)
  {
  }

  /** The first k steps of the half-cleaner pass over s: step i
      compare-exchanges pair i of the two halves, positions i and |s|/2 + i. */
  function PartialClean(s: seq<int>, k: nat): (t: seq<int>)
    requires k <= |s| / 2
    ensures |t| == |s|
    decreases k
  {
    if k == 0 then s
    else CompareExchange(PartialClean(s, k - 1), k - 1, |s| / 2 + k - 1)
  }

  /** Each step only swaps, so the pass so far only reorders. */
  lemma {:induction false} PartialCleanPermutes(s: seq<int>, k: nat)
    requires k <= |s| / 2
    ensures multiset(PartialClean(s, k)) == multiset(s)
    decreases k
  {
    if k > 0 {
      var p := PartialClean(s, k - 1);
      PartialCleanStep(s, k - 1);
      PartialCleanPermutes(s, k - 1);
      CompareExchangePermutes(p, k - 1, |s| / 2 + k - 1);
    }
  }

  /** One more step of the pass compare-exchanges the next pair. */
  lemma PartialCleanStep(s: seq<int>, k: nat)
    requires k < |s| / 2
    ensures PartialClean(s, k + 1) == CompareExchange(PartialClean(s, k), k, |s| / 2 + k)
  {
  }

  /** Where position i stands after the first k steps of the pass: the first
      k pairs hold (min, max) of their original values, every other position
      is untouched. */
  function CleanedAt(s: seq<int>, k: nat, i: nat): int
    requires i < |s|
  {
    var h := |s| / 2;
    if i < k && i < h then Min(s[i], s[h + i])
    else if h <= i < h + k && i < 2 * h then Max(s[i - h], s[i])
    else s[i]
  }

  lemma {:induction false} PartialCleanAt(s: seq<int>, k: nat, i: nat)
    requires k <= |s| / 2 && i < |s|
    ensures PartialClean(s, k)[i] == CleanedAt(s, k, i)
    decreases k
  {
    if k > 0 {
      var h := |s| / 2;
      PartialCleanAt(s, k - 1, i);
      PartialCleanAt(s, k - 1, k - 1);
      PartialCleanAt(s, k - 1, h + k - 1);
      CompareExchangeAt(PartialClean(s, k - 1), k - 1, h + k - 1, i);
    }
  }

  /** The whole half-cleaner pass, position by position: pair i of the two
      halves holds its minimum on the left and its maximum on the right, and
      on an odd length the last element stays. */
  function HalfClean(s: seq<int>): (t: seq<int>)
    ensures |t| == |s|
  {
    seq(|s|, i requires 0 <= i < |s| => CleanedAt(s, |s| / 2, i))
  }

  /** Running every step of the pass gives the position-by-position result. */
  lemma PartialCleanComplete(s: seq<int>)
    ensures PartialClean(s, |s| / 2) == HalfClean(s)
  {
    forall i | 0 <= i < |s|
      ensures PartialClean(s, |s| / 2)[i] == HalfClean(s)[i]
    {
      PartialCleanAt(s, |s| / 2, i);
    }
  }

  /** The pass only reorders. */
  lemma HalfCleanPermutes(s: seq<int>)
    ensures multiset(HalfClean(s)) == multiset(s)
  {
    PartialCleanPermutes(s, |s| / 2);
    PartialCleanComplete(s);
  }

  /** After the pass no pair is out of order, each pair still holds its own two
      values, and on an odd length the last element is where it was. */
  lemma HalfCleanPairs(s: seq<int>)
    ensures var t, h := HalfClean(s), |s| / 2;
      && (forall i :: 0 <= i < h ==> !(t[h + i] < t[i]))
      && (forall i :: 0 <= i < h ==>
            (t[i] == s[i] && t[h + i] == s[h + i]) || (t[i] == s[h + i] && t[h + i] == s[i]))
      && (|s| % 2 == 1 ==> t[|s| - 1] == s[|s| - 1])
  {
    var t, h := HalfClean(s), |s| / 2;
    forall i | 0 <= i < h
      ensures !(t[h + i] < t[i])
      ensures (t[i] == s[i] && t[h + i] == s[h + i]) || (t[i] == s[h + i] && t[h + i] == s[i])
    {
      assert t[i] == CleanedAt(s, h, i) && t[h + i] == CleanedAt(s, h, h + i);
    }
  }

  /** The serial driver's result: a half-cleaner pass, then the same on the
      first |s|/2 elements and on the rest. */
  function BitonicMerge(s: seq<int>): (r: seq<int>)
    ensures |r| == |s|
    decreases |s|
  {
    if |s| <= 1 then s
    else
      var t, h := HalfClean(s), |s| / 2;
      BitonicMerge(t[..h]) + BitonicMerge(t[h..])
  }

  /** The driver only reorders: its result is a permutation of its input. */
  lemma {:induction false} BitonicMergePermutes(s: seq<int>)
    ensures multiset(BitonicMerge(s)) == multiset(s)
    decreases |s|
  {
    if |s| > 1 {
      var t, h := HalfClean(s), |s| / 2;
      HalfCleanPermutes(s);
      BitonicMergePermutes(t[..h]);
      BitonicMergePermutes(t[h..]);
      assert t == t[..h] + t[h..];
    }
  }

  /** One level of the recursion, with the pass's result t and the split h
      named by the caller. */
  lemma BitonicMergeUnfold(s: seq<int>, t: seq<int>, h: nat)
    requires |s| > 1 && t == HalfClean(s) && h == |s| / 2
    ensures BitonicMerge(s) == BitonicMerge(t[..h]) + BitonicMerge(t[h..])
  {
  }

  /** A pass over pairs that are already in order changes nothing. */
  lemma HalfCleanOrderedPairs(s: seq<int>)
    requires forall i :: 0 <= i < |s| / 2 ==> s[i] <= s[|s| / 2 + i]
    ensures HalfClean(s) == s
  {
    var t, h := HalfClean(s), |s| / 2;
    forall i | 0 <= i < |s|
      ensures t[i] == s[i]
    {
      assert t[i] == CleanedAt(s, h, i);
      if h <= i < 2 * h {
        assert s[i - h] <= s[h + (i - h)];
      }
    }
  }

  /** Sorting an ascending sequence again leaves it as it is. */
  lemma {:induction false} BitonicMergeKeepsSorted(s: seq<int>)
    requires Sorted(s)
    ensures BitonicMerge(s) == s
    decreases |s|
  {
    if |s| > 1 {
      var h := |s| / 2;
      HalfCleanOrderedPairs(s);
      BitonicMergeUnfold(s, s, h);
      BitonicMergeKeepsSorted(s[..h]);
      BitonicMergeKeepsSorted(s[h..]);
      assert s[..h] + s[h..] == s;
    }
  }

  /** The driver is a merge, not a general sort: on [x, y, x, y] with x < y
      (for instance [0, 1, 0, 1]), which is not bitonic, it changes nothing
      and the result is not ascending. */
  lemma NotASortForArbitraryInput(s: seq<int>)
    requires |s| == 4 && s[0] == s[2] && s[1] == s[3] && s[0] < s[1]
    ensures BitonicMerge(s) == s && !Sorted(BitonicMerge(s))
  {
    var h := |s| / 2;
    assert forall i :: 0 <= i < h ==> s[i] == s[h + i];
    HalfCleanOrderedPairs(s);
    var left, right := s[..h], s[h..];
    assert left == right;
    BitonicMergeKeepsSorted(left);
    assert s == left + right;
    BitonicMergeUnfold(s, s, h);
    assert s[1] > s[2];
  }
}
