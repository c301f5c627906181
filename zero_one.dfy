/** Why the driver sorts a bitonic input of power-of-two length, argued with
    0-1 images: cutting s at a threshold u gives the boolean sequence
    "s[i] >= u", and a half-cleaner pass on s cuts to the same boolean pass on
    the cut. */
module ZeroOne {
  import opened Orders
  import opened PowersOfTwo
  import opened BitonicMergeSpec

  /** The 0-1 image of s at threshold u. */
  function Above(s: seq<int>, u: int): seq<bool> {
    seq(|s|, i requires 0 <= i < |s| => s[i] >= u)
  }

  /** b is x outside [lo, hi) and !x inside: x^a (!x)^b x^c. */
  predicate Band(b: seq<bool>, lo: int, hi: int, x: bool) {
    && 0 <= lo <= hi <= |b|
    && forall i :: 0 <= i < |b| ==> b[i] == (if lo <= i < hi then !x else x)
  }

  /** A bitonic 0-1 sequence: 0^a 1^b 0^c or 1^a 0^b 1^c. */
  ghost predicate IsBand(b: seq<bool>) {
    exists lo, hi, x :: Band(b, lo, hi, x)
  }

  /** Every 0-1 image of s is bitonic. This holds for an ascending-then-descending
      sequence and for every rotation of one, and, unlike ascending-then-descending
      itself, it survives the half-cleaner pass. */
  ghost predicate ThresholdBitonic(s: seq<int>) {
    forall u :: IsBand(Above(s, u))
  }

  /** The half-cleaner pass on a 0-1 sequence: the minimum of a pair is an AND,
      the maximum an OR. */
  function Clean01(b: seq<bool>): seq<bool> {
    var h := |b| / 2;
    seq(|b|, i requires 0 <= i < |b| =>
      if i < h then b[i] && b[h + i]
      else if i < 2 * h then b[i - h] || b[i]
      else b[i])
  }

  /** Cutting commutes with the pass: each compare-exchange moves the same
      values whichever threshold one looks through. */
  lemma AboveHalfClean(s: seq<int>, u: int)
    ensures Above(HalfClean(s), u) == Clean01(Above(s, u))
  {
    var t := HalfClean(s);
    forall i | 0 <= i < |s|
      ensures Above(t, u)[i] == Clean01(Above(s, u))[i]
    {
      assert t[i] == CleanedAt(s, |s| / 2, i);
    }
  }

  /** The half-cleaner on a bitonic 0-1 sequence of even length: both halves
      come out bitonic and one of them is clean (all 0 on the left or all 1 on
      the right), so nothing on the left exceeds anything on the right. */
  lemma CleanBandHalves(b: seq<bool>)
    requires |b| % 2 == 0 && IsBand(b)
    ensures var c, h := Clean01(b), |b| / 2;
      && IsBand(c[..h]) && IsBand(c[h..])
      && ((forall i :: 0 <= i < h ==> !c[i]) || (forall j :: h <= j < |c| ==> c[j]))
  {
    var lo, hi, x :| Band(b, lo, hi, x);
    if hi - lo <= |b| / 2 {
      if x {
        NarrowBandOfZeros(b, lo, hi);
      } else {
        NarrowBandOfOnes(b, lo, hi);
      }
    } else {
      if x {
        WideBandOfZeros(b, lo, hi);
      } else {
        WideBandOfOnes(b, lo, hi);
      }
    }
  }

  // In the four lemmas below, h is half the length, and "narrow" means that no
  // pair (i, h + i) has both positions inside [lo, hi), "wide" that no pair
  // has both outside it.

  lemma NarrowBandOfOnes(b: seq<bool>, lo: int, hi: int)
    requires |b| % 2 == 0 && Band(b, lo, hi, false) && hi - lo <= |b| / 2
    ensures var c, h := Clean01(b), |b| / 2;
      && Band(c[..h], 0, 0, false) && IsBand(c[h..])
  {
    var c, h := Clean01(b), |b| / 2;
    var left, right := c[..h], c[h..];
    assert Band(left, 0, 0, false);
    if hi <= h {
      assert Band(right, lo, hi, false);
    } else if lo >= h {
      assert Band(right, lo - h, hi - h, false);
    } else {
      assert Band(right, hi - h, lo, true);
    }
  }

  lemma NarrowBandOfZeros(b: seq<bool>, lo: int, hi: int)
    requires |b| % 2 == 0 && Band(b, lo, hi, true) && hi - lo <= |b| / 2
    ensures var c, h := Clean01(b), |b| / 2;
      && IsBand(c[..h]) && Band(c[h..], 0, 0, true)
  {
    var c, h := Clean01(b), |b| / 2;
    var left, right := c[..h], c[h..];
    assert Band(right, 0, 0, true);
    if hi <= h {
      assert Band(left, lo, hi, true);
    } else if lo >= h {
      assert Band(left, lo - h, hi - h, true);
    } else {
      assert Band(left, hi - h, lo, false);
    }
  }

  lemma WideBandOfOnes(b: seq<bool>, lo: int, hi: int)
    requires |b| % 2 == 0 && Band(b, lo, hi, false) && hi - lo > |b| / 2
    ensures var c, h := Clean01(b), |b| / 2;
      && Band(c[..h], lo, hi - h, false) && Band(c[h..], 0, 0, true)
  {
  }

  lemma WideBandOfZeros(b: seq<bool>, lo: int, hi: int)
    requires |b| % 2 == 0 && Band(b, lo, hi, true) && hi - lo > |b| / 2
    ensures var c, h := Clean01(b), |b| / 2;
      && Band(c[..h], 0, 0, false) && Band(c[h..], lo, hi - h, true)
  {
  }

  /** One pass on an even-length s whose cut at u is bitonic: the halves' cuts
      are bitonic, and either the left half lies wholly below u or the right
      half wholly at or above it. */
  lemma HalfCleanAtThreshold(s: seq<int>, u: int)
    requires |s| % 2 == 0 && IsBand(Above(s, u))
    ensures var t, h := HalfClean(s), |s| / 2;
      && IsBand(Above(t[..h], u)) && IsBand(Above(t[h..], u))
      && ((forall i :: 0 <= i < h ==> t[i] < u) || (forall j :: h <= j < |s| ==> t[j] >= u))
  {
    var t, h := HalfClean(s), |s| / 2;
    AboveHalfClean(s, u);
    CleanBandHalves(Above(s, u));
    assert Above(t[..h], u) == Above(t, u)[..h];
    assert Above(t[h..], u) == Above(t, u)[h..];
    var c := Above(t, u);
    if forall i :: 0 <= i < h ==> !c[i] {
      forall i | 0 <= i < h
        ensures t[i] < u
      {
        assert !c[i];
      }
    } else {
      forall j | h <= j < |s|
        ensures t[j] >= u
      {
        assert c[j];
      }
    }
  }

  /** The driver sorts every threshold-bitonic input of power-of-two length. */
  lemma {:induction false} BitonicMergeSortsThresholdBitonic(s: seq<int>)
    requires IsPowerOfTwo(|s|) && ThresholdBitonic(s)
    ensures Sorted(BitonicMerge(s))
    decreases |s|
  {
    if |s| > 1 {
      PowerOfTwoHalves(|s|);
      var t, h := HalfClean(s), |s| / 2;
      var left, right := t[..h], t[h..];
      forall u
        ensures IsBand(Above(left, u)) && IsBand(Above(right, u))
      {
        HalfCleanAtThreshold(s, u);
      }
      assert AllBelow(left, right) by {
        forall i, j | 0 <= i < |left| && 0 <= j < |right|
          ensures left[i] <= right[j]
        {
          HalfCleanAtThreshold(s, left[i]);
          assert t[i] == left[i] && t[h + j] == right[j];
        }
      }
      BitonicMergeSortsThresholdBitonic(left);
      BitonicMergeSortsThresholdBitonic(right);
      BitonicMergePermutes(left);
      BitonicMergePermutes(right);
      AllBelowPermuted(left, right, BitonicMerge(left), BitonicMerge(right));
      SortedConcat(BitonicMerge(left), BitonicMerge(right));
    }
  }

  /** The first index in [k, end) where `s[i] >= u` has the value want, or end. */
  function FirstWhere(s: seq<int>, u: int, want: bool, k: nat, end: nat): (r: nat)
    requires k <= end <= |s|
    ensures k <= r <= end
    ensures forall i :: k <= i < r ==> (s[i] >= u) != want
    ensures r < end ==> (s[r] >= u) == want
    decreases end - k
  {
    if k == end || (s[k] >= u) == want then k else FirstWhere(s, u, want, k + 1, end)
  }

  /** An ascending-then-descending sequence is threshold-bitonic: its cut at u
      is 0 up to some point of the ascending run, 1 up to some point of the
      descending run, and 0 after. */
  lemma BitonicIsThresholdBitonic(s: seq<int>)
    requires Bitonic(s)
    ensures ThresholdBitonic(s)
  {
    var p :| UpDownAt(s, p);
    forall u
      ensures IsBand(Above(s, u))
    {
      var lo := FirstWhere(s, u, true, 0, p);
      var hi := FirstWhere(s, u, false, p, |s|);
      forall i | 0 <= i < |s|
        ensures Above(s, u)[i] == (lo <= i < hi)
      {
        if lo < i < p {
          assert s[lo] <= s[i];
        } else if hi < i {
          assert s[hi] >= s[i];
        }
      }
      assert Band(Above(s, u), lo, hi, false);
    }
  }

  /** The program's claim: on an ascending-then-descending input whose length
      is a power of two, the result is ascending. */
  lemma BitonicMergeSortsBitonic(s: seq<int>)
    requires IsPowerOfTwo(|s|) && Bitonic(s)
    ensures Sorted(BitonicMerge(s))
  {
    BitonicIsThresholdBitonic(s);
    BitonicMergeSortsThresholdBitonic(s);
  }
}
