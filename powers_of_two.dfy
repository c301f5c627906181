/** The entry check of `main`: the length handed to the sort must be a power
    of two, tested with the bit trick `size > 0 && (size & (size - 1)) == 0`. */
module PowersOfTwo {

  /** 1, 2, 4, 8, ... */
  predicate IsPowerOfTwo(n: nat)
    decreases n
  {
    n == 1 || (n >= 2 && n % 2 == 0 && IsPowerOfTwo(n / 2))
  }

  /** Bitwise AND of two unsigned numbers, one binary digit at a time. */
  function BitAnd(x: nat, y: nat): (r: nat)
    ensures r <= x && r <= y
    decreases x
  {
    if x == 0 || y == 0 then 0
    else 2 * BitAnd(x / 2, y / 2) + (if x % 2 == 1 && y % 2 == 1 then 1 else 0)
  }

  /** The assertion of `main` on the vector's size; `size - 1` is only
      evaluated once `size > 0` holds, so it never wraps. */
  function PowerOfTwoCheck(size: nat): bool {
    size > 0 && BitAnd(size, size - 1) == 0
  }

  lemma {:induction false} BitAndSelf(x: nat)
    ensures BitAnd(x, x) == x
    decreases x
  {
    if x > 0 {
      BitAndSelf(x / 2);
    }
  }

  /** The bit trick accepts exactly the powers of two. */
  lemma {:induction false} PowerOfTwoCheckCorrect(size: nat)
    ensures PowerOfTwoCheck(size) <==> IsPowerOfTwo(size)
    decreases size
  {
    if size > 1 {
      var y := size / 2;
      if size % 2 == 0 {
        // size = 2y and size - 1 = 2(y - 1) + 1: the low bit of the AND is 0
        assert (size - 1) / 2 == y - 1;
        assert BitAnd(size, size - 1) == 2 * BitAnd(y, y - 1);
        PowerOfTwoCheckCorrect(y);
      } else {
        // size = 2y + 1 with y > 0 and size - 1 = 2y: the AND is 2y, not 0
        assert (size - 1) / 2 == y;
        BitAndSelf(y);
        assert BitAnd(size, size - 1) == 2 * y;
      }
    }
  }

  /** A power of two above 1 splits into two equal halves that are powers of two. */
  lemma PowerOfTwoHalves(n: nat)
    requires IsPowerOfTwo(n) && n > 1
    ensures n % 2 == 0 && IsPowerOfTwo(n / 2) && IsPowerOfTwo(n - n / 2)
  {
  }
}
