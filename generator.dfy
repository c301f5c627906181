/** The test input of `main`: `make_bitonic_sequence(n)`, an ascending run of
    even numbers followed by a descending run of odd numbers. */
module Generator {
  import opened Orders

  /** The range of the C++ `int` the vector holds. */
  const IntMin: int := -0x8000_0000
  const IntMax: int := 0x7fff_ffff
  const IntModulus: int := 0x1_0000_0000

  /** `size_t` arithmetic is modulo 2^64. */
  const SizeModulus: int := 0x1_0000_0000_0000_0000

  /** The `size_t` value of a mathematical result. */
  function SizeT(x: int): (r: nat)
    ensures r < SizeModulus
  {
    x % SizeModulus
  }

  /** Storing an unsigned value into an `int`: the value modulo 2^32, read as
      two's complement (the rule since C++20, and what compilers did before). */
  function ToInt(x: int): (r: int)
    ensures IntMin <= r <= IntMax
  {
    var m := x % IntModulus;
    if m <= IntMax then m else m - IntModulus
  }

  lemma ModShift(y: int, k: int)
    ensures (y + k * IntModulus) % IntModulus == y % IntModulus
  {
  }

  /** Reducing modulo 2^64 keeps the low 32 bits. */
  lemma SizeTKeepsLowBits(x: int)
    ensures SizeT(x) % IntModulus == x % IntModulus
  {
    var q := x / SizeModulus;
    assert x == q * SizeModulus + SizeT(x);
    ModShift(SizeT(x), q * IntModulus);
  }

  lemma CongruentDouble(a: int, b: int)
    requires a % IntModulus == b % IntModulus
    ensures (2 * a) % IntModulus == (2 * b) % IntModulus
  {
    var d := (a - b) / IntModulus;
    assert a == b + d * IntModulus;
    ModShift(2 * b, 2 * d);
  }

  lemma CongruentSub(a: int, b: int, c: int)
    requires a % IntModulus == b % IntModulus
    ensures (a - c) % IntModulus == (b - c) % IntModulus
  {
    var d := (a - b) / IntModulus;
    assert a == b + d * IntModulus;
    ModShift(b - c, d);
  }

  /** An unsigned value congruent to an `int` value y is stored as y. */
  lemma ToIntExact(x: int, y: int)
    requires IntMin <= y <= IntMax && x % IntModulus == y % IntModulus
    ensures ToInt(x) == y
  {
  }

  /** Length of the ascending run: n/2, moved down by n/10 once n exceeds 8.
      It never exceeds n/2, so the unsigned subtraction does not wrap. */
  function SwitchPoint(n: nat): (sp: nat)
    ensures sp <= n / 2
  {
    n / 2 - (if n > 8 then n / 10 else 0)
  }

  /** Entry i of the vector as the generator computes it: every operation in
      `size_t`, the result stored into an `int`. */
  function GeneratedEntry(n: nat, i: nat): int {
    var sp := SwitchPoint(n);
    if i < sp then ToInt(SizeT(2 * i))
    else ToInt(SizeT(SizeT(2 * SizeT(SizeT(SizeT(2 * sp) - i) - 1)) - 1))
  }

  /** The vector `make_bitonic_sequence(n)` returns. */
  function GeneratedSequence(n: nat): seq<int> {
    seq(n, i requires 0 <= i < n => GeneratedEntry(n, i))
  }

  /** The intended values, in unbounded integers: 0, 2, 4, ... up to the switch
      point, then odd numbers counting down. */
  function BitonicSequence(n: nat): seq<int> {
    var sp := SwitchPoint(n);
    seq(n, i requires 0 <= i < n => if i < sp then 2 * i else 2 * (2 * sp - i - 1) - 1)
  }

  /** Evens strictly ascending up to the switch point, odds strictly descending
      after it, and so an ascending-then-descending sequence. */
  lemma BitonicSequenceShape(n: nat)
    ensures var v, sp := BitonicSequence(n), SwitchPoint(n);
      && |v| == n
      && (forall i :: 0 <= i < sp ==> v[i] % 2 == 0)
      && (forall i :: sp <= i < n ==> v[i] % 2 == 1)
      && (forall i, j :: 0 <= i < j < sp ==> v[i] < v[j])
      && (forall i, j :: sp <= i < j < n ==> v[i] > v[j])
      && Bitonic(v)
  {
    var v, sp := BitonicSequence(n), SwitchPoint(n);
    forall i | sp <= i < n
      ensures v[i] % 2 == 1
    {
      assert v[i] == 2 * (2 * sp - i - 2) + 1;
    }
    assert UpDownAt(v, sp);
  }

  /** Every entry fits in an `int` whenever n does. */
  lemma BitonicSequenceFitsInt(n: nat)
    requires n <= IntMax
    ensures forall i :: 0 <= i < n ==> IntMin <= BitonicSequence(n)[i] <= IntMax
  {
    var v, sp := BitonicSequence(n), SwitchPoint(n);
    assert 10 * sp + 10 >= 4 * n by {
      assert 2 * (n / 2) >= n - 1 && 10 * (n / 10) <= n;
    }
    forall i | 0 <= i < n
      ensures IntMin <= v[i] <= IntMax
    {
      if i >= sp {
        assert v[i] >= 4 * sp - 2 * n - 1;
      }
    }
  }

  /** The descending run's formula, evaluated step by step in `size_t` and
      stored into an `int`, gives its mathematical value y when y fits. */
  lemma DescendingEntryExact(sp: nat, i: nat, y: int)
    requires y == 2 * (2 * sp - i - 1) - 1 && IntMin <= y <= IntMax
    ensures ToInt(SizeT(SizeT(2 * SizeT(SizeT(SizeT(2 * sp) - i) - 1)) - 1)) == y
  {
    var a := SizeT(2 * sp);
    SizeTKeepsLowBits(2 * sp);
    var b := SizeT(a - i);
    SizeTKeepsLowBits(a - i);
    CongruentSub(a, 2 * sp, i);
    assert b % IntModulus == (2 * sp - i) % IntModulus;
    var c := SizeT(b - 1);
    SizeTKeepsLowBits(b - 1);
    CongruentSub(b, 2 * sp - i, 1);
    assert c % IntModulus == (2 * sp - i - 1) % IntModulus;
    var d := 2 * c;
    CongruentDouble(c, 2 * sp - i - 1);
    var e := SizeT(d);
    SizeTKeepsLowBits(d);
    assert e % IntModulus == (2 * (2 * sp - i - 1)) % IntModulus;
    var f := SizeT(e - 1);
    SizeTKeepsLowBits(e - 1);
    CongruentSub(e, 2 * (2 * sp - i - 1), 1);
    assert f % IntModulus == y % IntModulus;
    ToIntExact(f, y);
  }

  /** For every length an `int` can hold, the wrap-around in the generator's
      unsigned arithmetic cancels out: the vector holds the intended values. */
  lemma GeneratedSequenceExact(n: nat)
    requires n <= IntMax
    ensures GeneratedSequence(n) == BitonicSequence(n)
  {
    var v, w, sp := GeneratedSequence(n), BitonicSequence(n), SwitchPoint(n);
    BitonicSequenceFitsInt(n);
    forall i | 0 <= i < n
      ensures v[i] == w[i]
    {
      if i < sp {
        SizeTKeepsLowBits(2 * i);
        ToIntExact(SizeT(2 * i), 2 * i);
      } else {
        DescendingEntryExact(sp, i, w[i]);
      }
    }
  }

  /** make_bitonic_sequence(8) is [0, 2, 4, 6, 5, 3, 1, -1]. */
  lemma BitonicSequenceOfEight()
    ensures BitonicSequence(8) == [0, 2, 4, 6, 5, 3, 1, -1]
  {
    assert SwitchPoint(8) == 4;
  }
}
