/**
 * Operations on Rust's `uint` (libstd/num/uint.rs): rounding division,
 * bounded repetition and the least power of two not below a value.
 *
 * `uint` is pointer-sized; this model fixes it at 64 bits and writes the
 * wrapping of the machine operations out explicitly.
 */
module Uint {
  import opened Bits

  const WordBytes: nat := 8
  const WordModulus: nat := 0x1_0000_0000_0000_0000
  const HalfModulus: nat := 0x8000_0000_0000_0000

  /** A 64-bit unsigned machine word. */
  type Word = x: int | 0 <= x < WordModulus

  lemma WordModulusIsPow2()
    ensures Pow2(64) == WordModulus && Pow2(63) == HalfModulus
  {
    assert Pow2(8) == 0x100;
    Pow2Add(8, 8);
    Pow2Add(16, 16);
    Pow2Add(32, 31);
    Pow2Add(32, 32);
  }

  /** Machine addition, subtraction and multiplication, which wrap modulo 2^64. */
  function WrappingAdd(a: Word, b: Word): Word
  {
    (a + b) % WordModulus
  }

  function WrappingSub(a: Word, b: Word): Word
  {
    (a - b) % WordModulus
  }

  function WrappingMul(a: Word, b: Word): Word
  {
    (a * b) % WordModulus
  }

  // ---------------------------------------------------------------------------
  // Division (uint.rs: div_floor, div_ceil, div_round)
  // ---------------------------------------------------------------------------

  /** x / y rounded down: q*y <= x < (q+1)*y. */
  function DivFloor(x: Word, y: Word): (q: Word)
    requires y != 0
    ensures q * y <= x < (q + 1) * y
  {
    x / y
  }

  /** x / y rounded up: the smallest q whose multiple q*y reaches x.  The
      increment `div + 1` never wraps: a remainder exists only when y >= 2. */
  function DivCeil(x: Word, y: Word): (q: Word)
    requires y != 0
    ensures x <= q * y
    ensures q == 0 || (q - 1) * y < x
  {
    var div := x / y;
    if x % y == 0 then div
    else
      assert div <= x / 2 by { DivMonotoneDivisor(x, 2, y); }
      div + 1
  }

  /** x / y rounded to the nearest integer, halves upwards:
      q - 1/2 <= x/y < q + 1/2.  The remainder is compared with what is left
      of the divisor, which cannot overflow (see DivRoundAsWritten). */
  function DivRound(x: Word, y: Word): (q: Word)
    requires y != 0
    ensures (2 * q - 1) * y <= 2 * x < (2 * q + 1) * y
  {
    var div := x / y;
    if x % y < y - x % y then div
    else
      assert div <= x / 2 by { DivMonotoneDivisor(x, 2, y); }
      div + 1
  }

  /** div_round exactly as uint.rs:50-54 writes it: the doubled remainder
      `x % y * 2u` is a machine multiplication and wraps when y > 2^63. */
  function DivRoundAsWritten(x: Word, y: Word): (q: Word)
    requires y != 0
    ensures q == x / y || q == x / y + 1
  {
    var div := x / y;
    assert y == 1 ==> WrappingMul(x % y, 2) == 0;
    if WrappingMul(x % y, 2) < y then div
    else
      assert div <= x / 2 by { DivMonotoneDivisor(x, 2, y); }
      div + 1
  }

  /** While y <= 2^63 the doubled remainder fits in a word, and the code as
      written rounds exactly as DivRound does. */
  lemma DivRoundAsWrittenAgrees(x: Word, y: Word)
    requires 0 < y <= HalfModulus
    ensures DivRoundAsWritten(x, y) == DivRound(x, y)
  {
  }

  /** With y just above 2^63 the doubled remainder wraps to 2, and the code as
      written rounds 0.99999... down to 0. */
  lemma DivRoundAsWrittenOverflows()
    ensures var x, y := HalfModulus + 1, HalfModulus + 2;
      && DivRoundAsWritten(x, y) == 0
      && !((2 * 0 - 1) * y <= 2 * x < (2 * 0 + 1) * y)
      && DivRound(x, y) == 1
  {
  }

  /** The remainder decides: div_ceil adds one exactly when y does not divide
      x, and div_round exactly when the doubled remainder reaches y. */
  lemma DivCases(x: Word, y: Word)
    requires y != 0
    ensures DivFloor(x, y) == x / y
    ensures DivCeil(x, y) == if x % y == 0 then x / y else x / y + 1
    ensures DivRound(x, y) == if 2 * (x % y) < y then x / y else x / y + 1
  {
  }

  /** Floor, nearest and ceiling are ordered and at most one apart. */
  lemma DivOrdering(x: Word, y: Word)
    requires y != 0
    ensures DivFloor(x, y) <= DivRound(x, y) <= DivCeil(x, y) <= DivFloor(x, y) + 1
  {
  }

  /** When y divides x the three roundings agree. */
  lemma DivExact(x: Word, y: Word)
    requires y != 0 && x % y == 0
    ensures DivFloor(x, y) == DivRound(x, y) == DivCeil(x, y) == x / y
  {
  }

  /** The worked example of test_div. */
  lemma DivExample()
    ensures DivFloor(3, 4) == 0 && DivCeil(3, 4) == 1 && DivRound(3, 4) == 1
  {
  }

  // ---------------------------------------------------------------------------
  // Repetition (uint.rs: Times::times)
  // ---------------------------------------------------------------------------

  /** A closure taking no arguments; what it does is count its own calls, as
      the closure of test_times does with `accum += 1`. */
  class Accumulator {
    var accum: int

    constructor ()
      ensures accum == 0
    {
      accum := 0;
    }

    method Call()
      modifies this
      ensures accum == old(accum) + 1
    {
      accum := accum + 1;
    }
  }

  /** Runs the closure n times, counting i down from n to 0. */
  method Times(n: Word, it: Accumulator)
    modifies it
    ensures it.accum == old(it.accum) + n
  {
    var i := n;
    while i > 0
      invariant 0 <= i <= n
      invariant it.accum == old(it.accum) + (n - i)
    {
      it.Call();
      i := i - 1;
    }
  }

  /** test_times: ten repetitions of `accum += 1` from zero give ten. */
  method TimesTen() returns (accum: int)
    ensures accum == 10
  {
    var it := new Accumulator();
    Times(10, it);
    accum := it.accum;
  }

  /** No repetitions leave the closure's state alone. */
  method TimesZero(it: Accumulator)
    modifies it
    ensures it.accum == old(it.accum)
  {
    Times(0, it);
  }

  // ---------------------------------------------------------------------------
  // Next power of two (uint.rs: next_power_of_two)
  // ---------------------------------------------------------------------------

  ghost predicate IsPowerOfTwo(x: nat)
  {
    exists k: nat :: x == Pow2(k)
  }

  /** The smallest power of two that is at least n, on unbounded integers. */
  function PowerOfTwoCeiling(n: nat): nat
  {
    if n == 0 then 1 else Pow2(BitLength(n - 1))
  }

  lemma PowerOfTwoCeilingIsLeast(n: nat)
    ensures IsPowerOfTwo(PowerOfTwoCeiling(n))
    ensures n <= PowerOfTwoCeiling(n)
    ensures n >= 1 ==> PowerOfTwoCeiling(n) < 2 * n
    ensures forall k: nat :: n <= Pow2(k) ==> PowerOfTwoCeiling(n) <= Pow2(k)
  {
    PowerOfTwoCeilingBounds(n);
    forall k: nat | n <= Pow2(k)
      ensures PowerOfTwoCeiling(n) <= Pow2(k)
    {
      if n >= 1 {
        BitLengthLeast(n - 1, k);
        Pow2Monotone(BitLength(n - 1), k);
      }
    }
  }

  lemma PowerOfTwoCeilingBounds(n: nat)
    ensures IsPowerOfTwo(PowerOfTwoCeiling(n))
    ensures n <= PowerOfTwoCeiling(n)
    ensures n >= 1 ==> PowerOfTwoCeiling(n) < 2 * n
  {
    if n == 0 {
      assert PowerOfTwoCeiling(n) == Pow2(0);
    } else {
      var b := BitLength(n - 1);
      BitLengthBounds(n - 1);
      assert PowerOfTwoCeiling(n) == Pow2(b);
    }
  }

  /** Up to 2^63 the least power of two at least n fits in a word ... */
  lemma PowerOfTwoCeilingFits(n: nat)
    requires 1 <= n <= HalfModulus
    ensures PowerOfTwoCeiling(n) < WordModulus
  {
    PowerOfTwoCeilingBounds(n);
  }

  /** ... and above 2^63 it is 2^64, one more than the largest word. */
  lemma PowerOfTwoCeilingOverflows(n: Word)
    requires n > HalfModulus
    ensures PowerOfTwoCeiling(n) == WordModulus
  {
    WordModulusIsPow2();
    var m := n - 1;
    BitLengthBounds(m);
    BitLengthLeast(m, 64);
    var b := BitLength(m);
    if b < 64 {
      Pow2Monotone(b, 63);
    }
    assert b == 64;
  }

  /** What next_power_of_two returns on a 64-bit word: 0 for 0, the least
      power of two at least n while one fits, and 0 once none fits. */
  function NextPowerOfTwoSpec(n: Word): Word
  {
    if n == 0 then 0
    else if n <= HalfModulus then
      assert PowerOfTwoCeiling(n) < WordModulus by { PowerOfTwoCeilingFits(n); }
      PowerOfTwoCeiling(n)
    else 0
  }

  /** For n >= 1 the result is the least power of two at least n, reduced
      modulo 2^64: above 2^63 that power is 2^64, which wraps to 0. */
  lemma NextPowerOfTwoSpecWraps(n: Word)
    requires n >= 1
    ensures NextPowerOfTwoSpec(n) == PowerOfTwoCeiling(n) % WordModulus
  {
    if n <= HalfModulus {
      PowerOfTwoCeilingFits(n);
    } else {
      PowerOfTwoCeilingOverflows(n);
    }
  }

  /** test_next_power_of_two. */
  lemma NextPowerOfTwoTable()
    ensures NextPowerOfTwoSpec(0) == 0 && NextPowerOfTwoSpec(1) == 1
    ensures NextPowerOfTwoSpec(2) == 2 && NextPowerOfTwoSpec(3) == 4
    ensures NextPowerOfTwoSpec(4) == 4 && NextPowerOfTwoSpec(5) == 8
    ensures NextPowerOfTwoSpec(6) == 8 && NextPowerOfTwoSpec(7) == 8
    ensures NextPowerOfTwoSpec(8) == 8 && NextPowerOfTwoSpec(9) == 16
    ensures NextPowerOfTwoSpec(10) == 16 && NextPowerOfTwoSpec(11) == 16
    ensures NextPowerOfTwoSpec(12) == 16 && NextPowerOfTwoSpec(13) == 16
    ensures NextPowerOfTwoSpec(14) == 16 && NextPowerOfTwoSpec(15) == 16
    ensures NextPowerOfTwoSpec(16) == 16 && NextPowerOfTwoSpec(17) == 32
    ensures NextPowerOfTwoSpec(18) == 32 && NextPowerOfTwoSpec(19) == 32
    ensures NextPowerOfTwoSpec(20) == 32 && NextPowerOfTwoSpec(21) == 32
    ensures NextPowerOfTwoSpec(22) == 32 && NextPowerOfTwoSpec(23) == 32
    ensures NextPowerOfTwoSpec(24) == 32 && NextPowerOfTwoSpec(25) == 32
    ensures NextPowerOfTwoSpec(26) == 32 && NextPowerOfTwoSpec(27) == 32
    ensures NextPowerOfTwoSpec(28) == 32 && NextPowerOfTwoSpec(29) == 32
    ensures NextPowerOfTwoSpec(30) == 32 && NextPowerOfTwoSpec(31) == 32
    ensures NextPowerOfTwoSpec(32) == 32 && NextPowerOfTwoSpec(33) == 64
    ensures NextPowerOfTwoSpec(34) == 64 && NextPowerOfTwoSpec(35) == 64
    ensures NextPowerOfTwoSpec(36) == 64 && NextPowerOfTwoSpec(37) == 64
    ensures NextPowerOfTwoSpec(38) == 64 && NextPowerOfTwoSpec(39) == 64
  {
  }

  /** The lowest bit position of the top s bits of a k-bit value. */
  function TopStart(k: nat, s: nat): nat
  {
    if s >= k then 0 else k - s
  }

  /** t has bit length k and its top s bits (bits TopStart(k, s) .. k-1) are
      all ones. */
  ghost predicate Smeared(t: nat, k: nat, s: nat)
  {
    Pow2(k) - Pow2(TopStart(k, s)) <= t < Pow2(k)
  }

  /** One round `tmp |= tmp >> shift` doubles the run of ones below the
      highest set bit and sets nothing above it. */
  lemma SmearStep(t: nat, k: nat, s: nat)
    requires s >= 1 && Smeared(t, k, s)
    ensures Smeared(Or(t, Shr(t, s)), k, 2 * s)
  {
    var c := Shr(t, s);
    ShrAtMost(t, s);
    OrBelow(t, c, k);
    OrAtLeast(t, c);
    if s < k {
      SmearStepTop(t, k, s);
    }
  }

  /** The ones half of SmearStep when the run of ones does not yet reach bit 0:
      t is hi + l with hi the s top ones, and t >> s supplies the next ones. */
  lemma SmearStepTop(t: nat, k: nat, s: nat)
    requires 1 <= s < k && Smeared(t, k, s)
    ensures Pow2(k) - Pow2(TopStart(k, 2 * s)) <= Or(t, Shr(t, s))
  {
    var j := k - s;
    var pj := Pow2(j);
    Pow2Add(s, j);
    var hi := Pow2(k) - pj;
    OnesAboveNoBitsBelow(k, j);
    var l := t - hi;
    var c := Shr(t, s);
    DivBelow(t, Pow2(s), pj);
    ShrTopAtLeast(t, k, s);
    OrHigh(hi, j, l, c);
    OrAtLeast(l, c);
  }

  /** The top s ones of t, shifted right by s, are the next s ones below. */
  lemma ShrTopAtLeast(t: nat, k: nat, s: nat)
    requires 1 <= s < k && Pow2(k) - Pow2(k - s) <= t
    ensures Shr(t, s) >= Pow2(k - s) - Pow2(TopStart(k, 2 * s))
  {
    var j := k - s;
    var ps, pj := Pow2(s), Pow2(j);
    Pow2Add(s, j);
    if 2 * s < k {
      var pl := Pow2(j - s);
      Pow2Add(s, j - s);
      assert pj == ps * pl;
      MulSub(ps, pj, pl);
      DivAtLeast(t, ps, pj - pl);
    } else {
      Pow2Monotone(j, s);
      MulSub(ps, pj, 1);
      DivAtLeast(t, ps, pj - 1);
    }
  }

  /** After the last round (shift 64) the value is all ones below bit k. */
  lemma SmearedFull(t: nat, k: nat)
    requires k <= 64 && Smeared(t, k, 64)
    ensures t == Pow2(k) - 1
  {
  }

  /** Adding one to the smeared n - 1 gives NextPowerOfTwoSpec(n). */
  lemma SmearPlusOne(n: Word)
    ensures BitLength(WrappingSub(n, 1)) <= 64
    ensures Pow2(BitLength(WrappingSub(n, 1))) <= WordModulus
    ensures WrappingAdd(Pow2(BitLength(WrappingSub(n, 1))) - 1, 1) == NextPowerOfTwoSpec(n)
  {
    WordModulusIsPow2();
    var m := WrappingSub(n, 1);
    BitLengthLeast(m, 64);
    var k := BitLength(m);
    Pow2Monotone(k, 64);
    if n == 0 {
      assert m == WordModulus - 1;
      BitLengthBounds(m);
      if k < 64 {
        Pow2Monotone(k, 63);
      }
      assert k == 64;
    } else {
      NextPowerOfTwoSpecWraps(n);
    }
  }

  /** NextPowerOfTwoSpec(n) is the least power of two at least n whenever a
      power of two at least n fits in a word, and 0 otherwise. */
  lemma NextPowerOfTwoSpecIsLeast(n: Word)
    ensures n == 0 ==> NextPowerOfTwoSpec(n) == 0
    ensures 1 <= n <= HalfModulus ==> IsPowerOfTwo(NextPowerOfTwoSpec(n))
    ensures 1 <= n <= HalfModulus ==> n <= NextPowerOfTwoSpec(n) < 2 * n
    ensures 1 <= n <= HalfModulus ==>
      forall k: nat :: n <= Pow2(k) ==> NextPowerOfTwoSpec(n) <= Pow2(k)
    ensures n > HalfModulus ==> NextPowerOfTwoSpec(n) == 0
  {
    PowerOfTwoCeilingIsLeast(n);
  }

  /** next_power_of_two: subtract one, copy the highest set bit into every
      lower position by OR-ing shifted copies at shifts 1, 2, 4, ... up to half
      the word width, then add one. */
  method NextPowerOfTwo(n: Word) returns (r: Word)
    ensures r == NextPowerOfTwoSpec(n)
    ensures n == 0 ==> r == 0
    ensures 1 <= n <= HalfModulus ==> IsPowerOfTwo(r) && n <= r < 2 * n
    ensures 1 <= n <= HalfModulus ==> forall k: nat :: n <= Pow2(k) ==> r <= Pow2(k)
    ensures n > HalfModulus ==> r == 0
  {
    var halfbits: Word := WordBytes * 4;
    var tmp: Word := WrappingSub(n, 1);
    var shift: Word := 1;
    ghost var k := BitLength(tmp);
    WordModulusIsPow2();
    SmearPlusOne(n);
    BitLengthBounds(tmp);
    Pow2Monotone(k, 64);
    while shift <= halfbits
      invariant shift == 1 || shift == 2 || shift == 4 || shift == 8 || shift == 16 || shift == 32 || shift == 64
      invariant Smeared(tmp, k, shift)
      decreases 64 - shift
    {
      SmearStep(tmp, k, shift);
      var next := Or(tmp, Shr(tmp, shift));
      assert next < WordModulus;
      tmp := next;
      shift := shift * 2;
    }
    SmearedFull(tmp, k);
    r := WrappingAdd(tmp, 1);
    NextPowerOfTwoSpecIsLeast(n);
  }
}
