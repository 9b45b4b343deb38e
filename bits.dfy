/**
 * Unsigned machine-word arithmetic on mathematical integers: powers of two,
 * bit length, bitwise OR and logical right shift, with the facts about them
 * that the bit-smearing loop of `next_power_of_two` needs.
 */
module Bits {

  /** 2 to the power k. */
  function Pow2(k: nat): (p: nat)
    ensures p >= 1
  {
    if k == 0 then 1 else 2 * Pow2(k - 1)
  }

  lemma {:induction false} Pow2Add(a: nat, b: nat)
    ensures Pow2(a + b) == Pow2(a) * Pow2(b)
  {
    if a > 0 {
      Pow2Add(a - 1, b);
      assert Pow2(a + b) == 2 * Pow2(a - 1 + b);
    }
  }

  lemma {:induction false} Pow2Monotone(a: nat, b: nat)
    requires a <= b
    ensures Pow2(a) <= Pow2(b)
  {
    if a < b {
      Pow2Monotone(a, b - 1);
    }
  }

  /** The number of binary digits of m: zero for zero. */
  function BitLength(m: nat): nat
  {
    if m == 0 then 0 else 1 + BitLength(m / 2)
  }

  /** m has exactly BitLength(m) digits: its highest set bit is bit BitLength(m) - 1. */
  lemma {:induction false} BitLengthBounds(m: nat)
    ensures m < Pow2(BitLength(m))
    ensures m > 0 ==> Pow2(BitLength(m) - 1) <= m
  {
    if m > 0 {
      BitLengthBounds(m / 2);
    }
  }

  /** Any j with m < 2^j is at least the bit length of m. */
  lemma {:induction false} BitLengthLeast(m: nat, j: nat)
    requires m < Pow2(j)
    ensures BitLength(m) <= j
  {
    if m > 0 {
      assert j > 0;
      BitLengthLeast(m / 2, j - 1);
    }
  }

  /** Logical right shift of an unsigned value. */
  function Shr(x: nat, s: nat): nat
  {
    NatDiv(x, Pow2(s))
  }

  /** Division of naturals behind a function boundary, so that proofs about
      Shr see a natural-number quotient and reach the nonlinear facts about
      it only through the lemmas at the end of this module. */
  function NatDiv(x: nat, d: nat): nat
    requires d > 0
  {
    x / d
  }

  /** Bitwise inclusive OR of two unsigned values, one binary digit at a time. */
  function Or(a: nat, b: nat): nat
    decreases a + b
  {
    if a == 0 then b
    else if b == 0 then a
    else 2 * Or(a / 2, b / 2) + (if a % 2 == 1 || b % 2 == 1 then 1 else 0)
  }

  /** OR keeps every bit of both operands, so it is at least each of them. */
  lemma {:induction false} OrAtLeast(a: nat, b: nat)
    ensures Or(a, b) >= a && Or(a, b) >= b
    decreases a + b
  {
    if a != 0 && b != 0 {
      OrAtLeast(a / 2, b / 2);
    }
  }

  /** OR sets no bit that neither operand has: it stays below 2^j. */
  lemma {:induction false} OrBelow(a: nat, b: nat, j: nat)
    requires a < Pow2(j) && b < Pow2(j)
    ensures Or(a, b) < Pow2(j)
    decreases a + b
  {
    if a != 0 && b != 0 {
      OrBelow(a / 2, b / 2, j - 1);
    }
  }

  /** hi has no bit below position j. */
  ghost predicate NoBitsBelow(hi: nat, j: nat)
  {
    j == 0 || (hi % 2 == 0 && NoBitsBelow(hi / 2, j - 1))
  }

  /** 2^k - 2^j, the ones from bit j up to bit k - 1, has no bit below j. */
  lemma {:induction false} OnesAboveNoBitsBelow(k: nat, j: nat)
    requires j <= k
    ensures Pow2(j) <= Pow2(k)
    ensures NoBitsBelow(Pow2(k) - Pow2(j), j)
  {
    Pow2Monotone(j, k);
    if j > 0 {
      OnesAboveNoBitsBelow(k - 1, j - 1);
      var d := Pow2(k - 1) - Pow2(j - 1);
      assert Pow2(k) - Pow2(j) == 2 * d;
      assert (2 * d) / 2 == d && (2 * d) % 2 == 0;
    }
  }

  /** Bits at or above position j of the first operand pass through OR unchanged
      when the second operand has none there. */
  lemma {:induction false} OrHigh(hi: nat, j: nat, l: nat, c: nat)
    requires NoBitsBelow(hi, j) && l < Pow2(j) && c < Pow2(j)
    ensures Or(hi + l, c) == hi + Or(l, c)
    decreases j
  {
    if j == 0 {
      assert l == 0 && c == 0;
    } else if c != 0 && hi + l != 0 {
      var a := hi + l;
      assert a / 2 == hi / 2 + l / 2 && a % 2 == l % 2;
      OrHigh(hi / 2, j - 1, l / 2, c / 2);
      var bit := if l % 2 == 1 || c % 2 == 1 then 1 else 0;
      assert Or(a, c) == 2 * Or(hi / 2 + l / 2, c / 2) + bit;
      if l != 0 {
        assert Or(l, c) == 2 * Or(l / 2, c / 2) + bit;
      } else {
        assert Or(l / 2, c / 2) == c / 2;
      }
    }
  }

  // Facts about multiplication and division by a positive number.

  lemma DivMonotoneDivisor(x: nat, a: nat, b: nat)
    requires 1 <= a <= b
    ensures x / b <= x / a
  {
    var qb := x / b;
    MulMonotone(qb, a, b);
    DivAtLeast(x, a, qb);
  }

  lemma MulMonotone(c: nat, u: int, v: int)
    requires u <= v
    ensures c * u <= c * v
  {
    var d := v - u;
    assert c * v == c * u + c * d;
  }

  lemma MulSub(a: int, b: int, c: int)
    ensures a * (b - c) == a * b - a * c
  {
  }

  lemma ShrAtMost(t: nat, s: nat)
    ensures Shr(t, s) <= t
  {
    DivAtMost(t, Pow2(s));
  }

  lemma DivAtMost(a: nat, b: nat)
    requires b >= 1
    ensures a / b <= a
  {
  }

  lemma DivBelow(a: nat, b: nat, x: nat)
    requires b >= 1 && a < b * x
    ensures a / b < x
  {
  }

  lemma DivAtLeast(a: nat, b: nat, x: int)
    requires b >= 1 && a >= b * x
    ensures a / b >= x
  {
    var q := a / b;
    assert a == b * q + a % b;
    assert b * (q + 1) == b * q + b;
    if x > q {
      MulMonotone(b, q + 1, x);
    }
  }
}
