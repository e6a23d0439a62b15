/**
 The bit arithmetic of the hash table, on natural numbers: powers of two, a
 right shift, and the bitwise AND that stands in for a remainder.
 */
module Bits {

  function Pow2(k: nat): (p: nat)
    ensures p >= 1
  {
    if k == 0 then 1 else 2 * Pow2(k - 1)
  }

  /** x >> k on an unsigned word */
  function Shr(x: nat, k: nat): nat {
    if k == 0 then x else Shr(x / 2, k - 1)
  }

  /** x & y on unsigned words */
  function And(x: nat, y: nat): nat
    decreases x
  {
    if x == 0 || y == 0 then 0 else (x % 2) * (y % 2) + 2 * And(x / 2, y / 2)
  }

  /** One bit of a mask 2^k - 1 with k > 0. */
  lemma MaskStep(x: nat, k: nat)
    requires k > 0
    ensures And(x, Pow2(k) - 1) == x % 2 + 2 * And(x / 2, Pow2(k - 1) - 1)
  {
    var p := Pow2(k - 1);
    assert (2 * p - 1) % 2 == 1 && (2 * p - 1) / 2 == p - 1;
  }

  lemma MulTwice(q: nat, p: nat)
    ensures q * (2 * p) == 2 * (q * p)
  {
  }

  lemma ShiftMaskStep(x: nat, q: nat, p: nat, m: nat)
    requires x / 2 == q * p + m && m < p
    ensures x == q * (2 * p) + (x % 2 + 2 * m) && x % 2 + 2 * m < 2 * p
  {
    MulTwice(q, p);
  }

  /** Shift and mask are quotient and remainder by 2^k. */
  lemma {:induction false} ShiftMask(x: nat, k: nat)
    ensures x == Shr(x, k) * Pow2(k) + And(x, Pow2(k) - 1)
    ensures And(x, Pow2(k) - 1) < Pow2(k)
    decreases k
  {
    if k > 0 {
      var p := Pow2(k - 1);
      ShiftMask(x / 2, k - 1);
      MaskStep(x, k);
      ShiftMaskStep(x, Shr(x / 2, k - 1), p, And(x / 2, p - 1));
    }
  }

  lemma AndIsRemainder(x: nat, k: nat)
    ensures And(x, Pow2(k) - 1) == x % Pow2(k)
  {
    ShiftMask(x, k);
    RemainderIs(x, Shr(x, k), Pow2(k), And(x, Pow2(k) - 1));
  }

  lemma RemainderIs(x: nat, q: nat, p: nat, r: nat)
    requires x == q * p + r && r < p
    ensures x % p == r
  {
    var d := x / p - q;
    assert d * p == (x / p) * p - q * p;
    assert x == (x / p) * p + x % p;
    if d != 0 {
      BigMultiple(d, p);
    }
  }

  lemma BigMultiple(d: int, p: nat)
    requires d != 0
    ensures d * p >= p || d * p + p <= 0
  {
    if d >= 1 {
      assert d * p >= p;
    } else {
      assert d * p + p <= 0;
    }
  }

  /** One more bit in the mask either changes nothing or adds 2^k. */
  lemma {:induction false} MaskDoubles(x: nat, k: nat)
    ensures var m, m2 := And(x, Pow2(k) - 1), And(x, Pow2(k + 1) - 1);
      m2 == m || m2 == m + Pow2(k)
    decreases k
  {
    MaskStep(x, k + 1);
    if k > 0 {
      MaskStep(x, k);
      MaskDoubles(x / 2, k - 1);
    }
  }
}
