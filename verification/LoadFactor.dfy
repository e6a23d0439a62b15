/**
 The expansion arithmetic of uthash.h on the bucket array alone: what the
 threshold, the ideal chain length and the multipliers guarantee about chain
 lengths and about the load of the table.
 */
module LoadFactor {
  import opened Bits
  import opened UthashTypes

  function Count(b: Bucket): nat { b.count }

  /** The length at which an addition to this bucket triggers an expansion. */
  function Threshold(b: Bucket): nat { (b.expandMult + 1) * BKT_CAPACITY_THRESH }

  /** The multiplier, plus one when the chain has already reached its threshold. */
  function Charge(b: Bucket): nat {
    b.expandMult + if b.count == Threshold(b) then 1 else 0
  }

  function Sum(f: Bucket -> nat, bs: seq<Bucket>): nat {
    if bs == [] then 0 else f(bs[0]) + Sum(f, bs[1..])
  }

  lemma {:induction false} SumUpdate(f: Bucket -> nat, bs: seq<Bucket>, i: nat, b: Bucket)
    requires i < |bs|
    ensures Sum(f, bs[i := b]) == Sum(f, bs) - f(bs[i]) + f(b)
  {
    if i == 0 {
      assert bs[0 := b][1..] == bs[1..];
    } else {
      assert bs[i := b][1..] == bs[1..][i - 1 := b];
      SumUpdate(f, bs[1..], i - 1, b);
    }
  }

  lemma {:induction false} SumPrefix(f: Bucket -> nat, bs: seq<Bucket>, i: nat)
    requires i < |bs|
    ensures Sum(f, bs[..i + 1]) == Sum(f, bs[..i]) + f(bs[i])
  {
    if i == 0 {
      assert bs[..1] == [bs[0]];
    } else {
      assert bs[..i + 1][1..] == bs[1..][..i] && bs[..i][1..] == bs[1..][..i - 1];
      SumPrefix(f, bs[1..], i - 1);
    }
  }

  lemma {:induction false} SumAtLeast(f: Bucket -> nat, bs: seq<Bucket>, i: nat)
    requires i < |bs|
    ensures Sum(f, bs) >= f(bs[i])
  {
    if i > 0 {
      SumAtLeast(f, bs[1..], i - 1);
    }
  }

  lemma {:induction false} SumZero(f: Bucket -> nat, bs: seq<Bucket>)
    requires forall i :: 0 <= i < |bs| ==> f(bs[i]) == 0
    ensures Sum(f, bs) == 0
  {
    if bs != [] {
      SumZero(f, bs[1..]);
    }
  }

  // ---- the invariant ----

  /**
   Chains stay within their thresholds, and the multipliers together with the
   chains that stand exactly at their threshold number at most the buckets.
   */
  ghost predicate Balanced(bs: seq<Bucket>) {
    && (forall i :: 0 <= i < |bs| ==> bs[i].count <= Threshold(bs[i]))
    && Sum(Charge, bs) <= |bs|
  }

  lemma {:induction false} CountsWithinCharges(bs: seq<Bucket>)
    requires forall i :: 0 <= i < |bs| ==> bs[i].count <= Threshold(bs[i])
    ensures Sum(Count, bs) <= 9 * |bs| + 10 * Sum(Charge, bs)
  {
    if bs != [] {
      assert bs[0].count <= Threshold(bs[0]);
      CountsWithinCharges(bs[1..]);
    }
  }

  /** The load bound: fewer than twenty items a bucket, however bad the hash function. */
  lemma LoadBound(bs: seq<Bucket>)
    requires Balanced(bs)
    ensures Sum(Count, bs) <= 19 * |bs|
  {
    CountsWithinCharges(bs);
  }

  lemma {:induction false} MultWithinCharges(bs: seq<Bucket>)
    ensures Sum((b: Bucket) => b.expandMult, bs) <= Sum(Charge, bs)
  {
    if bs != [] {
      MultWithinCharges(bs[1..]);
    }
  }

  lemma AddKeepsBalance(bs: seq<Bucket>, i: nat, b: Bucket)
    requires Balanced(bs) && i < |bs|
    requires b.count == bs[i].count + 1 && b.expandMult == bs[i].expandMult
    requires b.count < Threshold(b)
    ensures Balanced(bs[i := b])
  {
    SumUpdate(Charge, bs, i, b);
  }

  lemma DeleteKeepsBalance(bs: seq<Bucket>, i: nat, b: Bucket)
    requires Balanced(bs) && i < |bs|
    requires b.count + 1 == bs[i].count && b.expandMult == bs[i].expandMult
    ensures Balanced(bs[i := b])
  {
    SumUpdate(Charge, bs, i, b);
  }

  // ---- expansion ----

  /** ceil(n / 2^k) as the table computes it: a shift and a mask. */
  function IdealChainMaxlen(n: nat, log2: nat): nat {
    Shr(n, log2) + if And(n, Pow2(log2) - 1) != 0 then 1 else 0
  }

  /** c = ceil(n / b), said with multiplications. */
  ghost predicate IsCeil(c: nat, n: nat, b: nat) {
    n <= c * b && (c > 0 ==> (c - 1) * b < n)
  }

  lemma AddOne(q: nat, b: nat)
    ensures (q + 1) * b == q * b + b
  {
  }

  lemma CeilOfQuotient(n: nat, b: nat, q: nat, r: nat)
    requires n == q * b + r && r < b
    ensures IsCeil(if r != 0 then q + 1 else q, n, b)
  {
    AddOne(q, b);
    if q > 0 {
      AddOne(q - 1, b);
    }
  }

  /** The shift and the mask give the ceiling. */
  lemma IdealIsCeil(n: nat, log2: nat)
    ensures IsCeil(IdealChainMaxlen(n, log2), n, Pow2(log2))
  {
    ShiftMask(n, log2);
    CeilOfQuotient(n, Pow2(log2), Shr(n, log2), And(n, Pow2(log2) - 1));
  }

  /** x / d by repeated subtraction */
  function Quotient(x: nat, d: nat): nat
    requires d > 0
  {
    if x < d then 0 else 1 + Quotient(x - d, d)
  }

  lemma {:induction false} QuotientExact(x: nat, d: nat)
    requires d > 0
    ensures Quotient(x, d) * d <= x < Quotient(x, d) * d + d
    decreases x
  {
    if x >= d {
      QuotientExact(x - d, d);
      AddOne(Quotient(x - d, d), d);
    }
  }

  lemma QuotientIsDiv(x: nat, d: nat)
    requires d > 0
    ensures Quotient(x, d) == x / d
  {
    QuotientExact(x, d);
    var q, q' := Quotient(x, d), x / d;
    assert q' * d <= x < q' * d + d;
    MulCancels(q, q', d, x);
    MulCancels(q', q, d, x);
  }

  lemma MulCancels(x: nat, y: nat, d: nat, n: nat)
    requires d > 0 && x * d <= n < y * d + d
    ensures x <= y
  {
    if x > y {
      MulMonotone(y + 1, x, d);
      AddOne(y, d);
    }
  }

  lemma MulMonotone(x: nat, y: nat, d: nat)
    requires x <= y
    ensures x * d <= y * d
  {
  }

  function MultFor(count: nat, ideal: nat): nat
    requires ideal > 0
  {
    if count > ideal then Quotient(count, ideal) else 0
  }

  function Excess(ideal: nat): Bucket -> nat {
    (b: Bucket) => if b.count > ideal then b.count - ideal else 0
  }

  /** Multipliers chosen against the ideal length of the doubled array, as an expansion leaves them. */
  ghost predicate Recharged(bs: seq<Bucket>, ideal: nat)
    requires ideal > 0
  {
    forall i :: 0 <= i < |bs| ==> bs[i].expandMult == MultFor(bs[i].count, ideal)
  }

  lemma ChargePerIdeal(b: Bucket, ideal: nat)
    requires 1 <= ideal <= BKT_CAPACITY_THRESH && b.expandMult == MultFor(b.count, ideal)
    ensures b.count <= Threshold(b)
    ensures Charge(b) * ideal <= b.count
  {
    if b.count > ideal {
      var q := Quotient(b.count, ideal);
      QuotientExact(b.count, ideal);
      MulMonotone(ideal, BKT_CAPACITY_THRESH, q);
      assert b.count < Threshold(b);
    }
  }

  lemma Distribute(x: nat, y: nat, d: nat)
    ensures (x + y) * d == x * d + y * d
  {
  }

  lemma {:induction false} ChargesPerIdeal(bs: seq<Bucket>, ideal: nat)
    requires 1 <= ideal <= BKT_CAPACITY_THRESH && Recharged(bs, ideal)
    ensures Sum(Charge, bs) * ideal <= Sum(Count, bs)
  {
    if bs != [] {
      ChargePerIdeal(bs[0], ideal);
      assert Recharged(bs[1..], ideal);
      ChargesPerIdeal(bs[1..], ideal);
      Distribute(Charge(bs[0]), Sum(Charge, bs[1..]), ideal);
    }
  }

  lemma CeilBounds(c: nat, n: nat, b: nat, m: nat)
    requires IsCeil(c, n, b) && 1 <= n <= m * b
    ensures 1 <= c <= m
  {
    if c > m {
      MulMonotone(m, c - 1, b);
    }
  }

  /** With at most twenty items a bucket before the doubling, the ideal length is between 1 and 10 ... */
  lemma IdealBounds(n: nat, log2: nat)
    requires 1 <= n <= 20 * Pow2(log2)
    ensures 1 <= IdealChainMaxlen(n, log2 + 1) <= BKT_CAPACITY_THRESH
  {
    IdealIsCeil(n, log2 + 1);
    CeilBounds(IdealChainMaxlen(n, log2 + 1), n, Pow2(log2 + 1), 10);
  }

  lemma WithinBuckets(charges: nat, ideal: nat, n: nat, b: nat)
    requires charges * ideal <= n <= ideal * b && ideal > 0
    ensures charges <= b
  {
    assert ideal * b == b * ideal;
    MulCancels(charges, b, ideal, n);
  }

  /** ... and any redistribution of the items leaves the doubled array balanced. */
  lemma ExpandRestoresBalance(bs: seq<Bucket>, n: nat, log2: nat)
    requires 1 <= n <= 20 * Pow2(log2)
    requires |bs| == Pow2(log2 + 1) && Sum(Count, bs) == n
    requires IdealChainMaxlen(n, log2 + 1) > 0 && Recharged(bs, IdealChainMaxlen(n, log2 + 1))
    ensures Balanced(bs)
  {
    var ideal := IdealChainMaxlen(n, log2 + 1);
    IdealBounds(n, log2);
    IdealIsCeil(n, log2 + 1);
    ChargesPerIdeal(bs, ideal);
    forall i | 0 <= i < |bs|
      ensures bs[i].count <= Threshold(bs[i])
    {
      ChargePerIdeal(bs[i], ideal);
    }
    WithinBuckets(Sum(Charge, bs), ideal, n, |bs|);
  }
}
