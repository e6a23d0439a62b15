/** The optional Bloom filter of uthash.h: a bit vector indexed by the low bits of the hash value. */
module Bloom {
  import opened Bits
  import opened UthashTypes

  /** 1U << i, for a bit of a byte */
  function Bit(i: nat): bv8
    requires i < 8
  {
    if i == 0 then 1 else if i == 1 then 2 else if i == 2 then 4 else if i == 3 then 8
    else if i == 4 then 16 else if i == 5 then 32 else if i == 6 then 64 else 128
  }

  /** HASH_BLOOM_BYTELEN */
  function ByteLen(nbits: nat): nat {
    Pow2(nbits) / 8 + if Pow2(nbits) % 8 != 0 then 1 else 0
  }

  /** The bit that a hash value selects in a filter of 2^nbits bits. */
  function Index(nbits: nat, hashv: Word): (i: nat)
    ensures i / 8 < ByteLen(nbits)
  {
    ShiftMask(hashv, nbits);
    And(hashv, Pow2(nbits) - 1)
  }

  ghost predicate Test(bv: seq<bv8>, nbits: nat, hashv: Word)
    requires |bv| == ByteLen(nbits)
  {
    var i := Index(nbits, hashv);
    bv[i / 8] & Bit(i % 8) != 0
  }

  /** The filter has 2^nbits bits in as few bytes as hold them, and a hash value selects the bit of its remainder. */
  lemma Geometry(nbits: nat, hashv: Word)
    ensures Index(nbits, hashv) == hashv % Pow2(nbits)
    ensures 8 * ByteLen(nbits) - 8 < Pow2(nbits) <= 8 * ByteLen(nbits)
    ensures forall i: nat :: i < 8 ==> Bit(i) as int == Pow2(i)
  {
    AndIsRemainder(hashv, nbits);
    forall i: nat | i < 8
      ensures Bit(i) as int == Pow2(i)
    {
      BitValue(i);
    }
  }

  lemma BitValue(i: nat)
    requires i < 8
    ensures Bit(i) as int == Pow2(i)
  {
    assert Pow2(3) == 8 && Pow2(5) == 32 && Pow2(7) == 128;
  }

  /** Some marked hash value has the same low bits. */
  ghost predicate Shares(marked: set<Word>, nbits: nat, h: Word) {
    exists m :: m in marked && Index(nbits, m) == Index(nbits, h)
  }

  /** The filter lets through exactly the hash values that share their low bits with a marked one. */
  ghost predicate Exactly(bv: seq<bv8>, nbits: nat, marked: set<Word>) {
    |bv| == ByteLen(nbits) && forall h: Word :: Test(bv, nbits, h) <==> Shares(marked, nbits, h)
  }

  lemma NothingMarked(bv: seq<bv8>, nbits: nat)
    requires |bv| == ByteLen(nbits) && forall i :: 0 <= i < |bv| ==> bv[i] == 0
    ensures Exactly(bv, nbits, {})
  {
    hide Index, Bit, ByteLen;
    forall h: Word
      ensures !Test(bv, nbits, h)
    {
      var i := Index(nbits, h);
      assert bv[i / 8] & Bit(i % 8) == 0;
    }
  }

  lemma OneMoreMarked(bv: seq<bv8>, bv': seq<bv8>, nbits: nat, marked: set<Word>, hashv: Word)
    requires Exactly(bv, nbits, marked) && |bv'| == |bv|
    requires forall h: Word :: Test(bv', nbits, h) <==> Index(nbits, h) == Index(nbits, hashv) || Test(bv, nbits, h)
    ensures Exactly(bv', nbits, marked + {hashv})
  {
    hide Index, Test, ByteLen;
    var marked' := marked + {hashv};
    forall h: Word
      ensures Test(bv', nbits, h) <==> Shares(marked', nbits, h)
    {
      if Shares(marked', nbits, h) {
        var m :| m in marked' && Index(nbits, m) == Index(nbits, h);
        assert m == hashv || m in marked;
      }
      if Index(nbits, h) == Index(nbits, hashv) {
        assert hashv in marked';
      } else if Shares(marked, nbits, h) {
        var m :| m in marked && Index(nbits, m) == Index(nbits, h);
        assert m in marked';
      }
    }
  }

  lemma SetBit(x: bv8, i: nat, j: nat)
    requires i < 8 && j < 8
    ensures (x | Bit(i)) & Bit(j) != 0 <==> i == j || x & Bit(j) != 0
  {
  }

  lemma TestAfterSet(bv: seq<bv8>, nbits: nat, hashv: Word, h: Word)
    requires |bv| == ByteLen(nbits)
    ensures var i, j := Index(nbits, hashv), Index(nbits, h);
      var bv' := bv[i / 8 := bv[i / 8] | Bit(i % 8)];
      Test(bv', nbits, h) <==> i == j || Test(bv, nbits, h)
  {
    var i, j := Index(nbits, hashv), Index(nbits, h);
    hide Bit, Index, ByteLen;
    if i / 8 == j / 8 {
      assert i == j <==> i % 8 == j % 8;
      SetBit(bv[i / 8], i % 8, j % 8);
    }
  }

  /** HASH_BLOOM_ADD sets the bit of hashv and no other. */
  method Add(bv: array<bv8>, nbits: nat, hashv: Word)
    requires bv.Length == ByteLen(nbits)
    modifies bv
    ensures forall h: Word :: Test(bv[..], nbits, h) <==>
      Index(nbits, h) == Index(nbits, hashv) || Test(old(bv[..]), nbits, h)
  {
    var i := Index(nbits, hashv);
    ghost var before := bv[..];
    bv[i / 8] := bv[i / 8] | Bit(i % 8);
    assert bv[..] == before[i / 8 := before[i / 8] | Bit(i % 8)];
    forall h: Word
      ensures Test(bv[..], nbits, h) <==> Index(nbits, h) == i || Test(before, nbits, h)
    {
      TestAfterSet(before, nbits, hashv, h);
    }
  }
}
