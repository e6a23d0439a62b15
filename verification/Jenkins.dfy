/**
 HASH_JEN, the default hash function of uthash.h, on 32-bit words with
 wrap-around, and the mixing step HASH_JEN_MIX, which loses no information.
 */
module Jenkins {

  datatype State = State(a: bv32, b: bv32, c: bv32)

  // ---- unsigned 32-bit arithmetic ----

  function Add(x: bv32, y: bv32): bv32 { x + y }

  function Sub(x: bv32, y: bv32): bv32 { x - y }

  function Xor(x: bv32, y: bv32): bv32 { x ^ y }

  function Right(x: bv32, s: nat): bv32
    requires s < 32
  {
    x >> s
  }

  function Left(x: bv32, s: nat): bv32
    requires s < 32
  {
    x << s
  }

  lemma XorTwice(x: bv32, m: bv32)
    ensures Xor(Xor(x, m), m) == x
  {
  }

  lemma AddSub(x: bv32, y: bv32)
    ensures Add(Sub(x, y), y) == x && Sub(Add(x, y), y) == x
  {
    assert Sub(x, y) == x - y && Add(x, y) == x + y;
    assert Add(x - y, y) == (x - y) + y == x;
    assert Sub(x + y, y) == (x + y) - y == x;
  }

  // ---- the mixing step ----

  /** Subtract two words and fold in a third. */
  function Fold(x: bv32, y: bv32, z: bv32, m: bv32): bv32 {
    Xor(Sub(Sub(x, y), z), m)
  }

  function RowA(t: State, s: nat): State
    requires s < 32
  {
    t.(a := Fold(t.a, t.b, t.c, Right(t.c, s)))
  }

  function RowB(t: State, s: nat): State
    requires s < 32
  {
    t.(b := Fold(t.b, t.c, t.a, Left(t.a, s)))
  }

  function RowC(t: State, s: nat): State
    requires s < 32
  {
    t.(c := Fold(t.c, t.a, t.b, Right(t.b, s)))
  }

  function Round(t: State, sa: nat, sb: nat, sc: nat): State
    requires sa < 32 && sb < 32 && sc < 32
  {
    RowC(RowB(RowA(t, sa), sb), sc)
  }

  function Mix(t: State): State {
    Round(Round(Round(t, 13, 8, 13), 12, 16, 5), 3, 10, 15)
  }

  /** HASH_JEN_MIX as the macro runs it */
  method HashJenMix(t: State) returns (r: State)
    ensures r == Mix(t)
  {
    hide Add, Sub, Xor, Right, Left;
    var a, b, c := t.a, t.b, t.c;
    a := Sub(a, b); a := Sub(a, c); a := Xor(a, Right(c, 13));
    b := Sub(b, c); b := Sub(b, a); b := Xor(b, Left(a, 8));
    c := Sub(c, a); c := Sub(c, b); c := Xor(c, Right(b, 13));
    a := Sub(a, b); a := Sub(a, c); a := Xor(a, Right(c, 12));
    b := Sub(b, c); b := Sub(b, a); b := Xor(b, Left(a, 16));
    c := Sub(c, a); c := Sub(c, b); c := Xor(c, Right(b, 5));
    a := Sub(a, b); a := Sub(a, c); a := Xor(a, Right(c, 3));
    b := Sub(b, c); b := Sub(b, a); b := Xor(b, Left(a, 10));
    c := Sub(c, a); c := Sub(c, b); c := Xor(c, Right(b, 15));
    r := State(a, b, c);
  }

  // ---- its inverse ----

  function Unfold(x: bv32, y: bv32, z: bv32, m: bv32): bv32 {
    Add(Add(Xor(x, m), z), y)
  }

  function UnrowA(t: State, s: nat): State
    requires s < 32
  {
    t.(a := Unfold(t.a, t.b, t.c, Right(t.c, s)))
  }

  function UnrowB(t: State, s: nat): State
    requires s < 32
  {
    t.(b := Unfold(t.b, t.c, t.a, Left(t.a, s)))
  }

  function UnrowC(t: State, s: nat): State
    requires s < 32
  {
    t.(c := Unfold(t.c, t.a, t.b, Right(t.b, s)))
  }

  function Unround(t: State, sa: nat, sb: nat, sc: nat): State
    requires sa < 32 && sb < 32 && sc < 32
  {
    UnrowA(UnrowB(UnrowC(t, sc), sb), sa)
  }

  function Unmix(t: State): State {
    Unround(Unround(Unround(t, 3, 10, 15), 12, 16, 5), 13, 8, 13)
  }

  lemma FoldInverts(x: bv32, y: bv32, z: bv32, m: bv32)
    ensures Unfold(Fold(x, y, z, m), y, z, m) == x
    ensures Fold(Unfold(x, y, z, m), y, z, m) == x
  {
    hide Add, Sub, Xor;
    XorTwice(Sub(Sub(x, y), z), m);
    AddSub(Sub(x, y), z);
    AddSub(x, y);
    AddSub(Add(Xor(x, m), z), y);
    AddSub(Xor(x, m), z);
    XorTwice(x, m);
  }

  lemma RowAInverts(t: State, s: nat)
    requires s < 32
    ensures UnrowA(RowA(t, s), s) == t && RowA(UnrowA(t, s), s) == t
  {
    hide Fold, Unfold, Right, Left;
    FoldInverts(t.a, t.b, t.c, Right(t.c, s));
  }

  lemma RowBInverts(t: State, s: nat)
    requires s < 32
    ensures UnrowB(RowB(t, s), s) == t && RowB(UnrowB(t, s), s) == t
  {
    hide Fold, Unfold, Right, Left;
    FoldInverts(t.b, t.c, t.a, Left(t.a, s));
  }

  lemma RowCInverts(t: State, s: nat)
    requires s < 32
    ensures UnrowC(RowC(t, s), s) == t && RowC(UnrowC(t, s), s) == t
  {
    hide Fold, Unfold, Right, Left;
    FoldInverts(t.c, t.a, t.b, Right(t.b, s));
  }

  lemma RoundInverts(t: State, sa: nat, sb: nat, sc: nat)
    requires sa < 32 && sb < 32 && sc < 32
    ensures Unround(Round(t, sa, sb, sc), sa, sb, sc) == t
    ensures Round(Unround(t, sa, sb, sc), sa, sb, sc) == t
  {
    hide RowA, RowB, RowC, UnrowA, UnrowB, UnrowC;
    RowAInverts(t, sa);
    RowBInverts(RowA(t, sa), sb);
    RowCInverts(RowB(RowA(t, sa), sb), sc);
    RowCInverts(t, sc);
    RowBInverts(UnrowC(t, sc), sb);
    RowAInverts(UnrowB(UnrowC(t, sc), sb), sa);
  }

  /** HASH_JEN_MIX is a bijection: Unmix undoes it on either side. */
  lemma MixBijective(t: State)
    ensures Unmix(Mix(t)) == t
    ensures Mix(Unmix(t)) == t
  {
    hide Round, Unround;
    var t1 := Round(t, 13, 8, 13);
    var t2 := Round(t1, 12, 16, 5);
    RoundInverts(t, 13, 8, 13);
    RoundInverts(t1, 12, 16, 5);
    RoundInverts(t2, 3, 10, 15);
    var u1 := Unround(t, 3, 10, 15);
    var u2 := Unround(u1, 12, 16, 5);
    RoundInverts(t, 3, 10, 15);
    RoundInverts(u1, 12, 16, 5);
    RoundInverts(u2, 13, 8, 13);
  }

  // ---- the hash of a key ----

  /** A char converted to unsigned: char is signed, so the high bit extends. */
  function Widen(k: bv8): bv32 {
    if k < 128 then k as bv32 else (k as bv32) | 0xFFFF_FF00
  }

  function Mask(x: bv32, m: bv32): bv32 { x & m }

  /** Four, three or two words at their byte positions, as the macro adds them up. */
  function Sum4(a: bv32, b: bv32, c: bv32, d: bv32): bv32 { a + (b << 8) + (c << 16) + (d << 24) }

  function Sum3(b: bv32, c: bv32, d: bv32): bv32 { (b << 8) + (c << 16) + (d << 24) }

  function Sum2(c: bv32, d: bv32): bv32 { (c << 16) + (d << 24) }

  function Sum1(d: bv32): bv32 { d << 24 }

  /** Four characters as the macro assembles them. */
  function Word4(k0: bv8, k1: bv8, k2: bv8, k3: bv8): bv32 {
    Sum4(Widen(k0), Widen(k1), Widen(k2), Widen(k3))
  }

  function Char(k: bv8): bv32 { k as bv32 }

  lemma WidenLow(k: bv8)
    ensures Mask(Widen(k), 0xFF) == Char(k)
  {
    assert (k as bv32) & 0xFF == k as bv32;
    assert ((k as bv32) | 0xFFFF_FF00) & 0xFF == k as bv32;
  }

  /** The low bits of a sum are its lowest summand's. */
  lemma SumLow(a: bv32, b: bv32, c: bv32, d: bv32)
    ensures Mask(Sum4(a, b, c, d), 0xFF) == Mask(a, 0xFF)
    ensures Mask(Sum3(b, c, d), 0xFFFF) == Left(Mask(b, 0xFF), 8)
    ensures Mask(Sum2(c, d), 0xFF_FFFF) == Left(Mask(c, 0xFF), 16)
    ensures Sum1(d) == Left(Mask(d, 0xFF), 24)
  {
    hide Mask, Sum4, Sum3, Sum2, Sum1, Left;
    SumLow4(a, b, c, d);
    SumLow3(b, c, d);
    SumLow2(c, d);
    SumLow1(d);
  }

  lemma SumLow4(a: bv32, b: bv32, c: bv32, d: bv32)
    ensures Mask(Sum4(a, b, c, d), 0xFF) == Mask(a, 0xFF)
  {
    LowOf4(a, b, c, d);
  }

  lemma SumLow3(b: bv32, c: bv32, d: bv32)
    ensures Mask(Sum3(b, c, d), 0xFFFF) == Left(Mask(b, 0xFF), 8)
  {
    LowOf3(b, c, d);
    assert Left(Mask(b, 0xFF), 8) == (b & 0xFF) << 8;
  }

  lemma SumLow2(c: bv32, d: bv32)
    ensures Mask(Sum2(c, d), 0xFF_FFFF) == Left(Mask(c, 0xFF), 16)
  {
    LowOf2(c, d);
    assert Left(Mask(c, 0xFF), 16) == (c & 0xFF) << 16;
  }

  lemma SumLow1(d: bv32)
    ensures Sum1(d) == Left(Mask(d, 0xFF), 24)
  {
    assert Left(Mask(d, 0xFF), 24) == (d & 0xFF) << 24;
  }

  lemma LowOf4(a: bv32, b: bv32, c: bv32, d: bv32)
    ensures (a + (b << 8) + (c << 16) + (d << 24)) & 0xFF == a & 0xFF
  {
  }

  lemma LowOf3(b: bv32, c: bv32, d: bv32)
    ensures ((b << 8) + (c << 16) + (d << 24)) & 0xFFFF == (b & 0xFF) << 8
  {
  }

  lemma LowOf2(c: bv32, d: bv32)
    ensures ((c << 16) + (d << 24)) & 0xFF_FFFF == (c & 0xFF) << 16
  {
  }

  /** Without that summand the others remain. */
  lemma SumRest4(a: bv32, b: bv32, c: bv32, d: bv32)
    ensures Sub(Sum4(a, b, c, d), a) == Sum3(b, c, d)
  {
    calc {
      Sub(Sum4(a, b, c, d), a);
      Sub(a + (b << 8) + (c << 16) + (d << 24), a);
      (a + (b << 8) + (c << 16) + (d << 24)) - a;
      { TakeFrom(a, b << 8, c << 16, d << 24); }
      (b << 8) + (c << 16) + (d << 24);
      Sum3(b, c, d);
    }
  }

  lemma TakeFrom(w: bv32, x: bv32, y: bv32, z: bv32)
    ensures (w + x + y + z) - w == x + y + z
    ensures (x + y + z) - x == y + z
    ensures (y + z) - y == z
  {
  }

  lemma SumRest3(b: bv32, c: bv32, d: bv32)
    ensures Sub(Sum3(b, c, d), Left(b, 8)) == Sum2(c, d)
  {
    calc {
      Sub(Sum3(b, c, d), Left(b, 8));
      Sub((b << 8) + (c << 16) + (d << 24), Left(b, 8));
      Sub((b << 8) + (c << 16) + (d << 24), b << 8);
      ((b << 8) + (c << 16) + (d << 24)) - (b << 8);
      { TakeFrom(0, b << 8, c << 16, d << 24); }
      (c << 16) + (d << 24);
      Sum2(c, d);
    }
  }

  lemma SumRest2(c: bv32, d: bv32)
    ensures Sub(Sum2(c, d), Left(c, 16)) == Sum1(d)
  {
    calc {
      Sub(Sum2(c, d), Left(c, 16));
      Sub((c << 16) + (d << 24), Left(c, 16));
      Sub((c << 16) + (d << 24), c << 16);
      ((c << 16) + (d << 24)) - (c << 16);
      { TakeFrom(0, 0, c << 16, d << 24); }
      d << 24;
      Sum1(d);
    }
  }

  lemma CharInjective(k: bv8, l: bv8)
    ensures Char(k) == Char(l) ==> k == l
    ensures Left(Char(k), 8) == Left(Char(l), 8) ==> k == l
    ensures Left(Char(k), 16) == Left(Char(l), 16) ==> k == l
    ensures Left(Char(k), 24) == Left(Char(l), 24) ==> k == l
  {
    assert Left(Char(k), 8) == (k as bv32) << 8 && Left(Char(l), 8) == (l as bv32) << 8;
    assert Left(Char(k), 16) == (k as bv32) << 16 && Left(Char(l), 16) == (l as bv32) << 16;
    assert Left(Char(k), 24) == (k as bv32) << 24 && Left(Char(l), 24) == (l as bv32) << 24;
  }

  /** The word determines its characters: read them off from the low end, taking each away in turn. */
  lemma Word4Injective(k0: bv8, k1: bv8, k2: bv8, k3: bv8, l0: bv8, l1: bv8, l2: bv8, l3: bv8)
    requires Word4(k0, k1, k2, k3) == Word4(l0, l1, l2, l3)
    ensures k0 == l0 && k1 == l1 && k2 == l2 && k3 == l3
  {
    hide Widen, Mask, Sub, Sum4, Sum3, Sum2, Sum1, Left, Char;
    var a, b, c, d := Widen(k0), Widen(k1), Widen(k2), Widen(k3);
    var a', b', c', d' := Widen(l0), Widen(l1), Widen(l2), Widen(l3);
    WidenLow(k0); WidenLow(k1); WidenLow(k2); WidenLow(k3);
    WidenLow(l0); WidenLow(l1); WidenLow(l2); WidenLow(l3);
    SumLow(a, b, c, d);
    SumLow(a', b', c', d');
    CharInjective(k0, l0);
    SumRest4(a, b, c, d);
    SumRest4(a', b', c', d');
    CharInjective(k1, l1);
    SumRest3(b, c, d);
    SumRest3(b', c', d');
    CharInjective(k2, l2);
    SumRest2(c, d);
    SumRest2(c', d');
    CharInjective(k3, l3);
  }

  /** One pass of the loop over twelve characters. */
  function Block(t: State, key: seq<bv8>): State
    requires |key| >= 12
  {
    Mix(State(
      Add(t.a, Word4(key[0], key[1], key[2], key[3])),
      Add(t.b, Word4(key[4], key[5], key[6], key[7])),
      Add(t.c, Word4(key[8], key[9], key[10], key[11]))))
  }

  /** `case n + 1` of the switch: character n, when there is one, goes to byte position s / 8. */
  function AddChar(x: bv32, key: seq<bv8>, n: nat, s: nat): bv32
    requires s < 32
  {
    if n < |key| then Add(x, Left(Widen(key[n]), s)) else x
  }

  function Tail(t: State, key: seq<bv8>, keylen: bv32): State
    requires |key| < 12
  {
    State(
      AddChar(AddChar(AddChar(AddChar(t.a, key, 3, 24), key, 2, 16), key, 1, 8), key, 0, 0),
      AddChar(AddChar(AddChar(AddChar(t.b, key, 7, 24), key, 6, 16), key, 5, 8), key, 4, 0),
      AddChar(AddChar(AddChar(Add(t.c, keylen), key, 10, 24), key, 9, 16), key, 8, 8))
  }

  function JenFrom(t: State, key: seq<bv8>, keylen: bv32): State
    decreases |key|
  {
    if |key| >= 12 then JenFrom(Block(t, key), key[12..], keylen) else Mix(Tail(t, key, keylen))
  }

  const START := State(0x9e37_79b9, 0x9e37_79b9, 0xfeed_beef)

  /** n as an unsigned int, counted up with wrap-around. */
  function Unsigned(n: nat): bv32 {
    if n == 0 then 0 else Add(Unsigned(n - 1), 1)
  }

  /** keylen */
  function KeyLen(key: seq<bv8>): bv32 {
    Unsigned(|key|)
  }

  /** The words i, j and hashv at the end of HASH_JEN. */
  function JenState(key: seq<bv8>): State {
    JenFrom(START, key, KeyLen(key))
  }

  /** HASH_JEN */
  method HashJen(key: seq<bv8>) returns (hashv: bv32)
    ensures hashv == JenState(key).c
  {
    hide Add, Left, Widen, Mix, Word4;
    var t, rest := START, key;
    while |rest| >= 12
      invariant JenFrom(t, rest, KeyLen(key)) == JenState(key)
    {
      t := HashJenMix(State(
        Add(t.a, Word4(rest[0], rest[1], rest[2], rest[3])),
        Add(t.b, Word4(rest[4], rest[5], rest[6], rest[7])),
        Add(t.c, Word4(rest[8], rest[9], rest[10], rest[11]))));
      rest := rest[12..];
    }
    var i, j, k := t.a, t.b, |rest|;
    hashv := Add(t.c, KeyLen(key));
    if k >= 11 { hashv := Add(hashv, Left(Widen(rest[10]), 24)); }
    if k >= 10 { hashv := Add(hashv, Left(Widen(rest[9]), 16)); }
    if k >= 9 { hashv := Add(hashv, Left(Widen(rest[8]), 8)); }
    if k >= 8 { j := Add(j, Left(Widen(rest[7]), 24)); }
    if k >= 7 { j := Add(j, Left(Widen(rest[6]), 16)); }
    if k >= 6 { j := Add(j, Left(Widen(rest[5]), 8)); }
    if k >= 5 { j := Add(j, Left(Widen(rest[4]), 0)); }
    if k >= 4 { i := Add(i, Left(Widen(rest[3]), 24)); }
    if k >= 3 { i := Add(i, Left(Widen(rest[2]), 16)); }
    if k >= 2 { i := Add(i, Left(Widen(rest[1]), 8)); }
    if k >= 1 { i := Add(i, Left(Widen(rest[0]), 0)); }
    var r := HashJenMix(State(i, j, hashv));
    hashv := r.c;
  }

  // ---- short keys do not collide ----

  function CharAt(key: seq<bv8>, n: nat): bv8 {
    if n < |key| then key[n] else 0
  }

  lemma AddNothing(x: bv32)
    ensures Widen(0) == 0 && Add(x, 0) == x
    ensures Left(0, 0) == Left(0, 8) == Left(0, 16) == Left(0, 24) == 0
  {
  }

  /** A missing character counts as a zero. */
  lemma AddCharPads(x: bv32, key: seq<bv8>, n: nat, s: nat)
    requires s == 0 || s == 8 || s == 16 || s == 24
    ensures AddChar(x, key, n, s) == Add(x, Left(Widen(CharAt(key, n)), s))
  {
    hide Add, Left, Widen;
    AddNothing(x);
  }

  lemma AddAssoc(x: bv32, y: bv32, z: bv32)
    ensures Add(Add(x, y), z) == Add(x, Add(y, z))
  {
    calc {
      Add(Add(x, y), z);
      Add(x + y, z);
      (x + y) + z;
      x + (y + z);
      Add(x, y + z);
      Add(x, Add(y, z));
    }
  }

  lemma AddComm(x: bv32, y: bv32)
    ensures Add(x, y) == Add(y, x)
  {
  }

  lemma Sum4IsAdds(a: bv32, b: bv32, c: bv32, d: bv32)
    ensures Sum4(a, b, c, d) == Add(Add(Add(a, Left(b, 8)), Left(c, 16)), Left(d, 24))
  {
    calc {
      Add(Add(Add(a, Left(b, 8)), Left(c, 16)), Left(d, 24));
      Add(Add(Add(a, b << 8), c << 16), d << 24);
      Add(Add(a + (b << 8), c << 16), d << 24);
      Add(a + (b << 8) + (c << 16), d << 24);
      a + (b << 8) + (c << 16) + (d << 24);
      Sum4(a, b, c, d);
    }
  }

  lemma LeftNone(a: bv32)
    ensures Left(a, 0) == a
  {
  }

  lemma AddFour(x: bv32, a: bv32, b: bv32, c: bv32, d: bv32)
    ensures Add(Add(Add(Add(x, Left(d, 24)), Left(c, 16)), Left(b, 8)), Left(a, 0)) == Add(x, Sum4(a, b, c, d))
  {
    hide Add, Left, Sum4;
    LeftNone(a);
    Sum4IsAdds(a, b, c, d);
    Reorder(x, a, Left(b, 8), Left(c, 16), Left(d, 24));
  }

  lemma Reorder(x: bv32, a: bv32, b: bv32, c: bv32, d: bv32)
    ensures Add(Add(Add(Add(x, d), c), b), a) == Add(x, Add(Add(Add(a, b), c), d))
  {
    hide Add;
    AddAssoc(x, d, c);
    AddComm(d, c);
    AddAssoc(x, Add(c, d), b);
    AddComm(Add(c, d), b);
    AddAssoc(x, Add(b, Add(c, d)), a);
    AddComm(Add(b, Add(c, d)), a);
    AddAssoc(Add(a, b), c, d);
    AddAssoc(a, b, Add(c, d));
  }

  /** What the switch adds for one word: the characters present, the others counting as zero. */
  lemma TailWord(x: bv32, key: seq<bv8>, n: nat)
    ensures AddChar(AddChar(AddChar(AddChar(x, key, n + 3, 24), key, n + 2, 16), key, n + 1, 8), key, n, 0)
         == Add(x, Word4(CharAt(key, n), CharAt(key, n + 1), CharAt(key, n + 2), CharAt(key, n + 3)))
  {
    hide Add, Left, Widen, Sum4, AddChar, CharAt;
    var k0, k1, k2, k3 := CharAt(key, n), CharAt(key, n + 1), CharAt(key, n + 2), CharAt(key, n + 3);
    var x3 := AddChar(x, key, n + 3, 24);
    var x2 := AddChar(x3, key, n + 2, 16);
    var x1 := AddChar(x2, key, n + 1, 8);
    AddCharPads(x, key, n + 3, 24);
    AddCharPads(x3, key, n + 2, 16);
    AddCharPads(x2, key, n + 1, 8);
    AddCharPads(x1, key, n, 0);
    AddFour(x, Widen(k0), Widen(k1), Widen(k2), Widen(k3));
  }

  /** The third word has the key length in its lowest byte. */
  lemma TailWordC(x: bv32, key: seq<bv8>)
    ensures AddChar(AddChar(AddChar(x, key, 10, 24), key, 9, 16), key, 8, 8)
         == Add(x, Word4(0, CharAt(key, 8), CharAt(key, 9), CharAt(key, 10)))
  {
    hide Add, Left, Widen, Sum4, AddChar, CharAt;
    var k1, k2, k3 := CharAt(key, 8), CharAt(key, 9), CharAt(key, 10);
    var x2 := AddChar(x, key, 10, 24);
    var x1 := AddChar(x2, key, 9, 16);
    AddCharPads(x, key, 10, 24);
    AddCharPads(x2, key, 9, 16);
    AddCharPads(x1, key, 8, 8);
    AddNothing(AddChar(x1, key, 8, 8));
    AddFour(x, Widen(0), Widen(k1), Widen(k2), Widen(k3));
  }

  lemma AddInjective(x: bv32, y: bv32, z: bv32)
    requires Add(x, y) == Add(x, z)
    ensures y == z
  {
    hide Add, Sub;
    AddComm(x, y);
    AddComm(x, z);
    AddSub(y, x);
    AddSub(z, x);
  }

  lemma MixInjective(t: State, u: State)
    requires Mix(t) == Mix(u)
    ensures t == u
  {
    hide Mix, Unmix;
    MixBijective(t);
    MixBijective(u);
  }

  lemma TailInjective(t: State, k: seq<bv8>, l: seq<bv8>, keylen: bv32)
    requires |k| == |l| < 12 && Tail(t, k, keylen) == Tail(t, l, keylen)
    ensures k == l
  {
    hide Add, Word4, AddChar;
    TailWord(t.a, k, 0);
    TailWord(t.a, l, 0);
    TailWord(t.b, k, 4);
    TailWord(t.b, l, 4);
    TailWordC(Add(t.c, keylen), k);
    TailWordC(Add(t.c, keylen), l);
    WordsInjective(t.a, k, l, 0);
    WordsInjective(t.b, k, l, 4);
    AddInjective(Add(t.c, keylen), Word4(0, CharAt(k, 8), CharAt(k, 9), CharAt(k, 10)), Word4(0, CharAt(l, 8), CharAt(l, 9), CharAt(l, 10)));
    Word4Injective(0, CharAt(k, 8), CharAt(k, 9), CharAt(k, 10), 0, CharAt(l, 8), CharAt(l, 9), CharAt(l, 10));
    forall i | 0 <= i < |k|
      ensures k[i] == l[i]
    {
      assert CharAt(k, i) == k[i] && CharAt(l, i) == l[i];
    }
  }

  lemma WordsInjective(x: bv32, k: seq<bv8>, l: seq<bv8>, n: nat)
    requires Add(x, Word4(CharAt(k, n), CharAt(k, n + 1), CharAt(k, n + 2), CharAt(k, n + 3)))
          == Add(x, Word4(CharAt(l, n), CharAt(l, n + 1), CharAt(l, n + 2), CharAt(l, n + 3)))
    ensures CharAt(k, n) == CharAt(l, n) && CharAt(k, n + 1) == CharAt(l, n + 1)
    ensures CharAt(k, n + 2) == CharAt(l, n + 2) && CharAt(k, n + 3) == CharAt(l, n + 3)
  {
    hide Add, Word4, CharAt;
    AddInjective(x, Word4(CharAt(k, n), CharAt(k, n + 1), CharAt(k, n + 2), CharAt(k, n + 3)),
                 Word4(CharAt(l, n), CharAt(l, n + 1), CharAt(l, n + 2), CharAt(l, n + 3)));
    Word4Injective(CharAt(k, n), CharAt(k, n + 1), CharAt(k, n + 2), CharAt(k, n + 3),
                   CharAt(l, n), CharAt(l, n + 1), CharAt(l, n + 2), CharAt(l, n + 3));
  }

  lemma BlockInjective(t: State, k: seq<bv8>, l: seq<bv8>)
    requires |k| == |l| == 12 && Block(t, k) == Block(t, l)
    ensures k == l
  {
    hide Add, Word4, Mix, CharAt;
    MixInjective(
      State(Add(t.a, Word4(k[0], k[1], k[2], k[3])), Add(t.b, Word4(k[4], k[5], k[6], k[7])), Add(t.c, Word4(k[8], k[9], k[10], k[11]))),
      State(Add(t.a, Word4(l[0], l[1], l[2], l[3])), Add(t.b, Word4(l[4], l[5], l[6], l[7])), Add(t.c, Word4(l[8], l[9], l[10], l[11]))));
    AddInjective(t.a, Word4(k[0], k[1], k[2], k[3]), Word4(l[0], l[1], l[2], l[3]));
    AddInjective(t.b, Word4(k[4], k[5], k[6], k[7]), Word4(l[4], l[5], l[6], l[7]));
    AddInjective(t.c, Word4(k[8], k[9], k[10], k[11]), Word4(l[8], l[9], l[10], l[11]));
    Word4Injective(k[0], k[1], k[2], k[3], l[0], l[1], l[2], l[3]);
    Word4Injective(k[4], k[5], k[6], k[7], l[4], l[5], l[6], l[7]);
    Word4Injective(k[8], k[9], k[10], k[11], l[8], l[9], l[10], l[11]);
  }

  // ---- longer keys: what comes later cannot undo a difference ----

  lemma AddInjectiveLeft(x: bv32, y: bv32, w: bv32)
    requires Add(x, w) == Add(y, w)
    ensures x == y
  {
    hide Add;
    AddComm(x, w);
    AddComm(y, w);
    AddInjective(w, x, y);
  }

  /** The same block leaves different states different. */
  lemma BlockKeeps(t: State, u: State, key: seq<bv8>)
    requires |key| >= 12 && Block(t, key) == Block(u, key)
    ensures t == u
  {
    hide Add, Word4, Mix;
    var a, b, c := Word4(key[0], key[1], key[2], key[3]), Word4(key[4], key[5], key[6], key[7]), Word4(key[8], key[9], key[10], key[11]);
    MixInjective(State(Add(t.a, a), Add(t.b, b), Add(t.c, c)), State(Add(u.a, a), Add(u.b, b), Add(u.c, c)));
    AddInjectiveLeft(t.a, u.a, a);
    AddInjectiveLeft(t.b, u.b, b);
    AddInjectiveLeft(t.c, u.c, c);
  }

  lemma AddCharKeeps(x: bv32, y: bv32, key: seq<bv8>, n: nat, s: nat)
    requires s < 32 && AddChar(x, key, n, s) == AddChar(y, key, n, s)
    ensures x == y
  {
    hide Add, Left, Widen;
    if n < |key| {
      AddInjectiveLeft(x, y, Left(Widen(key[n]), s));
    }
  }

  lemma AddCharsKeep(x: bv32, y: bv32, key: seq<bv8>, n: nat)
    requires AddChar(AddChar(AddChar(AddChar(x, key, n + 3, 24), key, n + 2, 16), key, n + 1, 8), key, n, 0)
          == AddChar(AddChar(AddChar(AddChar(y, key, n + 3, 24), key, n + 2, 16), key, n + 1, 8), key, n, 0)
    ensures x == y
  {
    hide AddChar;
    var x3, y3 := AddChar(x, key, n + 3, 24), AddChar(y, key, n + 3, 24);
    var x2, y2 := AddChar(x3, key, n + 2, 16), AddChar(y3, key, n + 2, 16);
    AddCharKeeps(AddChar(x2, key, n + 1, 8), AddChar(y2, key, n + 1, 8), key, n, 0);
    AddCharKeeps(x2, y2, key, n + 1, 8);
    AddCharKeeps(x3, y3, key, n + 2, 16);
    AddCharKeeps(x, y, key, n + 3, 24);
  }

  /** So does the same tail. */
  lemma TailKeeps(t: State, u: State, key: seq<bv8>, keylen: bv32)
    requires |key| < 12 && Tail(t, key, keylen) == Tail(u, key, keylen)
    ensures t == u
  {
    hide AddChar, Add;
    AddCharsKeep(t.a, u.a, key, 0);
    AddCharsKeep(t.b, u.b, key, 4);
    var x, y := Add(t.c, keylen), Add(u.c, keylen);
    AddCharKeeps(AddChar(AddChar(x, key, 10, 24), key, 9, 16), AddChar(AddChar(y, key, 10, 24), key, 9, 16), key, 8, 8);
    AddCharKeeps(AddChar(x, key, 10, 24), AddChar(y, key, 10, 24), key, 9, 16);
    AddCharKeeps(x, y, key, 10, 24);
    AddInjectiveLeft(t.c, u.c, keylen);
  }

  /** From different states the same characters lead to different states. */
  lemma {:induction false} JenKeeps(t: State, u: State, key: seq<bv8>, keylen: bv32)
    requires JenFrom(t, key, keylen) == JenFrom(u, key, keylen)
    ensures t == u
    decreases |key|
  {
    hide Block, Tail, Mix;
    if |key| >= 12 {
      JenKeeps(Block(t, key), Block(u, key), key[12..], keylen);
      BlockKeeps(t, u, key);
    } else {
      MixInjective(Tail(t, key, keylen), Tail(u, key, keylen));
      TailKeeps(t, u, key, keylen);
    }
  }

  /** Whole blocks before, one block or the tail, and what follows it. */
  ghost predicate AtBlock(pre: seq<bv8>, x: seq<bv8>, post: seq<bv8>) {
    |pre| % 12 == 0 && (|x| == 12 || (|x| < 12 && post == []))
  }

  lemma BlockOf(t: State, x: seq<bv8>, rest: seq<bv8>, keylen: bv32)
    requires |x| == 12
    ensures JenFrom(t, x + rest, keylen) == JenFrom(Block(t, x), rest, keylen)
  {
    hide Add, Word4, Mix;
    assert (x + rest)[12..] == rest;
  }

  lemma {:induction false} JenFromInjective(t: State, pre: seq<bv8>, x: seq<bv8>, y: seq<bv8>, post: seq<bv8>, keylen: bv32)
    requires AtBlock(pre, x, post) && |x| == |y|
    requires JenFrom(t, pre + x + post, keylen) == JenFrom(t, pre + y + post, keylen)
    ensures x == y
    decreases |pre|
  {
    hide JenFrom, Block, Tail, Mix;
    if pre != [] {
      var first, rest := pre[..12], pre[12..];
      assert pre + x + post == first + (rest + x + post) && pre + y + post == first + (rest + y + post);
      BlockOf(t, first, rest + x + post, keylen);
      BlockOf(t, first, rest + y + post, keylen);
      JenFromInjective(Block(t, first), rest, x, y, post, keylen);
    } else if |x| == 12 {
      assert pre + x + post == x + post && pre + y + post == y + post;
      BlockOf(t, x, post, keylen);
      BlockOf(t, y, post, keylen);
      JenKeeps(Block(t, x), Block(t, y), post, keylen);
      BlockInjective(t, x, y);
    } else {
      assert pre + x + post == x && pre + y + post == y;
      JenTail(t, x, keylen);
      JenTail(t, y, keylen);
      MixInjective(Tail(t, x, keylen), Tail(t, y, keylen));
      TailInjective(t, x, y, keylen);
    }
  }

  lemma JenTail(t: State, key: seq<bv8>, keylen: bv32)
    requires |key| < 12
    ensures JenFrom(t, key, keylen) == Mix(Tail(t, key, keylen))
  {
  }

  /**
   Two keys of one length that differ inside a single aligned block of twelve characters, or only in
   the characters after the last block, never reach the same final state.
   */
  lemma JenInjective(pre: seq<bv8>, x: seq<bv8>, y: seq<bv8>, post: seq<bv8>)
    requires AtBlock(pre, x, post) && |x| == |y| && JenState(pre + x + post) == JenState(pre + y + post)
    ensures x == y
  {
    hide JenFrom;
    JenFromInjective(START, pre, x, y, post, KeyLen(pre + x + post));
  }

  /** In particular, short keys of one length never do. */
  lemma JenInjectiveShort(k: seq<bv8>, l: seq<bv8>)
    requires |k| == |l| <= 12 && JenState(k) == JenState(l)
    ensures k == l
  {
    hide JenState;
    assert [] + k + [] == k && [] + l + [] == l;
    JenInjective([], k, l, []);
  }

  // ---- keys of different lengths ----

  lemma {:induction false} UnsignedAdds(x: nat, n: nat)
    ensures Unsigned(x + n) == Add(Unsigned(x), Unsigned(n))
  {
    hide Add;
    if n == 0 {
      AddNothing(Unsigned(x));
    } else {
      UnsignedAdds(x, n - 1);
      AddAssoc(Unsigned(x), Unsigned(n - 1), 1);
    }
  }

  lemma SmallUnsigned(n: nat)
    requires n < 12
    ensures 0 < n ==> 0 < Unsigned(n) < 12
    ensures n == 0 ==> Unsigned(n) == 0
  {
    assert Unsigned(1) == 1;
    assert Unsigned(2) == 2;
    assert Unsigned(3) == 3;
    assert Unsigned(4) == 4;
    assert Unsigned(5) == 5;
    assert Unsigned(6) == 6;
    assert Unsigned(7) == 7;
    assert Unsigned(8) == 8;
    assert Unsigned(9) == 9;
    assert Unsigned(10) == 10;
    assert Unsigned(11) == 11;
  }

  /** The macro leaves the lowest byte of its third word to the length. */
  lemma LengthByte(x: bv32, b: bv32, c: bv32, d: bv32)
    ensures Mask(Add(x, Sum4(0, b, c, d)), 0xFF) == Mask(x, 0xFF)
  {
    LengthBits(x, b, c, d);
  }

  lemma LengthBits(x: bv32, b: bv32, c: bv32, d: bv32)
    ensures (x + (0 + (b << 8) + (c << 16) + (d << 24))) & 0xFF == x & 0xFF
  {
  }

  lemma LowDiffers(x: bv32, u: bv32)
    requires 0 < u < 12
    ensures Mask(Add(x, u), 0xFF) != Mask(x, 0xFF)
  {
  }

  /** Tails of any lengths: the length keeps apart what the characters do not. */
  lemma TailSeparates(t: State, k: seq<bv8>, l: seq<bv8>, m: bv32)
    requires |k| <= |l| < 12 && Tail(t, k, m) == Tail(t, l, Add(m, Unsigned(|l| - |k|)))
    ensures k == l
  {
    hide Add, Sum4, AddChar, CharAt, Mask, Unsigned, Widen;
    var u := Unsigned(|l| - |k|);
    SmallUnsigned(|l| - |k|);
    if |k| == |l| {
      AddNothing(m);
      TailInjective(t, k, l, m);
    } else {
      TailWordC(Add(t.c, m), k);
      TailWordC(Add(t.c, Add(m, u)), l);
      AddNothing(m);
      var b, c, d := Widen(CharAt(k, 8)), Widen(CharAt(k, 9)), Widen(CharAt(k, 10));
      var b', c', d' := Widen(CharAt(l, 8)), Widen(CharAt(l, 9)), Widen(CharAt(l, 10));
      AddAssoc(t.c, m, Sum4(0, b, c, d));
      AddAssoc(t.c, Add(m, u), Sum4(0, b', c', d'));
      AddInjective(t.c, Add(m, Sum4(0, b, c, d)), Add(Add(m, u), Sum4(0, b', c', d')));
      LengthByte(m, b, c, d);
      LengthByte(Add(m, u), b', c', d');
      LowDiffers(m, u);
    }
  }

  /** The same after the same whole blocks. */
  lemma {:induction false} JenFromSeparates(t: State, pre: seq<bv8>, k: seq<bv8>, l: seq<bv8>, m: bv32)
    requires |pre| % 12 == 0 && |k| <= |l| < 12
    requires JenFrom(t, pre + k, m) == JenFrom(t, pre + l, Add(m, Unsigned(|l| - |k|)))
    ensures k == l
    decreases |pre|
  {
    hide JenFrom, Block, Tail, Mix, Add, Unsigned;
    var n := Add(m, Unsigned(|l| - |k|));
    if pre == [] {
      assert pre + k == k && pre + l == l;
      JenTail(t, k, m);
      JenTail(t, l, n);
      MixInjective(Tail(t, k, m), Tail(t, l, n));
      TailSeparates(t, k, l, m);
    } else {
      var first, rest := pre[..12], pre[12..];
      assert pre + k == first + (rest + k) && pre + l == first + (rest + l);
      BlockOf(t, first, rest + k, m);
      BlockOf(t, first, rest + l, n);
      JenFromSeparates(Block(t, first), rest, k, l, m);
    }
  }

  /**
   Different keys with the same whole blocks never reach the same final state, whatever the lengths
   of what follows the blocks: zeros at the end of a key count, since its length does.
   */
  lemma JenSeparates(pre: seq<bv8>, k: seq<bv8>, l: seq<bv8>)
    requires |pre| % 12 == 0 && |k| < 12 && |l| < 12 && JenState(pre + k) == JenState(pre + l)
    ensures k == l
  {
    hide JenFrom, Unsigned, Add;
    if |k| <= |l| {
      UnsignedAdds(|pre + k|, |l| - |k|);
      JenFromSeparates(START, pre, k, l, KeyLen(pre + k));
    } else {
      UnsignedAdds(|pre + l|, |k| - |l|);
      JenFromSeparates(START, pre, l, k, KeyLen(pre + l));
    }
  }

  // ---- one key worked through ----

  /** A key with a whole block, a full tail and characters that are negative as signed ones. */
  const VECTOR_BLOCK: seq<bv8> := [1, 2, 3, 4, 5, 6, 7, 8, 9, 10, 11, 200]
  const VECTOR_TAIL: seq<bv8> := [129, 2, 3, 4, 5, 6, 7, 8, 9, 10, 255]

  lemma VectorMix1()
    ensures Mix(State(0xA23A_7BBA, 0xA63E_7FBE, 0xC6F8_C8F8)) == State(0x7F7F_690C, 0xF144_C127, 0x686B_93F7)
  {
    assert RowA(State(0xA23A_7BBA, 0xA63E_7FBE, 0xC6F8_C8F8), 13) == State(0x3505_04C2, 0xA63E_7FBE, 0xC6F8_C8F8);
    assert RowB(State(0x3505_04C2, 0xA63E_7FBE, 0xC6F8_C8F8), 8) == State(0x3505_04C2, 0xAF44_7004, 0xC6F8_C8F8);
    assert RowC(State(0x3505_04C2, 0xAF44_7004, 0xC6F8_C8F8), 13) == State(0x3505_04C2, 0xAF44_7004, 0xE2AA_2E11);
    assert RowA(State(0x3505_04C2, 0xAF44_7004, 0xE2AA_2E11), 12) == State(0xA318_4C0F, 0xAF44_7004, 0xE2AA_2E11);
    assert RowB(State(0xA318_4C0F, 0xAF44_7004, 0xE2AA_2E11), 16) == State(0xA318_4C0F, 0x658E_F5E4, 0xE2AA_2E11);
    assert RowC(State(0xA318_4C0F, 0x658E_F5E4, 0xE2AA_2E11), 5) == State(0xA318_4C0F, 0x658E_F5E4, 0xD92E_9BB1);
    assert RowA(State(0xA318_4C0F, 0x658E_F5E4, 0xD92E_9BB1), 3) == State(0x7F7F_690C, 0x658E_F5E4, 0xD92E_9BB1);
    assert RowB(State(0x7F7F_690C, 0x658E_F5E4, 0xD92E_9BB1), 10) == State(0x7F7F_690C, 0xF144_C127, 0xD92E_9BB1);
    assert RowC(State(0x7F7F_690C, 0xF144_C127, 0xD92E_9BB1), 15) == State(0x7F7F_690C, 0xF144_C127, 0x686B_93F7);
  }

  lemma VectorMix2()
    ensures Mix(State(0x8382_6A8D, 0xF94B_C72C, 0x6775_9D0E)) == State(0x2CB2_BEF9, 0x6D0B_FF64, 0xD990_3D94)
  {
    assert RowA(State(0x8382_6A8D, 0xF94B_C72C, 0x6775_9D0E), 13) == State(0x22C2_3DFF, 0xF94B_C72C, 0x6775_9D0E);
    assert RowB(State(0x22C2_3DFF, 0xF94B_C72C, 0x6775_9D0E), 8) == State(0x22C2_3DFF, 0xAD2E_131F, 0x6775_9D0E);
    assert RowC(State(0x22C2_3DFF, 0xAD2E_131F, 0x6775_9D0E), 13) == State(0x22C2_3DFF, 0xAD2E_131F, 0x9780_2280);
    assert RowA(State(0x22C2_3DFF, 0xAD2E_131F, 0x9780_2280), 12) == State(0xDE1D_7062, 0xAD2E_131F, 0x9780_2280);
    assert RowB(State(0xDE1D_7062, 0xAD2E_131F, 0x9780_2280), 16) == State(0xDE1D_7062, 0x47F2_803D, 0x9780_2280);
    assert RowC(State(0xDE1D_7062, 0x47F2_803D, 0x9780_2280), 5) == State(0xDE1D_7062, 0x47F2_803D, 0x734F_A5E0);
    assert RowA(State(0xDE1D_7062, 0x47F2_803D, 0x734F_A5E0), 3) == State(0x2CB2_BEF9, 0x47F2_803D, 0x734F_A5E0);
    assert RowB(State(0x2CB2_BEF9, 0x47F2_803D, 0x734F_A5E0), 10) == State(0x2CB2_BEF9, 0x6D0B_FF64, 0x734F_A5E0);
    assert RowC(State(0x2CB2_BEF9, 0x6D0B_FF64, 0x734F_A5E0), 15) == State(0x2CB2_BEF9, 0x6D0B_FF64, 0xD990_3D94);
  }

  lemma VectorBlock()
    ensures Block(START, VECTOR_BLOCK) == State(0x7F7F_690C, 0xF144_C127, 0x686B_93F7)
  {
    hide Mix;
    assert Word4(1, 2, 3, 4) == 0x0403_0201;
    assert Word4(5, 6, 7, 8) == 0x0807_0605;
    assert Word4(9, 10, 11, 200) == 0xC80B_0A09;
    VectorMix1();
  }

  lemma VectorTail()
    ensures Tail(State(0x7F7F_690C, 0xF144_C127, 0x686B_93F7), VECTOR_TAIL, 23) == State(0x8382_6A8D, 0xF94B_C72C, 0x6775_9D0E)
  {
  }

  lemma VectorLength()
    ensures KeyLen(VECTOR_BLOCK + VECTOR_TAIL) == 23
  {
    UnsignedAdds(12, 11);
    assert Unsigned(6) == 6 && Unsigned(11) == 11 && Unsigned(12) == 12;
  }

  /** The macro's constants, shifts, signs and length, all at once: what it computes for this key. */
  lemma Vector()
    ensures JenState(VECTOR_BLOCK + VECTOR_TAIL) == State(0x2CB2_BEF9, 0x6D0B_FF64, 0xD990_3D94)
  {
    hide Mix, Block, Tail, KeyLen;
    VectorBlock();
    VectorTail();
    VectorMix2();
    BlockOf(START, VECTOR_BLOCK, VECTOR_TAIL, 23);
    VectorLength();
  }
}
