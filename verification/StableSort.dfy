/**
 The merge sort of HASH_SRT on sequences: what one merge, one pass and the
 whole run compute, and why the result is the stable sort of the input.
 */
module StableSort {
  import opened Bits
  import opened Sequences

  function Take<T>(s: seq<T>, n: nat): seq<T> {
    if n <= |s| then s[..n] else s
  }

  function Drop<T>(s: seq<T>, n: nat): seq<T> {
    if n <= |s| then s[n..] else []
  }

  /** One merge: ties go to the left run. */
  function Merge<T>(cmp: (T, T) -> int, a: seq<T>, b: seq<T>): (m: seq<T>)
    ensures |m| == |a| + |b|
  {
    if a == [] then b
    else if b == [] then a
    else if cmp(a[0], b[0]) <= 0 then [a[0]] + Merge(cmp, a[1..], b)
    else [b[0]] + Merge(cmp, a, b[1..])
  }

  /** One pass with run length `size`: neighbouring runs are merged two by two. */
  function Pass<T>(cmp: (T, T) -> int, s: seq<T>, size: nat): (r: seq<T>)
    requires size > 0
    ensures |r| == |s|
    decreases |s|
  {
    if s == [] then []
    else Merge(cmp, Take(s, size), Take(Drop(s, size), size)) + Pass(cmp, Drop(Drop(s, size), size), size)
  }

  /** Passes with doubling run length, the last being the one that did a single merge. */
  function SortFrom<T>(cmp: (T, T) -> int, s: seq<T>, size: nat): (r: seq<T>)
    requires size > 0
    ensures |r| == |s|
    decreases |s| - size
  {
    var r := Pass(cmp, s, size);
    if |s| <= 2 * size then r else SortFrom(cmp, r, 2 * size)
  }

  function Passes(n: nat, size: nat): (p: nat)
    requires size > 0
    decreases n - size
  {
    if n <= 2 * size then 1 else 1 + Passes(n, 2 * size)
  }

  /** The number of passes is max(1, ceil(log2 n)). */
  lemma {:induction false} PassCount(n: nat, k: nat)
    ensures var p := Passes(n, Pow2(k)); 
      p >= 1 && n <= Pow2(k + p) && (p > 1 ==> n > Pow2(k + p - 1))
    decreases n - Pow2(k)
  {
    var size := Pow2(k);
    if n > 2 * size {
      assert Pow2(k + 1) == 2 * size;
      PassCount(n, k + 1);
    }
  }

  // ---- order, permutation and stability ----

  /** cmp(a, b) <= 0 is a total preorder of the elements of d. */
  ghost predicate TotalPreorderOn<T>(cmp: (T, T) -> int, d: set<T>) {
    && (forall a, b :: a in d && b in d ==> cmp(a, b) <= 0 || cmp(b, a) <= 0)
    && (forall a, b, c :: a in d && b in d && c in d && cmp(a, b) <= 0 && cmp(b, c) <= 0 ==> cmp(a, c) <= 0)
  }

  ghost predicate Within<T>(s: seq<T>, d: set<T>) {
    forall x :: x in s ==> x in d
  }

  ghost predicate LowerBound<T>(cmp: (T, T) -> int, x: T, s: seq<T>) {
    forall y :: y in s ==> cmp(x, y) <= 0
  }

  ghost predicate Sorted<T>(cmp: (T, T) -> int, s: seq<T>) {
    forall i, j :: 0 <= i < j < |s| ==> cmp(s[i], s[j]) <= 0
  }

  /** Every aligned run of `size` elements is sorted. */
  ghost predicate RunsSorted<T>(cmp: (T, T) -> int, s: seq<T>, size: nat)
    requires size > 0
    decreases |s|
  {
    s == [] || (Sorted(cmp, Take(s, size)) && RunsSorted(cmp, Drop(s, size), size))
  }

  ghost predicate Tied<T>(cmp: (T, T) -> int, x: T, y: T) {
    cmp(x, y) <= 0 && cmp(y, x) <= 0
  }

  /** The elements of s that cmp cannot tell from x, in order. */
  ghost function Ties<T>(cmp: (T, T) -> int, x: T, s: seq<T>): (r: seq<T>)
    ensures forall y :: y in r ==> y in s
  {
    if s == [] then []
    else if Tied(cmp, x, s[0]) then [s[0]] + Ties(cmp, x, s[1..])
    else Ties(cmp, x, s[1..])
  }

  lemma {:induction false} TiesConcat<T>(cmp: (T, T) -> int, x: T, a: seq<T>, b: seq<T>)
    ensures Ties(cmp, x, a + b) == Ties(cmp, x, a) + Ties(cmp, x, b)
  {
    if a == [] {
      assert a + b == b;
    } else {
      assert (a + b)[1..] == a[1..] + b;
      TiesConcat(cmp, x, a[1..], b);
    }
  }

  lemma TakeDrop<T>(s: seq<T>, n: nat)
    ensures s == Take(s, n) + Drop(s, n)
  {
  }

  lemma {:induction false} MergePermutes<T>(cmp: (T, T) -> int, a: seq<T>, b: seq<T>)
    ensures multiset(Merge(cmp, a, b)) == multiset(a) + multiset(b)
  {
    if a != [] && b != [] {
      var a0, a', b0, b' := a[0], a[1..], b[0], b[1..];
      assert a == [a0] + a' && b == [b0] + b';
      if cmp(a0, b0) <= 0 {
        MergePermutes(cmp, a', b);
      } else {
        MergePermutes(cmp, a, b');
      }
    }
  }

  lemma {:induction false} PassPermutes<T>(cmp: (T, T) -> int, s: seq<T>, size: nat)
    requires size > 0
    ensures multiset(Pass(cmp, s, size)) == multiset(s)
    decreases |s|
  {
    if s != [] {
      var t := Drop(s, size);
      TakeDrop(s, size);
      TakeDrop(t, size);
      MergePermutes(cmp, Take(s, size), Take(t, size));
      PassPermutes(cmp, Drop(t, size), size);
    }
  }

  /** Whatever the comparison does, the sort only permutes. */
  lemma {:induction false} SortPermutes<T>(cmp: (T, T) -> int, s: seq<T>, size: nat)
    requires size > 0
    ensures multiset(SortFrom(cmp, s, size)) == multiset(s)
    decreases |s| - size
  {
    PassPermutes(cmp, s, size);
    if |s| > 2 * size {
      SortPermutes(cmp, Pass(cmp, s, size), 2 * size);
    }
  }

  lemma SortedCons<T>(cmp: (T, T) -> int, x: T, s: seq<T>)
    requires Sorted(cmp, s) && LowerBound(cmp, x, s)
    ensures Sorted(cmp, [x] + s)
  {
  }

  lemma SortedHead<T>(cmp: (T, T) -> int, s: seq<T>)
    requires s != [] && Sorted(cmp, s)
    ensures LowerBound(cmp, s[0], s[1..]) && Sorted(cmp, s[1..])
  {
  }

  lemma LowerBoundThrough<T>(cmp: (T, T) -> int, x: T, s: seq<T>, d: set<T>)
    requires TotalPreorderOn(cmp, d) && x in d && Within(s, d)
    requires s != [] && Sorted(cmp, s) && cmp(x, s[0]) <= 0
    ensures LowerBound(cmp, x, s)
  {
    forall y | y in s
      ensures cmp(x, y) <= 0
    {
      SortedHead(cmp, s);
      assert y == s[0] || y in s[1..];
    }
  }

  lemma {:induction false} MergeLowerBound<T>(cmp: (T, T) -> int, x: T, a: seq<T>, b: seq<T>)
    requires LowerBound(cmp, x, a) && LowerBound(cmp, x, b)
    ensures LowerBound(cmp, x, Merge(cmp, a, b))
  {
    MergePermutes(cmp, a, b);
    forall y | y in Merge(cmp, a, b)
      ensures cmp(x, y) <= 0
    {
      assert y in multiset(Merge(cmp, a, b));
      assert y in multiset(a) || y in multiset(b);
    }
  }

  lemma {:induction false} MergeSorts<T>(cmp: (T, T) -> int, a: seq<T>, b: seq<T>, d: set<T>)
    requires TotalPreorderOn(cmp, d) && Within(a, d) && Within(b, d)
    requires Sorted(cmp, a) && Sorted(cmp, b)
    ensures Sorted(cmp, Merge(cmp, a, b))
  {
    if a != [] && b != [] {
      SortedHead(cmp, a);
      SortedHead(cmp, b);
      if cmp(a[0], b[0]) <= 0 {
        MergeSorts(cmp, a[1..], b, d);
        LowerBoundThrough(cmp, a[0], b, d);
        MergeLowerBound(cmp, a[0], a[1..], b);
        SortedCons(cmp, a[0], Merge(cmp, a[1..], b));
      } else {
        MergeSorts(cmp, a, b[1..], d);
        LowerBoundThrough(cmp, b[0], a, d);
        MergeLowerBound(cmp, b[0], a, b[1..]);
        SortedCons(cmp, b[0], Merge(cmp, a, b[1..]));
      }
    }
  }

  /** A pass over sorted runs of length size leaves sorted runs of length 2 * size. */
  lemma {:induction false} PassDoublesRuns<T>(cmp: (T, T) -> int, s: seq<T>, size: nat, d: set<T>)
    requires size > 0 && TotalPreorderOn(cmp, d) && Within(s, d)
    requires RunsSorted(cmp, s, size)
    ensures RunsSorted(cmp, Pass(cmp, s, size), 2 * size)
    decreases |s|
  {
    if s != [] {
      var t := Drop(s, size);
      var u := Drop(t, size);
      var m := Merge(cmp, Take(s, size), Take(t, size));
      MergeSorts(cmp, Take(s, size), Take(t, size), d);
      PassDoublesRuns(cmp, u, size, d);
      if |s| <= 2 * size {
        assert u == [] && Pass(cmp, s, size) == m;
      } else {
        assert Take(Pass(cmp, s, size), 2 * size) == m;
        assert Drop(Pass(cmp, s, size), 2 * size) == Pass(cmp, u, size);
      }
    }
  }

  lemma {:induction false} UnitRunsSorted<T>(cmp: (T, T) -> int, s: seq<T>)
    ensures RunsSorted(cmp, s, 1)
    decreases |s|
  {
    if s != [] {
      UnitRunsSorted(cmp, Drop(s, 1));
    }
  }

  lemma PassWithin<T>(cmp: (T, T) -> int, s: seq<T>, size: nat, d: set<T>)
    requires size > 0 && Within(s, d)
    ensures Within(Pass(cmp, s, size), d)
  {
    PassPermutes(cmp, s, size);
    forall x | x in Pass(cmp, s, size)
      ensures x in d
    {
      assert x in multiset(Pass(cmp, s, size));
    }
  }

  lemma OneRun<T>(cmp: (T, T) -> int, s: seq<T>, size: nat)
    requires size > 0 && |s| <= size && RunsSorted(cmp, s, size)
    ensures Sorted(cmp, s)
  {
    assert Take(s, size) == s;
  }

  lemma {:induction false} SortFromSorts<T>(cmp: (T, T) -> int, s: seq<T>, size: nat, d: set<T>)
    requires size > 0 && TotalPreorderOn(cmp, d) && Within(s, d)
    requires RunsSorted(cmp, s, size)
    ensures Sorted(cmp, SortFrom(cmp, s, size))
    decreases |s| - size
  {
    hide Pass, RunsSorted, Sorted, Within, TotalPreorderOn;
    var r := Pass(cmp, s, size);
    PassDoublesRuns(cmp, s, size, d);
    if |s| <= 2 * size {
      OneRun(cmp, r, 2 * size);
    } else {
      PassWithin(cmp, s, size, d);
      SortFromSorts(cmp, r, 2 * size, d);
    }
  }

  // ---- stability ----

  lemma {:induction false} TiesNone<T>(cmp: (T, T) -> int, x: T, s: seq<T>)
    requires forall y :: y in s ==> !Tied(cmp, x, y)
    ensures Ties(cmp, x, s) == []
  {
    if s != [] {
      TiesNone(cmp, x, s[1..]);
    }
  }

  lemma TiesCons<T>(cmp: (T, T) -> int, x: T, y: T, s: seq<T>)
    ensures Ties(cmp, x, [y] + s) == (if Tied(cmp, x, y) then [y] else []) + Ties(cmp, x, s)
  {
    assert ([y] + s)[1..] == s;
  }

  lemma Transitive<T>(cmp: (T, T) -> int, d: set<T>, a: T, b: T, c: T)
    requires TotalPreorderOn(cmp, d) && a in d && b in d && c in d
    ensures cmp(a, b) <= 0 && cmp(b, c) <= 0 ==> cmp(a, c) <= 0
  {
  }

  /** Everything in a lies strictly above y, so when y ties with x nothing in a does. */
  lemma TiesBelow<T>(cmp: (T, T) -> int, x: T, y: T, a: seq<T>, d: set<T>)
    requires TotalPreorderOn(cmp, d) && Within(a, d) && x in d && y in d
    requires a != [] && Sorted(cmp, a) && cmp(a[0], y) > 0 && Tied(cmp, x, y)
    ensures Ties(cmp, x, a) == []
  {
    assert cmp(a[0], a[0]) <= 0;
    LowerBoundThrough(cmp, a[0], a, d);
    forall z | z in a
      ensures !Tied(cmp, x, z)
    {
      Transitive(cmp, d, a[0], z, x);
      Transitive(cmp, d, a[0], x, y);
    }
    TiesNone(cmp, x, a);
  }

  lemma MergeUnfolds<T>(cmp: (T, T) -> int, a: seq<T>, b: seq<T>)
    ensures a == [] ==> Merge(cmp, a, b) == b == a + b
    ensures b == [] ==> Merge(cmp, a, b) == a == a + b
    ensures a != [] && b != [] && cmp(a[0], b[0]) <= 0 ==> Merge(cmp, a, b) == [a[0]] + Merge(cmp, a[1..], b)
    ensures a != [] && b != [] && cmp(a[0], b[0]) > 0 ==> Merge(cmp, a, b) == [b[0]] + Merge(cmp, a, b[1..])
  {
  }

  lemma WithinTail<T>(s: seq<T>, d: set<T>)
    requires s != [] && Within(s, d)
    ensures s[0] in d && Within(s[1..], d)
  {
  }

  lemma {:induction false} MergeStable<T>(cmp: (T, T) -> int, a: seq<T>, b: seq<T>, d: set<T>, x: T)
    requires TotalPreorderOn(cmp, d) && Within(a, d) && Within(b, d) && x in d
    requires Sorted(cmp, a)
    ensures Ties(cmp, x, Merge(cmp, a, b)) == Ties(cmp, x, a) + Ties(cmp, x, b)
  {
    hide Merge, Ties, Tied, Sorted, Within, TotalPreorderOn;
    MergeUnfolds(cmp, a, b);
    if a == [] || b == [] {
      TiesConcat(cmp, x, a, b);
    } else {
      var a0, a', b0, b' := a[0], a[1..], b[0], b[1..];
      assert a == [a0] + a' && b == [b0] + b';
      SortedHead(cmp, a);
      WithinTail(a, d);
      WithinTail(b, d);
      if cmp(a0, b0) <= 0 {
        MergeStable(cmp, a', b, d, x);
        TiesCons(cmp, x, a0, Merge(cmp, a', b));
        TiesCons(cmp, x, a0, a');
        Regroup(if Tied(cmp, x, a0) then [a0] else [], Ties(cmp, x, a'), Ties(cmp, x, b));
      } else {
        MergeStable(cmp, a, b', d, x);
        TiesCons(cmp, x, b0, Merge(cmp, a, b'));
        TiesCons(cmp, x, b0, b');
        if Tied(cmp, x, b0) {
          TiesBelow(cmp, x, b0, a, d);
        }
      }
    }
  }

  lemma {:induction false} PassStable<T>(cmp: (T, T) -> int, s: seq<T>, size: nat, d: set<T>, x: T)
    requires size > 0 && TotalPreorderOn(cmp, d) && Within(s, d) && x in d
    requires RunsSorted(cmp, s, size)
    ensures Ties(cmp, x, Pass(cmp, s, size)) == Ties(cmp, x, s)
    decreases |s|
  {
    if s != [] {
      var t := Drop(s, size);
      var u := Drop(t, size);
      var m := Merge(cmp, Take(s, size), Take(t, size));
      calc {
        Ties(cmp, x, Pass(cmp, s, size));
        { assert Pass(cmp, s, size) == m + Pass(cmp, u, size);
          TiesConcat(cmp, x, m, Pass(cmp, u, size)); }
        Ties(cmp, x, m) + Ties(cmp, x, Pass(cmp, u, size));
        { MergeStable(cmp, Take(s, size), Take(t, size), d, x);
          PassStable(cmp, u, size, d, x); }
        Ties(cmp, x, Take(s, size)) + Ties(cmp, x, Take(t, size)) + Ties(cmp, x, u);
        Ties(cmp, x, Take(s, size)) + (Ties(cmp, x, Take(t, size)) + Ties(cmp, x, u));
        { TakeDrop(t, size); TiesConcat(cmp, x, Take(t, size), u); }
        Ties(cmp, x, Take(s, size)) + Ties(cmp, x, t);
        { TakeDrop(s, size); TiesConcat(cmp, x, Take(s, size), t); }
        Ties(cmp, x, s);
      }
    }
  }

  lemma {:induction false} SortFromStable<T>(cmp: (T, T) -> int, s: seq<T>, size: nat, d: set<T>, x: T)
    requires size > 0 && TotalPreorderOn(cmp, d) && Within(s, d) && x in d
    requires RunsSorted(cmp, s, size)
    ensures Ties(cmp, x, SortFrom(cmp, s, size)) == Ties(cmp, x, s)
    decreases |s| - size
  {
    hide Pass, Ties, RunsSorted, Within, TotalPreorderOn;
    var r := Pass(cmp, s, size);
    PassStable(cmp, s, size, d, x);
    if |s| > 2 * size {
      PassDoublesRuns(cmp, s, size, d);
      PassWithin(cmp, s, size, d);
      SortFromStable(cmp, r, 2 * size, d, x);
    }
  }

  ghost predicate StableSortOf<T>(cmp: (T, T) -> int, s: seq<T>, r: seq<T>) {
    && Sorted(cmp, r)
    && multiset(r) == multiset(s)
    && forall x :: x in s ==> Ties(cmp, x, r) == Ties(cmp, x, s)
  }

  /** For a comparison that is a total preorder, the result is a stable sorted permutation ... */
  lemma SortIsStableSort<T>(cmp: (T, T) -> int, s: seq<T>)
    requires TotalPreorderOn(cmp, set x | x in s)
    ensures StableSortOf(cmp, s, SortFrom(cmp, s, 1))
  {
    var d := set x | x in s;
    UnitRunsSorted(cmp, s);
    SortFromSorts(cmp, s, 1, d);
    SortPermutes(cmp, s, 1);
    forall x | x in s
      ensures Ties(cmp, x, SortFrom(cmp, s, 1)) == Ties(cmp, x, s)
    {
      SortFromStable(cmp, s, 1, d, x);
    }
  }

  /** ... and there is only one such sequence. */
  lemma {:induction false} StableSortUnique<T>(cmp: (T, T) -> int, s: seq<T>, r: seq<T>, t: seq<T>)
    requires TotalPreorderOn(cmp, set x | x in s)
    requires StableSortOf(cmp, s, r) && StableSortOf(cmp, s, t)
    ensures r == t
  {
    var d := set x | x in s;
    SameMembers(s, r);
    SameMembers(s, t);
    SortedEqual(cmp, d, r, t);
  }

  lemma SameMembers<T>(s: seq<T>, r: seq<T>)
    requires multiset(s) == multiset(r)
    ensures forall x :: x in s <==> x in r
  {
    forall x ensures x in s <==> x in r {
      assert x in s <==> x in multiset(s);
    }
  }

  lemma LeastHead<T>(cmp: (T, T) -> int, d: set<T>, r: seq<T>)
    requires TotalPreorderOn(cmp, d) && Within(r, d) && r != [] && Sorted(cmp, r)
    ensures LowerBound(cmp, r[0], r) && cmp(r[0], r[0]) <= 0
  {
    LowerBoundThrough(cmp, r[0], r, d);
  }

  lemma SameHead<T>(cmp: (T, T) -> int, d: set<T>, r: seq<T>, t: seq<T>)
    requires TotalPreorderOn(cmp, d) && Within(r, d) && Within(t, d)
    requires r != [] && t != [] && Sorted(cmp, r) && Sorted(cmp, t)
    requires Ties(cmp, r[0], r) == Ties(cmp, r[0], t)
    requires Ties(cmp, t[0], r) == Ties(cmp, t[0], t)
    ensures r[0] == t[0]
  {
    hide TotalPreorderOn, Sorted, Within;
    LeastHead(cmp, d, r);
    LeastHead(cmp, d, t);
    // both heads are least, so each ties with the other and both head the same tie class
    assert Ties(cmp, r[0], r)[0] == r[0];
    assert r[0] in Ties(cmp, r[0], t);
    assert Ties(cmp, t[0], t)[0] == t[0];
    assert t[0] in Ties(cmp, t[0], r);
    assert Tied(cmp, r[0], t[0]);
    assert Ties(cmp, r[0], t)[0] == t[0];
  }

  lemma TiesOfTails<T>(cmp: (T, T) -> int, x: T, r: seq<T>, t: seq<T>, y: T)
    requires Ties(cmp, y, [x] + r) == Ties(cmp, y, [x] + t)
    ensures Ties(cmp, y, r) == Ties(cmp, y, t)
  {
    TiesCons(cmp, y, x, r);
    TiesCons(cmp, y, x, t);
    var p := if Tied(cmp, y, x) then [x] else [];
    assert (p + Ties(cmp, y, r))[|p|..] == (p + Ties(cmp, y, t))[|p|..];
  }

  lemma TiesOwnHead<T>(cmp: (T, T) -> int, d: set<T>, r: seq<T>)
    requires TotalPreorderOn(cmp, d) && Within(r, d) && r != []
    ensures Ties(cmp, r[0], r) != []
  {
    assert cmp(r[0], r[0]) <= 0;
  }

  /** A sorted sequence is determined by its tie classes. */
  lemma {:induction false} SortedEqual<T>(cmp: (T, T) -> int, d: set<T>, r: seq<T>, t: seq<T>)
    requires TotalPreorderOn(cmp, d) && Within(r, d) && Within(t, d)
    requires Sorted(cmp, r) && Sorted(cmp, t)
    requires forall x :: x in d ==> Ties(cmp, x, r) == Ties(cmp, x, t)
    ensures r == t
  {
    hide Sorted, Within, LowerBound, TotalPreorderOn;
    if r == [] {
      if t != [] {
        WithinTail(t, d);
        TiesOwnHead(cmp, d, t);
      }
    } else if t == [] {
      WithinTail(r, d);
      TiesOwnHead(cmp, d, r);
    } else {
      WithinTail(r, d);
      WithinTail(t, d);
      SortedHead(cmp, r);
      SortedHead(cmp, t);
      SameHead(cmp, d, r, t);
      var x, r', t' := r[0], r[1..], t[1..];
      assert r == [x] + r' && t == [x] + t';
      forall y | y in d
        ensures Ties(cmp, y, r') == Ties(cmp, y, t')
      {
        TiesOfTails(cmp, x, r', t', y);
      }
      SortedEqual(cmp, d, r', t');
    }
  }
}
