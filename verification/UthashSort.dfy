/**
 HASH_SRT: the bottom-up merge sort that relinks the application order in
 place. Each method is one loop of the macro, and is proved against the
 sequence functions of StableSort.
 */
module UthashSort {
  import opened Sequences
  import opened UthashTypes
  import opened UthashLinks
  import opened StableSort

  /** From position k on, next spells out s up to its end. */
  ghost predicate Onward(s: seq<Node>, k: nat)
    reads s`next
  {
    forall i {:trigger s[i].next} :: k <= i < |s| ==> s[i].next == At(s, i + 1)
  }

  /** From position k on, next leads from each node of s to the following one; the last one's next is stale. */
  ghost predicate Run(s: seq<Node>, k: nat)
    reads s`next
  {
    forall i {:trigger s[i].next} :: k <= i < |s| - 1 ==> s[i].next == At(s, i + 1)
  }

  /** The output list so far: linked in both directions, except that the last node's next is stale. */
  ghost predicate Output(d: seq<Node>)
    reads d`prev, d`next
  {
    && NoDup(d) && Run(d, 0)
    && forall i {:trigger d[i].prev} :: 0 <= i < |d| ==> d[i].prev == At(d, i - 1)
  }

  ghost predicate Ends(list: Node?, tail: Node?, d: seq<Node>) {
    list == At(d, 0) && tail == At(d, |d| - 1)
  }

  /** Append e to the output list. */
  method LinkTail(list: Node?, tail: Node?, e: Node, ghost d: seq<Node>) returns (list': Node?, tail': Node?)
    requires Output(d) && Ends(list, tail, d) && e !in d
    modifies Elems(d)`next, e`prev
    ensures Output(d + [e]) && Ends(list', tail', d + [e])
  {
    list' := list;
    if tail != null {
      assert d[|d| - 1] in d;
      tail.next := e;
    } else {
      list' := e;
    }
    e.prev := tail;
    tail' := e;
    ghost var d' := d + [e];
    assert forall i :: 0 <= i < |d| ==> d'[i] == d[i];
  }

  // ---- one merge ----

  /** m is what the merge of a and b puts out before position i of a and position j of b. */
  ghost predicate Merging(cmp: (Node, Node) -> int, a: seq<Node>, i: nat, b: seq<Node>, j: nat, m: seq<Node>) {
    i <= |a| && j <= |b| && m + Merge(cmp, a[i..], b[j..]) == Merge(cmp, a, b)
  }

  ghost predicate TakesLeft(cmp: (Node, Node) -> int, a: seq<Node>, i: nat, b: seq<Node>, j: nat)
    requires i <= |a| && j <= |b|
  {
    i < |a| && (j == |b| || cmp(a[i], b[j]) <= 0)
  }

  lemma MergingStep(cmp: (Node, Node) -> int, a: seq<Node>, i: nat, b: seq<Node>, j: nat, m: seq<Node>)
    requires Merging(cmp, a, i, b, j, m) && (i < |a| || j < |b|)
    ensures TakesLeft(cmp, a, i, b, j) ==> Merging(cmp, a, i + 1, b, j, m + [a[i]])
    ensures !TakesLeft(cmp, a, i, b, j) ==> j < |b| && Merging(cmp, a, i, b, j + 1, m + [b[j]])
  {
    var a', b' := a[i..], b[j..];
    if TakesLeft(cmp, a, i, b, j) {
      assert a'[1..] == a[i + 1..];
      MergeFirstLeft(cmp, a', b');
      Regroup(m, [a[i]], Merge(cmp, a[i + 1..], b'));
    } else {
      assert b'[1..] == b[j + 1..];
      MergeFirstRight(cmp, a', b');
      Regroup(m, [b[j]], Merge(cmp, a', b[j + 1..]));
    }
  }

  lemma MergeFirstLeft(cmp: (Node, Node) -> int, a: seq<Node>, b: seq<Node>)
    requires a != [] && (b == [] || cmp(a[0], b[0]) <= 0)
    ensures Merge(cmp, a, b) == [a[0]] + Merge(cmp, a[1..], b)
  {
    MergeNil(cmp, a[1..]);
  }

  lemma MergeNil(cmp: (Node, Node) -> int, a: seq<Node>)
    ensures Merge(cmp, a, []) == a
  {
  }

  lemma MergeFirstRight(cmp: (Node, Node) -> int, a: seq<Node>, b: seq<Node>)
    requires b != [] && (a == [] || cmp(a[0], b[0]) > 0)
    ensures Merge(cmp, a, b) == [b[0]] + Merge(cmp, a, b[1..])
  {
  }

  /** The nodes of s from position k on are not among those of d. */
  ghost predicate Ahead(s: seq<Node>, k: nat, d: seq<Node>) {
    forall x :: k <= x < |s| ==> s[x] !in d
  }

  lemma AheadStep(a: seq<Node>, i: nat, b: seq<Node>, j: nat, d: seq<Node>)
    requires i < |a| && j <= |b| && NoDup(a) && Disjoint(a, b)
    requires Ahead(a, i, d) && Ahead(b, j, d)
    ensures a[i] !in d && a[i] in a
    ensures Ahead(a, i + 1, d + [a[i]]) && Ahead(b, j, d + [a[i]])
  {
    forall x | j <= x < |b|
      ensures b[x] !in d + [a[i]]
    {
      assert a[i] in a && b[x] in b;
    }
  }

  lemma DisjointSym(a: seq<Node>, b: seq<Node>)
    requires Disjoint(a, b)
    ensures Disjoint(b, a)
  {
  }

  /** The inner loop of HASH_SRT: merge the run a with the run of at most `size` nodes that starts the list `rest`. */
  method MergeRuns(cmp: (Node, Node) -> int, p0: Node, psize0: nat, q0: Node?, size: nat, list0: Node?, tail0: Node?,
                   ghost a: seq<Node>, ghost rest: seq<Node>, ghost d0: seq<Node>)
    returns (q: Node?, list: Node?, tail: Node?, ghost comparisons: nat)
    requires |a| == psize0 > 0 && p0 == a[0] && Run(a, 0) && NoDup(a)
    requires q0 == At(rest, 0) && Onward(rest, 0) && NoDup(rest) && Disjoint(a, rest)
    requires Output(d0) && Ends(list0, tail0, d0) && Ahead(a, 0, d0) && Ahead(rest, 0, d0)
    modifies Elems(d0)`next, Elems(a)`next, Elems(rest)`next, Elems(a)`prev, Elems(rest)`prev
    ensures var d := d0 + Merge(cmp, a, Take(rest, size)); Output(d) && Ends(list, tail, d) && Ahead(rest, |Take(rest, size)|, d)
    ensures q == At(rest, |Take(rest, size)|) && Onward(rest, |Take(rest, size)|)
    ensures comparisons <= |a| + |Take(rest, size)|
  {
    hide Merge, Merging, Take, NoDup, Disjoint, Output, Ends, Ahead;
    RunLength(rest, size);
    MergingStart(cmp, a, Take(rest, size));
    var p: Node?, psize, qsize := p0, psize0, size;
    q, list, tail, comparisons := q0, list0, tail0, 0;
    ghost var b := Take(rest, size);
    ghost var i, j, m, d := 0, 0, [], d0;
    while psize > 0 || (qsize > 0 && q != null)
      invariant comparisons <= i + j
      invariant i <= |a| && psize == |a| - i && (psize > 0 ==> p == a[i])
      invariant j <= |b| && qsize == size - j && q == At(rest, j)
      invariant Run(a, i) && Onward(rest, j)
      invariant Merging(cmp, a, i, b, j, m) && d == d0 + m
      invariant Output(d) && Ends(list, tail, d)
      invariant Ahead(a, i, d) && Ahead(rest, j, d)
      invariant forall n :: n in d ==> n in d0 || n in a || n in rest
      decreases psize + |b| - j
    {
      MergingStep(cmp, a, i, b, j, m);
      comparisons := comparisons + if psize == 0 || qsize == 0 || q == null then 0 else 1;
      var e: Node;
      if psize == 0 || !(qsize == 0 || q == null || cmp(p, q) <= 0) {
        e := q;
        q := e.next;
        qsize := qsize - 1;
        DisjointSym(a, rest);
        AheadStep(rest, j, a, i, d);
        j := j + 1;
      } else {
        e := p;
        p := e.next;
        psize := psize - 1;
        AheadStep(a, i, rest, j, d);
        i := i + 1;
      }
      Regroup(d0, m, [e]);
      list, tail := LinkTail(list, tail, e, d);
      m, d := m + [e], d + [e];
    }
    MergingDone(cmp, a, b, m);
  }

  lemma MergingDone(cmp: (Node, Node) -> int, a: seq<Node>, b: seq<Node>, m: seq<Node>)
    requires Merging(cmp, a, |a|, b, |b|, m)
    ensures m == Merge(cmp, a, b)
  {
  }

  lemma RunLength(s: seq<Node>, size: nat)
    ensures |Take(s, size)| == if size <= |s| then size else |s|
    ensures forall i :: 0 <= i < |Take(s, size)| ==> Take(s, size)[i] == s[i]
  {
  }

  lemma MergingStart(cmp: (Node, Node) -> int, a: seq<Node>, b: seq<Node>)
    ensures Merging(cmp, a, 0, b, 0, [])
  {
  }

  // ---- one pass ----

  /** d is what the pass puts out before position k of s. */
  ghost predicate Passing(cmp: (Node, Node) -> int, s: seq<Node>, size: nat, k: nat, d: seq<Node>)
    requires size > 0
  {
    k <= |s| && d + Pass(cmp, s[k..], size) == Pass(cmp, s, size)
  }

  lemma PassingStart(cmp: (Node, Node) -> int, s: seq<Node>, size: nat)
    requires size > 0
    ensures Passing(cmp, s, size, 0, [])
  {
    assert s[0..] == s;
  }

  lemma PassingDone(cmp: (Node, Node) -> int, s: seq<Node>, size: nat, d: seq<Node>)
    requires size > 0 && Passing(cmp, s, size, |s|, d)
    ensures d == Pass(cmp, s, size)
  {
  }

  /** The two runs that start at position k: their lengths as the loops of the macro compute them. */
  lemma PassingStep(cmp: (Node, Node) -> int, s: seq<Node>, size: nat, k: nat, psize: nat, t: nat, d: seq<Node>)
    requires size > 0 && k < |s| && Passing(cmp, s, size, k, d)
    requires psize == (if size <= |s| - k then size else |s| - k)
    requires t == |Take(s[k + psize..], size)|
    ensures k + psize + t <= |s|
    ensures Passing(cmp, s, size, k + psize + t, d + Merge(cmp, s[k..k + psize], Take(s[k + psize..], size)))
  {
    var u, rest := s[k..], s[k + psize..];
    assert Take(u, size) == s[k..k + psize] && Drop(u, size) == rest;
    assert Drop(rest, size) == s[k + psize + t..];
    Regroup(d, Merge(cmp, s[k..k + psize], Take(rest, size)), Pass(cmp, s[k + psize + t..], size));
  }

  /** The for loop of HASH_SRT: step over the run that starts at p. */
  method StepOver(p: Node, size: nat, ghost s: seq<Node>, ghost k: nat) returns (q: Node?, psize: nat)
    requires size > 0 && k < |s| && p == s[k] && Onward(s, k)
    ensures psize == (if size <= |s| - k then size else |s| - k)
    ensures q == At(s, k + psize)
  {
    q, psize := p, 0;
    for i := 0 to size
      invariant psize == i && k + i <= |s| && q == At(s, k + i)
      invariant i < size ==> k + i < |s|
    {
      psize := psize + 1;
      q := q.next;
      if q == null {
        break;
      }
    }
  }

  lemma SliceRun(s: seq<Node>, k: nat, psize: nat, d: seq<Node>)
    requires psize > 0 && k + psize <= |s| && Onward(s, k) && NoDup(s) && Ahead(s, k, d)
    ensures var a, rest := s[k..k + psize], s[k + psize..];
      && Run(a, 0) && NoDup(a) && Ahead(a, 0, d) && Elems(a) <= Elems(s)
      && Onward(rest, 0) && NoDup(rest) && Ahead(rest, 0, d) && Elems(rest) <= Elems(s)
      && Disjoint(a, rest) && At(rest, 0) == At(s, k + psize)
  {
    var a, rest := s[k..k + psize], s[k + psize..];
    assert forall x {:trigger a[x]} :: 0 <= x < |a| ==> a[x] == s[k + x];
    assert forall x {:trigger rest[x]} :: 0 <= x < |rest| ==> rest[x] == s[k + psize + x];
  }

  lemma SliceBack(s: seq<Node>, k: nat, t: nat, d: seq<Node>)
    requires k + t <= |s| && Onward(s[k..], t) && Ahead(s[k..], t, d)
    ensures Onward(s, k + t) && Ahead(s, k + t, d) && At(s[k..], t) == At(s, k + t)
  {
    var rest := s[k..];
    forall x | k + t <= x < |s|
      ensures s[x].next == At(s, x + 1) && s[x] !in d
    {
      assert s[x] == rest[x - k];
      assert rest[x - k].next == At(rest, x - k + 1);
    }
  }

  /** Cut the output list after its last node. */
  method Terminate(list: Node?, tail: Node?, ghost d: seq<Node>)
    requires d != [] && Output(d) && Ends(list, tail, d)
    modifies Elems(d)`next
    ensures AppLinked(d)
  {
    assert d[|d| - 1] in d;
    tail.next := null;
  }

  /** The members of one merge are those of the two runs. */
  lemma MergedFrom(cmp: (Node, Node) -> int, a: seq<Node>, rest: seq<Node>, size: nat, d: seq<Node>, s: seq<Node>)
    requires Elems(a) <= Elems(s) && Elems(rest) <= Elems(s) && Elems(d) <= Elems(s)
    ensures Elems(d + Merge(cmp, a, Take(rest, size))) <= Elems(s)
  {
    var b := Take(rest, size);
    var m := Merge(cmp, a, b);
    MergePermutes(cmp, a, b);
    forall n | n in m
      ensures n in s
    {
      assert n in multiset(m);
      assert n in multiset(a) || n in multiset(b);
      assert n in Elems(a) || n in Elems(rest);
    }
  }

  /** The middle loop of HASH_SRT: one pass over the list s with run length `size`. */
  method MergePass(cmp: (Node, Node) -> int, first: Node, size: nat, ghost s: seq<Node>)
    returns (list: Node?, tail: Node?, nmerges: nat, ghost comparisons: nat)
    requires size > 0 && s != [] && first == s[0] && Onward(s, 0) && NoDup(s)
    modifies Elems(s)`next, Elems(s)`prev
    ensures var r := Pass(cmp, s, size); AppLinked(r) && Ends(list, tail, r)
    ensures nmerges <= 1 <==> |s| <= 2 * size
    ensures comparisons <= |s|
  {
    hide Pass, Passing, Merge, Take, NoDup, Disjoint, Output, Ends, Ahead, Elems;
    var p: Node? := first;
    list, tail, nmerges, comparisons := null, null, 0, 0;
    ghost var k: nat, d: seq<Node> := 0, [];
    NoOutput(s, d);
    PassingStart(cmp, s, size);
    while p != null
      invariant comparisons <= k <= |s| && p == At(s, k) && Onward(s, k) && NoDup(s)
      invariant Passing(cmp, s, size, k, d)
      invariant Output(d) && Ends(list, tail, d) && Ahead(s, k, d) && Elems(d) <= Elems(s)
      invariant nmerges == 0 <==> k == 0
      invariant nmerges == 1 ==> k == if 2 * size <= |s| then 2 * size else |s|
      invariant nmerges > 1 ==> |s| > 2 * size
      decreases |s| - k
    {
      nmerges := nmerges + 1;
      var q, psize := StepOver(p, size, s, k);
      SliceRun(s, k, psize, d);
      ghost var a, rest := s[k..k + psize], s[k + psize..];
      RunLength(rest, size);
      ghost var t := |Take(rest, size)|;
      PassingStep(cmp, s, size, k, psize, t, d);
      MergedFrom(cmp, a, rest, size, d, s);
      ghost var c: nat;
      q, list, tail, c := MergeRuns(cmp, p, psize, q, size, list, tail, a, rest, d);
      comparisons := comparisons + c;
      d := d + Merge(cmp, a, Take(rest, size));
      SliceBack(s, k + psize, t, d);
      k := k + psize + t;
      p := q;
    }
    PassingDone(cmp, s, size, d);
    Terminate(list, tail, d);
  }

  lemma NoOutput(s: seq<Node>, d: seq<Node>)
    requires d == []
    ensures Output(d) && Ends(null, null, d) && Ahead(s, 0, d) && Elems(d) <= Elems(s)
  {
  }
}
