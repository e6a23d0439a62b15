/**
 The two linked structures of a uthash table, said of the ghost sequences that
 the links spell out: the application order and the bucket chains.
 */
module UthashLinks {
  import opened Bits
  import opened UthashTypes
  import opened LoadFactor

  /** HASH_TO_BKT */
  function HashToBkt(hashv: Word, numBkts: nat): nat
    requires numBkts > 0
  {
    And(hashv, numBkts - 1)
  }

  lemma BktInRange(hashv: Word, log2: nat)
    ensures HashToBkt(hashv, Pow2(log2)) < Pow2(log2)
  {
    ShiftMask(hashv, log2);
  }

  /** The mask takes the remainder. */
  lemma BktIsRemainder(hashv: Word, log2: nat)
    ensures HashToBkt(hashv, Pow2(log2)) == hashv % Pow2(log2)
  {
    AndIsRemainder(hashv, log2);
  }

  /** Doubling the bucket count splits slot b into b and b + the old count. */
  lemma BktDoubles(hashv: Word, log2: nat)
    ensures var b, b2, m := HashToBkt(hashv, Pow2(log2)), HashToBkt(hashv, Pow2(log2 + 1)), Pow2(log2);
      b < m && (b2 == b || b2 == b + m)
  {
    ShiftMask(hashv, log2);
    MaskDoubles(hashv, log2);
  }

  /** The i-th node, or NULL outside the sequence. */
  function At(s: seq<Node>, i: int): Node? {
    if 0 <= i < |s| then s[i] else null
  }

  ghost function Elems(s: seq<Node>): set<Node> {
    set n | n in s
  }

  /** The nodes of base and the first k of s. */
  ghost function Taken(base: set<Node>, s: seq<Node>, k: nat): set<Node>
    requires k <= |s|
  {
    base + set i | 0 <= i < k :: s[i]
  }

  lemma TakenStep(base: set<Node>, s: seq<Node>, k: nat)
    requires NoDup(s) && k < |s| && s[k] !in base
    ensures s[k] in Elems(s) && s[k] !in Taken(base, s, k)
    ensures Taken(base, s, k + 1) == Taken(base, s, k) + {s[k]}
    ensures Taken(base, s, k) <= base + Elems(s)
  {
  }

  lemma TakenAll(base: set<Node>, s: seq<Node>)
    ensures Taken(base, s, 0) == base && Taken(base, s, |s|) == base + Elems(s)
  {
    forall n | n in s
      ensures n in Taken(base, s, |s|)
    {
      var i :| 0 <= i < |s| && s[i] == n;
    }
  }

  ghost predicate NoDup<T>(s: seq<T>) {
    forall i, j :: 0 <= i < j < |s| ==> s[i] != s[j]
  }

  ghost predicate Disjoint<T>(s: seq<T>, t: seq<T>) {
    forall x :: x in s ==> x !in t
  }

  /** prev and next spell out s in both directions. */
  ghost predicate AppLinked(s: seq<Node>)
    reads s`prev, s`next
  {
    && NoDup(s)
    && (forall i {:trigger s[i].prev} :: 0 <= i < |s| ==> s[i].prev == At(s, i - 1))
    && (forall i {:trigger s[i].next} :: 0 <= i < |s| ==> s[i].next == At(s, i + 1))
  }

  /** hhPrev and hhNext spell out s in both directions. */
  ghost predicate ChainLinked(s: seq<Node>)
    reads s`hhPrev, s`hhNext
  {
    && NoDup(s)
    && (forall i {:trigger s[i].hhPrev} :: 0 <= i < |s| ==> s[i].hhPrev == At(s, i - 1))
    && (forall i {:trigger s[i].hhNext} :: 0 <= i < |s| ==> s[i].hhNext == At(s, i + 1))
  }

  ghost predicate Inside(chains: seq<seq<Node>>, nodes: set<Node>) {
    forall b, n :: 0 <= b < |chains| && n in chains[b] ==> n in nodes
  }

  ghost predicate AllChained(chains: seq<seq<Node>>, nodes: set<Node>)
    reads nodes`hhPrev, nodes`hhNext
  {
    Inside(chains, nodes) && forall b :: 0 <= b < |chains| ==> ChainLinked(chains[b])
  }

  /** Only nodes whose hash selects slot b are in chain b. */
  ghost predicate Slotted(chains: seq<seq<Node>>, nodes: set<Node>)
    reads nodes`hashv
  {
    Inside(chains, nodes) &&
    forall b, n :: 0 <= b < |chains| && n in chains[b] ==> HashToBkt(n.hashv, |chains|) == b
  }

  /** Every node is in the chain that its hash selects. */
  ghost predicate Covered(chains: seq<seq<Node>>, nodes: set<Node>)
    reads nodes`hashv
  {
    |chains| > 0 && forall n :: n in nodes ==>
      HashToBkt(n.hashv, |chains|) < |chains| && n in chains[HashToBkt(n.hashv, |chains|)]
  }

  /** The bucket records agree with the chains: head pointer and count. */
  ghost predicate BucketsMatch(bs: seq<Bucket>, chains: seq<seq<Node>>) {
    && |bs| == |chains|
    && forall b :: 0 <= b < |bs| ==> bs[b].hhHead == At(chains[b], 0) && bs[b].count == |chains[b]|
  }

  lemma ChainsApart(chains: seq<seq<Node>>, nodes: set<Node>, b: nat)
    requires b < |chains| && Slotted(chains, nodes)
    ensures forall j, n :: 0 <= j < |chains| && j != b && n in chains[j] ==> n !in chains[b]
  {
    forall j, n | 0 <= j < |chains| && j != b && n in chains[j]
      ensures n !in chains[b]
    {
      assert HashToBkt(n.hashv, |chains|) == j;
    }
  }

  /** The buckets hold exactly the given nodes, `count` in all, each in the chain that its hash selects. */
  ghost predicate Placed(bs: seq<Bucket>, chains: seq<seq<Node>>, nodes: set<Node>, count: nat)
    reads nodes`hashv
  {
    && Slotted(chains, nodes) && Covered(chains, nodes)
    && BucketsMatch(bs, chains)
    && Sum(Count, bs) == count
  }

  lemma PlacedParts(bs: seq<Bucket>, chains: seq<seq<Node>>, nodes: set<Node>, count: nat)
    requires Placed(bs, chains, nodes, count)
    ensures Slotted(chains, nodes) && Covered(chains, nodes) && BucketsMatch(bs, chains)
    ensures |bs| == |chains| && Sum(Count, bs) == count
  {
  }

  ghost function PushOn(chains: seq<seq<Node>>, b: nat, hh: Node): seq<seq<Node>>
    requires b < |chains|
  {
    chains[b := [hh] + chains[b]]
  }

  /** Pushing a new node on the chain that its hash selects keeps the placement. */
  lemma PushPlaced(bs: seq<Bucket>, chains: seq<seq<Node>>, nodes: set<Node>, count: nat, hh: Node, b: nat, mult: nat)
    requires Placed(bs, chains, nodes, count) && hh !in nodes
    requires b == HashToBkt(hh.hashv, |chains|) < |chains|
    ensures Placed(bs[b := Bucket(hh, bs[b].count + 1, mult)], PushOn(chains, b, hh), nodes + {hh}, count + 1)
  {
    SumUpdate(Count, bs, b, Bucket(hh, bs[b].count + 1, mult));
  }

  /** What a linear search of the sequence from position k finds first. */
  ghost function FirstMatch(s: seq<Node>, k: nat, key: Key): Node?
    reads s`key
    decreases |s| - k
  {
    if k >= |s| then null else if s[k].key == key then s[k] else FirstMatch(s, k + 1, key)
  }

  lemma {:induction false} FirstMatchExact(s: seq<Node>, k: nat, key: Key)
    ensures FirstMatch(s, k, key) == null ==> forall i :: k <= i < |s| ==> s[i].key != key
    ensures FirstMatch(s, k, key) != null ==> FirstMatch(s, k, key) in s && FirstMatch(s, k, key).key == key
    decreases |s| - k
  {
    if k < |s| {
      FirstMatchExact(s, k + 1, key);
    }
  }

  /** HASH_FIND_IN_BKT */
  method FindInBkt(first: Node?, key: Key, ghost c: seq<Node>) returns (out: Node?)
    requires Forward(c, 0) && first == At(c, 0)
    ensures out == FirstMatch(c, 0, key)
  {
    out := first;
    ghost var k := 0;
    while out != null
      invariant k <= |c| && out == At(c, k)
      invariant FirstMatch(c, 0, key) == FirstMatch(c, k, key)
      decreases |c| - k
    {
      if |out.key| == |key| {
        if out.key == key {
          break;
        }
      }
      assert c[k].hhNext == At(c, k + 1);
      out := out.hhNext;
      k := k + 1;
    }
  }

  /** The slots, among m, that the hashes of the nodes of c select. */
  ghost predicate SlotsOf(c: seq<Node>, m: nat, slots: seq<nat>)
    requires m > 0
    reads c`hashv
  {
    |slots| == |c| && forall k :: 0 <= k < |c| ==> slots[k] == HashToBkt(c[k].hashv, m)
  }

  /** Of the first k nodes of c, those that move to slot j, each pushed at the front of its new chain. */
  ghost function Pushed(c: seq<Node>, slots: seq<nat>, k: nat, j: nat): seq<Node>
    requires k <= |c| == |slots|
  {
    if k == 0 then []
    else (if slots[k - 1] == j then [c[k - 1]] else []) + Pushed(c, slots, k - 1, j)
  }

  lemma {:induction false} PushedNone(c: seq<Node>, slots: seq<nat>, k: nat, j: nat)
    requires k <= |c| == |slots| && forall i :: 0 <= i < k ==> slots[i] != j
    ensures Pushed(c, slots, k, j) == []
  {
    if k > 0 {
      PushedNone(c, slots, k - 1, j);
    }
  }

  /** From position k on, hhNext still spells out c. */
  ghost predicate Forward(c: seq<Node>, k: nat)
    reads c`hhNext
  {
    forall i {:trigger c[i].hhNext} :: k <= i < |c| ==> c[i].hhNext == At(c, i + 1)
  }

  /** s without the first x. */
  ghost function Without<T>(s: seq<T>, x: T): seq<T> {
    if s == [] then [] else if s[0] == x then s[1..] else [s[0]] + Without(s[1..], x)
  }

  lemma {:induction false} WithoutAt<T>(s: seq<T>, k: nat)
    requires NoDup(s) && k < |s|
    ensures |Without(s, s[k])| == |s| - 1
    ensures forall i :: 0 <= i < |s| - 1 ==> Without(s, s[k])[i] == s[if i < k then i else i + 1]
  {
    if k > 0 {
      assert s[0] != s[k];
      WithoutAt(s[1..], k - 1);
    }
  }

  lemma WithoutExact<T>(s: seq<T>, x: T)
    requires NoDup(s) && x in s
    ensures NoDup(Without(s, x)) && |Without(s, x)| == |s| - 1
    ensures forall y :: y in Without(s, x) <==> y in s && y != x
  {
    var k :| 0 <= k < |s| && s[k] == x;
    WithoutAt(s, k);
    var t := Without(s, x);
    forall y
      ensures y in t <==> y in s && y != x
    {
      if y in s && y != x {
        var i :| 0 <= i < |s| && s[i] == y;
        assert t[if i < k then i else i - 1] == y;
      }
      if y in t {
        var i :| 0 <= i < |t| && t[i] == y;
      }
    }
  }

  lemma WithoutMember<T>(s: seq<T>, x: T, y: T)
    requires NoDup(s) && x in s
    ensures y in Without(s, x) <==> y in s && y != x
  {
    WithoutExact(s, x);
  }

  /** The chain links of a push: hh in front of the chain that starts at `head`. */
  method LinkFront(head: Node?, hh: Node, ghost c: seq<Node>)
    requires ChainLinked(c) && head == At(c, 0) && hh !in c
    modifies hh`hhPrev, hh`hhNext, Elems(c)`hhPrev
    ensures ChainLinked([hh] + c)
  {
    hh.hhNext := head;
    hh.hhPrev := null;
    if head != null {
      assert head in c;
      head.hhPrev := hh;
    }
    ghost var c' := [hh] + c;
    assert forall i :: 0 < i < |c'| ==> c'[i] == c[i - 1];
  }

  /** The push shared by HASH_ADD_TO_BKT and HASH_EXPAND_BUCKETS: hh becomes the head of chain b, whose count goes up. */
  method PushFront(bs: array<Bucket>, b: nat, hh: Node, mult: nat, ghost chains: seq<seq<Node>>, ghost nodes: set<Node>)
    requires b < bs.Length && BucketsMatch(bs[..], chains)
    requires AllChained(chains, nodes) && Slotted(chains, nodes)
    requires hh !in nodes && HashToBkt(hh.hashv, |chains|) == b
    modifies bs, hh`hhPrev, hh`hhNext, nodes`hhPrev
    ensures bs[..] == old(bs[..])[b := Bucket(hh, old(bs[b].count) + 1, mult)]
    ensures BucketsMatch(bs[..], PushOn(chains, b, hh))
    ensures AllChained(PushOn(chains, b, hh), nodes + {hh})
  {
    ghost var before := bs[..];
    ChainsApart(chains, nodes, b);
    assert forall j, n :: 0 <= j < |chains| && n in chains[j] ==> n != hh;
    assert before[b].hhHead == At(chains[b], 0);
    assert ChainLinked(chains[b]);
    LinkFront(bs[b].hhHead, hh, chains[b]);
    bs[b] := Bucket(hh, bs[b].count + 1, mult);
    assert bs[..] == before[b := bs[b]];
    forall j | 0 <= j < |chains| && j != b
      ensures ChainLinked(chains[j])
    {
    }
    ghost var chains' := PushOn(chains, b, hh);
    assert Inside(chains', nodes + {hh});
  }

  /** The chain links of a removal. */
  method Unlink(hhDel: Node, ghost c: seq<Node>, ghost k: nat)
    requires ChainLinked(c) && k < |c| && c[k] == hhDel
    modifies Elems(c)`hhPrev, Elems(c)`hhNext
    ensures ChainLinked(Without(c, hhDel))
  {
    assert hhDel.hhPrev == At(c, k - 1) && hhDel.hhNext == At(c, k + 1);
    assert k > 0 ==> c[k - 1] in c;
    assert k + 1 < |c| ==> c[k + 1] in c;
    if hhDel.hhPrev != null {
      hhDel.hhPrev.hhNext := hhDel.hhNext;
    }
    if hhDel.hhNext != null {
      hhDel.hhNext.hhPrev := hhDel.hhPrev;
    }
    assert forall i {:trigger c[i].hhPrev} :: 0 <= i < |c| && i != k ==> c[i].hhPrev == (if i == k + 1 then At(c, k - 1) else At(c, i - 1));
    assert forall i {:trigger c[i].hhNext} :: 0 <= i < |c| && i != k ==> c[i].hhNext == (if i == k - 1 then At(c, k + 1) else At(c, i + 1));
    ClosedGap(c, k);
  }

  /** If the links skip position k, they spell out the sequence without it. */
  lemma ClosedGap(c: seq<Node>, k: nat)
    requires NoDup(c) && k < |c|
    requires forall i {:trigger c[i].hhPrev} :: 0 <= i < |c| && i != k ==> c[i].hhPrev == (if i == k + 1 then At(c, k - 1) else At(c, i - 1))
    requires forall i {:trigger c[i].hhNext} :: 0 <= i < |c| && i != k ==> c[i].hhNext == (if i == k - 1 then At(c, k + 1) else At(c, i + 1))
    ensures ChainLinked(Without(c, c[k]))
  {
    WithoutAt(c, k);
    ClosedGapAt(c, k, Without(c, c[k]));
  }

  lemma ClosedGapAt(c: seq<Node>, k: nat, c': seq<Node>)
    requires NoDup(c) && k < |c|
    requires |c'| == |c| - 1 && forall i :: 0 <= i < |c'| ==> c'[i] == c[if i < k then i else i + 1]
    requires forall i {:trigger c[i].hhPrev} :: 0 <= i < |c| && i != k ==> c[i].hhPrev == (if i == k + 1 then At(c, k - 1) else At(c, i - 1))
    requires forall i {:trigger c[i].hhNext} :: 0 <= i < |c| && i != k ==> c[i].hhNext == (if i == k - 1 then At(c, k + 1) else At(c, i + 1))
    ensures ChainLinked(c')
  {
  }

  lemma ElemsAppend(s: seq<Node>, x: Node)
    ensures Elems(s + [x]) == Elems(s) + {x}
  {
  }

  /** HASH_ADD_KEYPTR's link steps in application order, for a nonempty list. */
  method LinkLast(tail: Node, add: Node, ghost s: seq<Node>)
    requires s != [] && AppLinked(s) && tail == s[|s| - 1] && add !in s
    modifies tail`next, add`prev, add`next
    ensures AppLinked(s + [add])
  {
    add.next := null;
    tail.next := add;
    add.prev := tail;
    ghost var s' := s + [add];
    assert forall i :: 0 <= i < |s| ==> s'[i] == s[i];
  }

  /** HASH_DELETE's link steps in application order. */
  method UnlinkApp(del: Node, ghost s: seq<Node>, ghost k: nat)
    requires AppLinked(s) && k < |s| && s[k] == del
    modifies Elems(s)`prev, Elems(s)`next
    ensures AppLinked(Without(s, del))
    ensures del.prev == old(del.prev) && del.next == old(del.next)
  {
    assert del.prev == At(s, k - 1) && del.next == At(s, k + 1);
    assert k > 0 ==> s[k - 1] in s;
    assert k + 1 < |s| ==> s[k + 1] in s;
    if del.prev != null {
      del.prev.next := del.next;
    }
    if del.next != null {
      del.next.prev := del.prev;
    }
    assert forall i {:trigger s[i].prev} :: 0 <= i < |s| && i != k ==> s[i].prev == (if i == k + 1 then At(s, k - 1) else At(s, i - 1));
    assert forall i {:trigger s[i].next} :: 0 <= i < |s| && i != k ==> s[i].next == (if i == k - 1 then At(s, k + 1) else At(s, i + 1));
    ClosedAppGap(s, k);
  }

  lemma ClosedAppGap(c: seq<Node>, k: nat)
    requires NoDup(c) && k < |c|
    requires forall i {:trigger c[i].prev} :: 0 <= i < |c| && i != k ==> c[i].prev == (if i == k + 1 then At(c, k - 1) else At(c, i - 1))
    requires forall i {:trigger c[i].next} :: 0 <= i < |c| && i != k ==> c[i].next == (if i == k - 1 then At(c, k + 1) else At(c, i + 1))
    ensures AppLinked(Without(c, c[k]))
  {
    WithoutAt(c, k);
    ClosedAppGapAt(c, k, Without(c, c[k]));
  }

  lemma ClosedAppGapAt(c: seq<Node>, k: nat, c': seq<Node>)
    requires NoDup(c) && k < |c|
    requires |c'| == |c| - 1 && forall i :: 0 <= i < |c'| ==> c'[i] == c[if i < k then i else i + 1]
    requires forall i {:trigger c[i].prev} :: 0 <= i < |c| && i != k ==> c[i].prev == (if i == k + 1 then At(c, k - 1) else At(c, i - 1))
    requires forall i {:trigger c[i].next} :: 0 <= i < |c| && i != k ==> c[i].next == (if i == k - 1 then At(c, k + 1) else At(c, i + 1))
    ensures AppLinked(c')
  {
  }

  ghost function PullOut(chains: seq<seq<Node>>, b: nat, hh: Node): seq<seq<Node>>
    requires b < |chains|
  {
    chains[b := Without(chains[b], hh)]
  }

  lemma PulledLength(chains: seq<seq<Node>>, b: nat, hh: Node)
    requires b < |chains|
    ensures |PullOut(chains, b, hh)| == |chains|
  {
  }

  ghost function Pulled(bs: seq<Bucket>, chains: seq<seq<Node>>, b: nat, hh: Node): seq<Bucket>
    requires b < |bs| == |chains| && bs[b].count > 0
  {
    bs[b := Bucket(At(Without(chains[b], hh), 0), bs[b].count - 1, bs[b].expandMult)]
  }

  lemma PullSlotted(chains: seq<seq<Node>>, nodes: set<Node>, hh: Node, b: nat)
    requires Slotted(chains, nodes) && b < |chains| && NoDup(chains[b]) && hh in chains[b]
    ensures Slotted(PullOut(chains, b, hh), nodes - {hh})
  {
    WithoutExact(chains[b], hh);
    ChainsApart(chains, nodes, b);
    var chains' := PullOut(chains, b, hh);
    forall j, n | 0 <= j < |chains'| && n in chains'[j]
      ensures n in nodes - {hh} && HashToBkt(n.hashv, |chains'|) == j
    {
      if j == b {
        WithoutMember(chains[b], hh, n);
      } else {
        assert n in chains[j] && n !in chains[b];
      }
    }
  }

  lemma PullCovered(chains: seq<seq<Node>>, nodes: set<Node>, hh: Node, b: nat)
    requires Covered(chains, nodes) && b < |chains| && NoDup(chains[b]) && hh in chains[b]
    ensures Covered(PullOut(chains, b, hh), nodes - {hh})
  {
    WithoutExact(chains[b], hh);
  }

  /** Taking a node off the chain that its hash selects keeps the placement of the others. */
  lemma PullPlaced(bs: seq<Bucket>, chains: seq<seq<Node>>, nodes: set<Node>, count: nat, hh: Node, b: nat)
    requires Placed(bs, chains, nodes, count) && hh in nodes
    requires b == HashToBkt(hh.hashv, |chains|) < |chains| && NoDup(chains[b])
    ensures count > 0 && bs[b].count > 0
    ensures Placed(Pulled(bs, chains, b, hh), PullOut(chains, b, hh), nodes - {hh}, count - 1)
  {
    hide HashToBkt, Slotted;
    PlacedParts(bs, chains, nodes, count);
    assert hh in chains[b];
    WithoutExact(chains[b], hh);
    PullSlotted(chains, nodes, hh, b);
    PullCovered(chains, nodes, hh, b);
    SumAtLeast(Count, bs, b);
    SumUpdate(Count, bs, b, Pulled(bs, chains, b, hh)[b]);
  }

  /** HASH_DEL_IN_BKT */
  method DelInBkt(bs: array<Bucket>, b: nat, hhDel: Node, ghost chains: seq<seq<Node>>, ghost nodes: set<Node>)
    requires b < bs.Length && BucketsMatch(bs[..], chains) && bs[b].count > 0
    requires AllChained(chains, nodes) && Slotted(chains, nodes) && hhDel in chains[b]
    modifies bs, nodes`hhPrev, nodes`hhNext
    ensures bs[..] == Pulled(old(bs[..]), chains, b, hhDel)
    ensures AllChained(PullOut(chains, b, hhDel), nodes - {hhDel})
  {
    hide HashToBkt, Without;
    ghost var before, c := bs[..], chains[b];
    ghost var k :| 0 <= k < |c| && c[k] == hhDel;
    ChainsApart(chains, nodes, b);
    PullSlotted(chains, nodes, hhDel, b);
    assert Inside(PullOut(chains, b, hhDel), nodes - {hhDel});
    assert ChainLinked(c) && before[b].hhHead == At(c, 0);
    WithoutExact(c, hhDel);
    HeadWithout(c, hhDel);
    bs[b] := bs[b].(count := bs[b].count - 1);
    if bs[b].hhHead == hhDel {
      bs[b] := bs[b].(hhHead := hhDel.hhNext);
    }
    assert bs[..] == Pulled(before, chains, b, hhDel);
    Unlink(hhDel, c, k);
    assert bs[..] == Pulled(before, chains, b, hhDel);
    forall j | 0 <= j < |chains| && j != b
      ensures ChainLinked(chains[j])
    {
    }
  }

  lemma HeadWithout(c: seq<Node>, x: Node)
    requires ChainLinked(c) && x in c
    ensures At(Without(c, x), 0) == if c[0] == x then x.hhNext else c[0]
  {
    if c[0] == x {
      assert c[0].hhNext == At(c, 1);
      assert Without(c, x) == c[1..];
    }
  }
}
