/** HASH_EXPAND_BUCKETS: how one old chain is dealt out to the doubled bucket array. */
module UthashExpand {
  import opened Bits
  import opened Sequences
  import opened UthashTypes
  import opened UthashLinks
  import opened LoadFactor

  /** The state of the new array while nodes move: complete for the nodes moved so far. */
  ghost predicate Partial(bs: seq<Bucket>, chains: seq<seq<Node>>, moved: set<Node>, count: nat, ideal: nat, nonideal: nat)
    requires ideal > 0
    reads moved`hashv, moved`hhPrev, moved`hhNext
  {
    && AllChained(chains, moved)
    && Placed(bs, chains, moved, count)
    && Recharged(bs, ideal)
    && nonideal == Sum(Excess(ideal), bs)
  }

  lemma RechargeStep(bs: seq<Bucket>, b: nat, hh: Node, ideal: nat)
    requires ideal > 0 && Recharged(bs, ideal) && b < |bs|
    ensures var count := bs[b].count + 1;
      var bs' := bs[b := Bucket(hh, count, MultFor(count, ideal))];
      && Recharged(bs', ideal)
      && Sum(Excess(ideal), bs') == Sum(Excess(ideal), bs) + (if count > ideal then 1 else 0)
      && (count <= ideal ==> bs[b].expandMult == 0)
  {
    SumUpdate(Excess(ideal), bs, b, Bucket(hh, bs[b].count + 1, MultFor(bs[b].count + 1, ideal)));
  }

  /** The new chains after the first k nodes of c have been dealt out in front of what was there. */
  ghost predicate Dealt(before: seq<seq<Node>>, after: seq<seq<Node>>, c: seq<Node>, slots: seq<nat>, k: nat) {
    && k <= |c| == |slots| && |before| == |after|
    && forall j :: 0 <= j < |after| ==> after[j] == Pushed(c, slots, k, j) + before[j]
  }

  lemma DealtStep(before: seq<seq<Node>>, after: seq<seq<Node>>, c: seq<Node>, slots: seq<nat>, k: nat)
    requires Dealt(before, after, c, slots, k) && k < |c| && slots[k] < |after|
    ensures Dealt(before, PushOn(after, slots[k], c[k]), c, slots, k + 1)
  {
    forall j | 0 <= j < |after|
      ensures PushOn(after, slots[k], c[k])[j] == Pushed(c, slots, k + 1, j) + before[j]
    {
      PushedMore(c, slots, k, j);
      if j == slots[k] {
        Regroup([c[k]], Pushed(c, slots, k, j), before[j]);
      }
    }
  }

  lemma PushedMore(c: seq<Node>, slots: seq<nat>, k: nat, j: nat)
    requires k < |c| == |slots|
    ensures Pushed(c, slots, k + 1, j) == if slots[k] == j then [c[k]] + Pushed(c, slots, k, j) else Pushed(c, slots, k, j)
  {
    PrependNil(Pushed(c, slots, k, j));
  }

  /** One round of the outer loop: walk the old chain c, dealing its nodes out. */
  method MoveChain(first: Node?, bs: array<Bucket>, log2: nat, ideal: nat, nonideal: nat,
                   ghost c: seq<Node>, ghost slots: seq<nat>,
                   ghost chains: seq<seq<Node>>, ghost moved: set<Node>, ghost count: nat)
    returns (nonideal': nat, ghost chains': seq<seq<Node>>, ghost moved': set<Node>)
    requires ideal > 0 && bs.Length == Pow2(log2) && Partial(bs[..], chains, moved, count, ideal, nonideal)
    requires first == At(c, 0) && NoDup(c) && Forward(c, 0) && forall n :: n in c ==> n !in moved
    requires SlotsOf(c, bs.Length, slots)
    modifies bs, moved`hhPrev, Elems(c)`hhPrev, Elems(c)`hhNext
    ensures moved' == moved + Elems(c)
    ensures Partial(bs[..], chains', moved', count + |c|, ideal, nonideal')
    ensures Dealt(chains, chains', c, slots, |c|)
  {
    hide *;
    var thh := first;
    nonideal', chains', moved' := nonideal, chains, moved;
    ghost var k := 0;
    TakenAll(moved, c);
    WalkStart(bs[..], chains, c, slots, moved, count, ideal, nonideal);
    while thh != null
      invariant k <= |c| && thh == At(c, k) && Forward(c, k) && SlotsOf(c, bs.Length, slots)
      invariant |chains'| == bs.Length && moved' == Taken(moved, c, k)
      invariant Partial(bs[..], chains', moved', count + k, ideal, nonideal')
      invariant Dealt(chains, chains', c, slots, k)
      decreases |c| - k
    {
      var hh: Node := thh;
      var next := hh.hhNext;
      WalkStep(c, slots, bs.Length, k, hh, log2);
      var bkt := HashToBkt(hh.hashv, bs.Length);
      TakenStep(moved, c, k);
      DealtStep(chains, chains', c, slots, k);
      nonideal' := MoveNode(hh, bs, bkt, ideal, nonideal', chains', moved', count + k, c, k);
      chains' := PushOn(chains', bkt, hh);
      moved' := moved' + {hh};
      k := k + 1;
      thh := next;
    }
    WalkEnd(c, k);
  }

  lemma WalkStep(c: seq<Node>, slots: seq<nat>, m: nat, k: nat, hh: Node, log2: nat)
    requires k <= |c| && hh == At(c, k) && Forward(c, k) && m == Pow2(log2) && SlotsOf(c, m, slots)
    ensures k < |c| && hh == c[k] && hh.hhNext == At(c, k + 1)
    ensures slots[k] == HashToBkt(hh.hashv, m) < m
  {
    assert c[k].hhNext == At(c, k + 1);
    BktInRange(hh.hashv, log2);
  }

  lemma WalkEnd(c: seq<Node>, k: nat)
    requires k <= |c| && At(c, k) == null
    ensures k == |c|
  {
  }

  lemma WalkStart(bs: seq<Bucket>, chains: seq<seq<Node>>, c: seq<Node>, slots: seq<nat>, moved: set<Node>,
                  count: nat, ideal: nat, nonideal: nat)
    requires ideal > 0 && Partial(bs, chains, moved, count, ideal, nonideal)
    requires |bs| > 0 && SlotsOf(c, |bs|, slots)
    ensures |chains| == |bs|
    ensures Dealt(chains, chains, c, slots, 0)
  {
    forall j | 0 <= j < |chains|
      ensures chains[j] == Pushed(c, slots, 0, j) + chains[j]
    {
      PrependNil(chains[j]);
    }
  }

  lemma PushedLength(chains: seq<seq<Node>>, b: nat, hh: Node)
    requires b < |chains|
    ensures |PushOn(chains, b, hh)| == |chains|
  {
  }

  /** No later position holds the same node. */
  lemma NotAhead(c: seq<Node>, k: nat)
    requires NoDup(c) && k < |c|
    ensures forall i {:trigger c[i].hhNext} :: k < i < |c| ==> c[i] != c[k]
  {
  }

  lemma MultAsComputed(count: nat, ideal: nat)
    requires ideal > 0
    ensures MultFor(count, ideal) == if count > ideal then count / ideal else 0
  {
    QuotientIsDiv(count, ideal);
  }

  method MoveNode(thh: Node, bs: array<Bucket>, bkt: nat, ideal: nat, nonideal: nat,
                  ghost chains: seq<seq<Node>>, ghost moved: set<Node>, ghost count: nat,
                  ghost c: seq<Node>, ghost k: nat)
    returns (nonideal': nat)
    requires ideal > 0 && Partial(bs[..], chains, moved, count, ideal, nonideal)
    requires thh !in moved && bkt < bs.Length && bkt == HashToBkt(thh.hashv, bs.Length)
    requires NoDup(c) && Forward(c, k) && k < |c| && c[k] == thh
    modifies bs, moved`hhPrev, thh`hhPrev, thh`hhNext
    ensures Forward(c, k + 1)
    ensures |PushOn(chains, bkt, thh)| == bs.Length
    ensures Partial(bs[..], PushOn(chains, bkt, thh), moved + {thh}, count + 1, ideal, nonideal')
  {
    hide Recharged, MultFor, Excess, Sum, PushOn, HashToBkt, Slotted, Covered, BucketsMatch;
    ghost var before := bs[..];
    PlacedParts(before, chains, moved, count);
    PushedLength(chains, bkt, thh);
    NotAhead(c, k);
    var bktCount, mult := bs[bkt].count + 1, bs[bkt].expandMult;
    nonideal' := nonideal;
    if bktCount > ideal {
      nonideal' := nonideal + 1;
      mult := bktCount / ideal;
    }
    MultAsComputed(bktCount, ideal);
    RechargeStep(before, bkt, thh, ideal);
    PushPlaced(before, chains, moved, count, thh, bkt, mult);
    PushFront(bs, bkt, thh, mult, chains, moved);
    assert Recharged(bs[..], ideal) && nonideal' == Sum(Excess(ideal), bs[..]);
    assert Placed(bs[..], PushOn(chains, bkt, thh), moved + {thh}, count + 1);
    assert AllChained(PushOn(chains, bkt, thh), moved + {thh});
  }

  /** The old chain that feeds new chain j when b chains become 2 * b. */
  function Source(j: nat, b: nat): nat {
    if j < b then j else j - b
  }

  /** After i rounds: the chains fed by the first i old chains are complete, the others still empty. */
  ghost predicate Progress(was: seq<seq<Node>>, slots: seq<seq<nat>>, chains: seq<seq<Node>>, i: nat) {
    && |slots| == |was| && |chains| == 2 * |was|
    && (forall b :: 0 <= b < |was| ==> |slots[b]| == |was[b]|)
    && forall j :: 0 <= j < |chains| ==>
         chains[j] == var b := Source(j, |was|); if b < i then Pushed(was[b], slots[b], |was[b]|, j) else []
  }

  lemma ProgressStep(was: seq<seq<Node>>, slots: seq<seq<nat>>, chains: seq<seq<Node>>, chains': seq<seq<Node>>, i: nat)
    requires i < |was| && Progress(was, slots, chains, i)
    requires Dealt(chains, chains', was[i], slots[i], |was[i]|)
    requires forall k :: 0 <= k < |slots[i]| ==> slots[i][k] == i || slots[i][k] == i + |was|
    ensures Progress(was, slots, chains', i + 1)
  {
    forall j | 0 <= j < |chains'|
      ensures chains'[j] == var b := Source(j, |was|); if b < i + 1 then Pushed(was[b], slots[b], |was[b]|, j) else []
    {
      var p := Pushed(was[i], slots[i], |was[i]|, j);
      assert chains'[j] == p + chains[j];
      if Source(j, |was|) == i {
        AppendNil(p);
      } else {
        PushedNone(was[i], slots[i], |was[i]|, j);
        PrependNil(chains[j]);
      }
    }
  }

  // ---- the outer loop ----

  ghost predicate AllForward(chains: seq<seq<Node>>, nodes: set<Node>, i: nat)
    reads nodes`hhNext
  {
    Inside(chains, nodes) && forall b :: i <= b < |chains| ==> Forward(chains[b], 0)
  }

  /** The nodes of the first i old chains have moved, and no others. */
  ghost predicate MovedUpTo(moved: set<Node>, nodes: set<Node>, m: nat, i: nat)
    requires m > 0
    reads nodes`hashv
  {
    moved <= nodes && forall n :: n in nodes ==> (n in moved <==> HashToBkt(n.hashv, m) < i)
  }

  lemma MovedStep(chains: seq<seq<Node>>, nodes: set<Node>, moved: set<Node>, i: nat)
    requires i < |chains| && Slotted(chains, nodes) && Covered(chains, nodes)
    requires MovedUpTo(moved, nodes, |chains|, i)
    ensures forall n :: n in chains[i] ==> n !in moved
    ensures MovedUpTo(moved + Elems(chains[i]), nodes, |chains|, i + 1)
  {
  }

  ghost predicate AllSlotsOf(chains: seq<seq<Node>>, nodes: set<Node>, slots: seq<seq<nat>>)
    reads nodes`hashv
  {
    && Inside(chains, nodes) && |slots| == |chains|
    && forall b :: 0 <= b < |chains| ==>
         (forall n :: n in chains[b] ==> n in nodes) && SlotsOf(chains[b], 2 * |chains|, slots[b])
  }

  lemma SlotsDouble(chains: seq<seq<Node>>, nodes: set<Node>, slots: seq<seq<nat>>, log2: nat, i: nat)
    requires i < |chains| == Pow2(log2) && Slotted(chains, nodes) && AllSlotsOf(chains, nodes, slots)
    ensures forall k :: 0 <= k < |slots[i]| ==> slots[i][k] == i || slots[i][k] == i + |chains|
    ensures SlotsOf(chains[i], Pow2(log2 + 1), slots[i])
  {
    var c := chains[i];
    assert SlotsOf(c, 2 * |chains|, slots[i]);
    forall k | 0 <= k < |c|
      ensures slots[i][k] == i || slots[i][k] == i + |chains|
    {
      assert c[k] in c;
      BktDoubles(c[k].hashv, log2);
      assert Pow2(log2 + 1) == 2 * |chains|;
    }
  }

  method MoveRound(i: nat, oldBuckets: array<Bucket>, newBuckets: array<Bucket>, log2: nat, ideal: nat, nonideal: nat,
                   ghost chains: seq<seq<Node>>, ghost nodes: set<Node>, ghost slots: seq<seq<nat>>,
                   ghost newChains: seq<seq<Node>>, ghost moved: set<Node>, ghost count: nat)
    returns (nonideal': nat, ghost newChains': seq<seq<Node>>, ghost moved': set<Node>)
    requires ideal > 0 && i < oldBuckets.Length == Pow2(log2) == |chains| && newBuckets.Length == Pow2(log2 + 1)
    requires oldBuckets[i].hhHead == At(chains[i], 0) && NoDup(chains[i])
    requires Slotted(chains, nodes) && Covered(chains, nodes) && AllForward(chains, nodes, i)
    requires AllSlotsOf(chains, nodes, slots)
    requires Partial(newBuckets[..], newChains, moved, count, ideal, nonideal)
    requires MovedUpTo(moved, nodes, |chains|, i)
    requires Progress(chains, slots, newChains, i)
    modifies newBuckets, nodes`hhPrev, nodes`hhNext
    ensures Partial(newBuckets[..], newChains', moved', count + |chains[i]|, ideal, nonideal')
    ensures Progress(chains, slots, newChains', i + 1)
    ensures MovedUpTo(moved', nodes, |chains|, i + 1)
    ensures AllForward(chains, nodes, i + 1)
  {
    hide Partial, Dealt, Progress, HashToBkt, Covered, MovedUpTo, Pow2;
    SlotsDouble(chains, nodes, slots, log2, i);
    ghost var c := chains[i];
    assert Forward(c, 0);
    MovedStep(chains, nodes, moved, i);
    ChainsApart(chains, nodes, i);
    nonideal', newChains', moved' := MoveChain(oldBuckets[i].hhHead, newBuckets, log2 + 1, ideal, nonideal,
      c, slots[i], newChains, moved, count);
    ProgressStep(chains, slots, newChains, newChains', i);
    forall b | i + 1 <= b < |chains|
      ensures Forward(chains[b], 0)
    {
    }
  }

  ghost function SlotList(c: seq<Node>, m: nat): (slots: seq<nat>)
    requires m > 0
    reads c`hashv
    ensures SlotsOf(c, m, slots)
  {
    if c == [] then [] else [HashToBkt(c[0].hashv, m)] + SlotList(c[1..], m)
  }

  /** The slots of every node of every chain after a doubling. */
  ghost function AllSlots(chains: seq<seq<Node>>, nodes: set<Node>, k: nat): (slots: seq<seq<nat>>)
    requires k <= |chains| && Inside(chains, nodes)
    reads nodes`hashv
    ensures |slots| == k
    ensures forall b :: 0 <= b < k ==>
      (forall n :: n in chains[b] ==> n in nodes) && SlotsOf(chains[b], 2 * |chains|, slots[b])
  {
    if k == 0 then []
    else
      assert forall n :: n in chains[k - 1] ==> n in nodes;
      AllSlots(chains, nodes, k - 1) + [SlotList(chains[k - 1], 2 * |chains|)]
  }

  /** New chain j holds the nodes of old chain j mod |was| whose hash selects slot j, in reverse order. */
  ghost predicate Split(was: seq<seq<Node>>, slots: seq<seq<nat>>, chains: seq<seq<Node>>) {
    Progress(was, slots, chains, |was|)
  }

  /** The nested loops: every node of every old chain moves to the new array. */
  method MoveAll(oldBuckets: array<Bucket>, newBuckets: array<Bucket>, log2: nat, ideal: nat,
                 ghost chains: seq<seq<Node>>, ghost nodes: set<Node>, ghost count: nat)
    returns (nonideal: nat, ghost newChains: seq<seq<Node>>, ghost slots: seq<seq<nat>>)
    requires ideal > 0 && oldBuckets != newBuckets
    requires oldBuckets.Length == Pow2(log2) && newBuckets.Length == Pow2(log2 + 1)
    requires AllChained(chains, nodes) && Placed(oldBuckets[..], chains, nodes, count)
    requires forall j :: 0 <= j < newBuckets.Length ==> newBuckets[j] == Bucket(null, 0, 0)
    modifies newBuckets, nodes`hhPrev, nodes`hhNext
    ensures Partial(newBuckets[..], newChains, nodes, count, ideal, nonideal)
    ensures Split(chains, slots, newChains)
    ensures AllSlotsOf(chains, nodes, slots)
  {
    hide *;
    nonideal, newChains := 0, seq(newBuckets.Length, _ => []);
    ghost var moved: set<Node> := {};
    ghost var bs := oldBuckets[..];
    var i := 0;
    slots := RoundsStart(bs, newBuckets[..], chains, nodes, newChains, count, ideal, log2);
    while i < oldBuckets.Length
      invariant i <= oldBuckets.Length
      invariant Slotted(chains, nodes) && Covered(chains, nodes) && AllForward(chains, nodes, i)
      invariant AllSlotsOf(chains, nodes, slots)
      invariant Partial(newBuckets[..], newChains, moved, Sum(Count, bs[..i]), ideal, nonideal)
      invariant MovedUpTo(moved, nodes, |chains|, i)
      invariant Progress(chains, slots, newChains, i)
    {
      RoundFacts(bs, chains, i);
      nonideal, newChains, moved := MoveRound(i, oldBuckets, newBuckets, log2, ideal, nonideal,
        chains, nodes, slots, newChains, moved, Sum(Count, bs[..i]));
      i := i + 1;
    }
    RoundsDone(chains, nodes, moved, slots, newChains, log2);
    assert bs[..i] == bs;
  }

  lemma RoundFacts(bs: seq<Bucket>, chains: seq<seq<Node>>, i: nat)
    requires i < |bs| && BucketsMatch(bs, chains) && AllNoDup(chains)
    ensures bs[i].hhHead == At(chains[i], 0) && NoDup(chains[i])
    ensures Sum(Count, bs[..i + 1]) == Sum(Count, bs[..i]) + |chains[i]|
  {
    SumPrefix(Count, bs, i);
  }

  lemma RoundsStart(bs: seq<Bucket>, newBs: seq<Bucket>, chains: seq<seq<Node>>, nodes: set<Node>,
                    newChains: seq<seq<Node>>, count: nat, ideal: nat, log2: nat)
    returns (slots: seq<seq<nat>>)
    requires ideal > 0 && |bs| == Pow2(log2) && |newBs| == Pow2(log2 + 1) == |newChains|
    requires AllChained(chains, nodes) && Placed(bs, chains, nodes, count)
    requires forall j :: 0 <= j < |newBs| ==> newBs[j] == Bucket(null, 0, 0) && newChains[j] == []
    ensures |chains| == |bs| && |newBs| == 2 * |bs|
    ensures Slotted(chains, nodes) && Covered(chains, nodes) && BucketsMatch(bs, chains) && AllNoDup(chains)
    ensures AllSlotsOf(chains, nodes, slots) && AllForward(chains, nodes, 0)
    ensures Partial(newBs, newChains, {}, Sum(Count, bs[..0]), ideal, 0)
    ensures MovedUpTo({}, nodes, |chains|, 0) && Progress(chains, slots, newChains, 0)
    ensures Sum(Count, bs) == count
  {
    slots := AllSlots(chains, nodes, |chains|);
    EmptyPartial(newBs, newChains, ideal);
    ChainsForward(chains, nodes);
    NothingMoved(chains, nodes, slots, newChains);
  }

  lemma NothingMoved(chains: seq<seq<Node>>, nodes: set<Node>, slots: seq<seq<nat>>, newChains: seq<seq<Node>>)
    requires |chains| > 0 && AllSlotsOf(chains, nodes, slots)
    requires |newChains| == 2 * |chains| && forall j :: 0 <= j < |newChains| ==> newChains[j] == []
    ensures MovedUpTo({}, nodes, |chains|, 0)
    ensures Progress(chains, slots, newChains, 0)
  {
    assert forall b :: 0 <= b < |chains| ==> SlotsOf(chains[b], 2 * |chains|, slots[b]);
  }

  lemma RoundsDone(chains: seq<seq<Node>>, nodes: set<Node>, moved: set<Node>, slots: seq<seq<nat>>,
                   newChains: seq<seq<Node>>, log2: nat)
    requires |chains| == Pow2(log2) && MovedUpTo(moved, nodes, |chains|, |chains|)
    requires Progress(chains, slots, newChains, |chains|)
    ensures moved == nodes && Split(chains, slots, newChains)
  {
    MovedAll(nodes, moved, log2);
  }

  ghost predicate AllNoDup(chains: seq<seq<Node>>) {
    forall b :: 0 <= b < |chains| ==> NoDup(chains[b])
  }

  lemma EmptyPartial(bs: seq<Bucket>, chains: seq<seq<Node>>, ideal: nat)
    requires ideal > 0 && |bs| == |chains| > 0
    requires forall j :: 0 <= j < |bs| ==> bs[j] == Bucket(null, 0, 0) && chains[j] == []
    ensures Partial(bs, chains, {}, 0, ideal, 0)
  {
    SumZero(Count, bs);
    SumZero(Excess(ideal), bs);
  }

  lemma ChainsForward(chains: seq<seq<Node>>, nodes: set<Node>)
    requires AllChained(chains, nodes)
    ensures AllForward(chains, nodes, 0)
    ensures AllNoDup(chains)
  {
    assert forall b :: 0 <= b < |chains| ==> ChainLinked(chains[b]);
  }

  lemma MovedAll(nodes: set<Node>, moved: set<Node>, log2: nat)
    requires MovedUpTo(moved, nodes, Pow2(log2), Pow2(log2))
    ensures moved == nodes
  {
    forall n | n in nodes
      ensures n in moved
    {
      BktInRange(n.hashv, log2);
    }
  }
}
