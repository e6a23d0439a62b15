/**
 The intrusive hash table of src/uthash.h. Every element lies on two doubly
 linked structures: the application order, with a cached tail, and the chain of
 its bucket.
 */
module Uthash {
  import opened Bits
  import opened UthashTypes
  import opened UthashLinks
  import opened LoadFactor
  import opened UthashExpand
  import Bloom
  import opened StableSort
  import opened UthashSort

  datatype Policy = Steering(idealChainMaxlen: nat, nonidealItems: nat, ineffExpands: nat, noexpand: nat, expansions: seq<bool>)

  /** ineff counts the ineffective expansions at the end; two in a row occur nowhere but there. */
  ghost predicate Remembered(history: seq<bool>, ineff: nat) {
    && ineff <= 2 && ineff <= |history|
    && (forall i :: |history| - ineff <= i < |history| ==> history[i])
    && (ineff < |history| && ineff < 2 ==> !history[|history| - 1 - ineff])
    && (forall i :: 0 <= i < |history| - 2 ==> !(history[i] && history[i + 1]))
  }

  lemma RememberedNext(history: seq<bool>, ineff: nat, bad: bool)
    requires Remembered(history, ineff) && ineff <= 1
    ensures Remembered(history + [bad], if bad then ineff + 1 else 0)
  {
  }

  class HashTable {
    /** HASH_FCN */
    const hash: Key -> Word
    /** HASH_BLOOM */
    const bloomMode: BloomMode

    /** The application's head pointer; the other fields are those of UT_hash_table, live while head is not NULL. */
    var head: Node?
    var tail: Node?
    var buckets: array<Bucket>
    var numBuckets: nat
    var log2NumBuckets: nat
    var numItems: nat
    var idealChainMaxlen: nat
    var nonidealItems: nat
    var ineffExpands: nat
    var noexpand: nat
    var bloomBv: array<bv8>

    /** The application order and the bucket chains. */
    ghost var app: seq<Node>
    ghost var chains: seq<seq<Node>>
    /** The hash values added since the table was made. */
    ghost var marked: set<Word>
    /** For each expansion since the table was made, whether it was ineffective. */
    ghost var expansions: seq<bool>

    /** The buckets hold exactly the given nodes, each in the chain that its hash selects. */
    ghost predicate Structure(nodes: set<Node>, count: nat)
      reads `buckets, `numBuckets, `log2NumBuckets, `chains, buckets, nodes`hashv, nodes`hhPrev, nodes`hhNext
    {
      && numBuckets == Pow2(log2NumBuckets)
      && buckets.Length == numBuckets == |chains|
      && AllChained(chains, nodes)
      && Placed(buckets[..], chains, nodes, count)
    }

    /** What the table remembers of its expansions. */
    ghost predicate Recorded()
      reads `noexpand, `ineffExpands, `log2NumBuckets, `expansions
    {
      && (noexpand == 1 <==> ineffExpands > 1)
      && Remembered(expansions, ineffExpands)
      && log2NumBuckets == INITIAL_NUM_BUCKETS_LOG2 + |expansions|
    }

    ghost predicate Loaded()
      reads `noexpand, `ineffExpands, `log2NumBuckets, `expansions, `buckets, buckets
    {
      Recorded() && (noexpand != 1 ==> Balanced(buckets[..]))
    }

    /** The fields that steer expansion. */
    ghost function Policy(): Policy
      reads `idealChainMaxlen, `nonidealItems, `ineffExpands, `noexpand, `expansions
    {
      Steering(idealChainMaxlen, nonidealItems, ineffExpands, noexpand, expansions)
    }

    lemma PolicyIs()
      ensures Policy() == Steering(idealChainMaxlen, nonidealItems, ineffExpands, noexpand, expansions)
    {
    }

    lemma RecordedParts()
      requires Recorded()
      ensures noexpand == 1 <==> ineffExpands > 1
      ensures Remembered(expansions, ineffExpands) && log2NumBuckets == INITIAL_NUM_BUCKETS_LOG2 + |expansions|
    {
    }

    lemma RecordedNext(history: seq<bool>, ineff: nat)
      requires Remembered(history, ineff) && ineff <= 1
      requires expansions == history + [nonidealItems > Shr(numItems, 1)]
      requires ineffExpands == (if nonidealItems > Shr(numItems, 1) then ineff + 1 else 0)
      requires noexpand == 1 <==> ineffExpands > 1
      requires log2NumBuckets == INITIAL_NUM_BUCKETS_LOG2 + |expansions|
      ensures Recorded() && expansions == history + [nonidealItems > numItems / 2]
    {
      RememberedNext(history, ineff, nonidealItems > Shr(numItems, 1));
      assert Shr(numItems, 1) == Shr(numItems / 2, 0);
    }

    lemma Parts(nodes: set<Node>, count: nat)
      requires Structure(nodes, count)
      ensures numBuckets == Pow2(log2NumBuckets) && buckets.Length == numBuckets == |chains|
      ensures AllChained(chains, nodes) && Placed(buckets[..], chains, nodes, count)
    {
    }

    /** What an expansion records about the doubled array. */
    ghost predicate Expanded(oldBuckets: nat, oldIneff: nat, oldExpansions: seq<bool>)
      reads `buckets, `numBuckets, `numItems, buckets
      reads `idealChainMaxlen, `nonidealItems, `ineffExpands, `noexpand, `expansions
    {
      && numBuckets == 2 * oldBuckets
      && 1 <= idealChainMaxlen <= 10 && IsCeil(idealChainMaxlen, numItems, numBuckets)
      && Recharged(buckets[..], idealChainMaxlen)
      && nonidealItems == Sum(Excess(idealChainMaxlen), buckets[..])
      && ineffExpands == (if nonidealItems > numItems / 2 then oldIneff + 1 else 0)
      && expansions == oldExpansions + [nonidealItems > numItems / 2]
    }

    lemma AfterMoves(nodes: set<Node>, oldBuckets: nat, oldIneff: nat, oldExpansions: seq<bool>)
      requires numBuckets == Pow2(log2NumBuckets) == buckets.Length && log2NumBuckets > 0 && numBuckets == 2 * oldBuckets
      requires 1 <= numItems <= 20 * oldBuckets
      requires idealChainMaxlen == IdealChainMaxlen(numItems, log2NumBuckets) > 0
      requires Partial(buckets[..], chains, nodes, numItems, idealChainMaxlen, nonidealItems)
      requires ineffExpands == (if nonidealItems > Shr(numItems, 1) then oldIneff + 1 else 0)
      requires expansions == oldExpansions + [nonidealItems > numItems / 2]
      ensures Structure(nodes, numItems) && Balanced(buckets[..]) && Expanded(oldBuckets, oldIneff, oldExpansions)
    {
      IdealBounds(numItems, log2NumBuckets - 1);
      IdealIsCeil(numItems, log2NumBuckets);
      ExpandRestoresBalance(buckets[..], numItems, log2NumBuckets - 1);
      assert Shr(numItems, 1) == Shr(numItems / 2, 0);
    }

    static lemma ComputedIdeal(n: nat, m: nat, log2: nat)
      requires m == Pow2(log2) && 1 <= n <= 20 * m
      ensures Pow2(log2 + 1) == 2 * m
      ensures Shr(n, log2 + 1) + (if And(n, m * 2 - 1) != 0 then 1 else 0) == IdealChainMaxlen(n, log2 + 1) > 0
    {
      IdealBounds(n, log2);
    }

    lemma Flags()
      requires Recorded() && (noexpand != 1 ==> Balanced(buckets[..]))
      ensures Loaded()
    {
    }

    /** The end of HASH_EXPAND_BUCKETS: the new array replaces the old one, and the outcome is recorded. */
    method AdoptBuckets(newBuckets: array<Bucket>, ghost newChains: seq<seq<Node>>, ghost nodes: set<Node>)
      requires numBuckets == Pow2(log2NumBuckets) && newBuckets.Length == Pow2(log2NumBuckets + 1) == 2 * numBuckets
      requires 1 <= numItems <= 20 * numBuckets && noexpand != 1 && Recorded()
      requires idealChainMaxlen == IdealChainMaxlen(numItems, log2NumBuckets + 1) > 0
      requires Partial(newBuckets[..], newChains, nodes, numItems, idealChainMaxlen, nonidealItems)
      modifies this`buckets, this`numBuckets, this`log2NumBuckets, this`chains, this`ineffExpands, this`noexpand, this`expansions
      ensures Structure(nodes, numItems) && Loaded() && buckets == newBuckets && chains == newChains
      ensures Expanded(old(numBuckets), old(ineffExpands), old(expansions))
    {
      hide *;
      RecordedParts();
      buckets, numBuckets, log2NumBuckets, chains := newBuckets, numBuckets * 2, log2NumBuckets + 1, newChains;
      ineffExpands := if nonidealItems > Shr(numItems, 1) then ineffExpands + 1 else 0;
      if ineffExpands > 1 {
        noexpand := 1;
      }
      expansions := expansions + [nonidealItems > Shr(numItems, 1)];
      RecordedNext(old(expansions), old(ineffExpands));
      AfterMoves(nodes, old(numBuckets), old(ineffExpands), old(expansions));
      Flags();
    }

    /** HASH_EXPAND_BUCKETS */
    method ExpandBuckets(ghost nodes: set<Node>)
      requires Structure(nodes, numItems) && noexpand != 1 && Recorded()
      requires 1 <= numItems <= 20 * numBuckets
      modifies this`buckets, this`numBuckets, this`log2NumBuckets, this`chains, this`idealChainMaxlen
      modifies this`nonidealItems, this`ineffExpands, this`noexpand, this`expansions
      modifies nodes`hhPrev, nodes`hhNext
      ensures Structure(nodes, numItems) && Loaded() && fresh(buckets)
      ensures Expanded(old(numBuckets), old(ineffExpands), old(expansions))
      ensures exists slots :: AllSlotsOf(old(chains), nodes, slots) && Split(old(chains), slots, chains)
    {
      hide Structure, AllChained, Placed, Balanced, Loaded, Remembered, AllSlotsOf, Split, Expanded, Pow2, Shr, And, Partial, Sum, IdealChainMaxlen;
      Parts(nodes, numItems);
      ComputedIdeal(numItems, numBuckets, log2NumBuckets);
      idealChainMaxlen := Shr(numItems, log2NumBuckets + 1)
        + if And(numItems, numBuckets * 2 - 1) != 0 then 1 else 0;
      nonidealItems := 0;
      var newBuckets := new Bucket[2 * numBuckets](_ => Bucket(null, 0, 0));
      ghost var newChains, slots;
      nonidealItems, newChains, slots := MoveAll(buckets, newBuckets, log2NumBuckets, idealChainMaxlen,
        chains, nodes, numItems);
      assert Recorded();
      AdoptBuckets(newBuckets, newChains, nodes);
      assert AllSlotsOf(old(chains), nodes, slots) && Split(old(chains), slots, chains);
    }

    lemma BeforeExpand(bs: seq<Bucket>, nodes: set<Node>, was: seq<seq<Node>>)
      requires numItems > 0 && Placed(bs, was, nodes, numItems - 1) && Balanced(bs)
      ensures 1 <= numItems <= 20 * |bs|
    {
      LoadBound(bs);
    }

    /** Where the nodes are after an addition: pushed on the chain of slot b, then split if the table grew. */
    ghost predicate Grown(was: seq<seq<Node>>, b: nat, add: Node, nodes: set<Node>, grows: bool)
      requires b < |was|
      reads `chains, nodes`hashv
    {
      var pushed := was[b := [add] + was[b]];
      if grows then exists slots :: AllSlotsOf(pushed, nodes, slots) && Split(pushed, slots, chains)
      else chains == pushed
    }

    lemma AfterPush(bs: seq<Bucket>, nodes: set<Node>, was: seq<seq<Node>>, b: nat, add: Node)
      requires numItems > 0 && Placed(bs, was, nodes, numItems - 1) && add !in nodes
      requires b == HashToBkt(add.hashv, |was|) < |was| && chains == PushOn(was, b, add)
      requires numBuckets == Pow2(log2NumBuckets) == buckets.Length == |was|
      requires buckets[..] == bs[b := Bucket(add, bs[b].count + 1, bs[b].expandMult)]
      requires AllChained(chains, nodes + {add})
      ensures Structure(nodes + {add}, numItems)
    {
      PushPlaced(bs, was, nodes, numItems - 1, add, b, bs[b].expandMult);
    }

    lemma StaysBalanced(bs: seq<Bucket>, b: nat, add: Node)
      requires b < |bs| && noexpand != 1 && Balanced(bs)
      requires bs[b].count + 1 < (bs[b].expandMult + 1) * BKT_CAPACITY_THRESH
      requires buckets[..] == bs[b := Bucket(add, bs[b].count + 1, bs[b].expandMult)]
      ensures Balanced(buckets[..])
    {
      AddKeepsBalance(bs, b, Bucket(add, bs[b].count + 1, bs[b].expandMult));
    }

    lemma LoadedParts()
      requires Loaded()
      ensures Recorded() && (noexpand != 1 ==> Balanced(buckets[..]))
    {
    }

    /** HASH_ADD_TO_BKT */
    method AddToBkt(b: nat, add: Node, ghost nodes: set<Node>)
      requires numItems > 0 && Structure(nodes, numItems - 1) && Loaded()
      requires add !in nodes && b == HashToBkt(add.hashv, numBuckets) < numBuckets
      modifies this`buckets, this`numBuckets, this`log2NumBuckets, this`chains, this`idealChainMaxlen
      modifies this`nonidealItems, this`ineffExpands, this`noexpand, this`expansions
      modifies buckets, add`hhPrev, add`hhNext, nodes`hhPrev, nodes`hhNext
      ensures Structure(nodes + {add}, numItems) && Loaded()
      ensures buckets == old(buckets) || fresh(buckets)
      ensures Added(old(chains), old(buckets[..]), old(Policy()), b, add, nodes + {add})
    {
      hide *;
      ghost var bs, was := buckets[..], chains;
      PolicyIs();
      Parts(nodes, numItems - 1);
      LoadedParts();
      PlacedParts(bs, was, nodes, numItems - 1);
      PushFront(buckets, b, add, buckets[b].expandMult, was, nodes);
      chains := PushOn(was, b, add);
      AfterPush(bs, nodes, was, b, add);
      if buckets[b].count >= (buckets[b].expandMult + 1) * BKT_CAPACITY_THRESH && noexpand != 1 {
        BeforeExpand(bs, nodes, was);
        ExpandBuckets(nodes + {add});
        Grew(was, b, add, nodes + {add});
        AddedGrowing(was, bs, old(Policy()), b, add, nodes + {add});
      } else {
        if noexpand != 1 {
          StaysBalanced(bs, b, add);
        }
        Flags();
        DidNotGrow(was, b, add, nodes + {add});
        PolicyIs();
        AddedOnly(was, bs, old(Policy()), b, add, nodes + {add});
      }
    }

    /** An addition that does not expand changes one bucket record and nothing else of the table. */
    ghost predicate OnlyPushed(policy: Policy, bs: seq<Bucket>, b: nat, add: Node)
      requires b < |bs|
      reads `buckets, `numBuckets, buckets
      reads `idealChainMaxlen, `nonidealItems, `ineffExpands, `noexpand, `expansions
    {
      Policy() == policy && numBuckets == |bs| && buckets[..] == bs[b := Bucket(add, bs[b].count + 1, bs[b].expandMult)]
    }

    /**
     An addition to slot b of a table with the given chains, bucket records and policy: it doubles
     the table exactly when it takes the chain to its threshold and expansion is not inhibited.
     */
    ghost predicate Added(was: seq<seq<Node>>, bs: seq<Bucket>, policy: Policy, b: nat, add: Node, nodes: set<Node>)
      reads `buckets, `numBuckets, `chains, `numItems, buckets, nodes`hashv
      reads `idealChainMaxlen, `nonidealItems, `ineffExpands, `noexpand, `expansions
    {
      && b < |was| == |bs|
      && var grows := policy.noexpand != 1 && bs[b].count + 1 >= (bs[b].expandMult + 1) * 10;
      && Grown(was, b, add, nodes, grows)
      && if grows then Expanded(|bs|, policy.ineffExpands, policy.expansions) else OnlyPushed(policy, bs, b, add)
    }

    lemma AddedGrowing(was: seq<seq<Node>>, bs: seq<Bucket>, policy: Policy, b: nat, add: Node, nodes: set<Node>)
      requires b < |was| == |bs| && Grown(was, b, add, nodes, true) && Expanded(|bs|, policy.ineffExpands, policy.expansions)
      requires policy.noexpand != 1 && bs[b].count + 1 >= (bs[b].expandMult + 1) * BKT_CAPACITY_THRESH
      ensures Added(was, bs, policy, b, add, nodes)
    {
    }

    lemma AddedOnly(was: seq<seq<Node>>, bs: seq<Bucket>, policy: Policy, b: nat, add: Node, nodes: set<Node>)
      requires b < |was| == |bs| == numBuckets && Grown(was, b, add, nodes, false) && Policy() == policy
      requires buckets[..] == bs[b := Bucket(add, bs[b].count + 1, bs[b].expandMult)]
      requires policy.noexpand == 1 || bs[b].count + 1 < (bs[b].expandMult + 1) * BKT_CAPACITY_THRESH
      ensures Added(was, bs, policy, b, add, nodes)
    {
    }

    lemma Grew(was: seq<seq<Node>>, b: nat, add: Node, nodes: set<Node>)
      requires b < |was|
      requires exists slots :: AllSlotsOf(PushOn(was, b, add), nodes, slots) && Split(PushOn(was, b, add), slots, chains)
      ensures Grown(was, b, add, nodes, true)
    {
    }

    lemma DidNotGrow(was: seq<seq<Node>>, b: nat, add: Node, nodes: set<Node>)
      requires b < |was| && chains == PushOn(was, b, add)
      ensures Grown(was, b, add, nodes, false)
    {
    }

    // ---- the class invariant: what HASH_FSCK checks, and more ----

    ghost predicate AppValid()
      reads `app, `head, `tail, Elems(app)`prev, Elems(app)`next
    {
      && (head == null <==> app == [])
      && (app != [] ==> head == app[0] && tail == app[|app| - 1])
      && AppLinked(app)
    }

    ghost predicate Hashed(nodes: set<Node>)
      reads nodes`key, nodes`hashv
    {
      forall n :: n in nodes ==> n.hashv == hash(n.key)
    }

    /** HASH_BLOOM_TEST, which is 1 without a filter */
    ghost predicate MayHold(hashv: Word)
      reads `bloomBv, bloomBv
    {
      bloomMode.BloomOf? ==> bloomBv.Length == Bloom.ByteLen(bloomMode.nbits) && Bloom.Test(bloomBv[..], bloomMode.nbits, hashv)
    }

    ghost predicate Bloomed(nodes: set<Node>)
      reads `bloomBv, bloomBv, `marked, nodes`hashv
    {
      && (bloomMode.BloomOf? ==> Bloom.Exactly(bloomBv[..], bloomMode.nbits, marked))
      && forall n :: n in nodes ==> n.hashv in marked
    }

    /** The table of the given nodes: the buckets, the load, the stored hash values and the filter. */
    ghost predicate Table(nodes: set<Node>, count: nat)
      reads `buckets, `numBuckets, `log2NumBuckets, `chains, `noexpand, `ineffExpands, `expansions, `bloomBv, `marked, buckets, bloomBv
      reads nodes`key, nodes`hashv, nodes`hhPrev, nodes`hhNext
    {
      && Structure(nodes, count) && Loaded() && Hashed(nodes) && Bloomed(nodes)
      && buckets as object != bloomBv
    }

    ghost predicate TableValid()
      reads this, buckets, bloomBv, Elems(app)`key, Elems(app)`hashv, Elems(app)`hhPrev, Elems(app)`hhNext
    {
      && (app == [] ==> chains == [])
      && (app != [] ==> numItems == |app| && Table(Elems(app), numItems))
    }

    ghost predicate Valid()
      reads this, buckets, bloomBv, Elems(app)
    {
      AppValid() && TableValid()
    }

    constructor (hash: Key -> Word, bloomMode: BloomMode)
      ensures Valid() && app == [] && this.hash == hash && this.bloomMode == bloomMode
      ensures fresh(buckets) && fresh(bloomBv)
    {
      this.hash, this.bloomMode := hash, bloomMode;
      head, tail := null, null;
      buckets := new Bucket[0];
      bloomBv := new bv8[0];
      numBuckets, log2NumBuckets, numItems := 0, 0, 0;
      idealChainMaxlen, nonidealItems, ineffExpands, noexpand := 0, 0, 0, 0;
      app, chains, expansions, marked := [], [], [], {};
    }

    /** A table just made: 32 empty buckets without multipliers, nothing recorded, nothing marked. */
    ghost predicate New()
      reads `buckets, `numBuckets, `log2NumBuckets, `chains, `marked, buckets
      reads `idealChainMaxlen, `nonidealItems, `ineffExpands, `noexpand, `expansions
    {
      && numBuckets == buckets.Length == 32 && log2NumBuckets == 5
      && buckets[..] == NewBuckets() && chains == NewChains()
      && Policy() == Steering(0, 0, 0, 0, []) && marked == {}
    }

    static ghost function NewBuckets(): (bs: seq<Bucket>)
      ensures |bs| == 32
    {
      seq(32, _ => Bucket(null, 0, 0))
    }

    static ghost function NewChains(): (chains: seq<seq<Node>>)
      ensures |chains| == 32
    {
      seq(32, _ => [])
    }

    lemma EmptyTable()
      requires numBuckets == Pow2(log2NumBuckets) == buckets.Length == |chains|
      requires forall j :: 0 <= j < numBuckets ==> buckets[j] == Bucket(null, 0, 0) && chains[j] == []
      requires idealChainMaxlen == nonidealItems == noexpand == ineffExpands == 0 && expansions == [] && log2NumBuckets == INITIAL_NUM_BUCKETS_LOG2
      requires buckets as object != bloomBv
      requires Bloomed({}) && marked == {}
      ensures Table({}, 0) && New()
    {
      assert Pow2(5) == 32;
      SumZero(Count, buckets[..]);
      SumZero(Charge, buckets[..]);
    }

    /** HASH_BLOOM_MAKE: the filter starts out empty. */
    method BloomMake()
      modifies `bloomBv, `marked
      ensures fresh(bloomBv) && marked == {} && Bloomed({})
    {
      marked := {};
      match bloomMode
      case NoBloom => bloomBv := new bv8[0];
      case BloomOf(nbits) =>
        bloomBv := new bv8[Bloom.ByteLen(nbits)](_ => 0);
        Bloom.NothingMarked(bloomBv[..], nbits);
    }

    /** HASH_MAKE_TABLE with HASH_BLOOM_MAKE */
    method MakeTable()
      modifies this`buckets, this`numBuckets, this`log2NumBuckets, this`numItems, this`chains
      modifies this`idealChainMaxlen, this`nonidealItems, this`ineffExpands, this`noexpand, this`expansions, this`bloomBv, this`marked
      ensures fresh(buckets) && fresh(bloomBv)
      ensures Table({}, 0) && numItems == 0 && New()
    {
      hide *;
      numItems, idealChainMaxlen, nonidealItems, ineffExpands, noexpand := 0, 0, 0, 0, 0;
      log2NumBuckets := INITIAL_NUM_BUCKETS_LOG2;
      numBuckets := Pow2(log2NumBuckets);
      buckets := new Bucket[numBuckets](_ => Bucket(null, 0, 0));
      chains, expansions := seq(numBuckets, _ => []), [];
      BloomMake();
      EmptyTable();
    }

    lemma AppParts()
      requires AppValid()
      ensures AppLinked(app) && (head == null <==> app == [])
      ensures app != [] ==> head == app[0] && tail == app[|app| - 1]
    {
    }

    lemma AppWhole()
      requires app != [] && head == app[0] && tail == app[|app| - 1] && AppLinked(app)
      ensures AppValid()
    {
    }

    lemma TableParts()
      requires TableValid()
      ensures app == [] ==> chains == []
      ensures app != [] ==> numItems == |app| && Table(Elems(app), numItems)
    {
    }

    lemma ValidParts()
      requires Valid()
      ensures AppValid() && TableValid()
    {
    }

    lemma AppWith(s: seq<Node>, add: Node)
      requires app == s + [add] && AppLinked(app) && tail == add && head == (if s == [] then add else s[0])
      ensures AppValid()
    {
    }

    lemma FirstLinked(add: Node)
      requires add.prev == null && add.next == null
      ensures AppLinked([add])
    {
    }

    lemma NoElems(s: seq<Node>)
      ensures s == [] ==> Elems(s) == {}
      ensures s != [] ==> s[|s| - 1] in Elems(s)
    {
    }

    /** The links of HASH_ADD_KEYPTR in application order, making the table when there is none. */
    method LinkApp(add: Node)
      requires Valid() && add !in app
      modifies `head, `tail, `app, `buckets, `numBuckets, `log2NumBuckets, `numItems, `chains
      modifies `idealChainMaxlen, `nonidealItems, `ineffExpands, `noexpand, `expansions, `bloomBv, `marked
      modifies Elems(app)`next, add`next, add`prev
      ensures app == old(app) + [add] && AppValid()
      ensures numItems == |old(app)| && Table(Elems(old(app)), numItems)
      ensures old(app) == [] ==> fresh(buckets) && fresh(bloomBv) && New()
      ensures old(app) != [] ==> buckets == old(buckets) && bloomBv == old(bloomBv) && chains == old(chains)
      ensures old(app) != [] ==> numBuckets == old(numBuckets) && Policy() == old(Policy()) && marked == old(marked)
    {
      hide *;
      ghost var s := app;
      PolicyIs();
      ValidParts();
      AppParts();
      TableParts();
      NoElems(s);
      add.next := null;
      if head == null {
        head := add;
        add.prev := null;
        MakeTable();
        tail := add;
        FirstLinked(add);
        assert s + [add] == [add] && Elems(s) == {};
      } else {
        assert Table(Elems(s), numItems);
        LinkLast(tail, add, s);
        tail := add;
      }
      app := s + [add];
      AppWith(s, add);
      PolicyIs();
    }

    /** HASH_BLOOM_ADD marks one more hash value. */
    method BloomAdd(add: Node, ghost nodes: set<Node>)
      requires Bloomed(nodes)
      modifies bloomBv, `marked
      ensures Bloomed(nodes + {add}) && marked == old(marked) + {add.hashv}
    {
      marked := marked + {add.hashv};
      match bloomMode
      case NoBloom =>
      case BloomOf(nbits) =>
        ghost var before := bloomBv[..];
        Bloom.Add(bloomBv, nbits, add.hashv);
        Bloom.OneMoreMarked(before, bloomBv[..], nbits, old(marked), add.hashv);
    }

    static lemma NotInElems(s: seq<Node>, x: Node)
      requires x !in s
      ensures x !in Elems(s)
    {
    }

    lemma TableSplit(nodes: set<Node>, count: nat)
      requires Table(nodes, count)
      ensures Structure(nodes, count) && Loaded() && Hashed(nodes) && Bloomed(nodes) && buckets as object != bloomBv
    {
    }

    lemma TableJoin(nodes: set<Node>, add: Node, count: nat)
      requires Structure(nodes + {add}, count) && Loaded() && Hashed(nodes) && Bloomed(nodes + {add})
      requires add.hashv == hash(add.key) && buckets as object != bloomBv
      ensures Table(nodes + {add}, count)
    {
    }

    lemma WholeValid()
      requires AppValid() && app != [] && numItems == |app| && Table(Elems(app), numItems)
      ensures Valid()
    {
    }

    /** The second half of HASH_ADD_KEYPTR: hash the key, push on the bucket, mark the filter. */
    method AddToTable(add: Node, ghost nodes: set<Node>)
      requires numItems > 0 && Table(nodes, numItems - 1) && add !in nodes
      modifies `buckets, `numBuckets, `log2NumBuckets, `chains, `idealChainMaxlen
      modifies `nonidealItems, `ineffExpands, `noexpand, `expansions, `marked
      modifies buckets, bloomBv, add`hashv, add`hhPrev, add`hhNext, nodes`hhPrev, nodes`hhNext
      ensures Table(nodes + {add}, numItems) && marked == old(marked) + {add.hashv}
      ensures buckets == old(buckets) || fresh(buckets)
      ensures old(numBuckets) > 0 && add.hashv == hash(add.key)
      ensures Added(old(chains), old(buckets[..]), old(Policy()), HashToBkt(add.hashv, old(numBuckets)), add, nodes + {add})
    {
      hide Structure, Balanced, MayHold, HashToBkt, Table, Recorded, Grown, Expanded, OnlyPushed;
      TableSplit(nodes, numItems - 1);
      HashAndPush(add, nodes);
      MarkFilter(add, nodes);
    }

    method HashAndPush(add: Node, ghost nodes: set<Node>)
      requires numItems > 0 && Structure(nodes, numItems - 1) && Loaded() && Hashed(nodes) && Bloomed(nodes)
      requires add !in nodes && buckets as object != bloomBv
      modifies `buckets, `numBuckets, `log2NumBuckets, `chains, `idealChainMaxlen
      modifies `nonidealItems, `ineffExpands, `noexpand, `expansions
      modifies buckets, add`hashv, add`hhPrev, add`hhNext, nodes`hhPrev, nodes`hhNext
      ensures Structure(nodes + {add}, numItems) && Loaded() && Hashed(nodes) && Bloomed(nodes)
      ensures buckets == old(buckets) || fresh(buckets)
      ensures old(numBuckets) > 0 && add.hashv == hash(add.key)
      ensures Added(old(chains), old(buckets[..]), old(Policy()), HashToBkt(add.hashv, old(numBuckets)), add, nodes + {add})
    {
      hide AllChained, Placed, Balanced, MayHold, HashToBkt, Pow2, Recorded, Added;
      Parts(nodes, numItems - 1);
      add.hashv := hash(add.key);
      assert Structure(nodes, numItems - 1) && Loaded();
      BktInRange(add.hashv, log2NumBuckets);
      var b := HashToBkt(add.hashv, numBuckets);
      AddToBkt(b, add, nodes);
    }

    method MarkFilter(add: Node, ghost nodes: set<Node>)
      requires Structure(nodes + {add}, numItems) && Loaded() && Hashed(nodes) && Bloomed(nodes)
      requires add.hashv == hash(add.key) && buckets as object != bloomBv
      modifies bloomBv, `marked
      ensures Table(nodes + {add}, numItems) && marked == old(marked) + {add.hashv}
    {
      hide AllChained, Placed, Balanced, MayHold, Pow2, Table;
      BloomAdd(add, nodes);
      TableJoin(nodes, add, numItems);
    }

    /**
     HASH_ADD_KEYPTR: the element goes to the end of the application order and to the front of the
     chain of its slot; then the table doubles exactly when that chain has reached its threshold and
     expansion is not inhibited, and otherwise changes nothing else.
     */
    method AddKeyptr(key: Key, add: Node)
      requires Valid() && add !in app
      modifies this, buckets, bloomBv, add, Elems(app)`next, Elems(app)`hhPrev, Elems(app)`hhNext
      ensures Valid() && app == old(app) + [add] && add.key == key
      ensures buckets == old(buckets) || fresh(buckets)
      ensures bloomBv == old(bloomBv) || fresh(bloomBv)
      ensures old(app) != [] ==> (old(numBuckets) > 0 &&
        Added(old(chains), old(buckets[..]), old(Policy()), HashToBkt(hash(key), old(numBuckets)), add, Elems(app)))
      ensures old(app) == [] ==> Added(NewChains(), NewBuckets(), Steering(0, 0, 0, 0, []), HashToBkt(hash(key), 32), add, Elems(app))
      ensures marked == (if old(app) == [] then {} else old(marked)) + {hash(key)}
    {
      hide AppLinked, Elems, Table, HashToBkt, Added, Policy, NewBuckets, NewChains;
      ghost var s, bs := app, buckets[..];
      NotInElems(s, add);
      add.key := key;
      assert Valid();
      LinkApp(add);
      assert s != [] ==> buckets[..] == bs;
      assert s == [] ==> buckets[..] == NewBuckets() && chains == NewChains() && Policy() == Steering(0, 0, 0, 0, []) && numBuckets == 32;
      ElemsAppend(s, add);
      CountAndAdd(add, s);
    }

    /** num_items++ and the rest of HASH_ADD_KEYPTR */
    method CountAndAdd(add: Node, ghost s: seq<Node>)
      requires app == s + [add] && AppValid() && add !in Elems(s) && Elems(app) == Elems(s) + {add}
      requires numItems == |s| && Table(Elems(s), numItems)
      modifies `buckets, `numBuckets, `log2NumBuckets, `chains, `idealChainMaxlen, `numItems
      modifies `nonidealItems, `ineffExpands, `noexpand, `expansions, `marked
      modifies buckets, bloomBv, add`hashv, add`hhPrev, add`hhNext, Elems(s)`hhPrev, Elems(s)`hhNext
      ensures Valid() && marked == old(marked) + {hash(add.key)}
      ensures buckets == old(buckets) || fresh(buckets)
      ensures old(numBuckets) > 0
      ensures Added(old(chains), old(buckets[..]), old(Policy()), HashToBkt(hash(add.key), old(numBuckets)), add, Elems(app))
    {
      hide AppLinked, Elems, Table, HashToBkt, Added, Policy;
      numItems := numItems + 1;
      AddToTable(add, Elems(s));
      WholeValid();
    }

    lemma BeforePull(bs: seq<Bucket>, was: seq<seq<Node>>, nodes: set<Node>, del: Node, b: nat)
      requires numItems > 0 && Placed(bs, was, nodes, numItems) && del in nodes
      requires b == HashToBkt(del.hashv, |was|) < |was| && NoDup(was[b])
      ensures bs[b].count > 0
      ensures Placed(Pulled(bs, was, b, del), PullOut(was, b, del), nodes - {del}, numItems - 1)
      ensures Balanced(bs) ==> Balanced(Pulled(bs, was, b, del))
    {
      PullPlaced(bs, was, nodes, numItems, del, b);
      if Balanced(bs) {
        DeleteKeepsBalance(bs, b, Pulled(bs, was, b, del)[b]);
      }
    }

    lemma FewerNodes(nodes: set<Node>, del: Node)
      requires Structure(nodes - {del}, numItems) && Loaded() && Hashed(nodes) && Bloomed(nodes) && buckets as object != bloomBv
      ensures Table(nodes - {del}, numItems)
    {
    }

    lemma OwnSlot(bs: seq<Bucket>, was: seq<seq<Node>>, nodes: set<Node>, count: nat, del: Node)
      requires Placed(bs, was, nodes, count) && AllChained(was, nodes) && del in nodes
      ensures var b := HashToBkt(del.hashv, |was|);
        b < |was| && del in was[b] && bs[b].count > 0 && NoDup(was[b])
    {
      var b := HashToBkt(del.hashv, |was|);
      assert ChainLinked(was[b]);
    }

    /** One node is gone from its chain, and from the count of its bucket. */
    ghost predicate TakenOff(bs: seq<Bucket>, was: seq<seq<Node>>, b: nat, del: Node)
      reads `buckets, `chains, buckets
    {
      && b < |bs| == |was| && bs[b].count > 0
      && chains == was[b := Without(was[b], del)]
      && buckets[..] == bs[b := Bucket(At(chains[b], 0), bs[b].count - 1, bs[b].expandMult)]
    }

    /** The bucket half of HASH_DELETE. */
    method DelFromTable(del: Node, ghost nodes: set<Node>)
      requires numItems > 0 && Table(nodes, numItems) && del in nodes
      modifies `numItems, `chains, buckets, nodes`hhPrev, nodes`hhNext
      ensures numItems == old(numItems) - 1 && Table(nodes - {del}, numItems)
      ensures old(numBuckets) > 0
      ensures TakenOff(old(buckets[..]), old(chains), HashToBkt(del.hashv, old(numBuckets)), del)
    {
      hide Structure, Balanced, MayHold, Table, HashToBkt, Recorded, TakenOff;
      TableSplit(nodes, numItems);
      PullNode(del, nodes);
      FewerNodes(nodes, del);
    }

    method PullNode(del: Node, ghost nodes: set<Node>)
      requires numItems > 0 && Structure(nodes, numItems) && Loaded() && del in nodes
      modifies `numItems, `chains, buckets, nodes`hhPrev, nodes`hhNext
      ensures numItems == old(numItems) - 1 && Structure(nodes - {del}, numItems) && Loaded()
      ensures old(numBuckets) > 0
      ensures TakenOff(old(buckets[..]), old(chains), HashToBkt(del.hashv, old(numBuckets)), del)
    {
      hide AllChained, Balanced, Pow2, HashToBkt, Pulled, PullOut, Slotted, Covered, BucketsMatch, Sum, Remembered, TakenOff;
      Parts(nodes, numItems);
      ghost var bs, was := buckets[..], chains;
      PlacedParts(bs, was, nodes, numItems);
      OwnSlot(bs, was, nodes, numItems, del);
      var b := HashToBkt(del.hashv, numBuckets);
      BeforePull(bs, was, nodes, del, b);
      DelInBkt(buckets, b, del, was, nodes);
      assert Placed(buckets[..], PullOut(was, b, del), nodes - {del}, numItems - 1);
      chains := PullOut(was, b, del);
      numItems := numItems - 1;
      PulledLength(was, b, del);
      IsTakenOff(bs, was, b, del);
    }

    lemma IsTakenOff(bs: seq<Bucket>, was: seq<seq<Node>>, b: nat, del: Node)
      requires b < |bs| == |was| && bs[b].count > 0
      requires buckets[..] == Pulled(bs, was, b, del) && chains == PullOut(was, b, del)
      ensures TakenOff(bs, was, b, del)
    {
    }

    static lemma ElemsWithout(s: seq<Node>, x: Node)
      requires AppLinked(s) && x in s
      ensures Elems(Without(s, x)) == Elems(s) - {x} && x in Elems(s)
      ensures |Without(s, x)| == |s| - 1
    {
      WithoutExact(s, x);
      var t := Without(s, x);
      forall y | y in t
        ensures y in Elems(s) - {x}
      {
        WithoutMember(s, x, y);
      }
      forall y | y in s && y != x
        ensures y in Elems(t)
      {
        WithoutMember(s, x, y);
      }
    }

    /** The ends of the application order after a removal. */
    static lemma EndsWithout(s: seq<Node>, x: Node)
      requires AppLinked(s) && x in s && |s| > 1
      ensures var t := Without(s, x);
        && t != []
        && t[0] == (if x.prev == null then x.next else s[0])
        && t[|t| - 1] == (if x == s[|s| - 1] then x.prev else s[|s| - 1])
    {
      var k :| 0 <= k < |s| && s[k] == x;
      WithoutAt(s, k);
      assert s[k].prev == At(s, k - 1) && s[k].next == At(s, k + 1);
    }

    /** A node without neighbours is the only one. */
    static lemma OnlyOne(s: seq<Node>, x: Node)
      requires AppLinked(s) && x in s
      ensures (x.prev == null && x.next == null) <==> |s| == 1
      ensures |s| == 1 ==> Without(s, x) == []
    {
      var k :| 0 <= k < |s| && s[k] == x;
      assert s[k].prev == At(s, k - 1) && s[k].next == At(s, k + 1);
    }

    static lemma Position(s: seq<Node>, x: Node) returns (k: nat)
      requires x in s
      ensures k < |s| && s[k] == x
    {
      k :| 0 <= k < |s| && s[k] == x;
    }

    lemma EmptyValid()
      requires head == null && app == [] && chains == []
      ensures Valid()
    {
    }

    /** The links of HASH_DELETE in application order, when other nodes remain. */
    method UnlinkFromApp(del: Node)
      requires AppValid() && del in app && |app| > 1
      modifies `head, `tail, `app, Elems(app)`prev, Elems(app)`next
      ensures AppValid() && app == Without(old(app), del) && app != []
      ensures del.prev == old(del.prev) && del.next == old(del.next)
    {
      hide *;
      ghost var s := app;
      AppParts();
      ghost var k := Position(s, del);
      EndsWithout(s, del);
      if del == tail {
        tail := del.prev;
      }
      if del.prev == null {
        head := del.next;
      }
      UnlinkApp(del, s, k);
      app := Without(s, del);
      AppWhole();
    }

    /** HASH_DELETE */
    method Delete(del: Node)
      requires Valid() && del in app
      modifies this, buckets, Elems(app)`prev, Elems(app)`next, Elems(app)`hhPrev, Elems(app)`hhNext
      ensures Valid() && app == Without(old(app), del)
      ensures buckets == old(buckets) && bloomBv == old(bloomBv)
      ensures del.prev == old(del.prev) && del.next == old(del.next)
      ensures app != [] ==> Policy() == old(Policy()) && numBuckets == old(numBuckets) && marked == old(marked)
      ensures app != [] ==> old(numBuckets) > 0 && TakenOff(old(buckets[..]), old(chains), HashToBkt(del.hashv, old(numBuckets)), del)
    {
      hide AppLinked, Without, Structure, Loaded, Hashed, Bloomed, TakenOff;
      ghost var s := app;
      OnlyOne(s, del);
      if del.prev == null && del.next == null {
        head := null;
        app, chains := [], [];
        EmptyValid();
      } else {
        DeleteOne(del);
      }
    }

    /** HASH_DELETE when other elements remain */
    method DeleteOne(del: Node)
      requires Valid() && del in app && |app| > 1
      modifies `head, `tail, `app, `numItems, `chains, buckets, Elems(app)`prev, Elems(app)`next, Elems(app)`hhPrev, Elems(app)`hhNext
      ensures Valid() && app == Without(old(app), del) && app != []
      ensures del.prev == old(del.prev) && del.next == old(del.next)
      ensures old(numBuckets) > 0 && TakenOff(old(buckets[..]), old(chains), HashToBkt(del.hashv, old(numBuckets)), del)
    {
      hide AppLinked, Elems, Without, Structure, Loaded, Hashed, Bloomed, HashToBkt, Pulled, PullOut;
      ghost var s := app;
      ElemsWithout(s, del);
      assert Table(Elems(s), numItems);
      UnlinkFromApp(del);
      DelFromTable(del, Elems(s));
      WholeValid();
    }

    /** HASH_BLOOM_TEST */
    method BloomTest(hashv: Word) returns (b: bool)
      requires bloomMode.BloomOf? ==> bloomBv.Length == Bloom.ByteLen(bloomMode.nbits)
      ensures b == MayHold(hashv)
    {
      match bloomMode
      case NoBloom => b := true;
      case BloomOf(nbits) =>
        var i := Bloom.Index(nbits, hashv);
        b := bloomBv[i / 8] & Bloom.Bit(i % 8) != 0;
    }

    /** A node with the given key is in the chain that the key's hash selects, and its hash passes the filter. */
    lemma KeyLocates(key: Key, n: Node)
      requires Valid() && n in app && n.key == key
      ensures var b := HashToBkt(hash(key), numBuckets);
        b < |chains| && n in chains[b] && MayHold(hash(key))
    {
      assert n in Elems(app) && n.hashv in marked;
      if bloomMode.BloomOf? {
        assert Bloom.Shares(marked, bloomMode.nbits, n.hashv);
      }
    }

    /** The filter lets through exactly the hash values whose low bits agree with some value added since the table was made. */
    lemma FilterExactly(hashv: Word)
      requires Valid() && app != [] && bloomMode.BloomOf?
      ensures MayHold(hashv) <==> exists m :: m in marked && m % Pow2(bloomMode.nbits) == hashv % Pow2(bloomMode.nbits)
    {
      var nbits := bloomMode.nbits;
      assert Table(Elems(app), numItems);
      Bloom.Geometry(nbits, hashv);
      forall m: Word
        ensures Bloom.Index(nbits, m) == m % Pow2(nbits)
      {
        Bloom.Geometry(nbits, m);
      }
      assert MayHold(hashv) <==> Bloom.Shares(marked, nbits, hashv);
      if m: Word :| m in marked && m % Pow2(nbits) == hashv % Pow2(nbits) {
        assert Bloom.Index(nbits, m) == Bloom.Index(nbits, hashv);
      }
    }

    lemma SlotChain(key: Key)
      requires Valid() && app != []
      ensures numBuckets > 0
      ensures var b := HashToBkt(hash(key), numBuckets);
        && b < numBuckets == |chains| == buckets.Length
        && buckets[b].hhHead == At(chains[b], 0) && Forward(chains[b], 0)
        && forall n :: n in chains[b] ==> n in app
      ensures bloomMode.BloomOf? ==> bloomBv.Length == Bloom.ByteLen(bloomMode.nbits)
    {
      var b := HashToBkt(hash(key), numBuckets);
      BktInRange(hash(key), log2NumBuckets);
      assert ChainLinked(chains[b]);
      assert buckets[..][b].hhHead == At(chains[b], 0);
      forall n | n in chains[b]
        ensures n in app
      {
        assert n in Elems(app);
      }
    }

    lemma FoundExactly(key: Key)
      requires Valid() && app != []
      ensures var b := HashToBkt(hash(key), numBuckets);
        && b < |chains|
        && var out := FirstMatch(chains[b], 0, key);
        && (out == null <==> forall n :: n in app ==> n.key != key)
        && (out != null ==> out in app && out.key == key)
        && (out != null ==> MayHold(hash(key)))
    {
      hide Valid;
      SlotChain(key);
      var b := HashToBkt(hash(key), numBuckets);
      var out := FirstMatch(chains[b], 0, key);
      FirstMatchExact(chains[b], 0, key);
      forall n | n in app && n.key == key
        ensures out != null
      {
        KeyLocates(key, n);
        var i :| 0 <= i < |chains[b]| && chains[b][i] == n;
      }
      if out != null {
        KeyLocates(key, out);
      }
    }

    /** HASH_FIND: some live element with the key, or NULL exactly when there is none; the filter changes no answer. */
    method Find(key: Key) returns (out: Node?)
      requires Valid()
      ensures out == null <==> forall n :: n in app ==> n.key != key
      ensures out != null ==> out in app && out.key == key
      ensures app != [] ==> var b := HashToBkt(hash(key), numBuckets);
        b < |chains| && out == FirstMatch(chains[b], 0, key)
    {
      hide *;
      out := null;
      ValidParts();
      AppParts();
      if head != null {
        SlotChain(key);
        FoundExactly(key);
        var hashv := hash(key);
        var bkt := HashToBkt(hashv, numBuckets);
        var test := BloomTest(hashv);
        if test {
          out := FindInBkt(buckets[bkt].hhHead, key, chains[bkt]);
        }
      }
    }

    static lemma OnwardFromLinked(s: seq<Node>)
      requires AppLinked(s)
      ensures Onward(s, 0) && NoDup(s)
    {
    }

    static lemma PassKeepsElems(cmp: (Node, Node) -> int, s: seq<Node>, size: nat)
      requires size > 0
      ensures Elems(Pass(cmp, s, size)) == Elems(s)
    {
      var r := Pass(cmp, s, size);
      PassPermutes(cmp, s, size);
      forall n | n in r
        ensures n in Elems(s)
      {
        assert n in multiset(r) && n in multiset(s);
      }
      forall n | n in s
        ensures n in Elems(r)
      {
        assert n in multiset(s) && n in multiset(r);
      }
    }

    /** The sort of s before a pass with run length insize, on the list cur; done when no pass is needed any more. */
    static ghost predicate Sorting(cmp: (Node, Node) -> int, s: seq<Node>, cur: seq<Node>, insize: nat, done: bool,
                                   passes: nat, comparisons: nat)
    {
      && insize > 0 && cur != [] && |cur| == |s| && Elems(cur) == Elems(s)
      && comparisons <= |s| * passes
      && (if done then cur == SortFrom(cmp, s, 1) && passes == Passes(|s|, 1)
          else SortFrom(cmp, cur, insize) == SortFrom(cmp, s, 1) && passes + Passes(|s|, insize) == Passes(|s|, 1))
    }

    static lemma SortingStarts(cmp: (Node, Node) -> int, s: seq<Node>)
      requires s != []
      ensures Sorting(cmp, s, s, 1, false, 0, 0)
    {
    }

    static lemma SortingStep(cmp: (Node, Node) -> int, s: seq<Node>, cur: seq<Node>, insize: nat, passes: nat, comparisons: nat, c: nat)
      requires Sorting(cmp, s, cur, insize, false, passes, comparisons) && c <= |cur|
      ensures insize > 0 &&
        Sorting(cmp, s, Pass(cmp, cur, insize), 2 * insize, |cur| <= 2 * insize, passes + 1, comparisons + c)
    {
      hide Pass;
      PassKeepsElems(cmp, cur, insize);
      assert |s| * (passes + 1) == |s| * passes + |s|;
    }

    static lemma SortingFacts(cmp: (Node, Node) -> int, s: seq<Node>, cur: seq<Node>, insize: nat, done: bool, passes: nat, comparisons: nat)
      requires Sorting(cmp, s, cur, insize, done, passes, comparisons)
      ensures insize > 0 && cur != [] && |cur| == |s| && Elems(cur) == Elems(s) && comparisons <= |s| * passes
      ensures done ==> cur == SortFrom(cmp, s, 1) && passes == Passes(|s|, 1)
    {
    }

    static lemma EndsOf(list: Node?, tail: Node?, r: seq<Node>)
      requires r != [] && Ends(list, tail, r)
      ensures list == r[0] && tail == r[|r| - 1]
    {
    }

    static lemma Sorts(cmp: (Node, Node) -> int, s: seq<Node>)
      ensures TotalPreorderOn(cmp, Elems(s)) ==> StableSortOf(cmp, s, SortFrom(cmp, s, 1))
    {
      if TotalPreorderOn(cmp, Elems(s)) {
        var d := set x | x in s;
        assert d == Elems(s);
        SortIsStableSort(cmp, s);
      }
    }

    /**
     HASH_SRT. The comparison function reads data of the elements that the sort
     never writes, so that during one sort it is a function of the two nodes.
     */
    method Sort(cmp: (Node, Node) -> int) returns (ghost passes: nat, ghost comparisons: nat)
      requires Valid()
      modifies `head, `tail, `app, Elems(app)`prev, Elems(app)`next
      ensures Valid() && app == SortFrom(cmp, old(app), 1)
      ensures TotalPreorderOn(cmp, Elems(old(app))) ==> StableSortOf(cmp, old(app), app)
      ensures passes == if old(app) == [] then 0 else Passes(|old(app)|, 1)
      ensures comparisons <= |old(app)| * passes
    {
      hide Elems, AppLinked, Structure, Loaded, Hashed, Bloomed, Pass, SortFrom, Passes, TotalPreorderOn, StableSortOf, NoDup, Ends, Sorting;
      passes, comparisons := 0, 0;
      ghost var s := app;
      Sorts(cmp, s);
      if head != null {
        ghost var cur := s;
        var insize: nat, looping, list: Node := 1, true, head;
        OnwardFromLinked(s);
        SortingStarts(cmp, s);
        assert Table(Elems(s), numItems);
        while looping
          invariant Sorting(cmp, s, cur, insize, !looping, passes, comparisons)
          invariant insize > 0 && cur != [] && |cur| == |s| && Elems(cur) == Elems(s)
          invariant looping ==> list == cur[0] && Onward(cur, 0) && NoDup(cur)
          invariant !looping ==> AppLinked(cur) && head == cur[0] && tail == cur[|cur| - 1]
          invariant Table(Elems(s), numItems) && numItems == |s|
          decreases looping, |s| - insize
        {
          ghost var c: nat;
          var newList, newTail, nmerges;
          newList, newTail, nmerges, c := MergePass(cmp, list, insize, cur);
          SortingStep(cmp, s, cur, insize, passes, comparisons, c);
          cur, passes, comparisons := Pass(cmp, cur, insize), passes + 1, comparisons + c;
          OnwardFromLinked(cur);
          EndsOf(newList, newTail, cur);
          list := newList;
          if nmerges <= 1 {
            looping := false;
            tail := newTail;
            head := newList;
          }
          insize := insize * 2;
          SortingFacts(cmp, s, cur, insize, !looping, passes, comparisons);
        }
        SortingFacts(cmp, s, cur, insize, true, passes, comparisons);
        app := cur;
        WholeValid();
      } else {
        SortOfNothing(cmp);
      }
    }

    static lemma SortOfNothing(cmp: (Node, Node) -> int)
      ensures SortFrom(cmp, [], 1) == []
    {
    }

    // ---- deleting while iterating ----

    /** The nodes among the first k of s that the loop body leaves in the table. */
    static ghost function Kept(drop: Node -> bool, s: seq<Node>, k: nat): (r: seq<Node>)
      requires k <= |s|
    {
      if k == 0 then [] else Kept(drop, s, k - 1) + if drop(s[k - 1]) then [] else [s[k - 1]]
    }

    static lemma {:induction false} KeptMembers(drop: Node -> bool, s: seq<Node>, k: nat)
      requires k <= |s|
      ensures forall n :: n in Kept(drop, s, k) <==> n in s[..k] && !drop(n)
    {
      if k > 0 {
        KeptMembers(drop, s, k - 1);
        assert s[..k] == s[..k - 1] + [s[k - 1]];
      }
    }

    /** Before the k-th step: what the body left of the first k nodes, followed by the nodes not yet visited. */
    static ghost predicate Standing(drop: Node -> bool, s: seq<Node>, k: nat, app: seq<Node>) {
      k <= |s| && app == Kept(drop, s, k) + s[k..]
    }

    static lemma IterLinks(drop: Node -> bool, s: seq<Node>, k: nat, app: seq<Node>)
      requires Standing(drop, s, k, app) && AppLinked(app)
      ensures k <= |s|
      ensures k < |s| ==> s[k] in app && s[k].next == At(s, k + 1)
      ensures Elems(app) <= Elems(s)
    {
      KeptMembers(drop, s, k);
      if k < |s| {
        var p := |Kept(drop, s, k)|;
        assert app[p] == s[k] && At(app, p + 1) == At(s, k + 1);
        assert app[p].next == At(app, p + 1);
      }
    }

    static lemma IterStep(drop: Node -> bool, s: seq<Node>, k: nat, app: seq<Node>)
      requires Standing(drop, s, k, app) && k < |s| && NoDup(app)
      ensures drop(s[k]) ==> Standing(drop, s, k + 1, Without(app, s[k]))
      ensures !drop(s[k]) ==> Standing(drop, s, k + 1, app)
    {
      var kept := Kept(drop, s, k);
      var p := |kept|;
      assert app[p] == s[k];
      if drop(s[k]) {
        WithoutAt(app, p);
        assert Without(app, app[p]) == kept + s[k + 1..];
        assert kept + [] == kept;
      } else {
        assert app == (kept + [s[k]]) + s[k + 1..];
      }
    }

    lemma ValidLinks()
      requires Valid()
      ensures AppLinked(app) && NoDup(app) && (head == null <==> app == [])
      ensures app != [] ==> head == app[0]
    {
    }

    /** The loop before its k-th round: el and tmp are the next two nodes of s. */
    static ghost predicate AtStep(drop: Node -> bool, s: seq<Node>, k: nat, app: seq<Node>, el: Node?, tmp: Node?, visited: seq<Node>) {
      && Standing(drop, s, k, app) && Elems(app) <= Elems(s)
      && el == At(s, k) && tmp == At(s, k + 1) && visited == s[..k]
    }

    static lemma StepStarts(drop: Node -> bool, s: seq<Node>, el: Node?, tmp: Node?)
      requires AppLinked(s) && el == (if s == [] then null else s[0])
      requires tmp == if s == [] then null else s[0].next
      ensures AtStep(drop, s, 0, s, el, tmp, [])
    {
      assert s == [] + s[0..];
      assert s != [] ==> s[0].next == At(s, 1);
    }

    static lemma StepFacts(drop: Node -> bool, s: seq<Node>, k: nat, app: seq<Node>, el: Node?, tmp: Node?, visited: seq<Node>)
      requires AtStep(drop, s, k, app, el, tmp, visited) && AppLinked(app)
      ensures Standing(drop, s, k, app) && Elems(app) <= Elems(s) && k <= |s| && tmp == At(s, k + 1)
      ensures el != null ==> k < |s| && el == s[k] && el in app
      ensures el == null ==> visited == s && app == Kept(drop, s, |s|)
    {
      IterLinks(drop, s, k, app);
      if el == null {
        assert s[k..] == [] && s[..k] == s;
      }
    }

    static lemma StepDone(drop: Node -> bool, s: seq<Node>, k: nat, app: seq<Node>, el: Node, tmp: Node?, next: Node?,
                          visited: seq<Node>, was: seq<Node>)
      requires AtStep(drop, s, k, was, el, tmp, visited) && Standing(drop, s, k + 1, app) && AppLinked(app)
      requires next == if tmp != null then tmp.next else null
      ensures AtStep(drop, s, k + 1, app, tmp, next, visited + [el])
    {
      IterLinks(drop, s, k + 1, app);
    }

    /** One round of the loop: the body, then both pointers move on. */
    method IterRound(el: Node, tmp: Node?, drop: Node -> bool, ghost s: seq<Node>, ghost k: nat, ghost visited: seq<Node>)
      returns (el': Node?, tmp': Node?, ghost visited': seq<Node>)
      requires Valid() && AtStep(drop, s, k, app, el, tmp, visited)
      modifies this, buckets, Elems(app)`prev, Elems(app)`next, Elems(app)`hhPrev, Elems(app)`hhNext
      ensures Valid() && AtStep(drop, s, k + 1, app, el', tmp', visited')
      ensures Elems(app) <= Elems(s) && k < |s| && buckets == old(buckets)
    {
      hide *;
      ghost var was := app;
      ValidLinks();
      StepFacts(drop, s, k, app, el, tmp, visited);
      IterStep(drop, s, k, app);
      if drop(el) {
        Delete(el);
      }
      ValidLinks();
      el', tmp' := tmp, if tmp != null then tmp.next else null;
      visited' := visited + [el];
      StepDone(drop, s, k, app, el, tmp, tmp', visited, was);
      StepFacts(drop, s, k + 1, app, el', tmp', visited');
    }

    /** HASH_ITER with a body that deletes the current element when `drop` holds of it. */
    method IterDelete(drop: Node -> bool) returns (ghost visited: seq<Node>)
      requires Valid()
      modifies this, buckets, Elems(app)`prev, Elems(app)`next, Elems(app)`hhPrev, Elems(app)`hhNext
      ensures Valid() && visited == old(app)
      ensures app == Kept(drop, old(app), |old(app)|)
      ensures app == [] <==> head == null
    {
      hide Valid, AppValid, TableValid, AppLinked, Standing, AtStep, Kept;
      ghost var s, k := app, 0;
      visited := [];
      ValidLinks();
      var el, tmp := head, if head != null then head.next else null;
      StepStarts(drop, s, el, tmp);
      StepFacts(drop, s, 0, s, el, tmp, visited);
      while el != null
        invariant Valid() && AtStep(drop, s, k, app, el, tmp, visited)
        invariant Elems(app) <= Elems(s) && k <= |s| && buckets == old(buckets)
        decreases |s| - k
      {
        el, tmp, visited := IterRound(el, tmp, drop, s, k, visited);
        k := k + 1;
      }
      ValidLinks();
      StepFacts(drop, s, k, app, el, tmp, visited);
    }

    static lemma HeadAt(s: seq<Node>)
      ensures At(s, 0) == (if s == [] then null else s[0])
    {
    }

    /** When the body deletes everything the table ends empty. */
    static lemma {:induction false} KeptNothing(drop: Node -> bool, s: seq<Node>, k: nat)
      requires k <= |s| && forall i :: 0 <= i < k ==> drop(s[i])
      ensures Kept(drop, s, k) == []
    {
      if k > 0 {
        KeptNothing(drop, s, k - 1);
      }
    }

    // ---- what the invariant means ----

    /**
     While expansion is not inhibited, whatever the hash function: no chain is longer than its
     threshold, the multipliers sum to at most the bucket count, and there are at most 19 items a bucket.
     */
    lemma LoadGuarantee()
      requires Valid() && app != [] && noexpand != 1
      ensures |chains| == buckets.Length == numBuckets && numBuckets == Pow2(log2NumBuckets)
      ensures forall b :: 0 <= b < numBuckets ==> |chains[b]| <= 10 * (buckets[b].expandMult + 1)
      ensures Sum((b: Bucket) => b.expandMult, buckets[..]) <= numBuckets
      ensures |app| <= 19 * numBuckets
    {
      var bs := buckets[..];
      LoadBound(bs);
      MultWithinCharges(bs);
      forall b | 0 <= b < numBuckets
        ensures |chains[b]| <= 10 * (buckets[b].expandMult + 1)
      {
        assert bs[b].count == |chains[b]| && bs[b].count <= Threshold(bs[b]);
      }
    }

    /** How many nodes stand further back in their chains than the ideal length. */
    static ghost function Beyond(chains: seq<seq<Node>>, ideal: nat): nat {
      if chains == [] then 0
      else (if |chains[0]| > ideal then |chains[0]| - ideal else 0) + Beyond(chains[1..], ideal)
    }

    static lemma {:induction false} ExcessIsBeyond(bs: seq<Bucket>, chains: seq<seq<Node>>, ideal: nat)
      requires |bs| == |chains| && forall i :: 0 <= i < |bs| ==> bs[i].count == |chains[i]|
      ensures Sum(Excess(ideal), bs) == Beyond(chains, ideal)
    {
      if bs != [] {
        ExcessIsBeyond(bs[1..], chains[1..], ideal);
      }
    }

    /**
     What the numbers recorded by an expansion mean for the chains it leaves: the ideal length is the
     items over the buckets, rounded up; a chain longer than that has its length over the ideal as its
     multiplier; the nonideal items are the nodes beyond the ideal length; and the expansion counts as
     ineffective when they are more than half.
     */
    lemma ExpansionRecords(nodes: set<Node>, oldBuckets: nat, oldIneff: nat, oldExpansions: seq<bool>)
      requires Structure(nodes, numItems) && Expanded(oldBuckets, oldIneff, oldExpansions)
      ensures |chains| == buckets.Length == numBuckets == 2 * oldBuckets && idealChainMaxlen > 0
      ensures (idealChainMaxlen - 1) * numBuckets < numItems <= idealChainMaxlen * numBuckets
      ensures forall i :: 0 <= i < numBuckets ==>
        buckets[i].expandMult == if |chains[i]| > idealChainMaxlen then |chains[i]| / idealChainMaxlen else 0
      ensures nonidealItems == Beyond(chains, idealChainMaxlen)
      ensures ineffExpands == if 2 * nonidealItems > numItems then oldIneff + 1 else 0
    {
      hide AllChained, Pow2, Excess;
      var bs := buckets[..];
      PlacedParts(bs, chains, nodes, numItems);
      forall i | 0 <= i < numBuckets
        ensures bs[i].count == |chains[i]|
        ensures buckets[i].expandMult == if |chains[i]| > idealChainMaxlen then |chains[i]| / idealChainMaxlen else 0
      {
        assert bs[i].expandMult == MultFor(bs[i].count, idealChainMaxlen);
        QuotientIsDiv(bs[i].count, idealChainMaxlen);
      }
      ExcessIsBeyond(bs, chains, idealChainMaxlen);
    }

    /**
     Expansion is inhibited exactly after two expansions in a row that were ineffective, and the
     first such pair is the end of the table's history. Every expansion has doubled the table.
     */
    lemma InhibitedExactly()
      requires Valid() && app != []
      ensures noexpand == 1 <==> |expansions| >= 2 && expansions[|expansions| - 2] && expansions[|expansions| - 1]
      ensures forall i :: 0 <= i < |expansions| - 2 ==> !(expansions[i] && expansions[i + 1])
      ensures numBuckets == 32 * Pow2(|expansions|)
    {
      assert Table(Elems(app), numItems);
      LoadedParts();
      RecordedParts();
      PowersOf32(|expansions|);
    }

    static lemma {:induction false} PowersOf32(k: nat)
      ensures Pow2(5 + k) == 32 * Pow2(k)
    {
      if k == 0 {
        assert Pow2(2) == 4 && Pow2(5) == 32;
      } else {
        PowersOf32(k - 1);
      }
    }

    /** Each element is in exactly one chain: that of its slot. */
    lemma ExactlyOneChain(n: Node, b: nat)
      requires Valid() && app != [] && b < |chains|
      ensures n in chains[b] <==> n in app && HashToBkt(n.hashv, numBuckets) == b
    {
      var nodes := Elems(app);
      if n in chains[b] {
        assert n in nodes && HashToBkt(n.hashv, |chains|) == b;
      }
      if n in app && HashToBkt(n.hashv, numBuckets) == b {
        assert n in nodes;
      }
    }

    // ---- HASH_FSCK ----

    /** A forward link that spells out a sequence up to NULL visits no node twice. */
    static lemma {:induction false} SpelledOnce(c: seq<Node>, i: nat, j: nat, next: Node -> Node?)
      requires i < j < |c| && forall k {:trigger At(c, k + 1)} :: 0 <= k < |c| ==> next(c[k]) == At(c, k + 1)
      ensures c[i] != c[j]
      decreases |c| - j
    {
      assert next(c[i]) == At(c, i + 1) && next(c[j]) == At(c, j + 1);
      if j + 1 < |c| {
        SpelledOnce(c, i + 1, j + 1, next);
      }
    }

    static lemma ForwardOnce(c: seq<Node>)
      requires Forward(c, 0)
      ensures NoDup(c)
    {
      ghost var link := map n | n in c :: n.hhNext;
      forall i, j | 0 <= i < j < |c|
        ensures c[i] != c[j]
      {
        SpelledOnce(c, i, j, n => if n in link then link[n] else null);
      }
    }

    static lemma OnwardOnce(s: seq<Node>)
      requires Onward(s, 0)
      ensures NoDup(s)
    {
      ghost var link := map n | n in s :: n.next;
      forall i, j | 0 <= i < j < |s|
        ensures s[i] != s[j]
      {
        SpelledOnce(s, i, j, n => if n in link then link[n] else null);
      }
    }

    /** One bucket: whether each hhPrev leads back, and the length of the chain. */
    static method FsckChain(first: Node?, ghost c: seq<Node>) returns (ok: bool, count: nat)
      requires Forward(c, 0) && first == At(c, 0)
      ensures ok <==> ChainLinked(c)
      ensures ok ==> count == |c|
    {
      ForwardOnce(c);
      var thh, prev: Node? := first, null;
      count := 0;
      while thh != null
        invariant count <= |c| && thh == At(c, count) && prev == At(c, count - 1)
        invariant forall i {:trigger c[i].hhPrev} :: 0 <= i < count ==> c[i].hhPrev == At(c, i - 1)
        decreases |c| - count
      {
        assert c[count].hhNext == At(c, count + 1);
        if prev != thh.hhPrev {
          assert c[count].hhPrev != At(c, count - 1);
          return false, count;
        }
        prev := thh;
        count := count + 1;
        thh := thh.hhNext;
      }
      return true, count;
    }

    /** The application order, in the same way. */
    static method FsckApp(first: Node?, ghost s: seq<Node>) returns (ok: bool, count: nat)
      requires Onward(s, 0) && first == At(s, 0)
      ensures ok <==> AppLinked(s)
      ensures ok ==> count == |s|
    {
      OnwardOnce(s);
      var thh, prev: Node? := first, null;
      count := 0;
      while thh != null
        invariant count <= |s| && thh == At(s, count) && prev == At(s, count - 1)
        invariant forall i {:trigger s[i].prev} :: 0 <= i < count ==> s[i].prev == At(s, i - 1)
        decreases |s| - count
      {
        assert s[count].next == At(s, count + 1);
        count := count + 1;
        if prev != thh.prev {
          assert s[count - 1].prev != At(s, count - 1 - 1);
          return false, count;
        }
        prev := thh;
        thh := thh.next;
      }
      return true, count;
    }

    /** The forward links of the chains and of the application order end: the check can walk them. */
    ghost predicate Traversable()
      reads *
    {
      && buckets.Length == numBuckets == |chains| && head == At(app, 0) && Onward(app, 0)
      && forall i :: 0 <= i < numBuckets ==> buckets[i].hhHead == At(chains[i], 0) && Forward(chains[i], 0)
    }

    ghost predicate ConsistentBucket(i: nat)
      requires i < |chains| && i < buckets.Length
      reads *
    {
      ChainLinked(chains[i]) && buckets[i].count == |chains[i]|
    }

    /** Backward links undo forward ones, and the counts agree, with one another and with num_items. */
    ghost predicate Consistent()
      requires buckets.Length == numBuckets == |chains|
      reads *
    {
      && (forall i :: 0 <= i < numBuckets ==> ConsistentBucket(i))
      && Sum(Count, buckets[..]) == numItems == |app| && AppLinked(app)
    }

    lemma NextSum(i: nat)
      requires i < buckets.Length
      ensures Sum(Count, buckets[..i + 1]) == Sum(Count, buckets[..i]) + buckets[i].count
    {
      var bs := buckets[..];
      SumPrefix(Count, bs, i);
      assert bs[..i + 1] == buckets[..i + 1] && bs[..i] == buckets[..i];
    }

    lemma WholeSum()
      ensures Sum(Count, buckets[..0]) == 0 && buckets[..buckets.Length] == buckets[..]
    {
    }

    /** HASH_FSCK passes a table exactly when it is consistent; false stands for HASH_OOPS. */
    method Fsck() returns (ok: bool)
      requires Traversable()
      ensures ok <==> head == null || Consistent()
    {
      hide ChainLinked, AppLinked, Sum, At, Forward, Onward;
      HeadAt(app);
      if head != null {
        var count, i := 0, 0;
        WholeSum();
        while i < numBuckets
          invariant i <= numBuckets && count == Sum(Count, buckets[..i])
          invariant forall j :: 0 <= j < i ==> ConsistentBucket(j)
        {
          NextSum(i);
          var chainOk, bktCount := FsckChain(buckets[i].hhHead, chains[i]);
          if !chainOk {
            assert !ConsistentBucket(i);
            return false;
          }
          count := count + bktCount;
          if buckets[i].count != bktCount {
            assert !ConsistentBucket(i);
            return false;
          }
          i := i + 1;
        }
        if count != numItems {
          return false;
        }
        var appOk, appCount := FsckApp(head, app);
        if !appOk || appCount != numItems {
          return false;
        }
      }
      return true;
    }

    /** Every table that the operations produce passes. */
    lemma ValidPasses()
      requires Valid() && app != []
      ensures Traversable() && Consistent()
    {
      var bs := buckets[..];
      assert Structure(Elems(app), numItems);
      PlacedParts(bs, chains, Elems(app), numItems);
      forall i | 0 <= i < numBuckets
        ensures ConsistentBucket(i) && buckets[i].hhHead == At(chains[i], 0) && Forward(chains[i], 0)
      {
        assert bs[i].hhHead == At(chains[i], 0) && bs[i].count == |chains[i]|;
        assert ChainLinked(chains[i]);
      }
    }
  }
}
