/**
 A table as its callers use it (src/ivy.c looks a key up before it adds): over
 every sequence of operations it answers like a finite map.
 */
module UthashMap {
  import opened UthashTypes
  import opened UthashLinks
  import opened Uthash
  import StableSort

  /** d maps the key of each node of s to that node, and has no other keys. */
  ghost predicate Spells(s: seq<Node>, d: map<Key, Node>)
    reads s`key
  {
    && (forall n :: n in s ==> n.key in d && d[n.key] == n)
    && (forall k :: k in d ==> d[k] in s && d[k].key == k)
  }

  datatype Op =
    | Put(key: Key, elem: Node)
    | Get(key: Key)
    | Remove(key: Key)
    | SortBy(cmp: (Node, Node) -> int)

  /** What a finite map does for an operation; Put keeps an existing entry. */
  ghost function Next(d: map<Key, Node>, op: Op): map<Key, Node> {
    match op
    case Put(key, elem) => if key in d then d else d[key := elem]
    case Get(key) => d
    case Remove(key) => d - {key}
    case SortBy(cmp) => d
  }

  ghost function Answer(d: map<Key, Node>, op: Op): Node? {
    match op
    case Put(key, elem) => if key in d then d[key] else elem
    case Get(key) => if key in d then d[key] else null
    case Remove(key) => if key in d then d[key] else null
    case SortBy(cmp) => null
  }

  ghost function Answers(d: map<Key, Node>, ops: seq<Op>): seq<Node?>
    decreases |ops|
  {
    if ops == [] then [] else [Answer(d, ops[0])] + Answers(Next(d, ops[0]), ops[1..])
  }

  ghost function Final(d: map<Key, Node>, ops: seq<Op>): map<Key, Node>
    decreases |ops|
  {
    if ops == [] then d else Final(Next(d, ops[0]), ops[1..])
  }

  /** An element is added only while it is not in the table: it has one set of links. */
  ghost predicate Lawful(d: map<Key, Node>, ops: seq<Op>, region: set<Node>)
    decreases |ops|
  {
    ops != [] ==>
      && (ops[0].Put? ==> ops[0].elem in region && (ops[0].key !in d ==> ops[0].elem !in d.Values))
      && Lawful(Next(d, ops[0]), ops[1..], region)
  }

  lemma SpellsAppend(s: seq<Node>, d: map<Key, Node>, x: Node)
    requires Spells(s, d) && x.key !in d
    ensures Spells(s + [x], d[x.key := x])
  {
  }

  lemma SpellsWithout(s: seq<Node>, d: map<Key, Node>, x: Node)
    requires Spells(s, d) && NoDup(s) && x in s
    ensures Spells(Without(s, x), d - {x.key})
  {
    var t := Without(s, x);
    forall n: Node | n in t
      ensures n.key in d - {x.key} && d[n.key] == n
    {
      WithoutMember(s, x, n);
      assert n in Without(s, x);
      assert n in s && d[n.key] == n && d[x.key] == x;
    }
    forall k | k in d - {x.key}
      ensures d[k] in t
    {
      WithoutMember(s, x, d[k]);
    }
  }

  lemma SpellsPermuted(s: seq<Node>, d: map<Key, Node>, r: seq<Node>)
    requires Spells(s, d) && multiset(r) == multiset(s)
    ensures Spells(r, d)
  {
    forall n | n in r
      ensures n in s
    {
      assert n in multiset(s) && n in multiset(r);
    }
    forall n | n in s
      ensures n in r
    {
      assert n in multiset(r) && n in multiset(s);
    }
  }

  method FindOrAdd(t: HashTable, key: Key, elem: Node, ghost d: map<Key, Node>) returns (a: Node)
    requires t.Valid() && Spells(t.app, d)
    requires key !in d ==> elem !in d.Values
    modifies t, t.buckets, t.bloomBv, Elems(t.app), elem
    ensures t.Valid() && Spells(t.app, Next(d, Put(key, elem))) && a == Answer(d, Put(key, elem))
    ensures t.buckets == old(t.buckets) || fresh(t.buckets)
    ensures t.bloomBv == old(t.bloomBv) || fresh(t.bloomBv)
    ensures Elems(t.app) <= Elems(old(t.app)) + {elem}
  {
    hide HashToBkt, FirstMatch, HashTable.AppValid, HashTable.TableValid, HashTable.Grown, HashTable.Expanded;
    ghost var s := t.app;
    var found := t.Find(key);
    FoundSpelled(s, d, key, found);
    if found == null {
      NotSpelled(s, d, elem);
      t.AddKeyptr(key, elem);
      assert Spells(s, d);
      SpellsAppend(s, d, elem);
      a := elem;
    } else {
      a := found;
    }
  }

  lemma NotSpelled(s: seq<Node>, d: map<Key, Node>, elem: Node)
    requires Spells(s, d) && elem !in d.Values
    ensures elem !in s
  {
  }

  lemma FoundSpelled(s: seq<Node>, d: map<Key, Node>, key: Key, found: Node?)
    requires Spells(s, d)
    requires found == null <==> forall n :: n in s ==> n.key != key
    requires found != null ==> found in s && found.key == key
    ensures found == null <==> key !in d
    ensures found != null ==> d[key] == found
  {
  }

  method FindAndDelete(t: HashTable, key: Key, ghost d: map<Key, Node>) returns (a: Node?)
    requires t.Valid() && Spells(t.app, d)
    modifies t, t.buckets, Elems(t.app)
    ensures t.Valid() && Spells(t.app, Next(d, Remove(key))) && a == Answer(d, Remove(key))
    ensures t.buckets == old(t.buckets) && t.bloomBv == old(t.bloomBv)
    ensures Elems(t.app) <= Elems(old(t.app))
  {
    hide HashToBkt, FirstMatch, Without, NoDup, HashTable.AppValid, HashTable.TableValid;
    ghost var s := t.app;
    a := t.Find(key);
    FoundSpelled(s, d, key, a);
    if a != null {
      t.ValidLinks();
      var found: Node := a;
      HashTable.ElemsWithout(s, found);
      SpellsWithout(s, d, found);
      t.Delete(found);
    } else {
      assert d - {key} == d;
    }
  }

  lemma PermutedElems(s: seq<Node>, r: seq<Node>)
    requires multiset(r) == multiset(s)
    ensures Elems(r) == Elems(s)
  {
    forall n: Node
      ensures n in r <==> n in s
    {
      assert n in r <==> n in multiset(r);
    }
  }

  method SortTable(t: HashTable, cmp: (Node, Node) -> int, ghost d: map<Key, Node>)
    requires t.Valid() && Spells(t.app, d)
    modifies t, Elems(t.app)
    ensures t.Valid() && Spells(t.app, d)
    ensures t.buckets == old(t.buckets) && t.bloomBv == old(t.bloomBv)
    ensures Elems(t.app) == Elems(old(t.app))
  {
    hide HashTable.AppValid, HashTable.TableValid, Spells, StableSort.SortFrom, StableSort.StableSortOf, Elems;
    ghost var s := t.app;
    ghost var passes, comparisons := t.Sort(cmp);
    StableSort.SortPermutes(cmp, s, 1);
    PermutedElems(s, t.app);
    assert Spells(s, d);
    SpellsPermuted(s, d, t.app);
  }

  method Step(t: HashTable, op: Op, ghost d: map<Key, Node>) returns (a: Node?)
    requires t.Valid() && Spells(t.app, d)
    requires op.Put? && op.key !in d ==> op.elem !in d.Values
    modifies t, t.buckets, t.bloomBv, Elems(t.app), if op.Put? then {op.elem} else {}
    ensures t.Valid() && Spells(t.app, Next(d, op)) && a == Answer(d, op)
    ensures t.buckets == old(t.buckets) || fresh(t.buckets)
    ensures t.bloomBv == old(t.bloomBv) || fresh(t.bloomBv)
    ensures Elems(t.app) <= Elems(old(t.app)) + if op.Put? then {op.elem} else {}
  {
    hide HashToBkt, Elems;
    match op
    case Get(key) => a := t.Find(key);
    case Put(key, elem) => a := FindOrAdd(t, key, elem, d);
    case Remove(key) => a := FindAndDelete(t, key, d);
    case SortBy(cmp) =>
      SortTable(t, cmp, d);
      a := null;
  }

  /** Every run of operations answers as the map does, and leaves the table spelling out the map's final state. */
  method Replay(t: HashTable, ops: seq<Op>, ghost d: map<Key, Node>, ghost region: set<Node>) returns (answers: seq<Node?>)
    requires t.Valid() && Spells(t.app, d)
    requires Lawful(d, ops, region) && Elems(t.app) <= region
    modifies t, t.buckets, t.bloomBv, region
    ensures t.Valid() && Spells(t.app, Final(d, ops))
    ensures answers == Answers(d, ops)
    decreases |ops|
  {
    hide Elems;
    if ops == [] {
      answers := [];
    } else {
      var a := Step(t, ops[0], d);
      var rest := Replay(t, ops[1..], Next(d, ops[0]), region);
      answers := [a] + rest;
    }
  }
}
