/**
 The LRU cache of include/libs/lru.hpp on values.  `order` is the linked list, front
 first, as node identities; `nodes` holds their contents; `cache` maps a key to the node
 its iterator points at.
 */
module Lru {
  import opened Words

  datatype Node<K, V> = Node(key: K, val: V)

  datatype Lru<K, V> = Lru(order: seq<nat>, nodes: map<nat, Node<K, V>>, cache: map<K, nat>, size: nat, capacity: nat, next: nat)

  // ----- lists -----

  function Without(s: seq<nat>, id: nat): seq<nat> {
    if s == [] then [] else if s[0] == id then s[1..] else [s[0]] + Without(s[1..], id)
  }

  /** splice(begin, list, it): the node goes to the front. */
  function ToFront(s: seq<nat>, id: nat): seq<nat> { [id] + Without(s, id) }

  ghost predicate Distinct<T>(s: seq<T>) { forall i, j :: 0 <= i < j < |s| ==> s[i] != s[j] }

  lemma DistinctCons<T>(x: T, s: seq<T>)
    requires Distinct(s) && x !in s
    ensures Distinct([x] + s)
  {
  }

  lemma {:induction false} WithoutMembers(s: seq<nat>, id: nat, x: nat)
    requires Distinct(s)
    ensures x in Without(s, id) <==> x in s && x != id
  {
    if s != [] && s[0] != id {
      WithoutMembers(s[1..], id, x);
    }
  }

  lemma {:induction false} WithoutShape(s: seq<nat>, id: nat)
    requires Distinct(s)
    ensures Distinct(Without(s, id)) && |Without(s, id)| == if id in s then |s| - 1 else |s|
  {
    if s != [] && s[0] != id {
      WithoutShape(s[1..], id);
      WithoutMembers(s[1..], id, s[0]);
      DistinctCons(s[0], Without(s[1..], id));
    }
  }

  lemma ToFrontFacts(s: seq<nat>, id: nat)
    requires Distinct(s) && id in s
    ensures Distinct(ToFront(s, id)) && |ToFront(s, id)| == |s| && (forall x :: x in ToFront(s, id) <==> x in s)
  {
    WithoutShape(s, id);
    forall x: nat ensures x in Without(s, id) <==> x in s && x != id { WithoutMembers(s, id, x); }
    DistinctCons(id, Without(s, id));
  }

  // ----- operations -----

  function Touch<K, V>(c: Lru<K, V>, id: nat): Lru<K, V> { c.(order := ToFront(c.order, id)) }

  function AfterGet<K, V>(c: Lru<K, V>, key: K): Lru<K, V> {
    if key !in c.cache then c else Touch(c, c.cache[key]).(cache := c.cache[key := c.cache[key]])
  }

  /** Write `val` through the iterator of `key`, after moving its node to the front. */
  function Overwrite<K, V>(c: Lru<K, V>, key: K, val: V): Lru<K, V>
    requires key in c.cache
  {
    Touch(c, c.cache[key]).(nodes := c.nodes[c.cache[key] := Node(key, val)])
  }

  function Push<K, V>(c: Lru<K, V>, key: K, val: V): Lru<K, V> {
    c.(order := [c.next] + c.order, nodes := c.nodes[c.next := Node(key, val)], cache := c.cache[key := c.next],
       size := c.size + 1, next := c.next + 1)
  }

  /** Reuse the node at the back; emplace keeps an entry that is already there. */
  function Recycle<K, V>(c: Lru<K, V>, key: K, val: V): Lru<K, V>
    requires c.order != [] && c.order[|c.order| - 1] in c.nodes
  {
    var id := c.order[|c.order| - 1];
    var left := c.cache - {c.nodes[id].key};
    c.(order := ToFront(c.order, id), nodes := c.nodes[id := Node(key, val)],
       cache := if key in left then left else left[key := id])
  }

  ghost predicate Sound<K, V>(c: Lru<K, V>) {
    && c.capacity >= 1 && c.size == |c.order| <= c.capacity && Distinct(c.order)
    && (forall id :: id in c.order ==> id in c.nodes && id < c.next)
    && (forall k :: k in c.cache ==> c.cache[k] in c.order && c.nodes[c.cache[k]].key == k)
  }

  lemma OverwriteSound<K, V>(c: Lru<K, V>, key: K, val: V)
    requires Sound(c) && key in c.cache
    ensures Sound(Overwrite(c, key, val)) && Overwrite(c, key, val).cache == c.cache
    ensures forall k :: k in c.cache && k != key ==> Overwrite(c, key, val).nodes[c.cache[k]] == c.nodes[c.cache[k]]
  {
    ToFrontFacts(c.order, c.cache[key]);
  }

  function AfterSet<K, V>(c: Lru<K, V>, key: K, val: V): Lru<K, V>
    requires Sound(c)
  {
    if c.size < c.capacity then
      if key !in c.cache then Push(c, key, val) else Overwrite(c, key, val)
    else if key in c.cache then
      OverwriteSound(c, key, val);
      Recycle(Overwrite(c, key, val), key, val)
    else Recycle(c, key, val)
  }

  function Fresh<K, V>(capacity: nat): Lru<K, V> { Lru([], map[], map[], 0, capacity, 0) }

  function AfterReset<K, V>(c: Lru<K, V>): Lru<K, V> { c.(order := [], nodes := map[], cache := map[], size := 0) }

  function Answer<K, V>(c: Lru<K, V>, key: K): Option<V>
    requires Sound(c)
  {
    if key in c.cache then Some(c.nodes[c.cache[key]].val) else None
  }

  // ----- soundness over every run -----

  /** Every cached key answers with its most recent value. */
  ghost predicate Current<K, V>(c: Lru<K, V>, last: map<K, V>)
    requires Sound(c)
  {
    forall k :: k in c.cache ==> k in last && c.nodes[c.cache[k]].val == last[k]
  }

  lemma PushSound<K, V>(c: Lru<K, V>, key: K, val: V, last: map<K, V>)
    requires Sound(c) && Current(c, last) && c.size < c.capacity && key !in c.cache
    ensures Sound(Push(c, key, val)) && Current(Push(c, key, val), last[key := val])
  {
    DistinctCons(c.next, c.order);
  }

  lemma RecycleSound<K, V>(c: Lru<K, V>, key: K, val: V, last: map<K, V>)
    requires Sound(c) && Current(c, last) && c.size == c.capacity
    requires key in c.cache ==> last[key] == val
    ensures Sound(Recycle(c, key, val)) && Current(Recycle(c, key, val), last[key := val])
  {
    ToFrontFacts(c.order, c.order[|c.order| - 1]);
  }

  lemma OverwriteCurrent<K, V>(c: Lru<K, V>, key: K, val: V, last: map<K, V>)
    requires Sound(c) && Current(c, last) && key in c.cache
    ensures Sound(Overwrite(c, key, val)) && Current(Overwrite(c, key, val), last[key := val])
  {
    OverwriteSound(c, key, val);
  }

  lemma SetSound<K, V>(c: Lru<K, V>, key: K, val: V, last: map<K, V>)
    requires Sound(c) && Current(c, last)
    ensures Sound(AfterSet(c, key, val)) && Current(AfterSet(c, key, val), last[key := val])
  {
    if key in c.cache { OverwriteCurrent(c, key, val, last); }
    if c.size < c.capacity {
      if key !in c.cache { PushSound(c, key, val, last); }
    } else if key in c.cache {
      RecycleSound(Overwrite(c, key, val), key, val, last[key := val]);
    } else {
      RecycleSound(c, key, val, last);
    }
  }

  lemma GetSound<K, V>(c: Lru<K, V>, key: K, last: map<K, V>)
    requires Sound(c) && Current(c, last)
    ensures Sound(AfterGet(c, key)) && Current(AfterGet(c, key), last)
  {
    if key in c.cache { ToFrontFacts(c.order, c.cache[key]); }
  }

  datatype Op<K, V> = Get(key: K) | Set(key: K, val: V) | Reset

  function Step<K, V>(c: Lru<K, V>, op: Op<K, V>): Lru<K, V>
    requires Sound(c)
  {
    match op
    case Get(key) => AfterGet(c, key)
    case Set(key, val) => AfterSet(c, key, val)
    case Reset => AfterReset(c)
  }

  /** What the operation makes of the values most recently set: a reset forgets them. */
  function Remembered<K, V>(last: map<K, V>, op: Op<K, V>): map<K, V> {
    match op case Get(key) => last case Set(key, val) => last[key := val] case Reset => map[]
  }

  lemma StepSound<K, V>(c: Lru<K, V>, op: Op<K, V>, last: map<K, V>)
    requires Sound(c) && Current(c, last)
    ensures Sound(Step(c, op)) && Current(Step(c, op), Remembered(last, op))
  {
    match op
    case Get(key) => GetSound(c, key, last);
    case Set(key, val) => SetSound(c, key, val, last);
    case Reset =>
  }

  /** The value most recently set for each key since the last reset. */
  function LastSet<K, V>(ops: seq<Op<K, V>>): map<K, V> {
    if ops == [] then map[] else Remembered(LastSet(ops[..|ops| - 1]), ops[|ops| - 1])
  }

  /** The cache after a run. */
  ghost function After<K, V>(capacity: nat, ops: seq<Op<K, V>>): (c: Lru<K, V>)
    requires capacity >= 1
    ensures Sound(c) && Current(c, LastSet(ops))
  {
    if ops == [] then Fresh(capacity)
    else
      var n := |ops| - 1;
      var c := After(capacity, ops[..n]);
      StepSound(c, ops[n], LastSet(ops[..n]));
      Step(c, ops[n])
  }

  /**
   Soundness in every run with capacity at least 1: every map entry points at a listed node with its own key, the
   list never outgrows the capacity, and a hit returns the value most recently set since the last reset, even when an
   overwrite at full capacity has left two nodes with one key.
   */
  lemma HitReturnsLastSet<K, V>(capacity: nat, ops: seq<Op<K, V>>, key: K)
    requires capacity >= 1
    ensures var c := After(capacity, ops);
            && |c.order| <= capacity
            && (key in c.cache ==> c.cache[key] in c.order && c.nodes[c.cache[key]].key == key)
            && (Answer(c, key).Some? ==> key in LastSet(ops) && Answer(c, key).value == LastSet(ops)[key])
  {
    AfterCapacity(capacity, ops);
  }

  /** Right after a reset every Get misses. */
  lemma ResetForgets<K, V>(capacity: nat, ops: seq<Op<K, V>>, key: K)
    requires capacity >= 1
    ensures Answer(After(capacity, ops + [Reset]), key) == None
  {
    var all := ops + [Op<K, V>.Reset];
    assert all[..|all| - 1] == ops && all[|all| - 1] == Reset;
    assert LastSet(all) == map[];
  }

  lemma {:induction false} AfterCapacity<K, V>(capacity: nat, ops: seq<Op<K, V>>)
    requires capacity >= 1
    ensures After(capacity, ops).capacity == capacity
  {
    if ops != [] { AfterCapacity(capacity, ops[..|ops| - 1]); }
  }

  // ----- the reference: a list of pairs, most recently touched first -----

  predicate HasKey<K(==), V>(r: seq<Node<K, V>>, key: K) { exists i :: 0 <= i < |r| && r[i].key == key }

  function Drop<K(==), V>(r: seq<Node<K, V>>, key: K): seq<Node<K, V>> {
    if r == [] then [] else if r[0].key == key then r[1..] else [r[0]] + Drop(r[1..], key)
  }

  function Find<K(==), V>(r: seq<Node<K, V>>, key: K): Node<K, V>
    requires HasKey(r, key)
  {
    if r[0].key == key then r[0] else Find(r[1..], key)
  }

  function RefGet<K(==), V>(r: seq<Node<K, V>>, key: K): seq<Node<K, V>> {
    if HasKey(r, key) then [Find(r, key)] + Drop(r, key) else r
  }

  function RefSet<K(==), V>(r: seq<Node<K, V>>, key: K, val: V, capacity: nat): seq<Node<K, V>>
    requires capacity >= 1
  {
    if HasKey(r, key) then [Node(key, val)] + Drop(r, key)
    else if |r| < capacity then [Node(key, val)] + r
    else [Node(key, val)] + r[..|r| - 1]
  }

  // ----- the list as such a list -----

  function Listed<K, V>(order: seq<nat>, nodes: map<nat, Node<K, V>>): seq<Node<K, V>>
    requires forall id :: id in order ==> id in nodes
  {
    seq(|order|, i requires 0 <= i < |order| => nodes[order[i]])
  }

  function Contents<K, V>(c: Lru<K, V>): seq<Node<K, V>>
    requires Sound(c)
  {
    Listed(c.order, c.nodes)
  }

  /** List and map in bijection: each listed node is the one the map has for its key. */
  ghost predicate Clean<K, V>(c: Lru<K, V>) {
    Sound(c) && forall id :: id in c.order ==> c.nodes[id].key in c.cache && c.cache[c.nodes[id].key] == id
  }

  lemma CleanKeys<K, V>(c: Lru<K, V>, key: K)
    requires Clean(c)
    ensures HasKey(Contents(c), key) <==> key in c.cache
    ensures forall i, j :: 0 <= i < j < |c.order| ==> Contents(c)[i].key != Contents(c)[j].key
  {
    if key in c.cache {
      var i :| 0 <= i < |c.order| && c.order[i] == c.cache[key];
      assert Contents(c)[i].key == key;
    }
  }

  /** Only `id` carries `key` in this part of the list. */
  ghost predicate Sole<K, V>(order: seq<nat>, nodes: map<nat, Node<K, V>>, id: nat, key: K) {
    && (forall x :: x in order ==> x in nodes)
    && id in order && nodes[id].key == key && (forall x :: x in order && x != id ==> nodes[x].key != key)
  }

  lemma {:induction false} ListedWithout<K, V>(order: seq<nat>, nodes: map<nat, Node<K, V>>, id: nat, key: K)
    requires Sole(order, nodes, id, key) && Distinct(order)
    ensures forall x :: x in Without(order, id) ==> x in nodes
    ensures Listed(Without(order, id), nodes) == Drop(Listed(order, nodes), key)
    ensures HasKey(Listed(order, nodes), key) && Find(Listed(order, nodes), key) == nodes[id]
  {
    var l := Listed(order, nodes);
    assert l[0] == nodes[order[0]];
    if order[0] == id {
      assert l[0].key == key;
      assert Listed(order[1..], nodes) == l[1..];
    } else {
      ListedWithout(order[1..], nodes, id, key);
      assert Listed(order[1..], nodes) == l[1..];
      var i :| 0 <= i < |l[1..]| && l[1..][i].key == key;
      assert l[i + 1].key == key;
      assert Listed(Without(order, id), nodes) == [l[0]] + Listed(Without(order[1..], id), nodes);
    }
  }

  lemma SoleNode<K, V>(c: Lru<K, V>, key: K)
    requires Clean(c) && key in c.cache
    ensures Sole(c.order, c.nodes, c.cache[key], key)
  {
  }

  /** Writing the front node changes nothing behind it. */
  lemma ListedFront<K, V>(rest: seq<nat>, nodes: map<nat, Node<K, V>>, id: nat, n: Node<K, V>)
    requires id !in rest && forall x :: x in rest ==> x in nodes
    ensures Listed([id] + rest, nodes[id := n]) == [n] + Listed(rest, nodes)
  {
  }

  // ----- refinement -----

  lemma GetRefines<K, V>(c: Lru<K, V>, key: K)
    requires Clean(c)
    ensures Clean(AfterGet(c, key)) && Contents(AfterGet(c, key)) == RefGet(Contents(c), key)
  {
    CleanKeys(c, key);
    if key in c.cache {
      var id := c.cache[key];
      ToFrontFacts(c.order, id);
      SoleNode(c, key);
      ListedWithout(c.order, c.nodes, id, key);
      WithoutMembers(c.order, id, id);
      ListedFront(Without(c.order, id), c.nodes, id, c.nodes[id]);
      assert c.nodes[id := c.nodes[id]] == c.nodes;
    }
  }

  lemma OverwriteRefines<K, V>(c: Lru<K, V>, key: K, val: V)
    requires Clean(c) && key in c.cache
    ensures Clean(Overwrite(c, key, val)) && Contents(Overwrite(c, key, val)) == [Node(key, val)] + Drop(Contents(c), key)
  {
    var id := c.cache[key];
    OverwriteSound(c, key, val);
    ToFrontFacts(c.order, id);
    SoleNode(c, key);
    ListedWithout(c.order, c.nodes, id, key);
    WithoutMembers(c.order, id, id);
    ListedFront(Without(c.order, id), c.nodes, id, Node(key, val));
  }

  lemma PushRefines<K, V>(c: Lru<K, V>, key: K, val: V)
    requires Clean(c) && key !in c.cache && c.size < c.capacity
    ensures Clean(Push(c, key, val)) && Contents(Push(c, key, val)) == [Node(key, val)] + Contents(c)
  {
    DistinctCons(c.next, c.order);
    ListedFront(c.order, c.nodes, c.next, Node(key, val));
  }

  lemma {:induction false} WithoutLast(s: seq<nat>)
    requires Distinct(s) && s != []
    ensures Without(s, s[|s| - 1]) == s[..|s| - 1]
  {
    if |s| > 1 {
      WithoutLast(s[1..]);
      assert s[..|s| - 1] == [s[0]] + s[1..][..|s| - 2];
    }
  }

  lemma RecycledOrder<K, V>(c: Lru<K, V>, key: K, val: V, n: nat, id: nat)
    requires Clean(c) && c.size == c.capacity && n == |c.order| - 1 && id == c.order[n]
    ensures id !in c.order[..n] && Recycle(c, key, val).order == [id] + c.order[..n]
  {
    WithoutLast(c.order);
  }

  lemma RecycledCache<K, V>(c: Lru<K, V>, key: K, val: V, n: nat, id: nat, d: Lru<K, V>)
    requires Clean(c) && key !in c.cache && c.size == c.capacity && n == |c.order| - 1 && id == c.order[n]
    requires d == Recycle(c, key, val) && d.order == [id] + c.order[..n] && Sound(d) && id !in c.order[..n]
    ensures Clean(d)
  {
    forall x | x in d.order ensures d.nodes[x].key in d.cache && d.cache[d.nodes[x].key] == x {
      if x != id {
        assert x in c.order[..n] && x in c.order;
        assert c.nodes[x].key != c.nodes[id].key;
      }
    }
  }

  lemma RecycleRefines<K, V>(c: Lru<K, V>, key: K, val: V)
    requires Clean(c) && key !in c.cache && c.size == c.capacity
    ensures Clean(Recycle(c, key, val))
    ensures Contents(Recycle(c, key, val)) == [Node(key, val)] + Contents(c)[..|c.order| - 1]
  {
    var n := |c.order| - 1;
    var id := c.order[n];
    RecycledOrder(c, key, val, n, id);
    RecycleSound(c, key, val, map k | k in c.cache :: c.nodes[c.cache[k]].val);
    RecycledCache(c, key, val, n, id, Recycle(c, key, val));
    ListedFront(c.order[..n], c.nodes, id, Node(key, val));
    assert Listed(c.order[..n], c.nodes) == Contents(c)[..n];
  }

  /** The path that falls through to eviction after an overwrite. */
  predicate FallsThrough<K, V>(c: Lru<K, V>, key: K) { key in c.cache && c.size >= c.capacity && c.capacity >= 2 }

  /** An overwrite in a full cache of one is harmless. */
  lemma RecycleSingle<K, V>(c: Lru<K, V>, key: K, val: V)
    requires Clean(c) && c.capacity == 1 && c.size == 1 && key in c.cache && c.nodes[c.cache[key]] == Node(key, val)
    ensures Recycle(c, key, val) == c
  {
    var id := c.order[0];
    assert c.order == [id] && c.cache[key] == id;
    assert Without([id], id) == [];
    assert c.nodes[id := Node(key, val)] == c.nodes;
    assert (c.cache - {key})[key := id] == c.cache;
  }

  /** In a larger one it evicts the least recently touched key and leaves two nodes for `key`. */
  lemma RecycleDuplicates<K, V>(c: Lru<K, V>, key: K, val: V)
    requires Clean(c) && c.capacity >= 2 && c.size == c.capacity && key in c.cache && c.order[0] == c.cache[key]
    ensures var d := Recycle(c, key, val);
            && |d.order| == |c.order| && d.order[0] in d.nodes && d.order[1] == c.order[0] && d.order[1] in d.nodes
            && d.nodes[d.order[0]].key == key && d.nodes[d.order[1]].key == key
  {
    var n := |c.order| - 1;
    WithoutLast(c.order);
    ToFrontFacts(c.order, c.order[n]);
    assert ToFront(c.order, c.order[n])[1] == c.order[..n][0];
  }

  lemma SetRefinesWhen<K, V>(c: Lru<K, V>, key: K, val: V)
    requires Clean(c) && !FallsThrough(c, key)
    ensures Clean(AfterSet(c, key, val)) && Contents(AfterSet(c, key, val)) == RefSet(Contents(c), key, val, c.capacity)
  {
    CleanKeys(c, key);
    if key in c.cache {
      OverwriteRefines(c, key, val);
      if c.size == c.capacity {
        OverwriteSound(c, key, val);
        ToFrontFacts(c.order, c.cache[key]);
        RecycleSingle(Overwrite(c, key, val), key, val);
      }
    } else if c.size < c.capacity {
      PushRefines(c, key, val);
    } else {
      RecycleRefines(c, key, val);
    }
  }

  lemma SetDuplicates<K, V>(c: Lru<K, V>, key: K, val: V)
    requires Clean(c) && FallsThrough(c, key)
    ensures !Clean(AfterSet(c, key, val))
    ensures var d := AfterSet(c, key, val);
            && |d.order| >= 2 && d.order[0] != d.order[1] && d.order[0] in d.nodes && d.order[1] in d.nodes
            && d.nodes[d.order[0]].key == key && d.nodes[d.order[1]].key == key
  {
    OverwriteRefines(c, key, val);
    OverwriteSound(c, key, val);
    ToFrontFacts(c.order, c.cache[key]);
    RecycleDuplicates(Overwrite(c, key, val), key, val);
    var d := AfterSet(c, key, val);
    ToFrontFacts(Overwrite(c, key, val).order, Overwrite(c, key, val).order[c.size - 1]);
  }

  ghost predicate DistinctKeys<K, V>(r: seq<Node<K, V>>) { forall i, j :: 0 <= i < j < |r| ==> r[i].key != r[j].key }

  lemma {:induction false} DropForgets<K, V>(r: seq<Node<K, V>>, key: K, i: nat)
    requires DistinctKeys(r) && i < |Drop(r, key)|
    ensures Drop(r, key)[i].key != key
    ensures exists j :: i <= j < |r| && r[j] == Drop(r, key)[i]
  {
    if r[0].key == key {
      assert r[i + 1] == Drop(r, key)[i];
    } else if i == 0 {
      assert r[0] == Drop(r, key)[0];
    } else {
      DropForgets(r[1..], key, i - 1);
      var j :| i - 1 <= j < |r[1..]| && r[1..][j] == Drop(r[1..], key)[i - 1];
      assert r[j + 1] == Drop(r, key)[i];
    }
  }

  /**
   Set is the reference exactly when it does not fall through: on a clean cache the result is clean, and has the
   reference's contents, if and only if the key is absent, the cache has room, or it holds a single entry.
   */
  lemma SetRefinesExactly<K, V>(c: Lru<K, V>, key: K, val: V, d: Lru<K, V>)
    requires Clean(c) && d == AfterSet(c, key, val)
    ensures Sound(d) && (Clean(d) <==> !FallsThrough(c, key))
    ensures Contents(d) == RefSet(Contents(c), key, val, c.capacity) <==> !FallsThrough(c, key)
  {
    SetSound(c, key, val, map k | k in c.cache :: c.nodes[c.cache[k]].val);
    if FallsThrough(c, key) {
      SetDuplicates(c, key, val);
      CleanKeys(c, key);
      assert Contents(d)[1].key == key;
      var r := RefSet(Contents(c), key, val, c.capacity);
      if |r| > 1 {
        DropForgets(Contents(c), key, 0);
        assert r[1].key != key;
      }
    } else {
      SetRefinesWhen(c, key, val);
    }
  }

  /** Two keys in a cache of two. */
  lemma TwoSet<K, V>(n: nat, ops: seq<Op<K, V>>, a: K, b: K, x: V, y: V) returns (c: Lru<K, V>)
    requires n == 2 && a != b && ops == [Set(a, x), Set(b, y)]
    ensures c == After(n, ops) && Clean(c) && FallsThrough(c, a) && c.capacity == 2
  {
    assert ops[..1] == [Set(a, x)] && ops[..1][..0] == [];
    var c1 := Push(Fresh(n), a, x);
    PushRefines(Fresh(n), a, x);
    assert After(n, ops[..1][..0]) == Fresh(n);
    assert After(n, ops[..1]) == c1;
    c := Push(c1, b, y);
    PushRefines(c1, b, y);
  }

  /** Setting the first of them again leaves two nodes with its key. */
  lemma SetAgain<K, V>(n: nat, ops: seq<Op<K, V>>, a: K, b: K, x: V, y: V, z: V) returns (d: Lru<K, V>)
    requires n == 2 && a != b && ops == [Set(a, x), Set(b, y), Set(a, z)]
    ensures d == After(n, ops) && !Clean(d)
    ensures |d.order| == 2 && Contents(d)[0].key == a && Contents(d)[1].key == a
  {
    assert ops[..2] == [Set(a, x), Set(b, y)];
    var c := TwoSet(n, ops[..2], a, b, x, y);
    d := After(n, ops);
    assert d == AfterSet(c, a, z);
    SetDuplicates(c, a, z);
    AfterCapacity(n, ops);
  }

  // ----- recency -----

  /** Front to back, each entry was touched later than the next. */
  ghost predicate ByRecency<K, V>(r: seq<Node<K, V>>, stamp: map<K, nat>) {
    && (forall i :: 0 <= i < |r| ==> r[i].key in stamp)
    && (forall i, j :: 0 <= i < j < |r| ==> stamp[r[i].key] > stamp[r[j].key])
  }

  lemma {:induction false} DropByRecency<K, V>(r: seq<Node<K, V>>, key: K, stamp: map<K, nat>)
    requires ByRecency(r, stamp)
    ensures ByRecency(Drop(r, key), stamp)
  {
    if r != [] && r[0].key != key {
      DropByRecency(r[1..], key, stamp);
      forall i | 0 <= i < |Drop(r[1..], key)| ensures stamp[r[0].key] > stamp[Drop(r[1..], key)[i].key] {
        DropForgets(r[1..], key, i);
      }
    }
  }

  /** A touch at time `t` puts the key in front of everything touched before. */
  lemma TouchByRecency<K, V>(n: Node<K, V>, rest: seq<Node<K, V>>, stamp: map<K, nat>, t: nat)
    requires ByRecency(rest, stamp) && (forall k :: k in stamp ==> stamp[k] < t)
    requires forall i :: 0 <= i < |rest| ==> rest[i].key != n.key
    ensures ByRecency([n] + rest, stamp[n.key := t])
  {
  }

  /** The operation uses the entry of its key. */
  predicate Touches<K, V>(c: Lru<K, V>, op: Op<K, V>) { op.Set? || (op.Get? && op.key in c.cache) }

  function StampsAfter<K, V>(c: Lru<K, V>, op: Op<K, V>, stamp: map<K, nat>, t: nat): map<K, nat> {
    if Touches(c, op) then stamp[op.key := t] else stamp
  }

  ghost predicate Ordered<K, V>(c: Lru<K, V>, stamp: map<K, nat>, t: nat) {
    Clean(c) && ByRecency(Contents(c), stamp) && forall k :: k in stamp ==> stamp[k] < t
  }

  lemma DropKeys<K, V>(r: seq<Node<K, V>>, key: K, stamp: map<K, nat>)
    requires ByRecency(r, stamp)
    ensures forall i :: 0 <= i < |Drop(r, key)| ==> Drop(r, key)[i].key != key
  {
    assert DistinctKeys(r);
    forall i | 0 <= i < |Drop(r, key)| ensures Drop(r, key)[i].key != key { DropForgets(r, key, i); }
  }

  lemma {:induction false} FindsKey<K, V>(r: seq<Node<K, V>>, key: K)
    requires HasKey(r, key)
    ensures Find(r, key).key == key
  {
    if r[0].key != key {
      var i :| 0 <= i < |r| && r[i].key == key;
      assert r[1..][i - 1].key == key;
      FindsKey(r[1..], key);
    }
  }

  lemma GetOrdered<K, V>(c: Lru<K, V>, key: K, stamp: map<K, nat>, t: nat)
    requires Ordered(c, stamp, t)
    ensures Ordered(AfterGet(c, key), StampsAfter(c, Get(key), stamp, t), t + 1)
  {
    GetRefines(c, key);
    CleanKeys(c, key);
    if key in c.cache {
      var r := Contents(c);
      FindsKey(r, key);
      DropByRecency(r, key, stamp);
      DropKeys(r, key, stamp);
      TouchByRecency(Find(r, key), Drop(r, key), stamp, t);
    }
  }

  lemma SetOrdered<K, V>(c: Lru<K, V>, key: K, val: V, stamp: map<K, nat>, t: nat)
    requires Ordered(c, stamp, t) && !FallsThrough(c, key)
    ensures Ordered(AfterSet(c, key, val), StampsAfter(c, Set(key, val), stamp, t), t + 1)
  {
    SetRefinesWhen(c, key, val);
    CleanKeys(c, key);
    var r := Contents(c);
    if key in c.cache {
      DropByRecency(r, key, stamp);
      DropKeys(r, key, stamp);
      TouchByRecency(Node(key, val), Drop(r, key), stamp, t);
    } else if c.size < c.capacity {
      AbsentFrom(r, key);
      TouchByRecency(Node(key, val), r, stamp, t);
    } else {
      AbsentFrom(r, key);
      TouchByRecency(Node(key, val), r[..|r| - 1], stamp, t);
    }
  }

  lemma AbsentFrom<K, V>(r: seq<Node<K, V>>, key: K)
    requires !HasKey(r, key)
    ensures forall i :: 0 <= i < |r| ==> r[i].key != key
  {
  }

  /** The run never overwrites a resident key in a full cache of two or more. */
  ghost predicate NeverFallsThrough<K, V>(capacity: nat, ops: seq<Op<K, V>>)
    requires capacity >= 1
  {
    ops != [] ==>
      var n := |ops| - 1;
      NeverFallsThrough(capacity, ops[..n]) && (ops[n].Set? ==> !FallsThrough(After(capacity, ops[..n]), ops[n].key))
  }

  /** When each key was last touched: the index of the operation. */
  ghost function Stamps<K, V>(capacity: nat, ops: seq<Op<K, V>>): map<K, nat>
    requires capacity >= 1
  {
    if ops == [] then map[]
    else
      var n := |ops| - 1;
      StampsAfter(After(capacity, ops[..n]), ops[n], Stamps(capacity, ops[..n]), n)
  }

  /** In such runs list and map stay in bijection and the list is ordered by the time of the last touch. */
  lemma {:induction false} RecencyOrder<K, V>(capacity: nat, ops: seq<Op<K, V>>)
    requires capacity >= 1 && NeverFallsThrough(capacity, ops)
    ensures Ordered(After(capacity, ops), Stamps(capacity, ops), |ops|)
  {
    if ops != [] {
      var n := |ops| - 1;
      RecencyOrder(capacity, ops[..n]);
      var c, stamp := After(capacity, ops[..n]), Stamps(capacity, ops[..n]);
      match ops[n]
      case Get(key) => GetOrdered(c, key, stamp, n);
      case Set(key, val) => SetOrdered(c, key, val, stamp, n);
      case Reset =>
    }
  }

  lemma OldestLast<K, V>(c: Lru<K, V>, stamp: map<K, nat>, t: nat, out: K, k: K)
    requires Ordered(c, stamp, t) && c.order != [] && out == Contents(c)[|c.order| - 1].key && k in c.cache && k != out
    ensures k in stamp && out in stamp && stamp[k] > stamp[out]
  {
    CleanKeys(c, k);
    var i :| 0 <= i < |Contents(c)| && Contents(c)[i].key == k;
  }

  /** Eviction: a new key in a full cache displaces exactly the key whose last touch is the oldest. */
  lemma EvictsLeastRecent<K, V>(capacity: nat, ops: seq<Op<K, V>>, c: Lru<K, V>, key: K, val: V, d: Lru<K, V>) returns (out: K)
    requires capacity >= 1 && NeverFallsThrough(capacity, ops) && c == After(capacity, ops)
    requires key !in c.cache && c.size == c.capacity && d == AfterSet(c, key, val)
    ensures out in c.cache && forall k :: k in c.cache && k != out ==>
              k in Stamps(capacity, ops) && out in Stamps(capacity, ops) && Stamps(capacity, ops)[k] > Stamps(capacity, ops)[out]
    ensures forall k :: k in d.cache <==> k == key || (k in c.cache && k != out)
  {
    RecencyOrder(capacity, ops);
    var stamp := Stamps(capacity, ops);
    out := Contents(c)[|c.order| - 1].key;
    forall k | k in c.cache && k != out ensures k in stamp && out in stamp && stamp[k] > stamp[out] {
      OldestLast(c, stamp, |ops|, out, k);
    }
  }

  // ----- the class -----

  class LruCache<K(==), V(0)> {
    const capacity: nat
    var order: seq<nat>
    var nodes: map<nat, Node<K, V>>
    var cache: map<K, nat>
    var size: nat
    var next: nat

    ghost function Abs(): Lru<K, V>
      reads this
    {
      Lru(order, nodes, cache, size, capacity, next)
    }

    constructor (capacity: nat)
      ensures Abs() == Fresh(capacity)
    {
      this.capacity := capacity;
      order, nodes, cache, size, next := [], map[], map[], 0, 0;
    }

    /** list::splice of one node to the front. */
    method Splice(id: nat)
      requires id in order
      modifies `order
      ensures order == ToFront(old(order), id)
    {
      var i := 0;
      while order[i] != id
        invariant 0 <= i < |order| && id !in order[..i]
        decreases |order| - i
      {
        i := i + 1;
        assert id in order[i..] by { assert order == order[..i] + order[i..]; assert order[..i] == order[..i - 1] + [order[i - 1]]; }
        assert i < |order|;
      }
      SpliceAt(order, id, i);
      order := [id] + order[..i] + order[i + 1..];
    }

    method Get(key: K) returns (hit: bool, val: V)
      requires Sound(Abs())
      modifies `order, `cache
      ensures Abs() == AfterGet(old(Abs()), key)
      ensures hit == old(Answer(Abs(), key)).Some? && (hit ==> val == old(Answer(Abs(), key)).value)
    {
      if key !in cache {
        hit := false;
        val := *;
        return;
      }
      Splice(cache[key]);
      cache := cache[key := order[0]];
      return true, nodes[order[0]].val;
    }

    method Set(key: K, val: V)
      requires Sound(Abs())
      modifies this
      ensures Abs() == AfterSet(old(Abs()), key, val)
    {
      if size < capacity {
        if key !in cache {
          order := [next] + order;
          nodes := nodes[next := Node(key, val)];
          size := size + 1;
          cache := cache[key := next];
          next := next + 1;
        } else {
          MoveAndWrite(key, val);
        }
        return;
      }
      if key in cache {
        OverwriteSound(Abs(), key, val);
        MoveAndWrite(key, val);
      }
      Evict(key, val);
    }

    method MoveAndWrite(key: K, val: V)
      requires Sound(Abs()) && key in cache
      modifies `order, `nodes, `cache
      ensures Abs() == Overwrite(old(Abs()), key, val)
    {
      Splice(cache[key]);
      cache := cache[key := order[0]];
      nodes := nodes[order[0] := nodes[order[0]].(val := val)];
      assert cache == old(cache);
    }

    method Evict(key: K, val: V)
      requires Sound(Abs()) && order != []
      modifies `order, `nodes, `cache
      ensures Abs() == Recycle(old(Abs()), key, val)
    {
      var id := order[|order| - 1];
      cache := cache - {nodes[id].key};
      Splice(id);
      nodes := nodes[order[0] := nodes[order[0]].(key := key)];
      nodes := nodes[order[0] := nodes[order[0]].(val := val)];
      if key !in cache {
        cache := cache[key := order[0]];
      }
    }

    method Reset()
      modifies `order, `nodes, `cache, `size
      ensures Abs() == AfterReset(old(Abs()))
    {
      size := 0;
      order := [];
      nodes := map[];
      cache := map[];
    }
  }

  lemma {:induction false} SpliceAt(s: seq<nat>, id: nat, i: nat)
    requires i < |s| && s[i] == id && id !in s[..i]
    ensures [id] + s[..i] + s[i + 1..] == ToFront(s, id)
  {
    WithoutAt(s, id, i);
    assert [id] + s[..i] + s[i + 1..] == [id] + (s[..i] + s[i + 1..]);
  }

  lemma {:induction false} WithoutAt(s: seq<nat>, id: nat, i: nat)
    requires i < |s| && s[i] == id && id !in s[..i]
    ensures Without(s, id) == s[..i] + s[i + 1..]
  {
    if i > 0 {
      assert s[..i][0] == s[0];
      assert s[1..][..i - 1] == s[..i][1..];
      WithoutAt(s[1..], id, i - 1);
    }
  }
}
