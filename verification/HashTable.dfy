/** The chained hash table of the routing daemon.

    Everything here holds for any hash function. Keys have one length in a table:
    the source compares only as many bytes as the key looked up has. */
module HashTable {
  import opened Bits
  import opened Wrappers

  type Key = seq<byte>

  /** The slot of a key under a hash function. */
  function SlotOf(hash: Key -> nat, key: Key, size: nat): (s: nat)
    requires size > 0
    ensures s < size
  {
    And(hash(key), size - 1)
  }

  /** The hint, rounded up to a power of two from n on. */
  function RoundedUp(n: nat, hint: nat): (r: nat)
    requires n > 0
    ensures r >= n && r >= hint
    decreases hint - n
  {
    if n >= hint then n else RoundedUp(n * 2, hint)
  }

  /** The number of slots is a power of two, at least 16 and what was asked for, and
      no larger one than needed. */
  lemma {:induction false} RoundedUpIsPow2(k: nat, hint: nat)
    ensures var r := RoundedUp(Pow2(k), hint);
      IsPow2(r) && r >= hint && (r == Pow2(k) || r < 2 * hint)
    decreases hint - Pow2(k)
  {
    if Pow2(k) >= hint {
    } else {
      assert Pow2(k + 1) == 2 * Pow2(k);
      RoundedUpIsPow2(k + 1, hint);
    }
  }

  /** Where a new key comes in the order of iteration: behind the keys of its slot. */
  function Inserted(place: Key -> nat, order: seq<Key>, key: Key): seq<Key> {
    if order == [] || place(order[0]) > place(key) then [key] + order
    else [order[0]] + Inserted(place, order[1..], key)
  }

  class Node<D> {
    const key: Key
    var next: Node?<D>
    var data: D

    constructor (key: Key, data: D)
      ensures this.key == key && this.data == data && next == null
    {
      this.key, this.data, next := key, data, null;
    }
  }

  ghost function At<D>(c: seq<Node<D>>, j: nat): Node?<D> {
    if j < |c| then c[j] else null
  }

  /** The list that starts at head consists of the nodes of c in order. */
  ghost predicate List<D>(head: Node?<D>, c: seq<Node<D>>)
    reads c`next
  {
    head == At(c, 0) && forall j :: 0 <= j < |c| ==> c[j].next == At(c, j + 1)
  }

  /** Every node of a chain is registered under its key and hashes to its slot, and
      every registered key has its node in its chain. */
  ghost predicate Registry<D>(place: Key -> nat, chains: seq<seq<Node<D>>>, nodes: map<Key, Node<D>>, keyLen: nat) {
    && (forall k :: place(k) < |chains|)
    && (forall i :: Once(chains, i))
    && (forall i, j :: Registered(place, chains, nodes, i, j))
    && (forall k :: Housed(place, chains, nodes, keyLen, k))
  }

  ghost predicate Once<D>(chains: seq<seq<Node<D>>>, i: int) {
    0 <= i < |chains| ==> OnlyOnce(chains[i])
  }

  ghost predicate Registered<D>(place: Key -> nat, chains: seq<seq<Node<D>>>, nodes: map<Key, Node<D>>, i: int, j: int) {
    0 <= i < |chains| && 0 <= j < |chains[i]| ==>
      var n := chains[i][j];
      n.key in nodes && nodes[n.key] == n && place(n.key) == i
  }

  ghost predicate Housed<D>(place: Key -> nat, chains: seq<seq<Node<D>>>, nodes: map<Key, Node<D>>, keyLen: nat, k: Key) {
    k in nodes ==> |k| == keyLen && nodes[k].key == k && place(k) < |chains| && nodes[k] in chains[place(k)]
  }

  ghost predicate OnlyOnce<D>(c: seq<Node<D>>) {
    forall j, k :: 0 <= j < k < |c| ==> c[j] != c[k]
  }

  /** Walks a list for a key. */
  method Walk<D>(head: Node?<D>, key: Key, ghost c: seq<Node<D>>) returns (prev: Node?<D>, cur: Node?<D>, ghost at: nat)
    requires List(head, c)
    ensures at <= |c| && cur == At(c, at) && prev == if at == 0 then null else c[at - 1]
    ensures forall j :: 0 <= j < at ==> c[j].key != key
    ensures cur != null ==> cur.key == key
  {
    prev, cur, at := null, head, 0;
    while cur != null && cur.key != key
      invariant at <= |c| && cur == At(c, at)
      invariant prev == if at == 0 then null else c[at - 1]
      invariant forall j :: 0 <= j < at ==> c[j].key != key
      decreases |c| - at
    {
      prev, cur, at := cur, cur.next, at + 1;
    }
  }

  /** No node is on two lists. */
  ghost predicate Disjoint<D>(chains: seq<seq<Node<D>>>) {
    forall i, j, n :: 0 <= i < |chains| && 0 <= j < |chains| && n in chains[i] && n in chains[j] ==> i == j
  }

  ghost predicate Within<D>(chains: seq<seq<Node<D>>>, repr: set<Node<D>>) {
    forall i, n :: 0 <= i < |chains| && n in chains[i] ==> n in repr
  }

  class Table<D> {
    const place: Key -> nat   // the slot of a key
    const slots: array<Node?<D>>
    const keyLen: nat
    var numNodes: nat
    ghost var chains: seq<seq<Node<D>>>
    ghost var nodes: map<Key, Node<D>>
    ghost var contents: map<Key, D>   // the finite map the table stands for
    ghost var repr: set<Node<D>>

    ghost predicate Linked()
      reads this`chains, this`repr, slots, repr`next
    {
      && slots.Length == |chains| && Within(chains, repr)
      && forall i :: 0 <= i < |chains| ==> List(slots[i], chains[i])
    }

    ghost predicate Filled()
      reads this`nodes, this`contents, this`repr, repr`data
    {
      && contents.Keys == nodes.Keys
      && forall k :: k in nodes ==> nodes[k] in repr && nodes[k].data == contents[k]
    }

    ghost predicate Valid()
      reads this, slots, repr
    {
      && Linked() && Filled() && Registry(place, chains, nodes, keyLen)
      && numNodes == |nodes|
    }

    /** The keys in the order of iteration: slot by slot, each slot in list order. */
    ghost function Order(): seq<Key>
      reads this`chains
    {
      KeysOf(Flat(chains))
    }

    constructor (hash: Key -> nat, sizeHint: nat, keyLen: nat)
      ensures Valid() && contents == map[] && fresh(slots) && repr == {} && Order() == []
      ensures this.keyLen == keyLen && slots.Length == RoundedUp(16, sizeHint)
      ensures IsPow2(slots.Length) && slots.Length >= sizeHint
      ensures forall k :: place(k) == SlotOf(hash, k, slots.Length)
    {
      var n := 16;
      while n < sizeHint
        invariant n > 0 && RoundedUp(n, sizeHint) == RoundedUp(16, sizeHint)
      {
        n := n * 2;
      }
      slots := new Node?<D>[n](_ => null);
      this.keyLen := keyLen;
      place := key => SlotOf(hash, key, n);
      numNodes, chains, nodes, contents, repr := 0, seq(n, _ => []), map[], map[], {};
      new;
      EmptyFlat(chains);
      assert Pow2(4) == 16;
      RoundedUpIsPow2(4, sizeHint);
    }

    /** The node with a key, the node before it in its slot, and the slot. */
    method Find(key: Key) returns (prev: Node?<D>, c: Node?<D>, h: nat, ghost at: nat)
      requires Valid() && |key| == keyLen
      ensures h == place(key) && at <= |chains[h]| && c == At(chains[h], at)
      ensures prev == if at == 0 then null else chains[h][at - 1]
      ensures if c != null then key in nodes && c == nodes[key] && c.key == key else key !in nodes && at == |chains[h]|
    {
      h := place(key);
      prev, c, at := Walk(slots[h], key, chains[h]);
      Outcome(place, chains, nodes, keyLen, key, at);
    }

    method Lookup(key: Key) returns (data: Option<D>)
      requires Valid() && |key| == keyLen
      ensures data == if key in contents then Some(contents[key]) else None
    {
      var prev, c, h, at := Find(key);
      data := if c != null then Some(c.data) else None;
    }

    method Insert(key: Key, data: D)
      requires Valid() && |key| == keyLen
      modifies this, slots, repr
      ensures Valid() && contents == old(contents)[key := data]
      ensures fresh(repr - old(repr))
      ensures Order() == if key in old(contents) then old(Order()) else Inserted(place, old(Order()), key)
    {
      var prev, c, h, at := Find(key);
      if c != null {
        Overwrite(key, c, data);
      } else {
        var n := new Node<D>(key, data);
        InsertNew(n, prev, h);
        assert repr - old(repr) <= {n};
      }
    }

    method Overwrite(key: Key, c: Node<D>, data: D)
      requires Valid() && key in nodes && nodes[key] == c
      modifies this`contents, c`data
      ensures Valid() && contents == old(contents)[key := data]
    {
      OnlyOneWith(place, chains, nodes, keyLen, key);
      c.data := data;
      contents := contents[key := data];
      assert Filled();
    }

    method InsertNew(n: Node<D>, prev: Node?<D>, h: nat)
      requires Valid() && |n.key| == keyLen && n.key !in nodes && h == place(n.key)
      requires n !in repr && n.next == null
      requires prev == if chains[h] == [] then null else chains[h][|chains[h]| - 1]
      modifies this, slots, repr
      ensures Valid() && contents == old(contents)[n.key := old(n.data)] && repr == old(repr) + {n}
      ensures Order() == Inserted(place, old(Order()), n.key)
    {
      InsertedInOrder(place, chains, nodes, keyLen, h, n);
      RegistryDisjoint(place, chains, nodes, keyLen, h);
      RegistryGrows(place, chains, nodes, keyLen, h, n);
      Attach(n, prev, h);
      Record(n);
    }

    method Record(n: Node<D>)
      requires Filled() && n in repr && n.key !in nodes
      modifies this`nodes, this`contents, this`numNodes
      ensures Filled() && nodes == old(nodes)[n.key := n] && contents == old(contents)[n.key := n.data]
      ensures numNodes == old(numNodes) + 1
    {
      nodes, contents, numNodes := nodes[n.key := n], contents[n.key := n.data], numNodes + 1;
    }

    /** Hangs a new node at the end of list h. */
    method Attach(n: Node<D>, prev: Node?<D>, h: nat)
      requires Linked() && Disjoint(chains) && h < |chains| && n !in repr && n.next == null
      requires OnlyOnce(chains[h]) && prev == if chains[h] == [] then null else chains[h][|chains[h]| - 1]
      modifies this`chains, this`repr, slots, repr`next
      ensures Linked() && chains == old(chains)[h := old(chains)[h] + [n]] && repr == old(repr) + {n}
      ensures old(Filled()) ==> Filled()
    {
      if prev != null {
        assert prev in chains[h];
        prev.next := n;
      } else {
        slots[h] := n;
      }
      chains := chains[h := chains[h] + [n]];
      repr := repr + {n};
    }

    method Remove(key: Key)
      requires Valid() && |key| == keyLen
      modifies this, slots, repr
      ensures Valid() && contents == old(contents) - {key} && repr == old(repr)
    {
      var prev, c, h, at := Find(key);
      if c != null {
        RemoveNode(key, prev, c, h, at);
      } else {
        assert contents - {key} == contents;
      }
    }

    method RemoveNode(key: Key, prev: Node?<D>, c: Node<D>, h: nat, ghost at: nat)
      requires Valid() && c.key == key && h < |chains| && at < |chains[h]| && c == chains[h][at]
      requires prev == if at == 0 then null else chains[h][at - 1]
      modifies this`chains, this`nodes, this`contents, this`numNodes, slots, repr`next
      ensures Valid() && contents == old(contents) - {key}
    {
      RegistryDisjoint(place, chains, nodes, keyLen, h);
      RegistryShrinks(place, chains, nodes, keyLen, h, at);
      Unlink(prev, c, h, at);
      Forget(key);
    }

    method Forget(key: Key)
      requires Filled() && key in nodes && numNodes > 0
      modifies this`nodes, this`contents, this`numNodes
      ensures Filled() && nodes == old(nodes) - {key} && contents == old(contents) - {key}
      ensures numNodes == old(numNodes) - 1
    {
      nodes, contents, numNodes := nodes - {key}, contents - {key}, numNodes - 1;
    }

    /** Takes the node at position at out of list h. */
    method Unlink(prev: Node?<D>, c: Node<D>, h: nat, ghost at: nat)
      requires Linked() && Disjoint(chains) && h < |chains| && OnlyOnce(chains[h])
      requires at < |chains[h]| && c == chains[h][at] && prev == if at == 0 then null else chains[h][at - 1]
      modifies this`chains, slots, repr`next
      ensures Linked() && chains == old(chains)[h := Without(old(chains)[h], at)]
    {
      assert List(slots[h], chains[h]);
      Relink(prev, h, c.next);
      assert List(slots[h], Without(chains[h], at));
      SetChain(h, Without(chains[h], at));
    }

    /** List h is now another list of nodes of the table. */
    ghost method SetChain(h: nat, c: seq<Node<D>>)
      requires h < |chains| == slots.Length && Within(chains, repr) && (forall n :: n in c ==> n in repr)
      requires List(slots[h], c) && forall i :: 0 <= i < |chains| && i != h ==> List(slots[i], chains[i])
      modifies `chains
      ensures Linked() && chains == old(chains)[h := c]
    {
      chains := chains[h := c];
    }

    /** Points the link behind prev, or the slot itself, to another node. */
    method Relink(prev: Node?<D>, h: nat, next: Node?<D>)
      requires Linked() && Disjoint(chains) && h < |chains| && (prev != null ==> prev in chains[h])
      modifies slots, repr`next
      ensures slots.Length == |chains| && Within(chains, repr)
      ensures forall i :: 0 <= i < |chains| && i != h ==> List(slots[i], chains[i])
      ensures slots[h] == if prev == null then next else old(slots[h])
      ensures forall n :: n in repr ==> n.next == if n == prev then next else old(n.next)
    {
      if prev != null {
        assert forall i :: 0 <= i < |chains| && i != h ==> prev !in chains[i];
        prev.next := next;
      } else {
        slots[h] := next;
      }
    }

    /** The first node in slot s or a later one. */
    method NextSlot(s: nat) returns (c: Node?<D>, ghost i: nat)
      requires Valid() && s <= |chains|
      ensures c == At(Flat(chains[s..]), 0)
      ensures c != null ==> i < |chains| && c == At(chains[i], 0) && Flat(chains[s..]) == chains[i] + Flat(chains[i + 1..])
    {
      c, i := null, s;
      var k := s;
      while k < slots.Length && c == null
        invariant s <= k <= |chains| && (c == null ==> Flat(chains[s..]) == Flat(chains[k..]))
        invariant c != null ==> i < k && c == At(chains[i], 0) && Flat(chains[s..]) == chains[i] + Flat(chains[i + 1..])
      {
        FlatFirst(chains, k);
        assert List(slots[k], chains[k]);
        c, i := slots[k], k;
        if c == null {
          assert chains[k] + Flat(chains[k + 1..]) == Flat(chains[k + 1..]);
        }
        k := k + 1;
      }
    }

    method GetFirst() returns (c: Node?<D>, ghost i: nat)
      requires Valid()
      ensures c == At(Flat(chains), 0)
      ensures c != null ==> i < |chains| && c == At(chains[i], 0) && Flat(chains) == chains[i] + Flat(chains[i + 1..])
    {
      assert chains[0..] == chains;
      c, i := NextSlot(0);
    }

    /** The node after n, which is entry j of slot i. */
    method GetNext(n: Node<D>, ghost i: nat, ghost j: nat) returns (c: Node?<D>, ghost k: nat, ghost l: nat)
      requires Valid() && i < |chains| && j < |chains[i]| && n == chains[i][j]
      ensures c == At(Remaining(i, j + 1), 0)
      ensures c != null ==> k < |chains| && l < |chains[k]| && c == chains[k][l] && Remaining(i, j + 1) == Remaining(k, l)
    {
      assert Registered(place, chains, nodes, i, j);
      assert List(slots[i], chains[i]);
      var h := place(n.key);
      if n.next != null {
        c, k, l := n.next, i, j + 1;
      } else {
        c, k := NextSlot(h + 1);
        l := 0;
        assert c != null ==> chains[k][0..] == chains[k];
      }
    }

    /** Everything from entry j of slot i on. */
    ghost function Remaining(i: nat, j: nat): seq<Node<D>>
      reads this
      requires i < |chains| && j <= |chains[i]|
    {
      chains[i][j..] + Flat(chains[i + 1..])
    }

    lemma FirstRemaining(i: nat, j: nat)
      requires i < |chains| && j < |chains[i]|
      ensures Remaining(i, j) == [chains[i][j]] + Remaining(i, j + 1)
    {
    }

    lemma RestOfKeys(i: nat, j: nat)
      requires i < |chains| && j < |chains[i]|
      ensures KeysOf(Remaining(i, j)) != []
      ensures KeysOf(Remaining(i, j))[1..] == KeysOf(Remaining(i, j + 1))
    {
      FirstRemaining(i, j);
    }

    lemma HasData(i: nat, j: nat)
      requires Valid() && i < |chains| && j < |chains[i]|
      ensures chains[i][j].key in contents && chains[i][j].data == contents[chains[i][j].key]
    {
      assert Registered(place, chains, nodes, i, j);
    }

    /** Iterating visits every key of the table exactly once. */
    method Iterate() returns (keys: seq<Key>)
      requires Valid()
      ensures |keys| == |contents| && forall k :: k in keys <==> k in contents
      ensures forall a, b :: 0 <= a < b < |keys| ==> keys[a] != keys[b]
    {
      keys := [];
      var c: Node?<D>;
      ghost var i: nat, j: nat := 0, 0;
      c, i := GetFirst();
      ghost var rest := Flat(chains);
      if c != null {
        assert chains[i][0..] == chains[i];
      }
      while c != null
        invariant c == At(rest, 0)
        invariant c != null ==> i < |chains| && j < |chains[i]| && c == chains[i][j] && rest == Remaining(i, j)
        invariant keys + KeysOf(rest) == KeysOf(Flat(chains))
        decreases |rest|
      {
        ghost var after := Remaining(i, j + 1);
        FirstRemaining(i, j);
        MoveKey(keys, c, after);
        keys := keys + [c.key];
        c, i, j := GetNext(c, i, j);
        rest := after;
      }
      assert keys == keys + KeysOf(rest);
      EachOnce(place, chains, nodes, keyLen);
    }

    method NumEntries() returns (n: nat)
      requires Valid()
      ensures n == |contents|
    {
      n := numNodes;
      assert |contents.Keys| == |nodes.Keys|;
    }
  }

  ghost function Without<D>(c: seq<Node<D>>, at: nat): seq<Node<D>>
    requires at < |c|
  {
    c[..at] + c[at + 1..]
  }

  lemma RegistryDisjoint<D>(place: Key -> nat, chains: seq<seq<Node<D>>>, nodes: map<Key, Node<D>>, keyLen: nat, h: nat)
    requires Registry(place, chains, nodes, keyLen) && h < |chains|
    ensures Disjoint(chains) && OnlyOnce(chains[h])
  {
    assert Once(chains, h);
    forall i, j, n | 0 <= i < |chains| && 0 <= j < |chains| && n in chains[i] && n in chains[j] ensures i == j {
      var k :| 0 <= k < |chains[i]| && chains[i][k] == n;
      var l :| 0 <= l < |chains[j]| && chains[j][l] == n;
      assert Registered(place, chains, nodes, i, k) && Registered(place, chains, nodes, j, l);
    }
  }

  /** A walk along the key's chain tells whether the key is registered. */
  lemma Outcome<D>(place: Key -> nat, chains: seq<seq<Node<D>>>, nodes: map<Key, Node<D>>, keyLen: nat, key: Key, at: nat)
    requires Registry(place, chains, nodes, keyLen)
    requires var c := chains[place(key)];
      && at <= |c| && (at < |c| ==> c[at].key == key) && forall j :: 0 <= j < at ==> c[j].key != key
    ensures if at < |chains[place(key)]| then key in nodes && chains[place(key)][at] == nodes[key] else key !in nodes
  {
    var c := chains[place(key)];
    if at < |c| {
      assert Registered(place, chains, nodes, place(key), at);
    } else {
      assert Housed(place, chains, nodes, keyLen, key);
    }
  }

  lemma OnlyOneWith<D>(place: Key -> nat, chains: seq<seq<Node<D>>>, nodes: map<Key, Node<D>>, keyLen: nat, key: Key)
    requires Registry(place, chains, nodes, keyLen) && key in nodes
    ensures forall k :: k in nodes && k != key ==> nodes[k] != nodes[key]
  {
    assert Housed(place, chains, nodes, keyLen, key);
    forall k | k in nodes && k != key ensures nodes[k] != nodes[key] {
      assert Housed(place, chains, nodes, keyLen, k);
    }
  }

  lemma RegistryGrows<D>(place: Key -> nat, chains: seq<seq<Node<D>>>, nodes: map<Key, Node<D>>, keyLen: nat, h: nat, n: Node<D>)
    requires Registry(place, chains, nodes, keyLen) && n.key !in nodes && |n.key| == keyLen
    requires h == place(n.key) && h < |chains|
    ensures Registry(place, chains[h := chains[h] + [n]], nodes[n.key := n], keyLen)
  {
    var cs, ns := chains[h := chains[h] + [n]], nodes[n.key := n];
    forall i ensures Once(cs, i) {
      assert Once(chains, i);
      forall j | i == h && 0 <= j < |chains[h]| ensures chains[h][j] != n {
        assert Registered(place, chains, nodes, h, j);
      }
    }
    forall i, j ensures Registered(place, cs, ns, i, j) {
      assert Registered(place, chains, nodes, i, j);
    }
    forall k ensures Housed(place, cs, ns, keyLen, k) {
      assert Housed(place, chains, nodes, keyLen, k);
    }
  }

  lemma RegistryShrinks<D>(place: Key -> nat, chains: seq<seq<Node<D>>>, nodes: map<Key, Node<D>>, keyLen: nat, h: nat, at: nat)
    requires Registry(place, chains, nodes, keyLen) && h < |chains| && at < |chains[h]|
    ensures chains[h][at].key in nodes
    ensures Registry(place, chains[h := Without(chains[h], at)], nodes - {chains[h][at].key}, keyLen)
  {
    var n := chains[h][at];
    var cs, ns := chains[h := Without(chains[h], at)], nodes - {n.key};
    assert Once(chains, h) && Registered(place, chains, nodes, h, at);
    forall i ensures Once(cs, i) {
      assert Once(chains, i);
    }
    forall i, j ensures Registered(place, cs, ns, i, j) {
      assert Registered(place, chains, nodes, i, if i == h && j >= at then j + 1 else j);
    }
    forall k ensures Housed(place, cs, ns, keyLen, k) {
      assert Housed(place, chains, nodes, keyLen, k);
    }
  }

  ghost function Flat<D>(chains: seq<seq<Node<D>>>): seq<Node<D>> {
    if chains == [] then [] else chains[0] + Flat(chains[1..])
  }

  ghost function KeysOf<D>(c: seq<Node<D>>): (keys: seq<Key>)
    ensures |keys| == |c| && forall j :: 0 <= j < |c| ==> keys[j] == c[j].key
  {
    seq(|c|, j requires 0 <= j < |c| => c[j].key)
  }

  lemma MoveKey<D>(keys: seq<Key>, c: Node<D>, after: seq<Node<D>>)
    ensures keys + KeysOf([c] + after) == keys + [c.key] + KeysOf(after)
  {
  }

  lemma FlatFirst<D>(chains: seq<seq<Node<D>>>, s: nat)
    requires s < |chains|
    ensures Flat(chains[s..]) == chains[s] + Flat(chains[s + 1..])
  {
    assert chains[s..][1..] == chains[s + 1..];
  }

  /** The nodes in the slots from s on: the registered ones, each once. */
  lemma {:induction false} Nodes<D>(place: Key -> nat, chains: seq<seq<Node<D>>>, nodes: map<Key, Node<D>>, keyLen: nat, s: nat)
    requires Registry(place, chains, nodes, keyLen) && s <= |chains|
    ensures OnlyOnce(Flat(chains[s..]))
    ensures forall n :: n in Flat(chains[s..]) ==> n.key in nodes && nodes[n.key] == n && s <= place(n.key)
    ensures forall k :: k in nodes && s <= place(k) ==> nodes[k] in Flat(chains[s..])
    decreases |chains| - s
  {
    if s < |chains| {
      Nodes(place, chains, nodes, keyLen, s + 1);
      FlatFirst(chains, s);
      assert Once(chains, s);
      forall j | 0 <= j < |chains[s]|
        ensures chains[s][j].key in nodes && nodes[chains[s][j].key] == chains[s][j] && place(chains[s][j].key) == s
      {
        assert Registered(place, chains, nodes, s, j);
      }
      forall k | k in nodes && place(k) == s ensures nodes[k] in chains[s] {
        assert Housed(place, chains, nodes, keyLen, k);
      }
    } else {
      forall k | k in nodes ensures place(k) < s {
        assert Housed(place, chains, nodes, keyLen, k);
      }
    }
  }

  lemma EachOnce<D>(place: Key -> nat, chains: seq<seq<Node<D>>>, nodes: map<Key, Node<D>>, keyLen: nat)
    requires Registry(place, chains, nodes, keyLen)
    ensures var keys := KeysOf(Flat(chains));
      && |keys| == |nodes.Keys| && (forall k :: k in keys <==> k in nodes)
      && forall a, b :: 0 <= a < b < |keys| ==> keys[a] != keys[b]
  {
    assert chains[0..] == chains;
    Nodes(place, chains, nodes, keyLen, 0);
    var c := Flat(chains);
    var keys := KeysOf(c);
    forall k | k in nodes ensures k in keys {
      assert Housed(place, chains, nodes, keyLen, k);
      var j :| 0 <= j < |c| && c[j] == nodes[k];
      assert keys[j] == k;
    }
    forall a, b | 0 <= a < b < |keys| ensures keys[a] != keys[b] {
      assert c[a] in c && c[b] in c;
    }
    CountKeys(keys, nodes.Keys);
  }

  lemma {:induction false} CountKeys(keys: seq<Key>, all: set<Key>)
    requires forall k :: k in keys <==> k in all
    requires forall a, b :: 0 <= a < b < |keys| ==> keys[a] != keys[b]
    ensures |keys| == |all|
  {
    if keys != [] {
      var rest := keys[1..];
      forall k ensures k in rest <==> k in all - {keys[0]} {
        if k in rest { assert k in keys; }
      }
      CountKeys(rest, all - {keys[0]});
    } else {
      assert all == {};
    }
  }

  lemma {:induction false} EmptyFlat<D>(chains: seq<seq<Node<D>>>)
    requires forall i :: 0 <= i < |chains| ==> chains[i] == []
    ensures Flat(chains) == []
  {
    if chains == [] {
    } else {
      EmptyFlat(chains[1..]);
    }
  }

  lemma {:induction false} InsertedBehind(place: Key -> nat, before: seq<Key>, rest: seq<Key>, key: Key)
    requires forall k :: k in before ==> place(k) <= place(key)
    ensures Inserted(place, before + rest, key) == before + Inserted(place, rest, key)
  {
    if before == [] {
      assert before + rest == rest;
    } else {
      InsertedBehind(place, before[1..], rest, key);
      assert (before + rest)[1..] == before[1..] + rest;
    }
  }

  /** A node hung behind list h appears in the order where Inserted puts its key. */
  lemma InsertedInOrder<D>(place: Key -> nat, chains: seq<seq<Node<D>>>, nodes: map<Key, Node<D>>, keyLen: nat, h: nat, n: Node<D>)
    requires Registry(place, chains, nodes, keyLen) && h < |chains| && h == place(n.key)
    ensures KeysOf(Flat(chains[h := chains[h] + [n]])) == Inserted(place, KeysOf(Flat(chains)), n.key)
  {
    var cs := chains[h := chains[h] + [n]];
    assert cs[0..] == cs && chains[0..] == chains;
    InsertedFrom(place, chains, nodes, keyLen, h, n, 0);
  }

  lemma {:induction false} InsertedFrom<D>(place: Key -> nat, chains: seq<seq<Node<D>>>, nodes: map<Key, Node<D>>, keyLen: nat, h: nat, n: Node<D>, s: nat)
    requires Registry(place, chains, nodes, keyLen) && s <= h < |chains| && h == place(n.key)
    ensures KeysOf(Flat(chains[h := chains[h] + [n]][s..])) == Inserted(place, KeysOf(Flat(chains[s..])), n.key)
    decreases h - s
  {
    var cs := chains[h := chains[h] + [n]];
    var rest := Flat(chains[s + 1..]);
    FlatFirst(chains, s);
    FlatFirst(cs, s);
    SlotKeys(place, chains, nodes, keyLen, s);
    KeysOfTwo(chains[s], rest);
    InsertedBehind(place, KeysOf(chains[s]), KeysOf(rest), n.key);
    if s < h {
      InsertedFrom(place, chains, nodes, keyLen, h, n, s + 1);
      KeysOfTwo(chains[s], Flat(cs[s + 1..]));
    } else {
      assert cs[s + 1..] == chains[s + 1..];
      Nodes(place, chains, nodes, keyLen, s + 1);
      if rest != [] { assert rest[0] in rest; }
      assert Inserted(place, KeysOf(rest), n.key) == [n.key] + KeysOf(rest);
      KeysOfTwo(chains[s] + [n], rest);
      KeysOfTwo(chains[s], [n]);
      assert KeysOf([n]) == [n.key];
    }
  }

  lemma SlotKeys<D>(place: Key -> nat, chains: seq<seq<Node<D>>>, nodes: map<Key, Node<D>>, keyLen: nat, s: nat)
    requires Registry(place, chains, nodes, keyLen) && s < |chains|
    ensures forall k :: k in KeysOf(chains[s]) ==> place(k) == s
  {
    forall k | k in KeysOf(chains[s]) ensures place(k) == s {
      var j :| 0 <= j < |chains[s]| && chains[s][j].key == k;
      assert Registered(place, chains, nodes, s, j);
    }
  }

  lemma KeysOfTwo<D>(a: seq<Node<D>>, b: seq<Node<D>>)
    ensures KeysOf(a + b) == KeysOf(a) + KeysOf(b)
  {
  }
}
