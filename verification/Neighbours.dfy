/** The neighbour hash of the daemon: node records updated in place, found by address. */
module Neighbours {
  import opened Bits
  import opened HashTable
  import opened Daemon

  class NodeRec {
    var iface: byte
    var scanned: bool
    var priority: byte
    var level: nat
    var deleted: bool

    constructor ()
      ensures Value() == NO_INFO
    {
      iface, scanned, priority, level, deleted := 0, false, 0, 0, false;
    }

    function Value(): NodeInfo
      reads this
    {
      NodeInfo(iface, scanned, priority, level, deleted)
    }
  }

  /** The two bytes of an address, low byte first. */
  function KeyOf(addr: word): (k: Key)
    ensures |k| == 2
  {
    [addr % 256, addr / 256]
  }

  function AddrOf(k: Key): (a: word)
    requires |k| == 2
    ensures KeyOf(a) == k
  {
    k[0] as nat + 256 * k[1] as nat
  }

  lemma AddrOfKey(addr: word)
    ensures AddrOf(KeyOf(addr)) == addr
  {
  }

  function Addrs(keys: seq<Key>): (as_: seq<word>)
    requires TwoBytes(keys)
    ensures |as_| == |keys| && forall i :: 0 <= i < |keys| ==> as_[i] == AddrOf(keys[i])
  {
    seq(|keys|, i requires 0 <= i < |keys| => AddrOf(keys[i]))
  }

  lemma Behind(keys: seq<Key>)
    requires TwoBytes(keys)
    ensures keys != [] ==> TwoBytes(keys[1..]) && Addrs(keys[1..]) == Addrs(keys)[1..]
  {
    if keys != [] { assert forall k :: k in keys[1..] ==> k in keys; }
  }

  /** slot gives the place of an address in a table. */
  ghost predicate Slots(slot: word -> nat, place: Key -> nat) {
    forall a: word :: SlotIs(slot, place, a)
  }

  ghost predicate SlotIs(slot: word -> nat, place: Key -> nat, a: word) {
    slot(a) == place(KeyOf(a))
  }

  lemma SameSlots(slot: word -> nat, place: Key -> nat, other: Key -> nat)
    requires Slots(slot, place) && forall k :: other(k) == place(k)
    ensures Slots(slot, other)
  {
    forall a: word ensures SlotIs(slot, other, a) {
      assert SlotIs(slot, place, a);
    }
  }

  /** The table's order of iteration, told in addresses. */
  lemma {:induction false} InsertedIsPlaced(slot: word -> nat, place: Key -> nat, keys: seq<Key>, addr: word)
    requires Slots(slot, place) && TwoBytes(keys)
    ensures TwoBytes(Inserted(place, keys, KeyOf(addr)))
    ensures Addrs(Inserted(place, keys, KeyOf(addr))) == Placed(slot, Addrs(keys), addr)
  {
    var key := KeyOf(addr);
    AddrOfKey(addr);
    assert SlotIs(slot, place, addr);
    if keys == [] || place(keys[0]) > place(key) {
      FirstKey(key, keys);
      assert keys != [] ==> SlotIs(slot, place, AddrOf(keys[0]));
    } else {
      assert SlotIs(slot, place, AddrOf(keys[0]));
      Behind(keys);
      InsertedIsPlaced(slot, place, keys[1..], addr);
      FirstKey(keys[0], Inserted(place, keys[1..], key));
    }
  }

  lemma FirstKey(key: Key, keys: seq<Key>)
    requires |key| == 2 && TwoBytes(keys)
    ensures TwoBytes([key] + keys) && Addrs([key] + keys) == [AddrOf(key)] + Addrs(keys)
  {
  }

  predicate TwoBytes(keys: seq<Key>) {
    forall k :: k in keys ==> |k| == 2
  }

  /** The table holds the record of address a under its key, under no key a record of
      its own, and no record twice. */
  ghost predicate Links(a: word, contents: map<Key, NodeRec>, recs: map<word, NodeRec>) {
    && (KeyOf(a) in contents <==> a in recs)
    && (a in recs ==> contents[KeyOf(a)] == recs[a] && forall b :: b in recs && b != a ==> recs[b] != recs[a])
    && forall k :: k in contents ==> |k| == 2
  }

  ghost predicate Linked(contents: map<Key, NodeRec>, recs: map<word, NodeRec>) {
    forall a :: Links(a, contents, recs)
  }

  lemma LinksGrow(contents: map<Key, NodeRec>, recs: map<word, NodeRec>, addr: word, n: NodeRec)
    requires Linked(contents, recs) && if addr in recs then n == recs[addr] else n !in recs.Values
    ensures Linked(contents[KeyOf(addr) := n], recs[addr := n])
    ensures KeyOf(addr) in contents <==> addr in recs
  {
    assert Links(addr, contents, recs);
    var c, r := contents[KeyOf(addr) := n], recs[addr := n];
    forall a ensures Links(a, c, r) {
      assert Links(a, contents, recs);
      AddrOfKey(a);
      AddrOfKey(addr);
    }
  }

  class NodeHash {
    const table: Table<NodeRec>
    ghost var recs: map<word, NodeRec>
    ghost var infos: map<word, NodeInfo>   // what the records say
    ghost var order: seq<word>             // the order of iteration

    ghost predicate Valid()
      reads this, table, table.slots, table.repr, recs.Values
    {
      forall k: int :: Sound(k)
    }

    /** Stated under a quantifier so that a proof looks inside only where it mentions Sound. */
    ghost predicate Sound(k: int)
      reads this, table, table.slots, table.repr, recs.Values
    {
      && table.Valid() && table.keyLen == 2 && Linked(table.contents, recs)
      && infos.Keys == recs.Keys && (forall a :: a in recs ==> infos[a] == recs[a].Value())
      && TwoBytes(table.Order()) && order == Addrs(table.Order())
    }

    /** n is the record of an address. */
    ghost predicate Is(addr: word, n: NodeRec)
      reads this, n
    {
      addr in recs && recs[addr] == n && addr in infos && infos[addr] == n.Value()
    }

    constructor (hash: Key -> nat, sizeHint: nat)
      ensures Valid() && fresh(table) && fresh(table.slots) && table.repr == {}
      ensures recs == map[] && infos == map[] && order == []
      ensures forall k :: table.place(k) == SlotOf(hash, k, RoundedUp(16, sizeHint))
    {
      table := new Table<NodeRec>(hash, sizeHint, 2);
      recs, infos, order := map[], map[], [];
    }

    method Lookup(addr: word) returns (n: NodeRec?)
      requires Valid()
      ensures if n != null then Is(addr, n) else addr !in recs && addr !in infos
    {
      assert Sound(0) && Links(addr, table.contents, recs);
      var found := table.Lookup(KeyOf(addr));
      n := if found.Some? then found.value else null;
    }

    /** A neighbour seen on an interface gets a record, and the record its interface. */
    method Sight(addr: word, known: NodeRec?, iface: byte, ghost slot: word -> nat) returns (n: NodeRec)
      requires Valid() && Slots(slot, table.place)
      requires if known != null then Is(addr, known) else addr !in recs && addr !in infos
      modifies this, table, table.slots, table.repr, recs.Values
      ensures Valid() && Is(addr, n) && recs == old(recs)[addr := n]
      ensures fresh(table.repr - old(table.repr)) && (n == known || fresh(n))
      ensures infos == old(infos)[addr := (if known == null then NO_INFO else old(infos)[addr]).(iface := iface)]
      ensures order == if addr in old(recs) then old(order) else Placed(slot, old(order), addr)
    {
      if known == null {
        n := SightNew(addr, iface, slot);
      } else {
        n := known;
        SetInterface(addr, n, iface);
        Insert(addr, n, slot);
      }
    }

    method SightNew(addr: word, iface: byte, ghost slot: word -> nat) returns (n: NodeRec)
      requires Valid() && Slots(slot, table.place) && addr !in recs
      modifies this, table, table.slots, table.repr
      ensures Valid() && Is(addr, n) && recs == old(recs)[addr := n] && fresh(n)
      ensures fresh(table.repr - old(table.repr))
      ensures infos == old(infos)[addr := NO_INFO.(iface := iface)] && order == Placed(slot, old(order), addr)
    {
      n := new NodeRec();
      n.iface := iface;
      assert Sound(0);
      Insert(addr, n, slot);
    }

    /** Enters a record under its address; one that is there already stays. */
    method Insert(addr: word, n: NodeRec, ghost slot: word -> nat)
      requires Valid() && Slots(slot, table.place)
      requires if addr in recs then n == recs[addr] else n !in recs.Values
      modifies this, table, table.slots, table.repr
      ensures Valid() && recs == old(recs)[addr := n] && infos == old(infos)[addr := n.Value()]
      ensures fresh(table.repr - old(table.repr))
      ensures order == if addr in old(recs) then old(order) else Placed(slot, old(order), addr)
    {
      assert Sound(0);
      ghost var more, said := recs[addr := n], infos[addr := n.Value()];
      InsertedIsPlaced(slot, table.place, table.Order(), addr);
      LinksGrow(table.contents, recs, addr, n);
      table.Insert(KeyOf(addr), n);
      Enter(more, said);
    }

    ghost method Enter(more: map<word, NodeRec>, said: map<word, NodeInfo>)
      requires table.Valid() && table.keyLen == 2 && TwoBytes(table.Order())
      requires Linked(table.contents, more)
      requires said.Keys == more.Keys && forall a :: a in more ==> said[a] == more[a].Value()
      modifies this
      ensures Valid() && recs == more && infos == said && order == Addrs(table.Order())
    {
      recs, infos, order := more, said, Addrs(table.Order());
      assert Sound(0);
    }

    /** The fields of one record have changed. */
    ghost method Noted(addr: word, n: NodeRec)
      requires addr in recs && recs[addr] == n
      requires table.Valid() && table.keyLen == 2 && Linked(table.contents, recs)
      requires infos.Keys == recs.Keys && (forall a :: a in recs && a != addr ==> infos[a] == recs[a].Value())
      requires TwoBytes(table.Order()) && order == Addrs(table.Order())
      modifies `infos
      ensures Valid() && infos == old(infos)[addr := n.Value()]
    {
      infos := infos[addr := n.Value()];
      assert Sound(0);
    }

    method SetMarks(addr: word, n: NodeRec, scanned: bool, deleted: bool)
      requires Valid() && Is(addr, n)
      modifies `infos, n`scanned, n`deleted
      ensures Valid() && Is(addr, n)
      ensures infos == old(infos)[addr := old(infos)[addr].(scanned := scanned, deleted := deleted)]
    {
      assert Sound(0) && Links(addr, table.contents, recs);
      n.scanned, n.deleted := scanned, deleted;
      Noted(addr, n);
    }

    method SetInterface(addr: word, n: NodeRec, iface: byte)
      requires Valid() && Is(addr, n)
      modifies `infos, n`iface
      ensures Valid() && Is(addr, n)
      ensures infos == old(infos)[addr := old(infos)[addr].(iface := iface)]
    {
      assert Sound(0) && Links(addr, table.contents, recs);
      n.iface := iface;
      Noted(addr, n);
    }

    method SetLevel(addr: word, n: NodeRec, level: nat, priority: byte)
      requires Valid() && Is(addr, n)
      modifies `infos, n`level, n`priority
      ensures Valid() && Is(addr, n)
      ensures infos == old(infos)[addr := old(infos)[addr].(level := level, priority := priority)]
    {
      assert Sound(0) && Links(addr, table.contents, recs);
      n.level, n.priority := level, priority;
      Noted(addr, n);
    }

    /** A hash none of whose parts has changed is as it was. */
    twostate lemma Kept()
      requires old(Valid()) && unchanged(this) && unchanged(table) && unchanged(table.slots)
      requires forall c :: c in table.repr ==> unchanged(c)
      requires forall r :: r in recs.Values ==> unchanged(r)
      ensures Valid()
    {
      assert old(Sound(0));
      assert forall a :: a in recs ==> recs[a] in recs.Values;
      assert table.Valid() && Sound(0);
    }

    // ---- Iteration ----

    /** c is the node the iteration stands at; from there on it visits rest. */
    ghost predicate StandsAt(c: Node?<NodeRec>, i: nat, j: nat, rest: seq<word>)
      reads table
    {
      if c == null then rest == []
      else
        && i < |table.chains| && j < |table.chains[i]| && c == table.chains[i][j]
        && TwoBytes(KeysOf(table.Remaining(i, j)))
        && rest == Addrs(KeysOf(table.Remaining(i, j)))
    }

    method First() returns (c: Node?<NodeRec>, ghost i: nat)
      requires Valid()
      ensures StandsAt(c, i, 0, order)
    {
      assert Sound(0);
      c, i := table.GetFirst();
      if c != null {
        assert table.chains[i][0..] == table.chains[i];
      }
    }

    method Next(c: Node<NodeRec>, ghost i: nat, ghost j: nat, ghost rest: seq<word>)
        returns (d: Node?<NodeRec>, ghost k: nat, ghost l: nat)
      requires Valid() && StandsAt(c, i, j, rest)
      ensures rest != [] && StandsAt(d, k, l, rest[1..])
    {
      assert Sound(0);
      Behind(KeysOf(table.Remaining(i, j)));
      table.RestOfKeys(i, j);
      d, k, l := table.GetNext(c, i, j);
    }

    lemma Here(c: Node<NodeRec>, i: nat, j: nat, rest: seq<word>)
      requires Valid() && StandsAt(c, i, j, rest)
      ensures rest != [] && |c.key| == 2 && rest[0] == AddrOf(c.key) && Is(rest[0], c.data)
    {
      assert Sound(0);
      table.FirstRemaining(i, j);
      assert KeysOf(table.Remaining(i, j))[0] == c.key;
      table.HasData(i, j);
      assert Links(rest[0], table.contents, recs);
    }
  }
}
