/** The daemon itself: the event handlers over the neighbour hash and the two tables of
    chained routes, proved against the functions of Daemon. */
module Dnroute {
  import opened Bits
  import opened Wrappers
  import opened Csum
  import opened Advert
  import opened RouteChain
  import opened RouteTables
  import opened HashTable
  import opened Neighbours
  import opened Daemon

  class Dnroute {
    const cfg: Config
    const nodeHash: NodeHash
    const nodeTable: RouteTable
    const areaTable: RouteTable
    var via: map<word, word>    // the kernel's indirect routes
    var dev: map<word, byte>    // and its direct ones
    ghost var repr: set<object>

    /** What the hash and the tables stand for. */
    ghost function St(): State
      reads this, nodeHash, nodeTable, areaTable
    {
      State(nodeHash.infos, nodeHash.order, nodeTable.dests, areaTable.dests, via, dev)
    }

    ghost predicate Valid()
      reads this, nodeHash, nodeTable, areaTable, repr
    {
      cfg.Valid() && St().Valid() && forall k: int :: Built(k)
    }

    /** Stated under a quantifier so that a proof looks inside only where it mentions Built. */
    ghost predicate Built(k: int)
      reads this, repr
    {
      && Owned()
      && nodeHash.Valid() && Slots(cfg.slot, nodeHash.table.place)
      && nodeTable.Valid() && |nodeTable.heads| == 1024
      && areaTable.Valid() && |areaTable.heads| == 64
      && nodeTable != areaTable && nodeTable.owner.Keys !! areaTable.owner.Keys
    }

    ghost predicate Owned()
      reads this, repr
    {
      && nodeHash in repr && nodeHash.table in repr && nodeHash.table.slots in repr
      && nodeTable in repr && areaTable in repr
      && nodeHash.table.repr <= repr && nodeHash.recs.Values <= repr
      && nodeTable.owner.Keys <= repr && areaTable.owner.Keys <= repr
    }

    /** The parts belong to the daemon. */
    lemma OwnsParts()
      requires Valid()
      ensures Owned()
    {
      assert Built(0);
    }

    /** Starts with empty tables; slot is what the hash function makes of addresses. */
    constructor (cfg: Config, hash: Key -> nat)
      requires cfg.Valid() && Slots(cfg.slot, key => SlotOf(hash, key, RoundedUp(16, 1024)))
      ensures Valid() && fresh(repr) && this.cfg == cfg && St() == Init(cfg)
    {
      var h := NewHash(cfg.slot, hash);
      label Hashed:
      var nodes := new RouteTable(1024);
      label Nodes:
      var areas := NewAreaTable(cfg);
      h.Kept@Hashed();
      nodes.Kept@Nodes();
      this.cfg, nodeHash, nodeTable, areaTable, via, dev := cfg, h, nodes, areas, map[], map[];
      repr := {h, h.table, h.table.slots, nodes, areas} + nodes.owner.Keys + areas.owner.Keys;
      new;
      assert Built(0);
    }

    static method NewHash(ghost slot: word -> nat, hash: Key -> nat) returns (h: NodeHash)
      requires Slots(slot, key => SlotOf(hash, key, RoundedUp(16, 1024)))
      ensures fresh(h) && fresh(h.table) && fresh(h.table.slots) && h.Valid() && Slots(slot, h.table.place)
      ensures h.table.repr == {} && h.recs == map[] && h.infos == map[] && h.order == []
    {
      h := new NodeHash(hash, 1024);
      SameSlots(slot, key => SlotOf(hash, key, RoundedUp(16, 1024)), h.table.place);
    }

    /** An area router starts with a valid route to its own area. */
    static method NewAreaTable(cfg: Config) returns (areas: RouteTable)
      requires cfg.Valid()
      ensures fresh(areas) && fresh(areas.owner.Keys) && areas.Valid() && areas.dests == Init(cfg).areaTable
    {
      areas := new RouteTable(64);
      if cfg.level2 {
        areas.SetHead(cfg.area, NO_ROUTE.head.(valid := true));
      }
    }

    // ---- Kernel calls ----

    method AddViaRoute(addr: word, gw: word)
      requires cfg.Valid()
      modifies `via
      ensures via == Perform(cfg, old(via), AddVia(addr, gw))
    {
      if addr % 1024 == 0 && cfg.manual[AreaOf(addr)] {
        return;
      }
      via := via[addr := gw];
    }

    method DelViaRoute(addr: word, gw: word)
      requires cfg.Valid()
      modifies `via
      ensures via == Perform(cfg, old(via), DelVia(addr, gw))
    {
      if addr % 1024 == 0 && cfg.manual[AreaOf(addr)] {
        return;
      }
      if addr in via && via[addr] == gw {
        via := via - {addr};
      }
    }

    /** Passes on what a destination asks for. */
    method Tell(ask: Request)
      requires Valid()
      modifies `via
      ensures Valid() && St() == old(St()).(via := Perform(cfg, old(via), ask))
    {
      match ask {
        case Nothing =>
        case AddVia(addr, gw) => AddViaRoute(addr, gw);
        case DelVia(addr, gw) => DelViaRoute(addr, gw);
      }
      assert old(Built(0));
      nodeHash.Kept();
      nodeTable.Kept();
      areaTable.Kept();
      assert Built(0);
    }

    /** A direct route, except to an address of our own. */
    method AddDevRoute(addr: word, iface: byte)
      requires Valid()
      modifies `dev
      ensures Valid()
      ensures St() == old(St()).(dev := if cfg.loopback[iface] then old(dev) else old(dev)[addr := iface])
    {
      if !cfg.loopback[iface] {
        dev := dev[addr := iface];
      }
      assert old(Built(0));
      nodeHash.Kept();
      nodeTable.Kept();
      areaTable.Kept();
      assert Built(0);
    }

    method DelDevRoute(addr: word, iface: byte)
      requires Valid()
      modifies `dev
      ensures Valid()
      ensures St() == old(St()).(dev := if addr in old(dev) && old(dev)[addr] == iface then old(dev) - {addr} else old(dev))
    {
      if addr in dev && dev[addr] == iface {
        dev := dev - {addr};
      }
      assert old(Built(0));
      nodeHash.Kept();
      nodeTable.Kept();
      areaTable.Kept();
      assert Built(0);
    }

    // ---- The hash ----

    /** The record of an address, if it has one. */
    method Find(addr: word) returns (n: NodeRec?)
      requires Valid()
      ensures if n != null then nodeHash.Is(addr, n) else addr !in nodeHash.recs && addr !in nodeHash.infos
    {
      assert Built(0);
      n := nodeHash.Lookup(addr);
    }

    method SetMarks(addr: word, n: NodeRec, scanned: bool, deleted: bool)
      requires Valid() && nodeHash.Is(addr, n)
      modifies nodeHash`infos, n`scanned, n`deleted
      ensures Valid() && nodeHash.Is(addr, n)
      ensures var info := old(St()).nodes[addr];
        St() == old(St()).(nodes := old(St()).nodes[addr := info.(scanned := scanned, deleted := deleted)])
    {
      assert Built(0);
      nodeHash.SetMarks(addr, n, scanned, deleted);
      nodeTable.Kept();
      areaTable.Kept();
      assert Built(0);
    }

    method SetInterface(addr: word, n: NodeRec, iface: byte)
      requires Valid() && nodeHash.Is(addr, n)
      modifies nodeHash`infos, n`iface
      ensures Valid() && nodeHash.Is(addr, n)
      ensures var info := old(St()).nodes[addr];
        St() == old(St()).(nodes := old(St()).nodes[addr := info.(iface := iface)])
    {
      assert Built(0);
      nodeHash.SetInterface(addr, n, iface);
      nodeTable.Kept();
      areaTable.Kept();
      assert Built(0);
    }

    /** Takes a neighbour seen on an interface into the hash. */
    method Sight(addr: word, known: NodeRec?, iface: byte) returns (n: NodeRec)
      requires Valid()
      requires if known != null then nodeHash.Is(addr, known) else addr !in nodeHash.recs && addr !in nodeHash.infos
      modifies nodeHash, nodeHash.table, nodeHash.table.slots, nodeHash.table.repr, nodeHash.recs.Values, `repr
      ensures Valid() && nodeHash.Is(addr, n) && fresh(repr - old(repr))
      ensures var s := old(St());
        St() == s.(nodes := s.nodes[addr := (if addr in s.nodes then s.nodes[addr] else NO_INFO).(iface := iface)],
                   order := if addr in s.nodes then s.order else Placed(cfg.slot, s.order, addr))
    {
      assert Built(0);
      n := nodeHash.Sight(addr, known, iface, cfg.slot);
      repr := repr + nodeHash.table.repr + {n};
      nodeTable.Kept();
      areaTable.Kept();
      assert Built(0);
    }

    // ---- Routes ----

    /** The priority of a router that is in the hash. */
    method Priority(addr: word) returns (p: Option<byte>)
      requires Valid()
      ensures p == PriorityOf(St(), addr)
    {
      var n := Find(addr);
      p := if n != null then Some(n.priority) else None;
    }

    method AddNodeRouteInfo(id: nat, cost: int, hops: int, from: word)
      requires Valid() && id < 1024
      modifies `via, `repr, nodeTable, nodeTable.owner.Keys
      ensures Valid() && St() == HearNode(cfg, old(St()), id, cost, hops, from) && fresh(repr - old(repr))
    {
      var p := Priority(from);
      var ask := StoreNode(id, cost, hops, from, p);
      Tell(ask);
    }

    method StoreNode(id: nat, cost: int, hops: int, from: word, p: Option<byte>) returns (ask: Request)
      requires Valid() && id < 1024
      modifies `repr, nodeTable, nodeTable.owner.Keys
      ensures Valid() && fresh(repr - old(repr))
      ensures var was := old(St()).nodeTable;
        var d := Dest(was[id].head, Hear(was[id].routes, from, cost, hops, p));
        St() == old(St()).(nodeTable := was[id := Reselect(d)]) && ask == Ask(d, Own(cfg, id))
    {
      assert Built(0);
      ask := nodeTable.Add(id, Own(cfg, id), cost, hops, from, p);
      repr := repr + nodeTable.owner.Keys;
      nodeHash.Kept();
      areaTable.Kept();
      assert Built(0);
    }

    method AddAreaRouteInfo(area: nat, cost: int, hops: int, from: word)
      requires Valid() && area < 64
      modifies `via, `repr, areaTable, areaTable.owner.Keys
      ensures Valid() && St() == HearArea(cfg, old(St()), area, cost, hops, from) && fresh(repr - old(repr))
    {
      if area == cfg.area && cfg.level2 {
        OwnArea(area);
      } else {
        var p := Priority(from);
        var ask := StoreArea(area, cost, hops, from, p);
        Tell(ask);
      }
    }

    /** An area router reaches its own area by itself. */
    method OwnArea(area: nat)
      requires Valid() && area < 64
      modifies areaTable`dests, areaTable.owner.Keys
      ensures Valid()
      ensures var was := old(St()).areaTable;
        St() == old(St()).(areaTable := was[area := was[area].(
          head := was[area].head.(cost := 0, hops := 0, valid := true, router := 0))])
    {
      assert Built(0);
      var h := areaTable.Head(area);
      areaTable.SetHead(area, h.(cost := 0, hops := 0, valid := true, router := 0));
      nodeHash.Kept();
      nodeTable.Kept();
      assert Built(0);
    }

    method StoreArea(area: nat, cost: int, hops: int, from: word, p: Option<byte>) returns (ask: Request)
      requires Valid() && area < 64
      modifies `repr, areaTable, areaTable.owner.Keys
      ensures Valid() && fresh(repr - old(repr))
      ensures var was := old(St()).areaTable;
        var d := Dest(was[area].head, Hear(was[area].routes, from, cost, hops, p));
        St() == old(St()).(areaTable := was[area := Reselect(d)]) && ask == Ask(d, area * 1024)
    {
      assert Built(0);
      ask := areaTable.Add(area, area * 1024, cost, hops, from, p);
      repr := repr + areaTable.owner.Keys;
      nodeHash.Kept();
      nodeTable.Kept();
      assert Built(0);
    }

    method InvalidateRoute(area: nat, node: word)
      requires Valid() && area < 64
      modifies `via, areaTable`dests, areaTable.owner.Keys
      ensures Valid() && St() == LoseArea(cfg, old(St()), area, node)
    {
      var ask := DropRouter(area, node);
      Tell(ask);
    }

    method DropRouter(area: nat, node: word) returns (ask: Request)
      requires Valid() && area < 64
      modifies areaTable`dests, areaTable.owner.Keys
      ensures Valid()
      ensures var was := old(St()).areaTable;
        var d := Dest(was[area].head, Lose(was[area].routes, node));
        St() == old(St()).(areaTable := was[area := Reselect(d)]) && ask == Ask(d, node)
    {
      assert Built(0);
      ask := areaTable.Invalidate(area, node);
      nodeHash.Kept();
      nodeTable.Kept();
      assert Built(0);
    }

    // ---- Neighbours ----

    /** An own-area node is now a neighbour: a route to it through a router goes. */
    method MakeLocal(addr: word, iface: byte)
      requires Valid()
      modifies `via, nodeTable`dests, nodeTable.owner.Keys
      ensures Valid() && St() == NodeIsLocal(cfg, old(St()), addr, iface)
    {
      var id: nat := addr % 1024;
      var h := NodeHead(id);
      if h.router != 0 {
        Tell(DelVia(addr, h.router));
        h := h.(router := 0, valid := false);
      }
      if cfg.loopback[iface] {
        h := h.(cost := 0, hops := 0);
      } else if !h.valid {
        h := h.(cost := cfg.cost[iface], hops := 1);
      }
      PutNodeHead(id, h.(valid := true));
    }

    method NodeHead(id: nat) returns (h: Route)
      requires Valid() && id < 1024
      ensures h == St().nodeTable[id].head
    {
      assert Built(0);
      h := nodeTable.Head(id);
    }

    method PutNodeHead(id: nat, h: Route)
      requires Valid() && id < 1024
      modifies nodeTable`dests, nodeTable.owner.Keys
      ensures Valid()
      ensures var was := old(St()).nodeTable;
        St() == old(St()).(nodeTable := was[id := was[id].(head := h)])
    {
      assert Built(0);
      nodeTable.SetHead(id, h);
      nodeHash.Kept();
      areaTable.Kept();
      assert Built(0);
    }

    method AreaHead(area: nat) returns (h: Route)
      requires Valid() && area < 64
      ensures h == St().areaTable[area].head
    {
      assert Built(0);
      h := areaTable.Head(area);
    }

    method GotNeighbour(n: Neighbour)
      requires Valid()
      modifies this, repr
      ensures Valid() && St() == GotNeigh(cfg, old(St()), n) && fresh(repr - old(repr))
    {
      var r := Find(n.addr);
      if r != null && r.scanned {
        return;
      }
      if r == null || r.iface != n.iface || r.deleted {
        r := NewNeighbour(n, r);
      }
      Mark(n.addr, r, true, false);
    }

    /** Takes in a neighbour that is new, came back or has moved. */
    method NewNeighbour(n: Neighbour, known: NodeRec?) returns (r: NodeRec)
      requires Valid()
      requires if known != null then nodeHash.Is(n.addr, known) else n.addr !in nodeHash.recs && n.addr !in nodeHash.infos
      modifies this, repr
      ensures Valid() && nodeHash.Is(n.addr, r) && St() == Taken(cfg, old(St()), n) && fresh(repr - old(repr))
    {
      OwnsParts();
      r := Sight(n.addr, known, n.iface);
      AddDevRoute(n.addr, n.iface);
      OwnsParts();
      Settle(n.addr, n.iface, r.level);
    }

    /** The tables learn about a neighbour: a node of our area, or the router of another. */
    method Settle(addr: word, iface: byte, level: nat)
      requires Valid()
      modifies `via, `repr, nodeTable, nodeTable.owner.Keys, areaTable, areaTable.owner.Keys
      ensures Valid() && fresh(repr - old(repr))
      ensures St() ==
        if AreaOf(addr) == cfg.area then NodeIsLocal(cfg, old(St()), addr, iface)
        else if level == 2 then HearArea(cfg, old(St()), AreaOf(addr), cfg.cost[iface], 1, addr)
        else old(St())
    {
      if AreaOf(addr) != cfg.area {
        if level == 2 {
          AddAreaRouteInfo(AreaOf(addr), cfg.cost[iface], 1, addr);
        }
      } else {
        MakeLocal(addr, iface);
      }
    }

    method Mark(addr: word, n: NodeRec, scanned: bool, deleted: bool)
      requires Valid() && nodeHash.Is(addr, n)
      modifies this, repr
      ensures Valid() && repr == old(repr)
      ensures var info := old(St()).nodes[addr];
        St() == old(St()).(nodes := old(St()).nodes[addr := info.(scanned := scanned, deleted := deleted)])
    {
      OwnsParts();
      SetMarks(addr, n, scanned, deleted);
    }

    /** Reads the neighbour dump; a complete one is followed by the sweep. */
    method GetNeighbours(dump: seq<Neighbour>, complete: bool)
      requires Valid()
      modifies this, repr
      ensures Valid() && St() == Step(cfg, old(St()), Dump(dump, complete)) && fresh(repr - old(repr))
    {
      var i := 0;
      while i < |dump|
        invariant i <= |dump| && Valid() && fresh(repr - old(repr))
        invariant GotAll(cfg, old(St()), dump) == GotAll(cfg, St(), dump[i..])
      {
        GotNeighbour(dump[i]);
        assert dump[i..][1..] == dump[i + 1..];
        i := i + 1;
      }
      if complete {
        SweepAll();
      }
    }

    /** Iterates the hash and removes the neighbours that are not marked. */
    method SweepAll()
      requires Valid()
      modifies this, repr
      ensures Valid() && St() == Sweep(cfg, old(St()), old(St()).order) && repr == old(repr)
    {
      assert Built(0);
      ghost var rest, j := nodeHash.order, 0;
      var c, i := nodeHash.First();
      while c != null
        invariant Valid() && repr == old(repr) && nodeHash.StandsAt(c, i, j, rest)
        invariant Sweep(cfg, old(St()), old(St()).order) == Sweep(cfg, St(), rest)
        decreases |rest|
      {
        c, i, j, rest := SweepNode(c, i, j, rest);
      }
    }

    /** Sweeps one entry and moves on. */
    method SweepNode(c: Node<NodeRec>, ghost i: nat, ghost j: nat, ghost rest: seq<word>)
        returns (d: Node?<NodeRec>, ghost k: nat, ghost l: nat, ghost more: seq<word>)
      requires Valid() && nodeHash.StandsAt(c, i, j, rest)
      modifies this, repr
      ensures Valid() && repr == old(repr) && nodeHash.StandsAt(d, k, l, more)
      ensures rest != [] && more == rest[1..] && St() == SweepOne(cfg, old(St()), rest[0])
    {
      assert Built(0);
      nodeHash.Here(c, i, j, rest);
      SweepEntry(AddrOf(c.key), c.data);
      assert Built(0);
      d, k, l := nodeHash.Next(c, i, j, rest);
      more := rest[1..];
    }

    method SweepEntry(addr: word, n: NodeRec)
      requires Valid() && nodeHash.Is(addr, n)
      modifies `via, `dev, nodeHash`infos, n`scanned, n`deleted, areaTable`dests, areaTable.owner.Keys
      ensures Valid() && St() == SweepOne(cfg, old(St()), addr)
    {
      var gone := !n.scanned && !n.deleted;
      if gone {
        DelDevRoute(addr, n.iface);
        var h := AreaHead(AreaOf(addr));
        if n.level == 2 && h.valid && AreaOf(addr) != cfg.area {
          InvalidateRoute(AreaOf(addr), addr);
        }
      }
      SetMarks(addr, n, false, n.deleted || gone);
    }

    method AddRoutingNeighbour(addr: word, level: nat, priority: byte, override: bool)
      requires Valid()
      modifies this, repr
      ensures Valid() && St() == SetLevel(old(St()), addr, level, priority, override) && repr == old(repr)
    {
      var n := Find(addr);
      if n != null {
        PutLevel(addr, n, level, if override || n.priority == 0 then priority else n.priority);
      }
    }

    method PutLevel(addr: word, n: NodeRec, level: nat, priority: byte)
      requires Valid() && nodeHash.Is(addr, n)
      modifies this, repr
      ensures Valid() && repr == old(repr)
      ensures var info := old(St()).nodes[addr];
        St() == old(St()).(nodes := old(St()).nodes[addr := info.(level := level, priority := priority)])
    {
      assert Built(0);
      nodeHash.SetLevel(addr, n, level, priority);
      nodeTable.Kept();
      areaTable.Kept();
      assert Built(0);
    }

    // ---- Routing messages ----

    method NodeEntry(row: Row, from: word, iface: byte) returns (go: bool)
      requires Valid()
      modifies this, repr
      ensures Valid() && fresh(repr - old(repr))
      ensures var t := NodeRow(cfg, old(St()), row, from, iface);
        go == t.Some? && St() == if go then t.value else old(St())
    {
      go := true;
      if ReadsReachable(row.entry) && row.id != 0 {
        if row.id > 1023 {
          return false;
        }
        var addr := Own(cfg, row.id);
        var n := Find(addr);
        if n == null || n.deleted {
          HearUnseen(addr, n, row.id, ReadCost(row.entry) + cfg.cost[iface], ReadHops(row.entry) + 1, from);
        }
      }
    }

    /** A node that is not in sight goes through the router. */
    method HearUnseen(addr: word, n: NodeRec?, id: nat, cost: int, hops: int, from: word)
      requires Valid() && id < 1024
      requires if n != null then nodeHash.Is(addr, n) else addr !in nodeHash.infos
      modifies this, repr
      ensures Valid() && fresh(repr - old(repr))
      ensures St() == HearNode(cfg, Unseen(old(St()), addr), id, cost, hops, from)
    {
      OwnsParts();
      if n != null {
        SetInterface(addr, n, 0);
      }
      AddNodeRouteInfo(id, cost, hops, from);
    }

    method AreaEntry(row: Row, from: word) returns (go: bool)
      requires Valid()
      modifies this, repr
      ensures Valid() && fresh(repr - old(repr))
      ensures var t := AreaRow(cfg, old(St()), row, from);
        go == t.Some? && St() == if go then t.value else old(St())
    {
      go := true;
      if ReadsReachable(row.entry) && row.id != 0 {
        if row.id > 63 {
          return false;
        }
        var n := Find(from);
        if n != null {
          var cost, hops := ReadCost(row.entry) + cfg.cost[n.iface], ReadHops(row.entry);
          assert AreaRow(cfg, St(), row, from) == Some(HearArea(cfg, St(), row.id, cost, hops, from));
          OwnsParts();
          AddAreaRouteInfo(row.id, cost, hops, from);
        }
      }
    }

    /** A level 1 message: ignored from other areas and with a bad checksum; else
        its segments are walked entry by entry. */
    method ProcessLevel1(buf: array<byte>, len: nat, iface: byte)
      requires Valid() && buf !in repr && Received(buf[..], len)
      requires AreaOf(WordAt(buf[..], 3)) == cfg.area ==> Routes(buf[..], len)
      modifies this, repr
      ensures Valid() && fresh(repr - old(repr))
      ensures var b := buf[..];
        St() == if AreaOf(WordAt(b, 3)) == cfg.area && ChecksumOk(b, len)
                then Step(cfg, old(St()), Level1(WordAt(b, 3), Segments(b, len, 6).value, iface)) else old(St())
    {
      var b := buf[..];
      var from := WordAt(b, 3);
      var sum := RouteCsum(buf, 6, if len >= 2 then len - 2 else 0);
      if AreaOf(from) != cfg.area {
        return;
      }
      if sum == WordAt(b, len - 2) {
        NodeSegments(b, len, from, iface);
      }
    }

    /** Whatever arrives on the routing socket. */
    method ProcessRoutingMessage(buf: array<byte>, len: nat, iface: byte)
      requires Valid() && buf !in repr && Received(buf[..], len) && Readable(cfg, buf[..], len)
      modifies this, repr
      ensures Valid() && fresh(repr - old(repr))
      ensures var e := MessageOf(cfg, buf[..], len, iface);
        St() == if e.Some? then Step(cfg, old(St()), e.value) else old(St())
    {
      var kind := And(buf[2], 0xE) / 2;
      if kind == 3 {
        ProcessLevel1(buf, len, iface);
      } else if kind == 4 {
        ProcessLevel2(buf, len);
      } else if kind == 5 {
        var addr: word := buf[10] as nat + 256 * buf[11] as nat;
        assert addr == WordAt(buf[..], 10);
        AddRoutingNeighbour(addr, 3 - And(buf[12], 3), buf[15], true);
      }
    }

    method NodeSegments(b: seq<byte>, len: nat, from: word, iface: byte)
      requires Valid() && len <= |b| && Segments(b, len, 6).Some?
      modifies this, repr
      ensures Valid() && fresh(repr - old(repr)) && St() == NodeRows(cfg, old(St()), Segments(b, len, 6).value, from, iface)
    {
      ghost var todo := Segments(b, len, 6).value;
      ghost var goal := NodeRows(cfg, St(), todo, from, iface);
      assert NodeGoal(goal, cfg, St(), todo, from, iface);
      var i: nat := 6;
      var go := true;
      while go && i < len - 4
        invariant Valid() && fresh(repr - old(repr)) && 6 <= i
        invariant go ==> Segments(b, len, i) == Some(todo) && NodeGoal(goal, cfg, St(), todo, from, iface)
        invariant !go ==> St() == goal
        decreases len - i, go
      {
        var numIds: nat, startId: nat := WordAt(b, i), WordAt(b, i + 2);
        ghost var rest := NextSegment(b, len, i, todo, i + 4, startId, numIds);
        go := NodeSegment(b, i + 4, startId, numIds, from, iface, todo, rest, goal);
        i := i + 4 + 2 * numIds;
        todo := rest;
      }
      if go {
        assert NodeReaches(0, goal, cfg, St(), todo, from, iface);
      }
    }

    method NodeSegment(p: seq<byte>, at: nat, startId: nat, numIds: nat, from: word, iface: byte,
                       ghost rows: seq<Row>, ghost rest: seq<Row>, ghost goal: State)
      returns (go: bool)
      requires Valid() && at + 2 * numIds <= |p| && rows == Rows(p, at, startId, numIds) + rest
      requires NodeGoal(goal, cfg, St(), rows, from, iface)
      modifies this, repr
      ensures Valid() && fresh(repr - old(repr))
      ensures if go then NodeGoal(goal, cfg, St(), rest, from, iface) else St() == goal
    {
      ghost var todo := rows;
      assert NodeReaches(0, goal, cfg, St(), todo, from, iface);
      go := true;
      var num := 0;
      while go && num < numIds
        invariant Valid() && fresh(repr - old(repr)) && num <= numIds
        invariant todo == Rows(p, at, startId, numIds)[num..] + rest
        invariant goal == if go then NodeRows(cfg, St(), todo, from, iface) else St()
        decreases numIds - num, go
      {
        FirstRow(p, at, startId, numIds, num, rest, todo);
        go := NodeEntry(Row(startId + num, WordAt(p, at + 2 * num)), from, iface);
        if go {
          todo := todo[1..];
          num := num + 1;
        }
      }
      if go {
        assert todo == rest;
      }
    }

    /** A level 2 message from a router: its level and a default priority are noted, and
        the areas it announces heard of. */
    method ProcessLevel2(buf: array<byte>, len: nat)
      requires Valid() && buf !in repr && Received(buf[..], len) && Routes(buf[..], len)
      modifies this, repr
      ensures Valid() && fresh(repr - old(repr))
      ensures var b := buf[..];
        St() == if ChecksumOk(b, len) then Step(cfg, old(St()), Level2(WordAt(b, 3), Segments(b, len, 6).value)) else old(St())
    {
      var b := buf[..];
      var from := WordAt(b, 3);
      var sum := RouteCsum(buf, 6, len - 2);
      if sum == WordAt(b, len - 2) {
        AddRoutingNeighbour(from, 2, 64, false);
        AreaSegments(b, len, from);
      }
    }

    method AreaSegments(b: seq<byte>, len: nat, from: word)
      requires Valid() && len <= |b| && Segments(b, len, 6).Some?
      modifies this, repr
      ensures Valid() && fresh(repr - old(repr)) && St() == AreaRows(cfg, old(St()), Segments(b, len, 6).value, from)
    {
      ghost var todo := Segments(b, len, 6).value;
      ghost var goal := AreaRows(cfg, St(), todo, from);
      assert AreaGoal(goal, cfg, St(), todo, from);
      var i: nat := 6;
      var go := true;
      while go && i < len - 4
        invariant Valid() && fresh(repr - old(repr)) && 6 <= i
        invariant go ==> Segments(b, len, i) == Some(todo) && AreaGoal(goal, cfg, St(), todo, from)
        invariant !go ==> St() == goal
        decreases len - i, go
      {
        var numIds: nat, startId: nat := WordAt(b, i), WordAt(b, i + 2);
        ghost var rest := NextSegment(b, len, i, todo, i + 4, startId, numIds);
        go := AreaSegment(b, i + 4, startId, numIds, from, todo, rest, goal);
        i := i + 4 + 2 * numIds;
        todo := rest;
      }
      if go {
        assert AreaReaches(0, goal, cfg, St(), todo, from);
      }
    }

    method AreaSegment(p: seq<byte>, at: nat, startId: nat, numIds: nat, from: word,
                       ghost rows: seq<Row>, ghost rest: seq<Row>, ghost goal: State)
      returns (go: bool)
      requires Valid() && at + 2 * numIds <= |p| && rows == Rows(p, at, startId, numIds) + rest
      requires AreaGoal(goal, cfg, St(), rows, from)
      modifies this, repr
      ensures Valid() && fresh(repr - old(repr))
      ensures if go then AreaGoal(goal, cfg, St(), rest, from) else St() == goal
    {
      ghost var todo := rows;
      assert AreaReaches(0, goal, cfg, St(), todo, from);
      go := true;
      var num := 0;
      while go && num < numIds
        invariant Valid() && fresh(repr - old(repr)) && num <= numIds
        invariant todo == Rows(p, at, startId, numIds)[num..] + rest
        invariant goal == if go then AreaRows(cfg, St(), todo, from) else St()
        decreases numIds - num, go
      {
        FirstRow(p, at, startId, numIds, num, rest, todo);
        go := AreaEntry(Row(startId + num, WordAt(p, at + 2 * num)), from);
        if go {
          todo := todo[1..];
          num := num + 1;
        }
      }
      if go {
        assert todo == rest;
      }
    }
  }

  /** The rows still to come lead to the goal. Stated under a quantifier so that a
      proof unfolds the rows only where it mentions NodeReaches. */
  ghost predicate NodeGoal(goal: State, cfg: Config, s: State, rows: seq<Row>, from: word, iface: byte) {
    forall k: int :: NodeReaches(k, goal, cfg, s, rows, from, iface)
  }

  ghost predicate NodeReaches(k: int, goal: State, cfg: Config, s: State, rows: seq<Row>, from: word, iface: byte) {
    cfg.Valid() && s.Valid() && NodeRows(cfg, s, rows, from, iface) == goal
  }

  ghost predicate AreaGoal(goal: State, cfg: Config, s: State, rows: seq<Row>, from: word) {
    forall k: int :: AreaReaches(k, goal, cfg, s, rows, from)
  }

  ghost predicate AreaReaches(k: int, goal: State, cfg: Config, s: State, rows: seq<Row>, from: word) {
    cfg.Valid() && s.Valid() && AreaRows(cfg, s, rows, from) == goal
  }

  lemma NextSegment(b: seq<byte>, len: nat, i: nat, todo: seq<Row>, at: nat, id: nat, num: nat) returns (rest: seq<Row>)
    requires i + 4 < len <= |b| && Segments(b, len, i) == Some(todo)
    requires at == i + 4 && num == WordAt(b, i) as nat && id == WordAt(b, i + 2) as nat
    ensures at + 2 * num <= |b| && Segments(b, len, at + 2 * num) == Some(rest)
    ensures todo == Rows(b, at, id, num) + rest
  {
    rest := Segments(b, len, at + 2 * num).value;
  }

  lemma FirstRow(p: seq<byte>, at: nat, id: nat, n: nat, num: nat, rest: seq<Row>, todo: seq<Row>)
    requires at + 2 * n <= |p| && num < n && todo == Rows(p, at, id, n)[num..] + rest
    ensures todo != [] && todo[0] == Row(id + num, WordAt(p, at + 2 * num))
    ensures todo[1..] == Rows(p, at, id, n)[num + 1..] + rest
  {
  }
}