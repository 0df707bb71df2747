/** The state of the routing daemon and what each event does to it.

    The neighbour hash and the two route tables are values here; Dnroute keeps them in
    the linked structures of HashTable and RouteChain. */
module Daemon {
  import opened Bits
  import opened Wrappers
  import opened Csum
  import opened Advert
  import opened RouteChain

  datatype NodeInfo = NodeInfo(iface: byte, scanned: bool, priority: byte, level: nat, deleted: bool)

  const NO_INFO := NodeInfo(0, false, 0, 0, false)
  const NO_ROUTE := Dest(Route(0, 0, 0, 0, false), [])

  /** What the configuration, the network interfaces and the neighbour hash fix: slot
      gives the slot of an address. */
  datatype Config = Config(area: nat, level2: bool, manual: seq<bool>, cost: seq<byte>, loopback: seq<bool>,
                           slot: word -> nat) {
    predicate Valid() {
      && 0 < area < 64 && |manual| == 64 && manual[area]
      && |cost| == 256 && |loopback| == 256
    }
  }

  datatype State = State(
    nodes: map<word, NodeInfo>,   // the neighbour hash
    order: seq<word>,             // its addresses in the order of iteration
    nodeTable: seq<Dest>,         // own-area nodes, by node number
    areaTable: seq<Dest>,         // areas
    via: map<word, word>,         // kernel: gateway of an indirect route
    dev: map<word, byte>)         // kernel: interface of a direct route
  {
    predicate Valid() { |nodeTable| == 1024 && |areaTable| == 64 }
  }

  function AreaOf(addr: word): (a: nat)
    ensures a < 64
  {
    addr / 1024
  }

  /** The order of iteration with a new address in it: behind those of its slot and of
      the slots before. */
  function Placed(slot: word -> nat, order: seq<word>, addr: word): seq<word> {
    if order == [] || slot(order[0]) > slot(addr) then [addr] + order
    else [order[0]] + Placed(slot, order[1..], addr)
  }

  /** The address of a node of our own area. */
  function Own(cfg: Config, id: nat): word
    requires cfg.Valid() && id < 1024
  {
    cfg.area * 1024 + id
  }

  // ---- The kernel ----

  /** Routes to manually controlled areas are left alone; the kernel replaces on add
      and deletes what matches. */
  function Perform(cfg: Config, via: map<word, word>, ask: Request): map<word, word>
    requires cfg.Valid()
  {
    match ask
    case Nothing => via
    case AddVia(addr, gw) => if addr % 1024 == 0 && cfg.manual[AreaOf(addr)] then via else via[addr := gw]
    case DelVia(addr, gw) =>
      if addr % 1024 == 0 && cfg.manual[AreaOf(addr)] then via
      else if addr in via && via[addr] == gw then via - {addr}
      else via
  }

  // ---- Hearing of routes ----

  function PriorityOf(s: State, addr: word): Option<byte> {
    if addr in s.nodes then Some(s.nodes[addr].priority) else None
  }

  function HearNode(cfg: Config, s: State, id: nat, cost: int, hops: int, from: word): (t: State)
    requires cfg.Valid() && s.Valid() && id < 1024
    ensures t.Valid()
  {
    var was := s.nodeTable[id];
    var d := Dest(was.head, Hear(was.routes, from, cost, hops, PriorityOf(s, from)));
    s.(nodeTable := s.nodeTable[id := Reselect(d)], via := Perform(cfg, s.via, Ask(d, Own(cfg, id))))
  }

  function HearArea(cfg: Config, s: State, area: nat, cost: int, hops: int, from: word): (t: State)
    requires cfg.Valid() && s.Valid() && area < 64
    ensures t.Valid()
  {
    var was := s.areaTable[area];
    if area == cfg.area && cfg.level2 then
      s.(areaTable := s.areaTable[area := was.(head := was.head.(cost := 0, hops := 0, valid := true, router := 0))])
    else
      var d := Dest(was.head, Hear(was.routes, from, cost, hops, PriorityOf(s, from)));
      s.(areaTable := s.areaTable[area := Reselect(d)], via := Perform(cfg, s.via, Ask(d, area * 1024)))
  }

  // ---- The neighbour dump ----

  datatype Neighbour = Neighbour(addr: word, iface: byte)

  /** An own-area node is now a neighbour: a route to it through a router goes. */
  function NodeIsLocal(cfg: Config, s: State, addr: word, iface: byte): (t: State)
    requires cfg.Valid() && s.Valid()
    ensures t.Valid()
  {
    var id := addr % 1024;
    var h := s.nodeTable[id].head;
    var via := if h.router != 0 then Perform(cfg, s.via, DelVia(addr, h.router)) else s.via;
    var h1 := if h.router != 0 then h.(router := 0, valid := false) else h;
    var h2 := if cfg.loopback[iface] then h1.(cost := 0, hops := 0)
              else if !h1.valid then h1.(cost := cfg.cost[iface], hops := 1)
              else h1;
    s.(via := via, nodeTable := s.nodeTable[id := s.nodeTable[id].(head := h2.(valid := true))])
  }

  /** The record of a neighbour once it has been seen on an interface. */
  function Sighted(s: State, n: Neighbour): NodeInfo {
    (if n.addr in s.nodes then s.nodes[n.addr] else NO_INFO).(iface := n.iface)
  }

  /** A neighbour that is new, came back or has moved goes into the hash and the tables. */
  function Taken(cfg: Config, s: State, n: Neighbour): (t: State)
    requires cfg.Valid() && s.Valid()
    ensures t.Valid() && t.nodes == s.nodes[n.addr := Sighted(s, n)]
  {
    var info := Sighted(s, n);
    var s1 := s.(nodes := s.nodes[n.addr := info],
                 order := if n.addr in s.nodes then s.order else Placed(cfg.slot, s.order, n.addr),
                 dev := if cfg.loopback[n.iface] then s.dev else s.dev[n.addr := n.iface]);
    if AreaOf(n.addr) == cfg.area then NodeIsLocal(cfg, s1, n.addr, n.iface)
    else if info.level == 2 then HearArea(cfg, s1, AreaOf(n.addr), cfg.cost[n.iface], 1, n.addr)
    else s1
  }

  /** One neighbour of the dump; one already marked is ignored. */
  function GotNeigh(cfg: Config, s: State, n: Neighbour): (t: State)
    requires cfg.Valid() && s.Valid()
    ensures t.Valid()
  {
    if n.addr in s.nodes && s.nodes[n.addr].scanned then s
    else
      var t := if n.addr !in s.nodes || s.nodes[n.addr].iface != n.iface || s.nodes[n.addr].deleted
               then Taken(cfg, s, n) else s;
      t.(nodes := t.nodes[n.addr := t.nodes[n.addr].(scanned := true, deleted := false)])
  }

  function GotAll(cfg: Config, s: State, dump: seq<Neighbour>): (t: State)
    requires cfg.Valid() && s.Valid()
    ensures t.Valid()
    decreases |dump|
  {
    if dump == [] then s else GotAll(cfg, GotNeigh(cfg, s, dump[0]), dump[1..])
  }

  // ---- The sweep ----

  /** A router that went down loses its routes; the request names the router's own
      address instead of the area's. */
  function LoseArea(cfg: Config, s: State, area: nat, router: word): (t: State)
    requires cfg.Valid() && s.Valid() && area < 64
    ensures t.Valid()
  {
    var was := s.areaTable[area];
    var d := Dest(was.head, Lose(was.routes, router));
    s.(areaTable := s.areaTable[area := Reselect(d)], via := Perform(cfg, s.via, Ask(d, router)))
  }

  function SweepOne(cfg: Config, s: State, addr: word): (t: State)
    requires cfg.Valid() && s.Valid()
    ensures t.Valid()
  {
    if addr !in s.nodes then s
    else
      var info := s.nodes[addr];
      var gone := !info.scanned && !info.deleted;
      var area := AreaOf(addr);
      var s1 := if gone && addr in s.dev && s.dev[addr] == info.iface then s.(dev := s.dev - {addr}) else s;
      var s2 :=
        if gone && info.level == 2 && s.areaTable[area].head.valid && area != cfg.area
        then LoseArea(cfg, s1, area, addr) else s1;
      s2.(nodes := s2.nodes[addr := info.(scanned := false, deleted := info.deleted || gone)])
  }

  function Sweep(cfg: Config, s: State, order: seq<word>): (t: State)
    requires cfg.Valid() && s.Valid()
    ensures t.Valid()
    decreases |order|
  {
    if order == [] then s else Sweep(cfg, SweepOne(cfg, s, order[0]), order[1..])
  }

  // ---- Routing messages ----

  /** A node that a router announces has no interface of ours, should it turn up again. */
  function Unseen(s: State, addr: word): (t: State)
    ensures s.Valid() ==> t.Valid()
  {
    if addr in s.nodes then s.(nodes := s.nodes[addr := s.nodes[addr].(iface := 0)]) else s
  }

  /** What a level 1 message makes of one entry; None stops the message. */
  function NodeRow(cfg: Config, s: State, row: Row, from: word, iface: byte): (t: Option<State>)
    requires cfg.Valid() && s.Valid()
    ensures t.Some? ==> t.value.Valid()
  {
    if !ReadsReachable(row.entry) || row.id == 0 then Some(s)
    else if row.id > 1023 then None
    else
      var addr := Own(cfg, row.id);
      if addr in s.nodes && !s.nodes[addr].deleted then Some(s)
      else
        var s1 := Unseen(s, addr);
        Some(HearNode(cfg, s1, row.id, ReadCost(row.entry) + cfg.cost[iface], ReadHops(row.entry) + 1, from))
  }

  function NodeRows(cfg: Config, s: State, rows: seq<Row>, from: word, iface: byte): (t: State)
    requires cfg.Valid() && s.Valid()
    ensures t.Valid()
    decreases |rows|
  {
    if rows == [] then s
    else
      var t := NodeRow(cfg, s, rows[0], from, iface);
      if t.None? then s else NodeRows(cfg, t.value, rows[1..], from, iface)
  }

  function SetLevel(s: State, addr: word, level: nat, priority: byte, override: bool): (t: State)
    ensures s.Valid() ==> t.Valid()
  {
    if addr !in s.nodes then s
    else
      var info := s.nodes[addr];
      s.(nodes := s.nodes[addr := info.(level := level,
        priority := if override || info.priority == 0 then priority else info.priority)])
  }

  function AreaRow(cfg: Config, s: State, row: Row, from: word): (t: Option<State>)
    requires cfg.Valid() && s.Valid()
    ensures t.Some? ==> t.value.Valid()
  {
    if !ReadsReachable(row.entry) || row.id == 0 then Some(s)
    else if row.id > 63 then None
    else if from !in s.nodes then Some(s)
    else Some(HearArea(cfg, s, row.id, ReadCost(row.entry) + cfg.cost[s.nodes[from].iface], ReadHops(row.entry), from))
  }

  function AreaRows(cfg: Config, s: State, rows: seq<Row>, from: word): (t: State)
    requires cfg.Valid() && s.Valid()
    ensures t.Valid()
    decreases |rows|
  {
    if rows == [] then s
    else
      var t := AreaRow(cfg, s, rows[0], from);
      if t.None? then s else AreaRows(cfg, t.value, rows[1..], from)
  }

  // ---- Events ----

  datatype Event =
    | Dump(dump: seq<Neighbour>, complete: bool)
    | Level1(from: word, rows: seq<Row>, iface: byte)
    | Level2(from: word, rows: seq<Row>)
    | Hello(from: word, level: nat, priority: byte)
  {
    /** Routers have an address of their own, as the source asserts before it talks
        to the kernel. */
    predicate Valid() {
      match this
      case Dump(dump, _) => forall n :: n in dump ==> n.iface < 256
      case Level1(from, _, iface) => from != 0
      case Level2(from, _) => from != 0
      case Hello(_, _, _) => true
    }
  }

  // ---- Packets ----

  /** The receive buffer. A packet fills its front; what is behind is whatever stood there. */
  const RECEIVE := 2048

  predicate Received(b: seq<byte>, len: nat) {
    |b| == RECEIVE && 0 < len <= RECEIVE
  }

  /** The kind of routing message: 3 and 4 are routes, 5 is a router's hello. */
  function KindOf(b: seq<byte>): nat
    requires |b| == RECEIVE
  {
    And(b[2], 0xE) / 2
  }

  /** What a packet means, if it is taken: routes must pass the checksum, level 1 routes
      come from our own area. */
  function MessageOf(cfg: Config, b: seq<byte>, len: nat, iface: byte): (e: Option<Event>)
    requires cfg.Valid() && Received(b, len) && Readable(cfg, b, len)
  {
    match KindOf(b)
    case 3 =>
      if AreaOf(WordAt(b, 3)) == cfg.area && ChecksumOk(b, len)
      then Some(Level1(WordAt(b, 3), Segments(b, len, 6).value, iface)) else None
    case 4 => if ChecksumOk(b, len) then Some(Level2(WordAt(b, 3), Segments(b, len, 6).value)) else None
    case 5 => Some(Hello(WordAt(b, 10), 3 - And(b[12], 3), b[15]))
    case _ => None
  }

  /** Routes have room for the checksum, and when they are taken the entries they announce
      lie within the buffer. */
  predicate Routes(b: seq<byte>, len: nat)
    requires Received(b, len)
  {
    len >= 2 && (ChecksumOk(b, len) ==> Segments(b, len, 6).Some?)
  }

  /** Nothing is demanded of other packets, nor of routes from other areas. */
  predicate Readable(cfg: Config, b: seq<byte>, len: nat)
    requires cfg.Valid() && Received(b, len)
  {
    && (KindOf(b) == 3 && AreaOf(WordAt(b, 3)) == cfg.area ==> Routes(b, len))
    && (KindOf(b) == 4 ==> Routes(b, len))
  }

  /** A failed dump leaves its marks and sweeps nothing. */
  function Step(cfg: Config, s: State, e: Event): (t: State)
    requires cfg.Valid() && s.Valid()
    ensures t.Valid()
  {
    match e
    case Dump(dump, complete) =>
      var t := GotAll(cfg, s, dump);
      if complete then Sweep(cfg, t, t.order) else t
    case Level1(from, rows, iface) =>
      if AreaOf(from) != cfg.area then s else NodeRows(cfg, s, rows, from, iface)
    case Level2(from, rows) => AreaRows(cfg, SetLevel(s, from, 2, 64, false), rows, from)
    case Hello(from, level, priority) => SetLevel(s, from, level, priority, true)
  }

  function Init(cfg: Config): (s: State)
    requires cfg.Valid()
    ensures s.Valid()
  {
    var areas := seq(64, _ => NO_ROUTE);
    State(map[], [], seq(1024, _ => NO_ROUTE),
          if cfg.level2 then areas[cfg.area := NO_ROUTE.(head := NO_ROUTE.head.(valid := true))] else areas,
          map[], map[])
  }

  function Run(cfg: Config, s: State, events: seq<Event>): (t: State)
    requires cfg.Valid() && s.Valid()
    ensures t.Valid()
    decreases |events|
  {
    if events == [] then s else Run(cfg, Step(cfg, s, events[0]), events[1..])
  }

  // ---- Kernel agreement ----

  /** The kernel routes to an own-area node through the router its head names, and
      has no indirect route when the head names none. */
  ghost predicate Agrees(cfg: Config, s: State, id: nat)
    requires cfg.Valid() && s.Valid() && id < 1024
  {
    var router := s.nodeTable[id].head.router;
    if router != 0 then Own(cfg, id) in s.via && s.via[Own(cfg, id)] == router else Own(cfg, id) !in s.via
  }

  /** What keeps the agreement: entries of own-area nodes are never invalidated, so
      there is always a route to fall back on. */
  ghost predicate Sound(rs: seq<Route>) {
    forall i :: 0 <= i < |rs| ==> Eligible(rs[i]) && rs[i].router != 0
  }

  ghost predicate NodeOk(cfg: Config, s: State, id: nat)
    requires cfg.Valid() && s.Valid() && id < 1024
  {
    Agrees(cfg, s, id) && Sound(s.nodeTable[id].routes)
  }

  ghost predicate Good(cfg: Config, s: State)
    requires cfg.Valid() && s.Valid()
  {
    forall id :: 0 < id < 1024 ==> NodeOk(cfg, s, id)
  }

  /** The part of the state the agreement is about. */
  ghost predicate SameNodes(cfg: Config, s: State, t: State)
    requires cfg.Valid() && s.Valid() && t.Valid()
  {
    t.nodeTable == s.nodeTable
    && forall id :: 0 < id < 1024 ==> SameVia(s.via, t.via, Own(cfg, id))
  }

  ghost predicate SameVia(v: map<word, word>, w: map<word, word>, addr: word) {
    (addr in v <==> addr in w) && (addr in v ==> v[addr] == w[addr])
  }

  lemma SameIsGood(cfg: Config, s: State, t: State)
    requires cfg.Valid() && s.Valid() && t.Valid() && Good(cfg, s) && SameNodes(cfg, s, t)
    ensures Good(cfg, t)
  {
    forall id | 0 < id < 1024 ensures NodeOk(cfg, t, id) {
      assert NodeOk(cfg, s, id) && SameVia(s.via, t.via, Own(cfg, id));
    }
  }

  /** Requests about other addresses leave an address alone. */
  lemma OtherRequest(cfg: Config, via: map<word, word>, ask: Request, addr: word)
    requires cfg.Valid() && (ask != Nothing ==> ask.addr != addr)
    ensures SameVia(via, Perform(cfg, via, ask), addr)
  {
  }

  lemma HearNodeKeeps(cfg: Config, s: State, id: nat, cost: int, hops: int, from: word)
    requires cfg.Valid() && s.Valid() && Good(cfg, s) && 0 < id < 1024 && from != 0
    requires 0 <= cost < NOCOST
    ensures Good(cfg, HearNode(cfg, s, id, cost, hops, from))
  {
    var t := HearNode(cfg, s, id, cost, hops, from);
    var was := s.nodeTable[id];
    assert NodeOk(cfg, s, id);
    var rs := Hear(was.routes, from, cost, hops, PriorityOf(s, from));
    var p := PositionOf(was.routes, from);
    assert Eligible(rs[p]);
    assert Sound(rs);
    forall k | 0 < k < 1024 ensures NodeOk(cfg, t, k) {
      assert NodeOk(cfg, s, k);
      if k != id {
        OtherRequest(cfg, s.via, Ask(Dest(was.head, rs), Own(cfg, id)), Own(cfg, k));
      }
    }
  }

  lemma HearAreaKeeps(cfg: Config, s: State, area: nat, cost: int, hops: int, from: word)
    requires cfg.Valid() && s.Valid() && Good(cfg, s) && area < 64
    ensures Good(cfg, HearArea(cfg, s, area, cost, hops, from))
  {
    var t := HearArea(cfg, s, area, cost, hops, from);
    var was := s.areaTable[area];
    forall id | 0 < id < 1024 ensures SameVia(s.via, t.via, Own(cfg, id)) {
      if !(area == cfg.area && cfg.level2) {
        var d := Dest(was.head, Hear(was.routes, from, cost, hops, PriorityOf(s, from)));
        OtherRequest(cfg, s.via, Ask(d, area * 1024), Own(cfg, id));
      }
    }
    SameIsGood(cfg, s, t);
  }

  lemma LoseAreaKeeps(cfg: Config, s: State, area: nat, router: word)
    requires cfg.Valid() && s.Valid() && Good(cfg, s) && area < 64 && AreaOf(router) != cfg.area
    ensures Good(cfg, LoseArea(cfg, s, area, router))
  {
    var t := LoseArea(cfg, s, area, router);
    var was := s.areaTable[area];
    forall id | 0 < id < 1024 ensures SameVia(s.via, t.via, Own(cfg, id)) {
      OtherRequest(cfg, s.via, Ask(Dest(was.head, Lose(was.routes, router)), router), Own(cfg, id));
    }
    SameIsGood(cfg, s, t);
  }

  lemma NodeIsLocalKeeps(cfg: Config, s: State, addr: word, iface: byte)
    requires cfg.Valid() && s.Valid() && Good(cfg, s) && AreaOf(addr) == cfg.area
    ensures Good(cfg, NodeIsLocal(cfg, s, addr, iface))
  {
    var t := NodeIsLocal(cfg, s, addr, iface);
    var id := addr % 1024;
    assert addr == Own(cfg, id);
    forall k | 0 < k < 1024 ensures NodeOk(cfg, t, k) {
      assert NodeOk(cfg, s, k);
      if k != id {
        OtherRequest(cfg, s.via, DelVia(addr, s.nodeTable[id].head.router), Own(cfg, k));
      }
    }
  }

  lemma TakenKeeps(cfg: Config, s: State, n: Neighbour)
    requires cfg.Valid() && s.Valid() && Good(cfg, s)
    ensures Good(cfg, Taken(cfg, s, n))
  {
    var info := Sighted(s, n);
    var s1 := s.(nodes := s.nodes[n.addr := info],
                 order := if n.addr in s.nodes then s.order else Placed(cfg.slot, s.order, n.addr),
                 dev := if cfg.loopback[n.iface] then s.dev else s.dev[n.addr := n.iface]);
    SameIsGood(cfg, s, s1);
    if AreaOf(n.addr) == cfg.area {
      NodeIsLocalKeeps(cfg, s1, n.addr, n.iface);
    } else if info.level == 2 {
      HearAreaKeeps(cfg, s1, AreaOf(n.addr), cfg.cost[n.iface], 1, n.addr);
    }
  }

  lemma GotNeighKeeps(cfg: Config, s: State, n: Neighbour)
    requires cfg.Valid() && s.Valid() && Good(cfg, s)
    ensures Good(cfg, GotNeigh(cfg, s, n))
  {
    if !(n.addr in s.nodes && s.nodes[n.addr].scanned) {
      var t := s;
      if n.addr !in s.nodes || s.nodes[n.addr].iface != n.iface || s.nodes[n.addr].deleted {
        TakenKeeps(cfg, s, n);
        t := Taken(cfg, s, n);
      }
      SameIsGood(cfg, t, GotNeigh(cfg, s, n));
    }
  }

  lemma {:induction false} GotAllKeeps(cfg: Config, s: State, dump: seq<Neighbour>)
    requires cfg.Valid() && s.Valid() && Good(cfg, s)
    ensures Good(cfg, GotAll(cfg, s, dump))
    decreases |dump|
  {
    if dump == [] {
    } else {
      GotNeighKeeps(cfg, s, dump[0]);
      GotAllKeeps(cfg, GotNeigh(cfg, s, dump[0]), dump[1..]);
    }
  }

  lemma SweepOneKeeps(cfg: Config, s: State, addr: word)
    requires cfg.Valid() && s.Valid() && Good(cfg, s)
    ensures Good(cfg, SweepOne(cfg, s, addr))
  {
    if addr in s.nodes {
      var info := s.nodes[addr];
      var gone := !info.scanned && !info.deleted;
      var s1 := if gone && addr in s.dev && s.dev[addr] == info.iface then s.(dev := s.dev - {addr}) else s;
      SameIsGood(cfg, s, s1);
      if gone && info.level == 2 && s.areaTable[AreaOf(addr)].head.valid && AreaOf(addr) != cfg.area {
        LoseAreaKeeps(cfg, s1, AreaOf(addr), addr);
        SameIsGood(cfg, LoseArea(cfg, s1, AreaOf(addr), addr), SweepOne(cfg, s, addr));
      } else {
        SameIsGood(cfg, s1, SweepOne(cfg, s, addr));
      }
    }
  }

  lemma {:induction false} SweepKeeps(cfg: Config, s: State, order: seq<word>)
    requires cfg.Valid() && s.Valid() && Good(cfg, s)
    ensures Good(cfg, Sweep(cfg, s, order))
    decreases |order|
  {
    if order == [] {
    } else {
      SweepOneKeeps(cfg, s, order[0]);
      SweepKeeps(cfg, SweepOne(cfg, s, order[0]), order[1..]);
    }
  }

  /** A cost that is accepted stays far below the value that hides a route. */
  lemma AcceptedCost(w: word, cost: byte)
    ensures 0 <= ReadCost(w) + cost as nat <= 511 + 255 < NOCOST
  {
    ReadWord(w);
  }

  lemma {:induction false} NodeRowsKeep(cfg: Config, s: State, rows: seq<Row>, from: word, iface: byte)
    requires cfg.Valid() && s.Valid() && Good(cfg, s) && from != 0
    ensures Good(cfg, NodeRows(cfg, s, rows, from, iface))
    decreases |rows|
  {
    if rows == [] || NodeRow(cfg, s, rows[0], from, iface).None? {
    } else {
      NodeRowKeeps(cfg, s, rows[0], from, iface);
      NodeRowsKeep(cfg, NodeRow(cfg, s, rows[0], from, iface).value, rows[1..], from, iface);
    }
  }

  lemma NodeRowKeeps(cfg: Config, s: State, row: Row, from: word, iface: byte)
    requires cfg.Valid() && s.Valid() && Good(cfg, s) && from != 0
    requires NodeRow(cfg, s, row, from, iface).Some?
    ensures Good(cfg, NodeRow(cfg, s, row, from, iface).value)
  {
    if ReadsReachable(row.entry) && row.id != 0 {
      var addr := Own(cfg, row.id);
      if !(addr in s.nodes && !s.nodes[addr].deleted) {
        var s1 := Unseen(s, addr);
        SameIsGood(cfg, s, s1);
        AcceptedCost(row.entry, cfg.cost[iface]);
        HearNodeKeeps(cfg, s1, row.id, ReadCost(row.entry) + cfg.cost[iface], ReadHops(row.entry) + 1, from);
      }
    }
  }

  /** The cost of an entry over an interface, and its hops, as plain numbers. */
  lemma RowNumbers(cfg: Config, row: Row, iface: byte) returns (cost: int, hops: int)
    requires cfg.Valid()
    ensures 0 <= cost < NOCOST && cost == ReadCost(row.entry) + cfg.cost[iface] && hops == ReadHops(row.entry)
    ensures cost == row.entry % 512 + cfg.cost[iface] && hops == row.entry / 512 % 64
  {
    cost, hops := ReadCost(row.entry) + cfg.cost[iface], ReadHops(row.entry);
    AcceptedCost(row.entry, cfg.cost[iface]);
    ReadWord(row.entry);
  }

  /** What an entry for an area does, if it does anything: the cost of the interface the
      router is on is added. */
  lemma AreaRowIs(cfg: Config, s: State, row: Row, from: word) returns (cost: int, hops: int)
    requires cfg.Valid() && s.Valid()
    ensures 0 <= cost < NOCOST
    ensures from in s.nodes ==> cost == row.entry % 512 + cfg.cost[s.nodes[from].iface] && hops == row.entry / 512 % 64
    ensures var t := AreaRow(cfg, s, row, from);
      if ReadsReachable(row.entry) && 0 < row.id < 64 && from in s.nodes
      then t == Some(HearArea(cfg, s, row.id, cost, hops, from))
      else t.Some? ==> t.value == s
  {
    cost, hops := 0, 0;
    if from in s.nodes { cost, hops := RowNumbers(cfg, row, s.nodes[from].iface); }
    AreaRowTakes(cfg, s, row, from, cost, hops);
  }

  lemma AreaRowTakes(cfg: Config, s: State, row: Row, from: word, cost: int, hops: int)
    requires cfg.Valid() && s.Valid()
    requires from in s.nodes ==>
      cost == ReadCost(row.entry) + cfg.cost[s.nodes[from].iface] && hops == ReadHops(row.entry)
    ensures var t := AreaRow(cfg, s, row, from);
      if ReadsReachable(row.entry) && 0 < row.id < 64 && from in s.nodes
      then t == Some(HearArea(cfg, s, row.id, cost, hops, from))
      else t.Some? ==> t.value == s
  {
  }

  lemma AreaRowKeeps(cfg: Config, s: State, row: Row, from: word, t: State)
    requires cfg.Valid() && s.Valid() && Good(cfg, s) && AreaRow(cfg, s, row, from) == Some(t)
    ensures t.Valid() && Good(cfg, t)
  {
    var cost, hops := AreaRowIs(cfg, s, row, from);
    if t != s { HearAreaKeeps(cfg, s, row.id, cost, hops, from); }
  }

  lemma {:induction false} AreaRowsKeep(cfg: Config, s: State, rows: seq<Row>, from: word)
    requires cfg.Valid() && s.Valid() && Good(cfg, s)
    ensures Good(cfg, AreaRows(cfg, s, rows, from))
    decreases |rows|
  {
    if rows == [] || AreaRow(cfg, s, rows[0], from).None? {
    } else {
      AreaRowKeeps(cfg, s, rows[0], from, AreaRow(cfg, s, rows[0], from).value);
      AreaRowsKeep(cfg, AreaRow(cfg, s, rows[0], from).value, rows[1..], from);
    }
  }

  lemma StepKeeps(cfg: Config, s: State, e: Event)
    requires cfg.Valid() && s.Valid() && Good(cfg, s) && e.Valid()
    ensures Good(cfg, Step(cfg, s, e))
  {
    match e
    case Dump(dump, complete) =>
      GotAllKeeps(cfg, s, dump);
      SweepKeeps(cfg, GotAll(cfg, s, dump), GotAll(cfg, s, dump).order);
    case Level1(from, rows, iface) => NodeRowsKeep(cfg, s, rows, from, iface);
    case Level2(from, rows) =>
      SameIsGood(cfg, s, SetLevel(s, from, 2, 64, false));
      AreaRowsKeep(cfg, SetLevel(s, from, 2, 64, false), rows, from);
    case Hello(from, level, priority) => SameIsGood(cfg, s, SetLevel(s, from, level, priority, true));
  }

  lemma {:induction false} RunKeeps(cfg: Config, s: State, events: seq<Event>)
    requires cfg.Valid() && s.Valid() && Good(cfg, s) && forall e :: e in events ==> e.Valid()
    ensures Good(cfg, Run(cfg, s, events))
    decreases |events|
  {
    if events == [] {
    } else {
      StepKeeps(cfg, s, events[0]);
      RunKeeps(cfg, Step(cfg, s, events[0]), events[1..]);
    }
  }

  /** After any run of dumps, failed dumps, hellos and routing messages, the kernel
      has exactly the indirect routes to own-area nodes that the table names. */
  lemma KernelAgrees(cfg: Config, events: seq<Event>, id: nat)
    requires cfg.Valid() && 0 < id < 1024 && forall e :: e in events ==> e.Valid()
    ensures Agrees(cfg, Run(cfg, Init(cfg), events), id)
  {
    var s := Init(cfg);
    forall k | 0 < k < 1024 ensures NodeOk(cfg, s, k) {
      assert s.nodeTable[k] == NO_ROUTE;
    }
    RunKeeps(cfg, s, events);
    assert NodeOk(cfg, Run(cfg, s, events), id);
  }
}
