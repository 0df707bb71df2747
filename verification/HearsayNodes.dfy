/** The routes to nodes of our area: what the tables hold of them is what the events tell. */
module HearsayNodes {
  import opened Bits
  import opened Wrappers
  import opened Advert
  import opened RouteChain
  import opened Daemon
  import opened NeighbourMarks
  import opened Sightings
  import opened Hearsay

  /** All routers are valid routes, since nodes of our area are never invalidated. */
  ghost predicate AllUsable(rs: seq<Route>) {
    forall i :: Usable(rs, i)
  }

  predicate Usable(rs: seq<Route>, i: int) {
    0 <= i < |rs| ==> rs[i].valid && rs[i].router != 0
  }

  ghost function NodeEntry(s: State, id: nat, r: word): Option<Route>
    requires s.Valid() && id < 1024
  {
    EntryOf(s.nodeTable[id].routes, r)
  }

  ghost predicate NodeSound(s: State, id: nat)
    requires s.Valid() && id < 1024
  {
    ChainOk(s.nodeTable[id].routes) && AllUsable(s.nodeTable[id].routes)
  }

  /** The head of a node that is reached directly, and of one that is not. */
  ghost predicate HeadTold(d: Dest, direct: Option<(byte, nat)>) {
    if direct.Some? then d.head.valid && d.head.router == 0 && d.head.cost == direct.value.0 && d.head.hops == direct.value.1
    else HeadOk(d) && (d.routes == [] ==> d == NO_ROUTE) && (d.head.valid ==> d.head.router != 0)
  }

  ghost predicate NodeIs(cfg: Config, s: State, events: seq<Event>, id: nat, r: word)
    requires cfg.Valid() && s.Valid() && id < 1024
  {
    && NodeSound(s, id) && NodeEntry(s, id, r) == NodeTold(cfg, events, id, r)
    && HeadTold(s.nodeTable[id], LocalTold(cfg, events, id))
    && (InSight(events, Own(cfg, id)) ==> LocalTold(cfg, events, id).Some?)
    && (InSight(events, Own(cfg, id)) && OnLoopback(cfg, LastSeen(events, Own(cfg, id))) ==>
          LocalTold(cfg, events, id) == Some((0, 0)))
  }

  /** What seeing a node on an interface makes of what is known about reaching it. */
  function SeenLocal(cfg: Config, was: Option<(byte, nat)>, i: byte): Option<(byte, nat)>
    requires cfg.Valid()
  {
    if cfg.loopback[i] then Some((0, 0)) else if was.None? then Some((cfg.cost[i], 1)) else was
  }

  lemma LocalHead(cfg: Config, s: State, addr: word, iface: byte, was: Option<(byte, nat)>)
    requires cfg.Valid() && s.Valid() && HeadTold(s.nodeTable[addr % 1024], was)
    ensures var id, t := addr % 1024, NodeIsLocal(cfg, s, addr, iface);
      && HeadTold(t.nodeTable[id], SeenLocal(cfg, was, iface))
      && t.nodeTable[id].routes == s.nodeTable[id].routes
      && forall k :: 0 <= k < 1024 && k != id ==> t.nodeTable[k] == s.nodeTable[k]
  {
  }

  /** The neighbour is new, comes back or has moved, and is not yet marked. */
  predicate Enters(s: State, a: word, i: byte) {
    !Scanned(s, a) && (a !in s.nodes || s.nodes[a].deleted || s.nodes[a].iface != i)
  }

  lemma GotNeighNode(cfg: Config, s: State, n: Neighbour, id: nat, was: Option<(byte, nat)>)
    requires cfg.Valid() && s.Valid() && id < 1024 && HeadTold(s.nodeTable[id], was)
    ensures var t := GotNeigh(cfg, s, n);
      && t.nodeTable[id].routes == s.nodeTable[id].routes
      && HeadTold(t.nodeTable[id], if n.addr == Own(cfg, id) && Enters(s, n.addr, n.iface)
                                   then SeenLocal(cfg, was, n.iface) else was)
  {
    if Enters(s, n.addr, n.iface) && AreaOf(n.addr) == cfg.area {
      var s1 := s.(nodes := s.nodes[n.addr := Sighted(s, n)],
                   order := if n.addr in s.nodes then s.order else Placed(cfg.slot, s.order, n.addr),
                   dev := if cfg.loopback[n.iface] then s.dev else s.dev[n.addr := n.iface]);
      if n.addr % 1024 == id {
        LocalHead(cfg, s1, n.addr, n.iface, was);
      }
    }
  }

  lemma {:induction false} GotAllNode(cfg: Config, s: State, dump: seq<Neighbour>, id: nat, was: Option<(byte, nat)>)
    requires cfg.Valid() && s.Valid() && id < 1024 && HeadTold(s.nodeTable[id], was)
    ensures var t, a := GotAll(cfg, s, dump), Own(cfg, id);
      && t.nodeTable[id].routes == s.nodeTable[id].routes
      && HeadTold(t.nodeTable[id], if InDump(dump, a) && Enters(s, a, SeenOn(dump, a))
                                   then SeenLocal(cfg, was, SeenOn(dump, a)) else was)
    decreases |dump|
  {
    if dump == [] {
    } else {
      var a, t := Own(cfg, id), GotNeigh(cfg, s, dump[0]);
      FirstOf(dump, a);
      GotNeighNode(cfg, s, dump[0], id, was);
      GotNeighSight(cfg, s, dump[0], a);
      GotAllNode(cfg, t, dump[1..], id,
                 if dump[0].addr == a && Enters(s, a, dump[0].iface) then SeenLocal(cfg, was, dump[0].iface) else was);
    }
  }

  lemma {:induction false} SweepNodes(cfg: Config, s: State, order: seq<word>)
    requires cfg.Valid() && s.Valid()
    ensures Sweep(cfg, s, order).nodeTable == s.nodeTable
    decreases |order|
  {
    if order == [] {
    } else {
      SweepNodes(cfg, SweepOne(cfg, s, order[0]), order[1..]);
    }
  }

  lemma {:induction false} AreaRowsNodes(cfg: Config, s: State, rows: seq<Row>, from: word)
    requires cfg.Valid() && s.Valid()
    ensures AreaRows(cfg, s, rows, from).nodeTable == s.nodeTable
    decreases |rows|
  {
    if rows == [] {
    } else {
      var t := AreaRow(cfg, s, rows[0], from);
      if t.Some? { AreaRowsNodes(cfg, t.value, rows[1..], from); }
    }
  }

  /** The priority an entry gets: that of the router if it is known, else it keeps its own. */
  function EntryPriority(s: State, id: nat, from: word): byte
    requires s.Valid() && id < 1024
  {
    if from in s.nodes then s.nodes[from].priority
    else if EntryOf(s.nodeTable[id].routes, from).Some? then EntryOf(s.nodeTable[id].routes, from).value.priority
    else 0
  }

  /** What rows that say this about a node out of sight do to its entries and head. */
  ghost predicate NodeSays(cfg: Config, s: State, t: State, told: Option<word>, from: word, iface: byte, id: nat, r: word)
    requires cfg.Valid() && s.Valid() && id < 1024
  {
    && t.Valid() && NodeSound(t, id)
    && (if told.None? then t.nodeTable[id] == s.nodeTable[id]
        else HeadTold(t.nodeTable[id], None)
             && NodeEntry(t, id, r) == if r == from
                  then Some(NodeRoute(told.value, from, cfg.cost[iface], EntryPriority(s, id, from))) else NodeEntry(s, id, r))
    && EntryPriority(t, id, from) == EntryPriority(s, id, from)
  }

  lemma ChosenRouter(d: Dest)
    requires AllUsable(d.routes) && Cheapest(d.routes).Some?
    ensures HeadTold(Reselect(d), None) && Reselect(d).routes == d.routes
  {
    ReselectOk(d);
    assert Usable(d.routes, Cheapest(d.routes).value);
  }

  lemma HearNodeIs(cfg: Config, s: State, id: nat, cost: int, hops: int, from: word)
    requires cfg.Valid() && s.Valid() && id < 1024
    ensures var t := HearNode(cfg, s, id, cost, hops, from);
      && t.nodes == s.nodes
      && t.nodeTable[id]
         == Reselect(Dest(s.nodeTable[id].head, Hear(s.nodeTable[id].routes, from, cost, hops, PriorityOf(s, from))))
  {
  }

  /** The chain of a node after it was heard of. */
  function HeardChain(s: State, id: nat, now: Route): seq<Route>
    requires s.Valid() && id < 1024
  {
    Hear(s.nodeTable[id].routes, now.router, now.cost, now.hops, PriorityOf(s, now.router))
  }

  /** A route as it goes into the chain. */
  predicate Fresh(s: State, id: nat, now: Route)
    requires s.Valid() && id < 1024
  {
    now.valid && now.cost < NOCOST && now.hops != 0 && now.priority == EntryPriority(s, id, now.router)
  }

  lemma HeardChainEntry(s: State, id: nat, now: Route, r: word)
    requires s.Valid() && id < 1024 && NodeSound(s, id) && Fresh(s, id, now)
    ensures var heard := HeardChain(s, id, now);
      && ChainOk(heard) && Cheapest(heard).Some?
      && EntryOf(heard, r) == if r == now.router then Some(now) else NodeEntry(s, id, r)
  {
    HearEntry(s.nodeTable[id].routes, now.router, now.cost, now.hops, PriorityOf(s, now.router), r);
  }

  lemma HearNodeEntry(cfg: Config, s: State, id: nat, now: Route, r: word)
    requires cfg.Valid() && s.Valid() && id < 1024 && NodeSound(s, id) && now.router != 0 && Fresh(s, id, now)
    ensures var t := HearNode(cfg, s, id, now.cost, now.hops, now.router);
      && t.nodes == s.nodes && NodeSound(t, id) && HeadTold(t.nodeTable[id], None)
      && NodeEntry(t, id, r) == (if r == now.router then Some(now) else NodeEntry(s, id, r))
      && EntryPriority(t, id, now.router) == now.priority
  {
    var was, heard := s.nodeTable[id], HeardChain(s, id, now);
    HearNodeIs(cfg, s, id, now.cost, now.hops, now.router);
    HeardChainEntry(s, id, now, r);
    HeardChainEntry(s, id, now, now.router);
    HeardUsable(was.routes, now.router, now.cost, now.hops, PriorityOf(s, now.router));
    ChosenRouter(Dest(was.head, heard));
  }

  lemma HeardUsable(rs: seq<Route>, from: word, cost: int, hops: int, priority: Option<byte>)
    requires AllUsable(rs) && from != 0
    ensures AllUsable(Hear(rs, from, cost, hops, priority))
  {
    var heard := Hear(rs, from, cost, hops, priority);
    forall i ensures Usable(heard, i) { assert Usable(rs, i); }
  }

  predicate OutOfSight(cfg: Config, s: State, id: nat)
    requires cfg.Valid() && id < 1024
  {
    Own(cfg, id) in s.nodes ==> s.nodes[Own(cfg, id)].deleted
  }

  /** A row about another id, or one that is not taken. */
  lemma NodeRowElse(cfg: Config, s: State, row: Row, from: word, iface: byte, id: nat)
    requires cfg.Valid() && s.Valid() && id < 1024 && NodeRow(cfg, s, row, from, iface).Some?
    requires row.id != id || row.id == 0 || row.entry % 256 == 255 || !OutOfSight(cfg, s, id)
    ensures var t := NodeRow(cfg, s, row, from, iface).value;
      && t.nodeTable[id] == s.nodeTable[id] && (from in t.nodes <==> from in s.nodes)
      && (from in s.nodes ==> t.nodes[from].priority == s.nodes[from].priority)
      && (OutOfSight(cfg, s, id) <==> OutOfSight(cfg, t, id))
  {
    ReadWord(row.entry);
  }

  lemma NodeRowIs(cfg: Config, s: State, row: Row, from: word, iface: byte, now: Route)
    requires cfg.Valid() && s.Valid() && 0 < row.id < 1024 && OutOfSight(cfg, s, row.id) && row.entry % 256 != 255
    requires now == NodeRoute(row.entry, from, cfg.cost[iface], EntryPriority(s, row.id, from))
    ensures var u := Unseen(s, Own(cfg, row.id));
      && u.Valid() && u.nodeTable == s.nodeTable && OutOfSight(cfg, u, row.id) && Fresh(u, row.id, now)
      && NodeRow(cfg, s, row, from, iface) == Some(HearNode(cfg, u, row.id, now.cost, now.hops, from))
  {
    var cost, hops := RowNumbers(cfg, row, iface);
    ReadWord(row.entry);
  }

  lemma NodeRowHeard(cfg: Config, s: State, row: Row, from: word, iface: byte, id: nat, r: word)
    requires cfg.Valid() && s.Valid() && 0 < id < 1024 && NodeSound(s, id) && from != 0 && OutOfSight(cfg, s, id)
    requires row.entry % 256 != 255 && row.id == id
    ensures var t := NodeRow(cfg, s, row, from, iface);
      t.Some? && NodeSays(cfg, s, t.value, Some(row.entry), from, iface, id, r) && OutOfSight(cfg, t.value, id)
  {
    var now := NodeRoute(row.entry, from, cfg.cost[iface], EntryPriority(s, id, from));
    NodeRowIs(cfg, s, row, from, iface, now);
    HearNodeEntry(cfg, Unseen(s, Own(cfg, id)), id, now, r);
  }

  lemma NodeSaysThen(cfg: Config, s: State, t: State, u: State, first: Option<word>, then': Option<word>,
                     from: word, iface: byte, id: nat, r: word)
    requires cfg.Valid() && s.Valid() && t.Valid() && id < 1024
    requires NodeSays(cfg, s, t, first, from, iface, id, r) && NodeSays(cfg, t, u, then', from, iface, id, r)
    ensures NodeSays(cfg, s, u, if then'.Some? then then' else first, from, iface, id, r)
  {
  }

  lemma {:induction false} NodeRowsEntry(cfg: Config, s: State, rows: seq<Row>, from: word, iface: byte, id: nat, r: word)
    requires cfg.Valid() && s.Valid() && id < 1024 && NodeSound(s, id) && from != 0
    ensures NodeSays(cfg, s, NodeRows(cfg, s, rows, from, iface),
                     if OutOfSight(cfg, s, id) then Announced(rows, 1023, id) else None, from, iface, id, r)
    decreases |rows|
  {
    if rows == [] {
    } else {
      var row := rows[0];
      var t := NodeRow(cfg, s, row, from, iface);
      NodeRowRecord(cfg, s, row, from, iface, 0);
      if t.Some? {
        var out := OutOfSight(cfg, s, id);
        var rest := if out then Announced(rows[1..], 1023, id) else None;
        if row.id == id && id != 0 && row.entry % 256 != 255 && out {
          NodeRowHeard(cfg, s, row, from, iface, id, r);
          NodeRowsEntry(cfg, t.value, rows[1..], from, iface, id, r);
          NodeSaysThen(cfg, s, t.value, NodeRows(cfg, t.value, rows[1..], from, iface), Some(row.entry), rest,
                       from, iface, id, r);
        } else {
          NodeRowElse(cfg, s, row, from, iface, id);
          NodeRowsEntry(cfg, t.value, rows[1..], from, iface, id, r);
          NodeSaysThen(cfg, s, t.value, NodeRows(cfg, t.value, rows[1..], from, iface), None, rest, from, iface, id, r);
        }
      }
    }
  }

  lemma NodeDump(cfg: Config, s: State, events: seq<Event>, id: nat, r: word)
    requires cfg.Valid() && s.Valid() && events != [] && id < 1024 && Last(events).Dump?
    requires SightTold(cfg, s, Before(events), Own(cfg, id)) && NodeIs(cfg, s, Before(events), id, r)
    ensures NodeIs(cfg, Step(cfg, s, Last(events)), events, id, r)
  {
    var e, was := Last(events), LocalTold(cfg, Before(events), id);
    var t := GotAll(cfg, s, e.dump);
    GotAllNode(cfg, s, e.dump, id, was);
    if e.complete { SweepNodes(cfg, t, t.order); }
  }

  lemma NodeMessage(cfg: Config, s: State, events: seq<Event>, id: nat, r: word)
    requires cfg.Valid() && s.Valid() && events != [] && id < 1024 && Last(events).Level1? && Last(events).from != 0
    requires SightTold(cfg, s, Before(events), Own(cfg, id)) && NodeIs(cfg, s, Before(events), id, r)
    requires SightTold(cfg, s, Before(events), r) && RecordTold(cfg, s, Before(events), r)
    ensures NodeIs(cfg, Step(cfg, s, Last(events)), events, id, r)
  {
    var e := Last(events);
    NodeMessageTold(cfg, events, id, r);
    if AreaOf(e.from) == cfg.area {
      NodeRowsEntry(cfg, s, e.rows, e.from, e.iface, id, r);
    }
  }

  lemma NodeMessageTold(cfg: Config, events: seq<Event>, id: nat, r: word)
    requires cfg.Valid() && events != [] && id < 1024 && Last(events).Level1?
    ensures var e, before, a, told := Last(events), Before(events), Own(cfg, id), Pointed(cfg, events, id);
      && (InSight(events, a) <==> InSight(before, a)) && LastSeen(events, a) == LastSeen(before, a)
      && LocalTold(cfg, events, id) == (if told.Some? then None else LocalTold(cfg, before, id))
      && NodeTold(cfg, events, id, r)
         == if told.Some? && e.from == r
            then Some(NodeRoute(told.value, r, cfg.cost[e.iface],
                                if InSomeDump(before, r) then PriorityTold(before, r)
                                else if NodeTold(cfg, before, id, r).Some? then NodeTold(cfg, before, id, r).value.priority else 0))
            else NodeTold(cfg, before, id, r)
  {
  }

  lemma NodeStep(cfg: Config, s: State, events: seq<Event>, id: nat, r: word)
    requires cfg.Valid() && s.Valid() && events != [] && id < 1024 && Last(events).Valid()
    requires SightTold(cfg, s, Before(events), Own(cfg, id)) && NodeIs(cfg, s, Before(events), id, r)
    requires SightTold(cfg, s, Before(events), r) && RecordTold(cfg, s, Before(events), r)
    ensures NodeIs(cfg, Step(cfg, s, Last(events)), events, id, r)
  {
    match Last(events)
    case Dump(_, _) => NodeDump(cfg, s, events, id, r);
    case Level1(_, _, _) => NodeMessage(cfg, s, events, id, r);
    case Level2(from, rows) => AreaRowsNodes(cfg, SetLevel(s, from, 2, 64, false), rows, from);
    case Hello(_, _, _) =>
  }

  lemma {:induction false} RunNode(cfg: Config, events: seq<Event>, id: nat, r: word)
    requires cfg.Valid() && id < 1024 && forall e :: e in events ==> e.Valid()
    ensures NodeIs(cfg, Run(cfg, Init(cfg), events), events, id, r)
    decreases |events|
  {
    if events == [] {
      assert Init(cfg).nodeTable[id] == NO_ROUTE;
    } else {
      RunNode(cfg, Before(events), id, r);
      RunRecord(cfg, Before(events), r);
      RunRecord(cfg, Before(events), Own(cfg, id));
      RunLast(cfg, Init(cfg), events);
      NodeStep(cfg, Run(cfg, Init(cfg), Before(events)), events, id, r);
    }
  }

  /** A node of our area has one entry per router, with the cost, hops and priority told
      of. A node reached directly, and so every node in sight, has a head without router,
      with the cost and hops told of; of any other node the head is a told route of least
      cost. */
  ghost predicate NodeHears(cfg: Config, s: State, events: seq<Event>, id: nat)
    requires cfg.Valid() && s.Valid() && id < 1024
  {
    var d, direct := s.nodeTable[id], LocalTold(cfg, events, id);
    && OnePerRouter(d.routes)
    && (forall r: word :: EntryOf(d.routes, r) == NodeTold(cfg, events, id, r))
    && (InSight(events, Own(cfg, id)) ==> direct.Some?)
    && (if direct.Some?
        then d.head.valid && d.head.router == 0 && d.head.cost == direct.value.0 && d.head.hops == direct.value.1
        else BestOf(d, (r: word) => NodeTold(cfg, events, id, r)))
  }

  /** That is so after any run. */
  lemma NodeRoutesTold(cfg: Config, events: seq<Event>, id: nat)
    requires cfg.Valid() && id < 1024 && forall e :: e in events ==> e.Valid()
    ensures NodeHears(cfg, Run(cfg, Init(cfg), events), events, id)
  {
    var d := Run(cfg, Init(cfg), events).nodeTable[id];
    forall r: word ensures EntryOf(d.routes, r) == NodeTold(cfg, events, id, r) { RunNode(cfg, events, id, r); }
    RunNode(cfg, events, id, 0);
    ChainMeans(d.routes);
    if LocalTold(cfg, events, id).None? { HeadIsBestTold(d, (r: word) => NodeTold(cfg, events, id, r)); }
  }
}
