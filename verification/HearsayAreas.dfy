/** The routes to areas: what the tables hold of them is what the events tell. */
module HearsayAreas {
  import opened Bits
  import opened Wrappers
  import opened Advert
  import opened RouteChain
  import opened Daemon
  import opened NeighbourMarks
  import opened Sightings
  import opened Hearsay

  /** Areas whose routes come from routers: all but our own, if we route for it. */
  predicate Routed(cfg: Config, area: nat)
    requires cfg.Valid()
  {
    area < 64 && !(area == cfg.area && cfg.level2)
  }

  ghost predicate AreaSound(s: State, area: nat)
    requires s.Valid() && area < 64
  {
    ChainOk(s.areaTable[area].routes) && HeadOk(s.areaTable[area])
  }

  ghost function AreaEntry(s: State, area: nat, r: word): Option<Route>
    requires s.Valid() && area < 64
  {
    EntryOf(s.areaTable[area].routes, r)
  }

  lemma HearAreaEntry(cfg: Config, s: State, from: word, area: nat, cost: int, hops: int, at: nat, r: word)
    requires cfg.Valid() && s.Valid() && Routed(cfg, at) && AreaSound(s, at) && area < 64
    requires 0 <= cost < NOCOST && 0 <= hops < U16 && from in s.nodes
    ensures var t := HearArea(cfg, s, area, cost, hops, from);
      && AreaSound(t, at)
      && AreaEntry(t, at, r) == if at == area && r == from
           then Some(Route(from, cost, if hops == 0 then 1 else hops, s.nodes[from].priority, true))
           else AreaEntry(s, at, r)
  {
    var was := s.areaTable[area];
    if at == area {
      HearEntry(was.routes, from, cost, hops, PriorityOf(s, from), r);
      ReselectOk(Dest(was.head, Hear(was.routes, from, cost, hops, PriorityOf(s, from))));
    }
  }

  /** The neighbour is the router of an area, comes back or has moved, and is not yet
      marked: then it is a route to its area. */
  predicate Returns(cfg: Config, s: State, r: word, i: byte)
    requires cfg.Valid()
  {
    && !Scanned(s, r) && r in s.nodes && s.nodes[r].level == 2 && AreaOf(r) != cfg.area
    && (s.nodes[r].deleted || s.nodes[r].iface != i)
  }

  lemma LocalAreas(cfg: Config, s: State, addr: word, iface: byte)
    requires cfg.Valid() && s.Valid()
    ensures NodeIsLocal(cfg, s, addr, iface).areaTable == s.areaTable
  {
  }

  lemma TakenArea(cfg: Config, s: State, n: Neighbour, area: nat, r: word)
    requires cfg.Valid() && s.Valid() && Routed(cfg, area) && AreaSound(s, area)
    ensures var t, info := Taken(cfg, s, n), Sighted(s, n);
      && AreaSound(t, area)
      && AreaEntry(t, area, r) == if n.addr == r && AreaOf(r) == area && area != cfg.area && info.level == 2
           then Some(Route(r, cfg.cost[n.iface], 1, info.priority, true)) else AreaEntry(s, area, r)
  {
    var info := Sighted(s, n);
    var s1 := s.(nodes := s.nodes[n.addr := info],
                 order := if n.addr in s.nodes then s.order else Placed(cfg.slot, s.order, n.addr),
                 dev := if cfg.loopback[n.iface] then s.dev else s.dev[n.addr := n.iface]);
    if AreaOf(n.addr) == cfg.area {
      LocalAreas(cfg, s1, n.addr, n.iface);
    } else if info.level == 2 {
      HearAreaEntry(cfg, s1, n.addr, AreaOf(n.addr), cfg.cost[n.iface], 1, area, r);
    }
  }

  lemma GotNeighArea(cfg: Config, s: State, n: Neighbour, area: nat, r: word)
    requires cfg.Valid() && s.Valid() && Routed(cfg, area) && AreaSound(s, area)
    ensures var t := GotNeigh(cfg, s, n);
      && AreaSound(t, area)
      && AreaEntry(t, area, r) == if n.addr == r && AreaOf(r) == area && Returns(cfg, s, r, n.iface)
           then Some(Route(r, cfg.cost[n.iface], 1, s.nodes[r].priority, true)) else AreaEntry(s, area, r)
  {
    TakenArea(cfg, s, n, area, r);
    NewcomerTaken(cfg, s, n);
  }

  /** Marking comes last and is about the record only. */
  lemma NewcomerTaken(cfg: Config, s: State, n: Neighbour)
    requires cfg.Valid() && s.Valid()
    ensures GotNeigh(cfg, s, n).areaTable
         == if Scanned(s, n.addr) || (n.addr in s.nodes && s.nodes[n.addr].iface == n.iface && !s.nodes[n.addr].deleted)
            then s.areaTable else Taken(cfg, s, n).areaTable
  {
  }

  lemma {:induction false} GotAllArea(cfg: Config, s: State, dump: seq<Neighbour>, area: nat, r: word)
    requires cfg.Valid() && s.Valid() && Routed(cfg, area) && AreaSound(s, area)
    ensures var t := GotAll(cfg, s, dump);
      && AreaSound(t, area)
      && AreaEntry(t, area, r) == if InDump(dump, r) && AreaOf(r) == area && Returns(cfg, s, r, SeenOn(dump, r))
           then Some(Route(r, cfg.cost[SeenOn(dump, r)], 1, s.nodes[r].priority, true)) else AreaEntry(s, area, r)
    decreases |dump|
  {
    if dump == [] {
    } else {
      FirstOf(dump, r);
      GotNeighArea(cfg, s, dump[0], area, r);
      GotNeighSight(cfg, s, dump[0], r);
      GotAllArea(cfg, GotNeigh(cfg, s, dump[0]), dump[1..], area, r);
    }
  }

  predicate GoesDown(cfg: Config, s: State, r: word)
    requires cfg.Valid()
  {
    r in s.nodes && !s.nodes[r].scanned && !s.nodes[r].deleted && s.nodes[r].level == 2 && AreaOf(r) != cfg.area
  }

  function Invalid(r: Option<Route>): Option<Route> {
    if r.Some? then Some(r.value.(valid := false)) else None
  }

  lemma SweepOneArea(cfg: Config, s: State, addr: word, area: nat, r: word)
    requires cfg.Valid() && s.Valid() && Routed(cfg, area) && AreaSound(s, area)
    ensures var t := SweepOne(cfg, s, addr);
      && AreaSound(t, area)
      && AreaEntry(t, area, r) == if r == addr && AreaOf(r) == area && GoesDown(cfg, s, r)
           then Invalid(AreaEntry(s, area, r)) else AreaEntry(s, area, r)
  {
    var was := s.areaTable[area];
    LoseEntry(was.routes, addr, r);
    if !was.head.valid { NothingToLose(was, addr); }
    ReselectOk(Dest(was.head, Lose(was.routes, addr)));
  }

  lemma {:induction false} SweepArea(cfg: Config, s: State, order: seq<word>, area: nat, r: word)
    requires cfg.Valid() && s.Valid() && Routed(cfg, area) && AreaSound(s, area)
    requires forall i, j :: 0 <= i < j < |order| ==> order[i] != order[j]
    ensures var t := Sweep(cfg, s, order);
      && AreaSound(t, area)
      && AreaEntry(t, area, r) == if r in order && AreaOf(r) == area && GoesDown(cfg, s, r)
           then Invalid(AreaEntry(s, area, r)) else AreaEntry(s, area, r)
    decreases |order|
  {
    if order == [] {
    } else {
      SweepOneArea(cfg, s, order[0], area, r);
      SweepOneSight(cfg, s, order[0], r);
      SweepArea(cfg, SweepOne(cfg, s, order[0]), order[1..], area, r);
      assert r in order <==> r == order[0] || r in order[1..];
    }
  }

  /** What rows that say this about an area do to the entry of a router. */
  ghost predicate AreaSays(cfg: Config, s: State, t: State, told: Option<word>, from: word, area: nat, r: word)
    requires cfg.Valid() && s.Valid() && area < 64
  {
    && t.Valid() && t.nodes == s.nodes && AreaSound(t, area)
    && AreaEntry(t, area, r) == if r == from && from in s.nodes && told.Some?
         then Some(AreaRoute(told.value, from, cfg.cost[s.nodes[from].iface], s.nodes[from].priority)) else AreaEntry(s, area, r)
  }

  lemma SaysThen(cfg: Config, s: State, t: State, u: State, first: Option<word>, then': Option<word>,
                 from: word, area: nat, r: word)
    requires cfg.Valid() && s.Valid() && t.Valid() && area < 64
    requires AreaSays(cfg, s, t, first, from, area, r) && AreaSays(cfg, t, u, then', from, area, r)
    ensures AreaSays(cfg, s, u, if then'.Some? then then' else first, from, area, r)
  {
  }

  lemma AreaRowHears(cfg: Config, s: State, row: Row, from: word) returns (cost: int, hops: int)
    requires cfg.Valid() && s.Valid() && row.entry % 256 != 255 && 0 < row.id <= 63 && from in s.nodes
    ensures cost == row.entry % 512 + cfg.cost[s.nodes[from].iface] && hops == row.entry / 512 % 64
    ensures AreaRow(cfg, s, row, from) == Some(HearArea(cfg, s, row.id, cost, hops, from))
  {
    cost, hops := AreaRowIs(cfg, s, row, from);
    ReadWord(row.entry);
  }

  lemma RouteSays(cfg: Config, s: State, t: State, id: nat, entry: word, from: word, area: nat, r: word)
    requires cfg.Valid() && s.Valid() && t.Valid() && area < 64 && from in s.nodes
    requires t.nodes == s.nodes && AreaSound(t, area)
    requires AreaEntry(t, area, r)
          == if area == id && r == from then Some(AreaRoute(entry, from, cfg.cost[s.nodes[from].iface], s.nodes[from].priority))
             else AreaEntry(s, area, r)
    ensures AreaSays(cfg, s, t, if id == area then Some(entry) else None, from, area, r)
  {
  }

  lemma RouteNumbers(cfg: Config, s: State, entry: word, from: word, cost: int, hops: int)
    requires cfg.Valid() && from in s.nodes
    requires cost == entry % 512 + cfg.cost[s.nodes[from].iface] && hops == entry / 512 % 64
    ensures 0 <= cost < NOCOST && 0 <= hops < U16
    ensures AreaRoute(entry, from, cfg.cost[s.nodes[from].iface], s.nodes[from].priority)
         == Route(from, cost, if hops == 0 then 1 else hops, s.nodes[from].priority, true)
  {
  }

  lemma AreaRowHeard(cfg: Config, s: State, row: Row, from: word, area: nat, r: word) returns (t: State)
    requires cfg.Valid() && s.Valid() && Routed(cfg, area) && AreaSound(s, area)
    requires row.entry % 256 != 255 && 0 < row.id <= 63 && from in s.nodes
    ensures t.Valid() && AreaRow(cfg, s, row, from) == Some(t)
    ensures AreaSays(cfg, s, t, if row.id == area then Some(row.entry) else None, from, area, r)
  {
    var cost, hops := AreaRowHears(cfg, s, row, from);
    RouteNumbers(cfg, s, row.entry, from, cost, hops);
    t := HearArea(cfg, s, row.id, cost, hops, from);
    HearAreaEntry(cfg, s, from, row.id, cost, hops, area, r);
    NodesStay(cfg, s, from, row.id, cost, hops);
    RouteSays(cfg, s, t, row.id, row.entry, from, area, r);
  }

  lemma NodesStay(cfg: Config, s: State, from: word, area: nat, cost: int, hops: int)
    requires cfg.Valid() && s.Valid() && area < 64
    ensures HearArea(cfg, s, area, cost, hops, from).nodes == s.nodes
  {
  }

  lemma AreaRowUnheard(cfg: Config, s: State, row: Row, from: word)
    requires cfg.Valid() && s.Valid()
    requires row.entry % 256 == 255 || row.id == 0 || row.id > 63 || from !in s.nodes
    ensures AreaRow(cfg, s, row, from) == if row.entry % 256 != 255 && row.id > 63 then None else Some(s)
  {
    ReadWord(row.entry);
  }

  lemma {:induction false} AreaRowsEntry(cfg: Config, s: State, rows: seq<Row>, from: word, area: nat, r: word)
    requires cfg.Valid() && s.Valid() && Routed(cfg, area) && AreaSound(s, area)
    ensures AreaSays(cfg, s, AreaRows(cfg, s, rows, from), Announced(rows, 63, area), from, area, r)
    decreases |rows|
  {
    if rows == [] {
    } else {
      var row := rows[0];
      if row.entry % 256 != 255 && 0 < row.id <= 63 && from in s.nodes {
        var t := AreaRowHeard(cfg, s, row, from, area, r);
        AreaRowsEntry(cfg, t, rows[1..], from, area, r);
        SaysThen(cfg, s, t, AreaRows(cfg, t, rows[1..], from), if row.id == area then Some(row.entry) else None,
                 Announced(rows[1..], 63, area), from, area, r);
      } else {
        AreaRowUnheard(cfg, s, row, from);
        if AreaRow(cfg, s, row, from).Some? { AreaRowsEntry(cfg, s, rows[1..], from, area, r); }
      }
    }
  }

  lemma {:induction false} NodeRowsAreas(cfg: Config, s: State, rows: seq<Row>, from: word, iface: byte)
    requires cfg.Valid() && s.Valid()
    ensures NodeRows(cfg, s, rows, from, iface).areaTable == s.areaTable
    decreases |rows|
  {
    if rows == [] {
    } else {
      var t := NodeRow(cfg, s, rows[0], from, iface);
      if t.Some? { NodeRowsAreas(cfg, t.value, rows[1..], from, iface); }
    }
  }

  ghost predicate AreaIs(cfg: Config, s: State, events: seq<Event>, area: nat, r: word)
    requires cfg.Valid() && s.Valid() && area < 64
  {
    AreaSound(s, area) && AreaEntry(s, area, r) == AreaTold(cfg, events, area, r)
  }

  lemma AreaDump(cfg: Config, s: State, events: seq<Event>, area: nat, r: word)
    requires cfg.Valid() && s.Valid() && events != [] && Routed(cfg, area) && Last(events).Dump?
    requires SightTold(cfg, s, Before(events), r) && RecordTold(cfg, s, Before(events), r)
    requires AreaIs(cfg, s, Before(events), area, r)
    ensures AreaIs(cfg, Step(cfg, s, Last(events)), events, area, r)
  {
    var e := Last(events);
    var t := GotAll(cfg, s, e.dump);
    GotAllSight(cfg, s, e.dump, r);
    GotAllMarks(cfg, s, e.dump, r);
    GotAllArea(cfg, s, e.dump, area, r);
    if e.complete { SweepArea(cfg, t, t.order, area, r); }
  }

  lemma LevelledTold(cfg: Config, s: State, events: seq<Event>)
    requires cfg.Valid() && s.Valid() && events != [] && Last(events).Level2?
    requires SightTold(cfg, s, Before(events), Last(events).from) && RecordTold(cfg, s, Before(events), Last(events).from)
    ensures var r := Last(events).from;
      var t := SetLevel(s, r, 2, 64, false);
      && t.areaTable == s.areaTable
      && (r in t.nodes <==> InSomeDump(Before(events), r))
      && (r in t.nodes ==>
            t.nodes[r].priority == PriorityTold(events, r) && t.nodes[r].iface == IfaceTold(cfg, Before(events), r))
  {
  }

  lemma AreaMessage(cfg: Config, s: State, events: seq<Event>, area: nat, r: word)
    requires cfg.Valid() && s.Valid() && events != [] && Routed(cfg, area) && Last(events).Level2?
    requires SightTold(cfg, s, Before(events), r) && RecordTold(cfg, s, Before(events), r)
    requires AreaIs(cfg, s, Before(events), area, r)
    ensures AreaIs(cfg, Step(cfg, s, Last(events)), events, area, r)
  {
    var e, before := Last(events), Before(events);
    var t := SetLevel(s, e.from, 2, 64, false);
    AreaRowsEntry(cfg, t, e.rows, e.from, area, r);
    if e.from == r { LevelledTold(cfg, s, events); }
    SaysTold(cfg, t, AreaRows(cfg, t, e.rows, e.from), Announced(e.rows, 63, area), e.from, area, r,
             InSomeDump(before, r), PriorityTold(events, r), IfaceTold(cfg, before, r));
    MessageTold(cfg, events, area, r);
  }

  /** What the rows of a router do, if its record is this. */
  lemma SaysTold(cfg: Config, t: State, u: State, told: Option<word>, from: word, area: nat, r: word,
                 known: bool, priority: byte, iface: byte)
    requires cfg.Valid() && t.Valid() && u.Valid() && area < 64 && AreaSays(cfg, t, u, told, from, area, r)
    requires from == r ==> (r in t.nodes <==> known)
                           && (known ==> t.nodes[r].priority == priority && t.nodes[r].iface == iface)
    ensures AreaSound(u, area)
    ensures AreaEntry(u, area, r)
         == if from == r && known && told.Some? then Some(AreaRoute(told.value, r, cfg.cost[iface], priority))
            else AreaEntry(t, area, r)
  {
  }

  lemma MessageTold(cfg: Config, events: seq<Event>, area: nat, r: word)
    requires cfg.Valid() && events != [] && area < 64 && Last(events).Level2?
    ensures var e, told := Last(events), Announced(Last(events).rows, 63, area);
      AreaTold(cfg, events, area, r)
      == if e.from == r && InSomeDump(Before(events), r) && told.Some?
         then Some(AreaRoute(told.value, r, cfg.cost[IfaceTold(cfg, Before(events), r)], PriorityTold(events, r)))
         else AreaTold(cfg, Before(events), area, r)
  {
  }

  lemma AreaStep(cfg: Config, s: State, events: seq<Event>, area: nat, r: word)
    requires cfg.Valid() && s.Valid() && events != [] && Routed(cfg, area)
    requires SightTold(cfg, s, Before(events), r) && RecordTold(cfg, s, Before(events), r)
    requires AreaIs(cfg, s, Before(events), area, r)
    ensures AreaIs(cfg, Step(cfg, s, Last(events)), events, area, r)
  {
    match Last(events)
    case Dump(_, _) => AreaDump(cfg, s, events, area, r);
    case Level1(from, rows, iface) => NodeRowsAreas(cfg, s, rows, from, iface);
    case Level2(_, _) => AreaMessage(cfg, s, events, area, r);
    case Hello(_, _, _) =>
  }

  lemma {:induction false} RunArea(cfg: Config, events: seq<Event>, area: nat, r: word)
    requires cfg.Valid() && Routed(cfg, area)
    ensures AreaIs(cfg, Run(cfg, Init(cfg), events), events, area, r)
    decreases |events|
  {
    if events == [] {
      assert Init(cfg).areaTable[area] == NO_ROUTE;
    } else {
      RunArea(cfg, Before(events), area, r);
      RunRecord(cfg, Before(events), r);
      RunLast(cfg, Init(cfg), events);
      AreaStep(cfg, Run(cfg, Init(cfg), Before(events)), events, area, r);
    }
  }

  /** An area has one entry per router, with the cost, hops and priority told of, and its
      head is a valid one of least cost, if any is valid. */
  ghost predicate AreaHears(cfg: Config, s: State, events: seq<Event>, area: nat)
    requires cfg.Valid() && s.Valid() && area < 64
  {
    var d := s.areaTable[area];
    && OnePerRouter(d.routes)
    && (forall r: word :: EntryOf(d.routes, r) == AreaTold(cfg, events, area, r))
    && BestOf(d, (r: word) => AreaTold(cfg, events, area, r))
  }

  /** That is so after any run. */
  lemma AreaRoutesTold(cfg: Config, events: seq<Event>, area: nat)
    requires cfg.Valid() && Routed(cfg, area)
    ensures AreaHears(cfg, Run(cfg, Init(cfg), events), events, area)
  {
    var s := Run(cfg, Init(cfg), events);
    forall r: word ensures EntryOf(s.areaTable[area].routes, r) == AreaTold(cfg, events, area, r) {
      RunArea(cfg, events, area, r);
    }
    RunArea(cfg, events, area, 0);
    ChainMeans(s.areaTable[area].routes);
    HeadIsBestTold(s.areaTable[area], (r: word) => AreaTold(cfg, events, area, r));
  }

  lemma RunEntry(cfg: Config, events: seq<Event>, area: nat, r: word)
    requires cfg.Valid() && Routed(cfg, area)
    ensures EntryOf(Run(cfg, Init(cfg), events).areaTable[area].routes, r) == AreaTold(cfg, events, area, r)
  {
    RunArea(cfg, events, area, r);
  }

  lemma ToldNow(cfg: Config, events: seq<Event>, from: word, rows: seq<Row>, area: nat, iface: byte, priority: byte)
    requires cfg.Valid() && area < 64 && Announced(rows, 63, area).Some? && InSomeDump(events, from)
    requires iface == IfaceTold(cfg, events, from) && priority == PriorityTold(events, from)
    ensures AreaTold(cfg, events + [Level2(from, rows)], area, from)
         == Some(AreaRoute(Announced(rows, 63, area).value, from, cfg.cost[iface], if priority == 0 then 64 else priority))
  {
    var all := events + [Level2(from, rows)];
    assert Before(all) == events && Last(all) == Level2(from, rows);
  }

  lemma MessageTaken(cfg: Config, events: seq<Event>, from: word, rows: seq<Row>)
    requires cfg.Valid()
    ensures Run(cfg, Init(cfg), events + [Level2(from, rows)]) == Step(cfg, Run(cfg, Init(cfg), events), Level2(from, rows))
  {
    var all := events + [Level2(from, rows)];
    assert Before(all) == events;
    RunLast(cfg, Init(cfg), all);
  }

  /** After a level 2 message from a router in the hash its route to each area that it
      announces as reachable costs what it says and the cost of the interface it is on,
      and takes the hops it says, at least one. */
  lemma RouterAnnounces(cfg: Config, events: seq<Event>, from: word, rows: seq<Row>, area: nat)
    requires cfg.Valid() && Routed(cfg, area) && Announced(rows, 63, area).Some?
    requires from in Run(cfg, Init(cfg), events).nodes
    ensures var s, entry := Run(cfg, Init(cfg), events), Announced(rows, 63, area).value;
      var t := Step(cfg, s, Level2(from, rows));
      EntryOf(t.areaTable[area].routes, from)
      == Some(AreaRoute(entry, from, cfg.cost[s.nodes[from].iface],
                        if s.nodes[from].priority == 0 then 64 else s.nodes[from].priority))
  {
    var s := Run(cfg, Init(cfg), events);
    RecordsTold(cfg, events, from);
    ToldNow(cfg, events, from, rows, area, s.nodes[from].iface, s.nodes[from].priority);
    MessageTaken(cfg, events, from, rows);
    RunEntry(cfg, events + [Level2(from, rows)], area, from);
  }
}
