/** Routes to other areas. They agree with the kernel as long as no sweep hits the
    router in use: then the request names the router instead of the area. */
module AreaRoutes {
  import opened Bits
  import opened Wrappers
  import opened Advert
  import opened RouteChain
  import opened Daemon

  /** The kernel routes to an area through the router its head names, and has no route
      when the head is invalid. */
  predicate AreaAgrees(s: State, area: nat)
    requires s.Valid() && area < 64
  {
    var h := s.areaTable[area].head;
    if h.valid then area * 1024 in s.via && s.via[area * 1024] == h.router else area * 1024 !in s.via
  }

  /** Areas whose routes the daemon looks after. */
  predicate Watched(cfg: Config, area: nat)
    requires cfg.Valid()
  {
    0 < area < 64 && !cfg.manual[area]
  }

  /** What keeps the agreement: a valid head is the best entry, and an area without one
      was never heard of. */
  ghost predicate AreaOk(s: State, area: nat)
    requires s.Valid() && area < 64
  {
    var d := s.areaTable[area];
    && AreaAgrees(s, area)
    && (if d.head.valid then Cheapest(d.routes).Some? && d.head == d.routes[Cheapest(d.routes).value]
        else d.head.router == 0 && d.routes == [])
  }

  ghost predicate AreaFine(cfg: Config, s: State, area: nat)
    requires cfg.Valid() && s.Valid()
  {
    Watched(cfg, area) ==> AreaOk(s, area)
  }

  ghost predicate AreasFine(cfg: Config, s: State)
    requires cfg.Valid() && s.Valid()
  {
    forall a: nat :: AreaFine(cfg, s, a)
  }

  // ---- Steps about something else ----

  ghost predicate SameAreas(cfg: Config, s: State, t: State)
    requires cfg.Valid() && s.Valid() && t.Valid()
  {
    forall a: nat :: SameArea(cfg, s, t, a)
  }

  ghost predicate SameArea(cfg: Config, s: State, t: State, a: nat)
    requires cfg.Valid() && s.Valid() && t.Valid()
  {
    Watched(cfg, a) ==> t.areaTable[a] == s.areaTable[a] && SameVia(s.via, t.via, a * 1024)
  }

  lemma SameIsFine(cfg: Config, s: State, t: State)
    requires cfg.Valid() && s.Valid() && t.Valid() && AreasFine(cfg, s) && SameAreas(cfg, s, t)
    ensures AreasFine(cfg, t)
  {
    forall a: nat ensures AreaFine(cfg, t, a) {
      assert AreaFine(cfg, s, a) && SameArea(cfg, s, t, a);
    }
  }

  lemma HearNodeElsewhere(cfg: Config, s: State, id: nat, cost: int, hops: int, from: word)
    requires cfg.Valid() && s.Valid() && id < 1024
    ensures SameAreas(cfg, s, HearNode(cfg, s, id, cost, hops, from))
  {
    var was := s.nodeTable[id];
    var ask := Ask(Dest(was.head, Hear(was.routes, from, cost, hops, PriorityOf(s, from))), Own(cfg, id));
    forall a: nat ensures SameArea(cfg, s, HearNode(cfg, s, id, cost, hops, from), a) {
      if Watched(cfg, a) { OtherRequest(cfg, s.via, ask, a * 1024); }
    }
  }

  lemma LocalElsewhere(cfg: Config, s: State, addr: word, iface: byte)
    requires cfg.Valid() && s.Valid() && AreaOf(addr) == cfg.area
    ensures SameAreas(cfg, s, NodeIsLocal(cfg, s, addr, iface))
  {
    var router := s.nodeTable[addr % 1024].head.router;
    forall a: nat ensures SameArea(cfg, s, NodeIsLocal(cfg, s, addr, iface), a) {
      if Watched(cfg, a) { OtherRequest(cfg, s.via, DelVia(addr, router), a * 1024); }
    }
  }

  // ---- Hearing of an area ----

  lemma HeardIsBest(rs: seq<Route>, from: word, cost: int, hops: int, priority: Option<byte>)
    requires 0 <= cost < NOCOST
    ensures Cheapest(Hear(rs, from, cost, hops, priority)).Some?
  {
    var heard := Hear(rs, from, cost, hops, priority);
    assert Eligible(heard[PositionOf(rs, from)]);
  }

  lemma HearAreaFine(cfg: Config, s: State, area: nat, cost: int, hops: int, from: word)
    requires cfg.Valid() && s.Valid() && AreasFine(cfg, s) && area < 64
    requires Watched(cfg, area) ==> from != 0 && 0 <= cost < NOCOST
    ensures AreasFine(cfg, HearArea(cfg, s, area, cost, hops, from))
  {
    var t := HearArea(cfg, s, area, cost, hops, from);
    var was := s.areaTable[area];
    var d := Dest(was.head, Hear(was.routes, from, cost, hops, PriorityOf(s, from)));
    forall a: nat ensures AreaFine(cfg, t, a) {
      assert AreaFine(cfg, s, a);
      if Watched(cfg, a) {
        if a == area {
          HeardIsBest(was.routes, from, cost, hops, PriorityOf(s, from));
          HeardAgrees(cfg, s, area, d, from);
        } else if !(area == cfg.area && cfg.level2) {
          OtherRequest(cfg, s.via, Ask(d, area * 1024), a * 1024);
        }
      }
    }
  }

  /** Choosing anew with a route at hand, and asking for the area, keeps the agreement. */
  lemma HeardAgrees(cfg: Config, s: State, area: nat, d: Dest, from: word)
    requires cfg.Valid() && s.Valid() && Watched(cfg, area) && AreaOk(s, area)
    requires d.head == s.areaTable[area].head && Cheapest(d.routes).Some?
    requires s.areaTable[area].routes == [] ==> |d.routes| == 1 && d.routes[0].router == from != 0
    ensures AreaOk(s.(areaTable := s.areaTable[area := Reselect(d)],
                      via := Perform(cfg, s.via, Ask(d, area * 1024))), area)
  {
    var c := Cheapest(d.routes).value;
    assert d.routes[c].(valid := true) == d.routes[c];
    if !d.head.valid { assert d.routes[c].router == from; }
  }

  // ---- The sweep ----

  lemma BestSurvives(rs: seq<Route>, router: word)
    requires Cheapest(rs).Some? && rs[Cheapest(rs).value].router != router
    ensures Cheapest(Lose(rs, router)) == Cheapest(rs)
  {
    var c, lost := Cheapest(rs).value, Lose(rs, router);
    assert Eligible(lost[c]);
    assert IsBest(lost, c) by {
      forall j | 0 <= j < |lost| && Eligible(lost[j])
        ensures !Better(lost[j], lost[c]) && (j < c ==> Better(lost[c], lost[j]))
      {
        assert lost[j] == rs[j] && lost[c] == rs[c];
      }
    }
    BestIsUnique(lost, c, Cheapest(lost).value);
  }

  /** Because the request names the router, the kernel still agrees after a router of
      an area went down exactly when it was not the one in use, or is by its node number
      zero named like the area. */
  lemma LostRouterDisagrees(cfg: Config, s: State, router: word)
    requires cfg.Valid() && s.Valid() && Watched(cfg, AreaOf(router))
    requires AreaOk(s, AreaOf(router)) && s.areaTable[AreaOf(router)].head.valid
    ensures AreaAgrees(LoseArea(cfg, s, AreaOf(router), router), AreaOf(router))
       <==> s.areaTable[AreaOf(router)].head.router != router || router % 1024 == 0
  {
    var area := AreaOf(router);
    var d := s.areaTable[area];
    if d.head.router != router {
      BestSurvives(d.routes, router);
    } else {
      var lost := Lose(d.routes, router);
      var c := Cheapest(lost);
      if c.Some? { assert lost[c.value].router != router; }
    }
  }

  /** The sweep does not hit the router in use when it comes to addr. */
  predicate Spares(cfg: Config, s: State, addr: word)
    requires cfg.Valid() && s.Valid()
  {
    addr in s.nodes && !s.nodes[addr].scanned && !s.nodes[addr].deleted && s.nodes[addr].level == 2
      && Watched(cfg, AreaOf(addr)) && s.areaTable[AreaOf(addr)].head.valid
    ==> s.areaTable[AreaOf(addr)].head.router != addr
  }

  lemma LoseAreaFine(cfg: Config, s: State, router: word)
    requires cfg.Valid() && s.Valid() && AreasFine(cfg, s)
    requires Watched(cfg, AreaOf(router)) ==>
               var h := s.areaTable[AreaOf(router)].head; h.valid && h.router != router
    ensures AreasFine(cfg, LoseArea(cfg, s, AreaOf(router), router))
  {
    var area := AreaOf(router);
    var t, d := LoseArea(cfg, s, area, router), s.areaTable[area];
    assert AreaFine(cfg, s, area);
    forall a: nat ensures AreaFine(cfg, t, a) {
      assert AreaFine(cfg, s, a);
      if Watched(cfg, a) {
        if a == area {
          BestSurvives(d.routes, router);
        } else {
          OtherRequest(cfg, s.via, Ask(Dest(d.head, Lose(d.routes, router)), router), a * 1024);
        }
      }
    }
  }

  lemma SweepOneFine(cfg: Config, s: State, addr: word)
    requires cfg.Valid() && s.Valid() && AreasFine(cfg, s) && Spares(cfg, s, addr)
    ensures AreasFine(cfg, SweepOne(cfg, s, addr))
  {
    if addr in s.nodes {
      var info := s.nodes[addr];
      var gone := !info.scanned && !info.deleted;
      var s1 := if gone && addr in s.dev && s.dev[addr] == info.iface then s.(dev := s.dev - {addr}) else s;
      SameIsFine(cfg, s, s1);
      if gone && info.level == 2 && s.areaTable[AreaOf(addr)].head.valid && AreaOf(addr) != cfg.area {
        LoseAreaFine(cfg, s1, addr);
        SameIsFine(cfg, LoseArea(cfg, s1, AreaOf(addr), addr), SweepOne(cfg, s, addr));
      } else {
        SameIsFine(cfg, s1, SweepOne(cfg, s, addr));
      }
    }
  }

  predicate SweepSpares(cfg: Config, s: State, order: seq<word>)
    requires cfg.Valid() && s.Valid()
    decreases |order|
  {
    order == [] || (Spares(cfg, s, order[0]) && SweepSpares(cfg, SweepOne(cfg, s, order[0]), order[1..]))
  }

  lemma {:induction false} SweepFine(cfg: Config, s: State, order: seq<word>)
    requires cfg.Valid() && s.Valid() && AreasFine(cfg, s) && SweepSpares(cfg, s, order)
    ensures AreasFine(cfg, Sweep(cfg, s, order))
    decreases |order|
  {
    if order == [] {
    } else {
      SweepOneFine(cfg, s, order[0]);
      SweepFine(cfg, SweepOne(cfg, s, order[0]), order[1..]);
    }
  }

  // ---- A whole sweep, seen from one area ----

  /** No sweep of a router of this area hits the one in use. */
  predicate AreaSpares(cfg: Config, s: State, order: seq<word>, area: nat)
    requires cfg.Valid() && s.Valid()
    decreases |order|
  {
    order == []
    || ((AreaOf(order[0]) == area ==> Spares(cfg, s, order[0]))
        && AreaSpares(cfg, SweepOne(cfg, s, order[0]), order[1..], area))
  }

  /** No router of the area is by its node number named like the area. */
  predicate NamedApart(order: seq<word>, area: nat) {
    forall i :: 0 <= i < |order| && AreaOf(order[i]) == area ==> order[i] % 1024 != 0
  }

  /** The kernel routes to the area through a router that has no valid entry any more. */
  ghost predicate Leftover(s: State, area: nat, router: word)
    requires s.Valid() && area < 64
  {
    var d := s.areaTable[area];
    && area * 1024 in s.via && s.via[area * 1024] == router
    && (forall k :: 0 <= k < |d.routes| && d.routes[k].router == router ==> !d.routes[k].valid)
    && (d.head.valid ==> Cheapest(d.routes).Some? && d.head == d.routes[Cheapest(d.routes).value])
  }

  lemma LeftoverDisagrees(s: State, area: nat, router: word)
    requires s.Valid() && area < 64 && Leftover(s, area, router)
    ensures !AreaAgrees(s, area)
  {
    var d := s.areaTable[area];
    if d.head.valid { assert Eligible(d.routes[Cheapest(d.routes).value]); }
  }

  lemma SweepOneElsewhere(cfg: Config, s: State, addr: word, area: nat)
    requires cfg.Valid() && s.Valid() && Watched(cfg, area) && AreaOf(addr) != area
    ensures SameArea(cfg, s, SweepOne(cfg, s, addr), area)
  {
    var was := s.areaTable[AreaOf(addr)];
    OtherRequest(cfg, s.via, Ask(Dest(was.head, Lose(was.routes, addr)), addr), area * 1024);
  }

  lemma SweepOneSpared(cfg: Config, s: State, addr: word)
    requires cfg.Valid() && s.Valid() && Watched(cfg, AreaOf(addr)) && AreaOk(s, AreaOf(addr))
    requires Spares(cfg, s, addr)
    ensures AreaOk(SweepOne(cfg, s, addr), AreaOf(addr))
  {
    var d := s.areaTable[AreaOf(addr)];
    if d.head.valid && d.head.router != addr { BestSurvives(d.routes, addr); }
  }

  lemma SweepOneHits(cfg: Config, s: State, addr: word)
    requires cfg.Valid() && s.Valid() && Watched(cfg, AreaOf(addr)) && AreaOk(s, AreaOf(addr))
    requires !Spares(cfg, s, addr) && addr % 1024 != 0
    ensures Leftover(SweepOne(cfg, s, addr), AreaOf(addr), addr)
  {
    var area := AreaOf(addr);
    var was := s.areaTable[area];
    OtherRequest(cfg, s.via, Ask(Dest(was.head, Lose(was.routes, addr)), addr), area * 1024);
  }

  /** No later request of the sweep names the area. */
  lemma LeftoverStays(cfg: Config, s: State, addr: word, area: nat, router: word)
    requires cfg.Valid() && s.Valid() && Watched(cfg, area) && Leftover(s, area, router)
    requires AreaOf(addr) == area ==> addr % 1024 != 0
    ensures Leftover(SweepOne(cfg, s, addr), area, router)
  {
    if AreaOf(addr) == area {
      var was := s.areaTable[area];
      OtherRequest(cfg, s.via, Ask(Dest(was.head, Lose(was.routes, addr)), addr), area * 1024);
    } else {
      SweepOneElsewhere(cfg, s, addr, area);
    }
  }

  lemma {:induction false} LeftoverRemains(cfg: Config, s: State, order: seq<word>, area: nat, router: word)
    requires cfg.Valid() && s.Valid() && Watched(cfg, area) && Leftover(s, area, router) && NamedApart(order, area)
    ensures !AreaAgrees(Sweep(cfg, s, order), area)
    decreases |order|
  {
    if order == [] {
      LeftoverDisagrees(s, area, router);
    } else {
      LeftoverStays(cfg, s, order[0], area, router);
      LeftoverRemains(cfg, SweepOne(cfg, s, order[0]), order[1..], area, router);
    }
  }

  /** A whole sweep leaves the agreement about an area exactly when it spares the routers
      in use there. */
  lemma {:induction false} SweepAgrees(cfg: Config, s: State, order: seq<word>, area: nat)
    requires cfg.Valid() && s.Valid() && Watched(cfg, area) && AreaOk(s, area) && NamedApart(order, area)
    ensures AreaAgrees(Sweep(cfg, s, order), area) <==> AreaSpares(cfg, s, order, area)
    decreases |order|
  {
    if order == [] {
    } else if AreaOf(order[0]) == area && !Spares(cfg, s, order[0]) {
      SweepOneHits(cfg, s, order[0]);
      LeftoverRemains(cfg, SweepOne(cfg, s, order[0]), order[1..], area, order[0]);
    } else {
      if AreaOf(order[0]) == area {
        SweepOneSpared(cfg, s, order[0]);
      } else {
        SweepOneElsewhere(cfg, s, order[0], area);
      }
      SweepAgrees(cfg, SweepOne(cfg, s, order[0]), order[1..], area);
    }
  }

  // ---- The other steps ----

  lemma TakenFine(cfg: Config, s: State, n: Neighbour)
    requires cfg.Valid() && s.Valid() && AreasFine(cfg, s)
    ensures AreasFine(cfg, Taken(cfg, s, n))
  {
    var info := Sighted(s, n);
    var s1 := s.(nodes := s.nodes[n.addr := info],
                 order := if n.addr in s.nodes then s.order else Placed(cfg.slot, s.order, n.addr),
                 dev := if cfg.loopback[n.iface] then s.dev else s.dev[n.addr := n.iface]);
    SameIsFine(cfg, s, s1);
    if AreaOf(n.addr) == cfg.area {
      LocalElsewhere(cfg, s1, n.addr, n.iface);
      SameIsFine(cfg, s1, NodeIsLocal(cfg, s1, n.addr, n.iface));
    } else if info.level == 2 {
      HearAreaFine(cfg, s1, AreaOf(n.addr), cfg.cost[n.iface], 1, n.addr);
    }
  }

  lemma GotNeighFine(cfg: Config, s: State, n: Neighbour)
    requires cfg.Valid() && s.Valid() && AreasFine(cfg, s)
    ensures AreasFine(cfg, GotNeigh(cfg, s, n))
  {
    if !(n.addr in s.nodes && s.nodes[n.addr].scanned) {
      var t := s;
      if n.addr !in s.nodes || s.nodes[n.addr].iface != n.iface || s.nodes[n.addr].deleted {
        TakenFine(cfg, s, n);
        t := Taken(cfg, s, n);
      }
      SameIsFine(cfg, t, GotNeigh(cfg, s, n));
    }
  }

  lemma {:induction false} GotAllFine(cfg: Config, s: State, dump: seq<Neighbour>)
    requires cfg.Valid() && s.Valid() && AreasFine(cfg, s)
    ensures AreasFine(cfg, GotAll(cfg, s, dump))
    decreases |dump|
  {
    if dump == [] {
    } else {
      GotNeighFine(cfg, s, dump[0]);
      GotAllFine(cfg, GotNeigh(cfg, s, dump[0]), dump[1..]);
    }
  }

  lemma {:induction false} NodeRowsFine(cfg: Config, s: State, rows: seq<Row>, from: word, iface: byte)
    requires cfg.Valid() && s.Valid() && AreasFine(cfg, s)
    ensures AreasFine(cfg, NodeRows(cfg, s, rows, from, iface))
    decreases |rows|
  {
    if rows == [] || NodeRow(cfg, s, rows[0], from, iface).None? {
    } else {
      NodeRowFine(cfg, s, rows[0], from, iface);
      NodeRowsFine(cfg, NodeRow(cfg, s, rows[0], from, iface).value, rows[1..], from, iface);
    }
  }

  lemma NodeRowFine(cfg: Config, s: State, row: Row, from: word, iface: byte)
    requires cfg.Valid() && s.Valid() && AreasFine(cfg, s) && NodeRow(cfg, s, row, from, iface).Some?
    ensures AreasFine(cfg, NodeRow(cfg, s, row, from, iface).value)
  {
    if ReadsReachable(row.entry) && row.id != 0 {
      var addr := Own(cfg, row.id);
      if !(addr in s.nodes && !s.nodes[addr].deleted) {
        var s1 := Unseen(s, addr);
        var cost, hops := ReadCost(row.entry) + cfg.cost[iface], ReadHops(row.entry) + 1;
        SameIsFine(cfg, s, s1);
        HearNodeElsewhere(cfg, s1, row.id, cost, hops, from);
        SameIsFine(cfg, s1, HearNode(cfg, s1, row.id, cost, hops, from));
      }
    }
  }

  lemma AreaRowFine(cfg: Config, s: State, row: Row, from: word)
    requires cfg.Valid() && s.Valid() && AreasFine(cfg, s) && from != 0 && AreaRow(cfg, s, row, from).Some?
    ensures AreasFine(cfg, AreaRow(cfg, s, row, from).value)
  {
    var cost, hops := AreaRowIs(cfg, s, row, from);
    if AreaRow(cfg, s, row, from).value != s { HearAreaFine(cfg, s, row.id, cost, hops, from); }
  }

  lemma {:induction false} AreaRowsFine(cfg: Config, s: State, rows: seq<Row>, from: word)
    requires cfg.Valid() && s.Valid() && AreasFine(cfg, s) && from != 0
    ensures AreasFine(cfg, AreaRows(cfg, s, rows, from))
    decreases |rows|
  {
    if rows == [] || AreaRow(cfg, s, rows[0], from).None? {
    } else {
      AreaRowFine(cfg, s, rows[0], from);
      AreaRowsFine(cfg, AreaRow(cfg, s, rows[0], from).value, rows[1..], from);
    }
  }

  // ---- Whole runs ----

  /** The sweep of the event, if it has one, never hits a router in use. */
  predicate EventSpares(cfg: Config, s: State, e: Event)
    requires cfg.Valid() && s.Valid()
  {
    e.Dump? && e.complete ==> SweepSpares(cfg, GotAll(cfg, s, e.dump), GotAll(cfg, s, e.dump).order)
  }

  predicate RunSpares(cfg: Config, s: State, events: seq<Event>)
    requires cfg.Valid() && s.Valid()
    decreases |events|
  {
    events == [] || (EventSpares(cfg, s, events[0]) && RunSpares(cfg, Step(cfg, s, events[0]), events[1..]))
  }

  lemma StepFine(cfg: Config, s: State, e: Event)
    requires cfg.Valid() && s.Valid() && AreasFine(cfg, s) && e.Valid() && EventSpares(cfg, s, e)
    ensures AreasFine(cfg, Step(cfg, s, e))
  {
    match e
    case Dump(dump, complete) =>
      GotAllFine(cfg, s, dump);
      if complete { SweepFine(cfg, GotAll(cfg, s, dump), GotAll(cfg, s, dump).order); }
    case Level1(from, rows, iface) => NodeRowsFine(cfg, s, rows, from, iface);
    case Level2(from, rows) =>
      SameIsFine(cfg, s, SetLevel(s, from, 2, 64, false));
      AreaRowsFine(cfg, SetLevel(s, from, 2, 64, false), rows, from);
    case Hello(from, level, priority) => SameIsFine(cfg, s, SetLevel(s, from, level, priority, true));
  }

  lemma {:induction false} RunFine(cfg: Config, s: State, events: seq<Event>)
    requires cfg.Valid() && s.Valid() && AreasFine(cfg, s) && forall e :: e in events ==> e.Valid()
    requires RunSpares(cfg, s, events)
    ensures AreasFine(cfg, Run(cfg, s, events))
    decreases |events|
  {
    if events == [] {
    } else {
      StepFine(cfg, s, events[0]);
      RunFine(cfg, Step(cfg, s, events[0]), events[1..]);
    }
  }

  lemma InitFine(cfg: Config)
    requires cfg.Valid()
    ensures AreasFine(cfg, Init(cfg))
  {
    forall a: nat ensures AreaFine(cfg, Init(cfg), a) {
      if Watched(cfg, a) { assert Init(cfg).areaTable[a] == NO_ROUTE; }
    }
  }

  /** After any run whose sweeps spare the routers in use, the kernel has exactly the
      routes to other areas that the table names. */
  lemma AreasAgree(cfg: Config, events: seq<Event>, area: nat)
    requires cfg.Valid() && Watched(cfg, area) && forall e :: e in events ==> e.Valid()
    requires RunSpares(cfg, Init(cfg), events)
    ensures AreaAgrees(Run(cfg, Init(cfg), events), area)
  {
    InitFine(cfg);
    RunFine(cfg, Init(cfg), events);
    assert AreaFine(cfg, Run(cfg, Init(cfg), events), area);
  }

  /** A complete dump after such a run: the kernel's route to an area agrees with the
      table afterwards if and only if the sweep spares the routers in use there, when
      none of them is by its node number named like the area. */
  lemma DumpAgreesExactly(cfg: Config, events: seq<Event>, dump: seq<Neighbour>, area: nat)
    requires cfg.Valid() && Watched(cfg, area) && forall e :: e in events ==> e.Valid()
    requires RunSpares(cfg, Init(cfg), events)
    requires NamedApart(GotAll(cfg, Run(cfg, Init(cfg), events), dump).order, area)
    ensures var t := GotAll(cfg, Run(cfg, Init(cfg), events), dump);
      AreaAgrees(Step(cfg, Run(cfg, Init(cfg), events), Dump(dump, true)), area)
      <==> AreaSpares(cfg, t, t.order, area)
  {
    InitFine(cfg);
    RunFine(cfg, Init(cfg), events);
    var s := Run(cfg, Init(cfg), events);
    GotAllFine(cfg, s, dump);
    var t := GotAll(cfg, s, dump);
    assert AreaFine(cfg, t, area);
    SweepAgrees(cfg, t, t.order, area);
  }

  // ---- A run that fails ----

  /** A router of another area is seen, announces its area, and is gone: the kernel
      keeps the route through it. */
  lemma LosingTheOnlyRouter(cfg: Config, router: word, iface: byte, entry: word) returns (events: seq<Event>)
    requires cfg.Valid() && Watched(cfg, AreaOf(router)) && router % 1024 != 0 && ReadsReachable(entry)
    ensures forall e :: e in events ==> e.Valid()
    ensures var s := Run(cfg, Init(cfg), events);
      && !s.areaTable[AreaOf(router)].head.valid
      && AreaOf(router) * 1024 in s.via && s.via[AreaOf(router) * 1024] == router
  {
    var s1 := Seen(cfg, router, iface);
    var s2 := Told(cfg, s1, router, iface, entry);
    Gone(cfg, s2, router, iface);
    events := RunOfThree(cfg, Init(cfg), s1, s2, Dump([Neighbour(router, iface)], true),
                         Level2(router, [Row(AreaOf(router), entry)]), Dump([], true));
  }

  lemma RunOfThree(cfg: Config, s: State, s1: State, s2: State, a: Event, b: Event, c: Event) returns (events: seq<Event>)
    requires cfg.Valid() && s.Valid() && a.Valid() && b.Valid() && c.Valid()
    requires s1 == Step(cfg, s, a) && s2 == Step(cfg, s1, b)
    ensures Run(cfg, s, events) == Step(cfg, s2, c) && forall e :: e in events ==> e.Valid()
  {
    events := [a, b, c];
    assert events[1..] == [b, c] && [b, c][1..] == [c] && [c][1..] == [];
    assert Run(cfg, Step(cfg, s2, c), []) == Step(cfg, s2, c);
    assert Run(cfg, s2, [c]) == Step(cfg, s2, c);
    assert Run(cfg, s1, [b, c]) == Run(cfg, s2, [c]);
  }

  lemma Seen(cfg: Config, router: word, iface: byte) returns (t: State)
    requires cfg.Valid() && Watched(cfg, AreaOf(router))
    ensures t == Step(cfg, Init(cfg), Dump([Neighbour(router, iface)], true))
    ensures t.nodes == map[router := NodeInfo(iface, false, 0, 0, false)] && t.order == [router]
    ensures t.via == map[] && t.areaTable == Init(cfg).areaTable
  {
    var s, n := Init(cfg), Neighbour(router, iface);
    var g := GotNeigh(cfg, s, n);
    assert [n][1..] == [];
    assert GotAll(cfg, s, [n]) == g;
    t := SweepOne(cfg, g, router);
    assert g.order == [router];
    assert [router][1..] == [];
    assert Sweep(cfg, g, [router]) == t;
  }

  lemma Told(cfg: Config, s: State, router: word, iface: byte, entry: word) returns (t: State)
    requires cfg.Valid() && s.Valid() && Watched(cfg, AreaOf(router)) && router != 0 && ReadsReachable(entry)
    requires s.nodes == map[router := NodeInfo(iface, false, 0, 0, false)] && s.order == [router]
    requires s.via == map[] && s.areaTable == Init(cfg).areaTable
    ensures t == Step(cfg, s, Level2(router, [Row(AreaOf(router), entry)]))
    ensures t.nodes == map[router := NodeInfo(iface, false, 64, 2, false)] && t.order == [router]
    ensures t.via == map[AreaOf(router) * 1024 := router]
    ensures var d := t.areaTable[AreaOf(router)]; d.head.valid && d.head.router == router && d.routes == [d.head]
  {
    var l := Levelled(s, router, iface);
    assert s.areaTable[AreaOf(router)] == NO_ROUTE;
    t := HeardFirst(cfg, l, AreaOf(router), router, entry);
  }

  lemma Levelled(s: State, router: word, iface: byte) returns (l: State)
    requires s.nodes == map[router := NodeInfo(iface, false, 0, 0, false)]
    ensures l == SetLevel(s, router, 2, 64, false) == s.(nodes := map[router := NodeInfo(iface, false, 64, 2, false)])
  {
    l := SetLevel(s, router, 2, 64, false);
    assert l.nodes == map[router := NodeInfo(iface, false, 64, 2, false)];
  }

  lemma HeardFirst(cfg: Config, s: State, area: nat, router: word, entry: word) returns (t: State)
    requires cfg.Valid() && s.Valid() && Watched(cfg, area) && router != 0 && ReadsReachable(entry)
    requires router in s.nodes && s.areaTable[area] == NO_ROUTE && s.via == map[]
    ensures t == AreaRows(cfg, s, [Row(area, entry)], router)
    ensures t.nodes == s.nodes && t.order == s.order && t.via == map[area * 1024 := router]
    ensures t.Valid() && var d := t.areaTable[area]; d.head.valid && d.head.router == router && d.routes == [d.head]
  {
    var cost, hops := AreaRowIs(cfg, s, Row(area, entry), router);
    t := HearArea(cfg, s, area, cost, hops, router);
    OneRow(cfg, s, Row(area, entry), router, t);
    FirstRoute(cfg, s, area, cost, hops, router);
  }

  lemma OneRow(cfg: Config, s: State, row: Row, from: word, t: State)
    requires cfg.Valid() && s.Valid() && AreaRow(cfg, s, row, from) == Some(t)
    ensures t.Valid() && AreaRows(cfg, s, [row], from) == t
  {
    assert [row][1..] == [];
    assert AreaRows(cfg, t, [], from) == t;
  }

  lemma OneRoute(r: Route, addr: word)
    requires Eligible(r) && r.router != 0
    ensures var d := Dest(NO_ROUTE.head, [r]); Reselect(d) == Dest(r, [r]) && Ask(d, addr) == AddVia(addr, r.router)
  {
    assert Eligible([r][0]);
    assert r.(valid := true) == r;
  }

  lemma FirstRoute(cfg: Config, s: State, area: nat, cost: int, hops: int, router: word)
    requires cfg.Valid() && s.Valid() && Watched(cfg, area) && router != 0 && 0 <= cost < NOCOST
    requires s.areaTable[area] == NO_ROUTE && s.via == map[]
    ensures var t := HearArea(cfg, s, area, cost, hops, router);
      && t.nodes == s.nodes && t.order == s.order && t.via == map[area * 1024 := router]
      && var d := t.areaTable[area]; d.head.valid && d.head.router == router && d.routes == [d.head]
  {
    var heard := Hear([], router, cost, hops, PriorityOf(s, router));
    assert |heard| == 1 && heard == [heard[0]];
    OneRoute(heard[0], area * 1024);
  }

  lemma Gone(cfg: Config, s: State, router: word, iface: byte)
    requires cfg.Valid() && s.Valid() && Watched(cfg, AreaOf(router)) && router % 1024 != 0
    requires s.nodes == map[router := NodeInfo(iface, false, 64, 2, false)] && s.order == [router]
    requires s.via == map[AreaOf(router) * 1024 := router]
    requires var d := s.areaTable[AreaOf(router)]; d.head.valid && d.head.router == router && d.routes == [d.head]
    ensures var t := Step(cfg, s, Dump([], true));
      !t.areaTable[AreaOf(router)].head.valid && t.via == s.via
  {
    var area := AreaOf(router);
    var t := SweepOne(cfg, s, router);
    assert GotAll(cfg, s, []) == s;
    assert [router][1..] == [];
    assert Sweep(cfg, s, [router]) == t;
    var lost := Lose(s.areaTable[area].routes, router);
    assert NoneEligible(lost);
  }
}
