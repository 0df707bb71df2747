/** What the daemon asks of the kernel: areas under manual control are never touched, our
    own area is always at hand, and what happens when a router in use goes down. */
module KernelRoutes {
  import opened Bits
  import opened Wrappers
  import opened Advert
  import opened RouteChain
  import opened Daemon
  import opened AreaRoutes

  // ---- Areas under manual control ----

  /** The kernel has no route of ours to an area under manual control. */
  ghost predicate LeavesManual(cfg: Config, via: map<word, word>)
    requires cfg.Valid()
  {
    forall addr :: addr in via && addr % 1024 == 0 ==> !cfg.manual[AreaOf(addr)]
  }

  lemma {:induction false} GotAllManual(cfg: Config, s: State, dump: seq<Neighbour>)
    requires cfg.Valid() && s.Valid() && LeavesManual(cfg, s.via)
    ensures LeavesManual(cfg, GotAll(cfg, s, dump).via)
    decreases |dump|
  {
    if dump == [] {
    } else {
      GotAllManual(cfg, GotNeigh(cfg, s, dump[0]), dump[1..]);
    }
  }

  lemma {:induction false} SweepManual(cfg: Config, s: State, order: seq<word>)
    requires cfg.Valid() && s.Valid() && LeavesManual(cfg, s.via)
    ensures LeavesManual(cfg, Sweep(cfg, s, order).via)
    decreases |order|
  {
    if order == [] {
    } else {
      SweepManual(cfg, SweepOne(cfg, s, order[0]), order[1..]);
    }
  }

  lemma {:induction false} NodeRowsManual(cfg: Config, s: State, rows: seq<Row>, from: word, iface: byte)
    requires cfg.Valid() && s.Valid() && LeavesManual(cfg, s.via)
    ensures LeavesManual(cfg, NodeRows(cfg, s, rows, from, iface).via)
    decreases |rows|
  {
    if rows != [] && NodeRow(cfg, s, rows[0], from, iface).Some? {
      NodeRowsManual(cfg, NodeRow(cfg, s, rows[0], from, iface).value, rows[1..], from, iface);
    }
  }

  lemma {:induction false} AreaRowsManual(cfg: Config, s: State, rows: seq<Row>, from: word)
    requires cfg.Valid() && s.Valid() && LeavesManual(cfg, s.via)
    ensures LeavesManual(cfg, AreaRows(cfg, s, rows, from).via)
    decreases |rows|
  {
    if rows != [] && AreaRow(cfg, s, rows[0], from).Some? {
      AreaRowsManual(cfg, AreaRow(cfg, s, rows[0], from).value, rows[1..], from);
    }
  }

  lemma {:induction false} RunManual(cfg: Config, s: State, events: seq<Event>)
    requires cfg.Valid() && s.Valid() && LeavesManual(cfg, s.via)
    ensures LeavesManual(cfg, Run(cfg, s, events).via)
    decreases |events|
  {
    if events != [] {
      match events[0] {
        case Dump(dump, _) =>
          GotAllManual(cfg, s, dump);
          SweepManual(cfg, GotAll(cfg, s, dump), GotAll(cfg, s, dump).order);
        case Level1(from, rows, iface) => NodeRowsManual(cfg, s, rows, from, iface);
        case Level2(from, rows) => AreaRowsManual(cfg, SetLevel(s, from, 2, 64, false), rows, from);
        case Hello(_, _, _) =>
      }
      RunManual(cfg, Step(cfg, s, events[0]), events[1..]);
    }
  }

  /** Whatever happens, the daemon routes to no area under manual control, our own
      among them. */
  lemma ManualUntouched(cfg: Config, events: seq<Event>, area: nat)
    requires cfg.Valid() && area < 64 && (cfg.manual[area] || area == cfg.area)
    ensures area * 1024 !in Run(cfg, Init(cfg), events).via
  {
    RunManual(cfg, Init(cfg), events);
    assert (area * 1024) % 1024 == 0 && AreaOf(area * 1024) == area;
  }

  // ---- Our own area ----

  /** The entry of our own area, if we are its level 2 router. */
  ghost predicate OwnAtHand(cfg: Config, s: State)
    requires cfg.Valid() && s.Valid()
  {
    cfg.level2 ==> s.areaTable[cfg.area] == Dest(Route(0, 0, 0, 0, true), [])
  }

  lemma {:induction false} GotAllOwn(cfg: Config, s: State, dump: seq<Neighbour>)
    requires cfg.Valid() && s.Valid() && OwnAtHand(cfg, s)
    ensures OwnAtHand(cfg, GotAll(cfg, s, dump))
    decreases |dump|
  {
    if dump == [] {
    } else {
      GotAllOwn(cfg, GotNeigh(cfg, s, dump[0]), dump[1..]);
    }
  }

  lemma {:induction false} SweepOwn(cfg: Config, s: State, order: seq<word>)
    requires cfg.Valid() && s.Valid() && OwnAtHand(cfg, s)
    ensures OwnAtHand(cfg, Sweep(cfg, s, order))
    decreases |order|
  {
    if order == [] {
    } else {
      SweepOwn(cfg, SweepOne(cfg, s, order[0]), order[1..]);
    }
  }

  lemma {:induction false} NodeRowsOwn(cfg: Config, s: State, rows: seq<Row>, from: word, iface: byte)
    requires cfg.Valid() && s.Valid() && OwnAtHand(cfg, s)
    ensures OwnAtHand(cfg, NodeRows(cfg, s, rows, from, iface))
    decreases |rows|
  {
    if rows != [] && NodeRow(cfg, s, rows[0], from, iface).Some? {
      NodeRowsOwn(cfg, NodeRow(cfg, s, rows[0], from, iface).value, rows[1..], from, iface);
    }
  }

  lemma {:induction false} AreaRowsOwn(cfg: Config, s: State, rows: seq<Row>, from: word)
    requires cfg.Valid() && s.Valid() && OwnAtHand(cfg, s)
    ensures OwnAtHand(cfg, AreaRows(cfg, s, rows, from))
    decreases |rows|
  {
    if rows != [] && AreaRow(cfg, s, rows[0], from).Some? {
      AreaRowsOwn(cfg, AreaRow(cfg, s, rows[0], from).value, rows[1..], from);
    }
  }

  lemma {:induction false} RunOwn(cfg: Config, s: State, events: seq<Event>)
    requires cfg.Valid() && s.Valid() && OwnAtHand(cfg, s)
    ensures OwnAtHand(cfg, Run(cfg, s, events))
    decreases |events|
  {
    if events != [] {
      match events[0] {
        case Dump(dump, _) =>
          GotAllOwn(cfg, s, dump);
          SweepOwn(cfg, GotAll(cfg, s, dump), GotAll(cfg, s, dump).order);
        case Level1(from, rows, iface) => NodeRowsOwn(cfg, s, rows, from, iface);
        case Level2(from, rows) => AreaRowsOwn(cfg, SetLevel(s, from, 2, 64, false), rows, from);
        case Hello(_, _, _) =>
      }
      RunOwn(cfg, Step(cfg, s, events[0]), events[1..]);
    }
  }

  /** A level 2 router has its own area at no cost and no distance, whatever other routers
      say about it. */
  lemma OwnAreaStays(cfg: Config, events: seq<Event>)
    requires cfg.Valid() && cfg.level2
    ensures var d := Run(cfg, Init(cfg), events).areaTable[cfg.area];
      d.head.valid && d.head.cost == 0 && d.head.hops == 0 && d.head.router == 0 && d.routes == []
  {
    RunOwn(cfg, Init(cfg), events);
  }

  // ---- A router goes down ----

  /** The kernel routes to the address through the gateway. */
  predicate Via(s: State, addr: word, gateway: word) {
    addr in s.via && s.via[addr] == gateway
  }

  /** When the router in use for an area goes down, the kernel gets a route to that router
      by way of the one to fall back on; with none left, a route to the router through
      itself goes. All other routes stay. */
  lemma LostRouterNamed(cfg: Config, s: State, router: word, addr: word)
    requires cfg.Valid() && s.Valid() && Watched(cfg, AreaOf(router))
    requires AreaOk(s, AreaOf(router)) && s.areaTable[AreaOf(router)].head.valid
    ensures var t := LoseArea(cfg, s, AreaOf(router), router);
      var h := t.areaTable[AreaOf(router)].head;
      if addr != router || s.areaTable[AreaOf(router)].head.router != router then SameVia(s.via, t.via, addr)
      else if h.valid then h.router != router && Via(t, router, h.router)
      else !Via(t, router, router) && forall gw :: gw != router ==> (Via(t, router, gw) <==> Via(s, router, gw))
  {
    var area := AreaOf(router);
    var d := s.areaTable[area];
    if d.head.router != router {
      BestSurvives(d.routes, router);
    } else {
      var c := Cheapest(Lose(d.routes, router));
      if c.Some? { assert Lose(d.routes, router)[c.value].router != router; }
    }
    if addr != router { OtherRequest(cfg, s.via, Ask(Dest(d.head, Lose(d.routes, router)), router), addr); }
  }
}
