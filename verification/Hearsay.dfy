/** What hellos and routing messages tell: the level and priority of a router, the routes
    of every destination with their costs and hops, and the heads that choose among them.
    All of it is told from the events, and the tables hold exactly that after any run. */
module Hearsay {
  import opened Bits
  import opened Wrappers
  import opened Advert
  import opened RouteChain
  import opened Daemon
  import opened NeighbourMarks
  import opened Sightings

  // ---- Told from the events ----

  /** What the rows of a message say about an id, the last one counting: rows that end in
      all ones are unreachable, and a reachable one beyond max ends the message. */
  function Announced(rows: seq<Row>, max: nat, id: nat): Option<word> {
    if rows == [] then None
    else if rows[0].entry % 256 == 255 || rows[0].id == 0 then Announced(rows[1..], max, id)
    else if rows[0].id > max then None
    else
      var later := Announced(rows[1..], max, id);
      if later.None? && rows[0].id == id then Some(rows[0].entry) else later
  }

  /** A level 1 message from our own area that announces an own-area node which is not in
      sight. */
  function Pointed(cfg: Config, events: seq<Event>, id: nat): Option<word>
    requires cfg.Valid() && events != [] && id < 1024
  {
    var e := Last(events);
    if e.Level1? && AreaOf(e.from) == cfg.area && !InSight(Before(events), Own(cfg, id))
    then Announced(e.rows, 1023, id) else None
  }

  function LevelTold(events: seq<Event>, a: word): nat
    decreases |events|
  {
    if events == [] then 0
    else
      var known := InSomeDump(Before(events), a);
      match Last(events)
      case Hello(from, level, _) => if from == a && known then level else LevelTold(Before(events), a)
      case Level2(from, _) => if from == a && known then 2 else LevelTold(Before(events), a)
      case _ => LevelTold(Before(events), a)
  }

  /** A hello sets the priority; a level 2 message only one that is still zero. */
  function PriorityTold(events: seq<Event>, a: word): byte
    decreases |events|
  {
    if events == [] then 0
    else
      var known, was := InSomeDump(Before(events), a), PriorityTold(Before(events), a);
      match Last(events)
      case Hello(from, _, priority) => if from == a && known then priority else was
      case Level2(from, _) => if from == a && known && was == 0 then 64 else was
      case _ => was
  }

  /** The interface on record: that of the latest sighting, and zero once a router
      announces the address while it is out of sight. */
  function IfaceTold(cfg: Config, events: seq<Event>, a: word): byte
    requires cfg.Valid()
    decreases |events|
  {
    if events == [] then 0
    else if Observed(events, a) then SeenOn(Last(events).dump, a)
    else if AreaOf(a) == cfg.area && Pointed(cfg, events, a % 1024).Some? then 0
    else IfaceTold(cfg, Before(events), a)
  }

  /** The route an entry of a level 2 message stands for: nine bits of cost and the cost of
      reaching the router, and six bits of hops, of which there is at least one. */
  function AreaRoute(entry: word, router: word, cost: byte, priority: byte): Route {
    var hops := entry / 512 % 64;
    Route(router, entry % 512 + cost, if hops == 0 then 1 else hops, priority, true)
  }

  /** The same for a level 1 message: one hop more than it says. */
  function NodeRoute(entry: word, router: word, cost: byte, priority: byte): Route {
    Route(router, entry % 512 + cost, entry / 512 % 64 + 1, priority, true)
  }

  /** The route to an area that a router told of or, as a neighbour of level 2, is. */
  function AreaTold(cfg: Config, events: seq<Event>, area: nat, router: word): Option<Route>
    requires cfg.Valid() && area < 64
    decreases |events|
  {
    if events == [] then None
    else
      var before := Before(events);
      var was := AreaTold(cfg, before, area, router);
      match Last(events)
      case Dump(dump, _) =>
        if AreaOf(router) != area || area == cfg.area || LevelTold(before, router) != 2 then was
        else if Observed(events, router) && !(InSight(before, router) && LastSeen(before, router) == Some(SeenOn(dump, router)))
        then Some(Route(router, cfg.cost[SeenOn(dump, router)], 1, PriorityTold(before, router), true))
        else if InSight(before, router) && Missed(events, router) && was.Some? then Some(was.value.(valid := false))
        else was
      case Level2(from, rows) =>
        var told := Announced(rows, 63, area);
        if from == router && InSomeDump(before, router) && told.Some?
        then Some(AreaRoute(told.value, router, cfg.cost[IfaceTold(cfg, before, router)], PriorityTold(events, router)))
        else was
      case _ => was
  }

  /** The route to an own-area node that a router told of. */
  function NodeTold(cfg: Config, events: seq<Event>, id: nat, router: word): Option<Route>
    requires cfg.Valid() && id < 1024
    decreases |events|
  {
    if events == [] then None
    else
      var before := Before(events);
      var was := NodeTold(cfg, before, id, router);
      var told := Pointed(cfg, events, id);
      if told.Some? && Last(events).from == router
      then Some(NodeRoute(told.value, router, cfg.cost[Last(events).iface],
                          if InSomeDump(before, router) then PriorityTold(before, router)
                          else if was.Some? then was.value.priority else 0))
      else was
  }

  /** Cost and hops of an own-area node that is reached directly: nothing for an address
      of our own, else those of the interface it was seen on first since it was last
      reached through a router. */
  function LocalTold(cfg: Config, events: seq<Event>, id: nat): Option<(byte, nat)>
    requires cfg.Valid() && id < 1024
    decreases |events|
  {
    if events == [] then None
    else
      var was := LocalTold(cfg, Before(events), id);
      if Observed(events, Own(cfg, id)) then
        var i := SeenOn(Last(events).dump, Own(cfg, id));
        if cfg.loopback[i] then Some((0, 0)) else if was.None? then Some((cfg.cost[i], 1)) else was
      else if Pointed(cfg, events, id).Some? then None
      else was
  }

  // ---- A chain and its head ----

  /** The entry of a router in a chain. */
  function EntryOf(rs: seq<Route>, router: word): Option<Route> {
    var i := PositionOf(rs, router);
    if i < |rs| then Some(rs[i]) else None
  }

  predicate Apart(rs: seq<Route>, i: int, j: int) {
    0 <= i < j < |rs| ==> rs[i].router != rs[j].router
  }

  predicate Affordable(rs: seq<Route>, i: int) {
    0 <= i < |rs| ==> rs[i].cost < NOCOST
  }

  /** The head copies the best entry, and is invalid when there is none. */
  predicate HeadOk(d: Dest) {
    var c := Cheapest(d.routes);
    if c.Some? then d.head == d.routes[c.value] else !d.head.valid
  }

  /** One entry per router, and none of a cost that hides it. */
  ghost predicate ChainOk(rs: seq<Route>) {
    (forall i, j :: Apart(rs, i, j)) && forall i :: Affordable(rs, i)
  }

  lemma ChainMeans(rs: seq<Route>)
    ensures ChainOk(rs) <==> OnePerRouter(rs) && forall i :: 0 <= i < |rs| ==> rs[i].cost < NOCOST
  {
    if ChainOk(rs) {
      forall i, j | 0 <= i < j < |rs| ensures rs[i].router != rs[j].router { assert Apart(rs, i, j); }
      forall i | 0 <= i < |rs| ensures rs[i].cost < NOCOST { assert Affordable(rs, i); }
    }
  }

  lemma {:induction false} PositionIs(rs: seq<Route>, i: nat)
    requires i < |rs| && OnePerRouter(rs)
    ensures PositionOf(rs, rs[i].router) == i
  {
    assert PositionOf(rs, rs[i].router) >= i ==> PositionOf(rs, rs[i].router) == i;
  }

  /** The chain rs with the entry of its router put in or replaced. */
  ghost predicate Entered(rs: seq<Route>, now: Route, heard: seq<Route>) {
    var p := PositionOf(rs, now.router);
    heard == if p < |rs| then rs[p := now] else rs + [now]
  }

  lemma EnteredOk(rs: seq<Route>, now: Route, heard: seq<Route>)
    requires ChainOk(rs) && Entered(rs, now, heard) && now.cost < NOCOST
    ensures ChainOk(heard)
  {
    ChainMeans(rs);
    forall i, j ensures Apart(heard, i, j) { assert Apart(rs, i, j); }
    forall i ensures Affordable(heard, i) { assert Affordable(rs, i); }
  }

  lemma PositionUnique(rs: seq<Route>, r: word, i: nat)
    requires i <= |rs| && (i < |rs| ==> rs[i].router == r) && forall k :: 0 <= k < i ==> rs[k].router != r
    ensures PositionOf(rs, r) == i
  {
  }

  lemma EnteredPosition(rs: seq<Route>, now: Route, heard: seq<Route>, r: word)
    requires Entered(rs, now, heard)
    ensures PositionOf(heard, r) == if r != now.router && PositionOf(rs, r) == |rs| then |heard| else PositionOf(rs, r)
  {
    var p, i := PositionOf(rs, now.router), PositionOf(rs, r);
    var j := if r != now.router && i == |rs| then |heard| else i;
    forall k | 0 <= k < j ensures heard[k].router != r {
      if k != p { assert heard[k] == rs[k]; }
    }
    PositionUnique(heard, r, j);
  }

  lemma EnteredEntry(rs: seq<Route>, now: Route, heard: seq<Route>, r: word)
    requires Entered(rs, now, heard)
    ensures EntryOf(heard, r) == if r == now.router then Some(now) else EntryOf(rs, r)
  {
    EnteredPosition(rs, now, heard, r);
  }

  lemma EnteredIsBest(rs: seq<Route>, now: Route, heard: seq<Route>)
    requires Entered(rs, now, heard) && Eligible(now)
    ensures Cheapest(heard).Some?
  {
    assert heard[PositionOf(rs, now.router)] == now;
  }

  lemma HearEntry(rs: seq<Route>, from: word, cost: int, hops: int, priority: Option<byte>, r: word)
    requires ChainOk(rs) && 0 <= cost < NOCOST && 0 <= hops < U16
    ensures var heard := Hear(rs, from, cost, hops, priority);
      && ChainOk(heard) && Cheapest(heard).Some?
      && EntryOf(heard, r) == if r != from then EntryOf(rs, r)
           else Some(Route(from, cost, if hops == 0 then 1 else hops,
                           if priority.Some? then priority.value
                           else if EntryOf(rs, from).Some? then EntryOf(rs, from).value.priority else 0, true))
  {
    var heard := Hear(rs, from, cost, hops, priority);
    var now := Route(from, cost, if hops == 0 then 1 else hops,
                     if priority.Some? then priority.value
                     else if EntryOf(rs, from).Some? then EntryOf(rs, from).value.priority else 0, true);
    HearEnters(rs, from, cost, hops, priority, now);
    EnteredOk(rs, now, heard);
    EnteredEntry(rs, now, heard, r);
    EnteredIsBest(rs, now, heard);
  }

  lemma HearEnters(rs: seq<Route>, from: word, cost: int, hops: int, priority: Option<byte>, now: Route)
    requires 0 <= cost < NOCOST && 0 <= hops < U16
    requires now == Route(from, cost, if hops == 0 then 1 else hops,
                          if priority.Some? then priority.value
                          else if EntryOf(rs, from).Some? then EntryOf(rs, from).value.priority else 0, true)
    ensures Entered(rs, now, Hear(rs, from, cost, hops, priority))
  {
  }

  lemma LoseEntry(rs: seq<Route>, router: word, r: word)
    requires ChainOk(rs)
    ensures var lost := Lose(rs, router);
      && ChainOk(lost)
      && EntryOf(lost, r) == if r == router && EntryOf(rs, r).Some? then Some(EntryOf(rs, r).value.(valid := false))
                             else EntryOf(rs, r)
  {
    var lost := Lose(rs, router);
    ChainMeans(rs);
    ChainMeans(lost);
    var i, j := PositionOf(rs, r), PositionOf(lost, r);
    assert forall k :: 0 <= k < |rs| ==> lost[k].router == rs[k].router;
    assert i == j;
  }

  /** With no head to lose there is no valid entry either. */
  lemma NothingToLose(d: Dest, router: word)
    requires ChainOk(d.routes) && HeadOk(d) && !d.head.valid
    ensures Lose(d.routes, router) == d.routes
  {
    ChainMeans(d.routes);
    assert NoneEligible(d.routes);
  }

  lemma ReselectOk(d: Dest)
    ensures HeadOk(Reselect(d)) && Reselect(d).routes == d.routes
  {
    var c := Cheapest(d.routes);
    if c.Some? { assert d.routes[c.value].(valid := true) == d.routes[c.value]; }
  }

  /** A valid head is a told route of least cost, of the highest priority among those; an
      invalid one means that no valid route was told of. */
  ghost predicate BestOf(d: Dest, told: word -> Option<Route>) {
    && (d.head.valid ==> told(d.head.router) == Some(d.head))
    && forall r: word :: NoBetter(d.head, told(r))
  }

  predicate NoBetter(head: Route, told: Option<Route>) {
    told.Some? && told.value.valid ==>
      head.valid && head.cost <= told.value.cost
      && (head.cost == told.value.cost ==> head.priority >= told.value.priority)
  }

  lemma HeadIsBestTold(d: Dest, told: word -> Option<Route>)
    requires ChainOk(d.routes) && HeadOk(d) && forall r: word :: EntryOf(d.routes, r) == told(r)
    ensures BestOf(d, told)
  {
    ChainMeans(d.routes);
    var c := Cheapest(d.routes);
    if c.Some? {
      PositionIs(d.routes, c.value);
      assert EntryOf(d.routes, d.head.router) == told(d.head.router);
    }
    forall r: word ensures NoBetter(d.head, told(r)) {
      assert EntryOf(d.routes, r) == told(r);
      var i := PositionOf(d.routes, r);
      if i < |d.routes| && d.routes[i].valid { assert Eligible(d.routes[i]); }
    }
  }

  // ---- Records ----

  /** Level, priority and interface on record are those told of. */
  ghost predicate RecordTold(cfg: Config, s: State, events: seq<Event>, a: word)
    requires cfg.Valid()
  {
    if a in s.nodes
    then s.nodes[a].level == LevelTold(events, a) && s.nodes[a].priority == PriorityTold(events, a)
         && s.nodes[a].iface == IfaceTold(cfg, events, a)
    else LevelTold(events, a) == 0 && PriorityTold(events, a) == 0
  }

  /** A node out of sight loses its interface when it is announced. */
  ghost predicate Announcing(cfg: Config, s: State, t: State, rows: seq<Row>, a: word)
    requires cfg.Valid()
  {
    && (a in s.nodes <==> a in t.nodes)
    && (a in s.nodes ==>
          t.nodes[a] == if AreaOf(a) == cfg.area && s.nodes[a].deleted && Announced(rows, 1023, a % 1024).Some?
                        then s.nodes[a].(iface := 0) else s.nodes[a])
  }

  lemma NodeRowRecord(cfg: Config, s: State, row: Row, from: word, iface: byte, a: word)
    requires cfg.Valid() && s.Valid()
    ensures var t := NodeRow(cfg, s, row, from, iface);
      if t.None? then row.entry % 256 != 255 && row.id > 1023 else Announcing(cfg, s, t.value, [row], a)
    ensures NodeRow(cfg, s, row, from, iface).Some? ==> row.entry % 256 == 255 || row.id <= 1023
  {
    ReadWord(row.entry);
    assert [row][1..] == [];
  }

  lemma {:induction false} NodeRowsRecord(cfg: Config, s: State, rows: seq<Row>, from: word, iface: byte, a: word)
    requires cfg.Valid() && s.Valid()
    ensures Announcing(cfg, s, NodeRows(cfg, s, rows, from, iface), rows, a)
    decreases |rows|
  {
    if rows == [] {
    } else {
      NodeRowRecord(cfg, s, rows[0], from, iface, a);
      FirstAnnounced(rows, 1023, a % 1024);
      var t := NodeRow(cfg, s, rows[0], from, iface);
      if t.Some? { NodeRowsRecord(cfg, t.value, rows[1..], from, iface, a); }
    }
  }

  /** What the first row says, and what the others say after it. */
  lemma FirstAnnounced(rows: seq<Row>, max: nat, id: nat)
    requires rows != []
    ensures var row := rows[0];
      if row.entry % 256 != 255 && row.id > max then Announced(rows, max, id).None?
      else Announced(rows, max, id)
           == if Announced(rows[1..], max, id).Some? then Announced(rows[1..], max, id) else Announced([row], max, id)
  {
    assert [rows[0]][1..] == [];
  }

  lemma RecordDump(cfg: Config, s: State, events: seq<Event>, a: word)
    requires cfg.Valid() && s.Valid() && events != [] && Last(events).Dump?
    requires SightTold(cfg, s, Before(events), a) && RecordTold(cfg, s, Before(events), a)
    ensures RecordTold(cfg, Step(cfg, s, Last(events)), events, a)
  {
    var e := Last(events);
    var t := GotAll(cfg, s, e.dump);
    GotAllSight(cfg, s, e.dump, a);
    GotAllMarks(cfg, s, e.dump, a);
    if e.complete { SweepSight(cfg, t, t.order, a); }
  }

  /** What a level 1 message adds to what has been told of an address. */
  lemma NodesHeard(cfg: Config, events: seq<Event>, a: word)
    requires cfg.Valid() && events != [] && Last(events).Level1?
    ensures var before, e := Before(events), Last(events);
      && LevelTold(events, a) == LevelTold(before, a) && PriorityTold(events, a) == PriorityTold(before, a)
      && IfaceTold(cfg, events, a)
         == if AreaOf(a) == cfg.area && AreaOf(e.from) == cfg.area && !InSight(before, a)
               && Announced(e.rows, 1023, a % 1024).Some? then 0 else IfaceTold(cfg, before, a)
  {
    if AreaOf(a) == cfg.area { assert Own(cfg, a % 1024) == a; }
  }

  lemma RecordNodes(cfg: Config, s: State, events: seq<Event>, a: word)
    requires cfg.Valid() && s.Valid() && events != [] && Last(events).Level1?
    requires SightTold(cfg, s, Before(events), a) && RecordTold(cfg, s, Before(events), a)
    ensures RecordTold(cfg, Step(cfg, s, Last(events)), events, a)
  {
    var e := Last(events);
    NodesHeard(cfg, events, a);
    NodeRowsRecord(cfg, s, e.rows, e.from, e.iface, a);
  }

  lemma AreasHeard(cfg: Config, events: seq<Event>, a: word)
    requires cfg.Valid() && events != [] && Last(events).Level2?
    ensures var before, e := Before(events), Last(events);
      && LevelTold(events, a) == (if e.from == a && InSomeDump(before, a) then 2 else LevelTold(before, a))
      && PriorityTold(events, a)
         == (if e.from == a && InSomeDump(before, a) && PriorityTold(before, a) == 0 then 64 else PriorityTold(before, a))
      && IfaceTold(cfg, events, a) == IfaceTold(cfg, before, a)
  {
  }

  lemma RecordAreas(cfg: Config, s: State, events: seq<Event>, a: word)
    requires cfg.Valid() && s.Valid() && events != [] && Last(events).Level2?
    requires SightTold(cfg, s, Before(events), a) && RecordTold(cfg, s, Before(events), a)
    ensures RecordTold(cfg, Step(cfg, s, Last(events)), events, a)
  {
    var e := Last(events);
    AreasHeard(cfg, events, a);
    AreaRowsSight(cfg, SetLevel(s, e.from, 2, 64, false), e.rows, e.from, a);
  }

  lemma RecordStep(cfg: Config, s: State, events: seq<Event>, a: word)
    requires cfg.Valid() && s.Valid() && events != []
    requires SightTold(cfg, s, Before(events), a) && RecordTold(cfg, s, Before(events), a)
    ensures RecordTold(cfg, Step(cfg, s, Last(events)), events, a)
  {
    match Last(events)
    case Dump(_, _) => RecordDump(cfg, s, events, a);
    case Level1(_, _, _) => RecordNodes(cfg, s, events, a);
    case Level2(_, _) => RecordAreas(cfg, s, events, a);
    case Hello(_, _, _) =>
  }

  lemma {:induction false} RunRecord(cfg: Config, events: seq<Event>, a: word)
    requires cfg.Valid()
    ensures SightTold(cfg, Run(cfg, Init(cfg), events), events, a)
    ensures RecordTold(cfg, Run(cfg, Init(cfg), events), events, a)
    decreases |events|
  {
    RunSight(cfg, events, a);
    if events == [] {
    } else {
      RunRecord(cfg, Before(events), a);
      RunLast(cfg, Init(cfg), events);
      RecordStep(cfg, Run(cfg, Init(cfg), Before(events)), events, a);
    }
  }

  /** The hash has of everybody who was ever in a dump what hellos, routing messages and
      sightings told of. */
  lemma RecordsTold(cfg: Config, events: seq<Event>, a: word)
    requires cfg.Valid()
    ensures var s := Run(cfg, Init(cfg), events);
      && (a in s.nodes <==> InSomeDump(events, a))
      && (a in s.nodes ==>
            s.nodes[a] == NodeInfo(IfaceTold(cfg, events, a), InFailedDump(false, events, a), PriorityTold(events, a),
                                   LevelTold(events, a), !InSight(events, a)))
  {
    RunRecord(cfg, events, a);
  }
}
