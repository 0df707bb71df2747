/** The routes to one destination: a chain with one entry per router, and a head
    that caches the best of them and mirrors it in the kernel. */
module RouteChain {
  import opened Bits
  import opened Wrappers

  const NOCOST: word := 0xFFFF

  datatype Route = Route(router: word, cost: word, hops: word, priority: byte, valid: bool)

  /** What a call asks of the kernel's routing table. */
  datatype Request = Nothing | AddVia(addr: word, via: word) | DelVia(addr: word, via: word)

  /** A destination: the cached head and the chain behind it. */
  datatype Dest = Dest(head: Route, routes: seq<Route>)

  // ---- Choosing ----

  predicate Eligible(r: Route) {
    r.valid && r.cost < NOCOST
  }

  predicate Better(a: Route, b: Route) {
    a.cost < b.cost || (a.cost == b.cost && a.priority > b.priority)
  }

  /** Entry i is the cheapest, among those the one of highest priority, and among
      those the first. */
  predicate IsBest(rs: seq<Route>, i: nat) {
    && i < |rs| && Eligible(rs[i])
    && forall j :: 0 <= j < |rs| && Eligible(rs[j]) ==>
         !Better(rs[j], rs[i]) && (j < i ==> Better(rs[i], rs[j]))
  }

  predicate NoneEligible(rs: seq<Route>) {
    forall j :: 0 <= j < |rs| ==> !Eligible(rs[j])
  }

  /** One step of the search: whether an entry displaces the best so far. */
  predicate Displaces(r: Route, best: Option<Route>) {
    r.valid && (r.cost < (if best.Some? then best.value.cost else NOCOST)
                || (best.Some? && r.cost == best.value.cost && r.priority > best.value.priority))
  }

  function Cheapest(rs: seq<Route>): (c: Option<nat>)
    ensures if c.Some? then IsBest(rs, c.value) else NoneEligible(rs)
  {
    if rs == [] then None
    else
      var n := |rs| - 1;
      var c := Cheapest(rs[..n]);
      if Displaces(rs[n], if c.Some? then Some(rs[c.value]) else None) then Some(n) else c
  }

  lemma CheapestStep(rs: seq<Route>, i: nat)
    requires i < |rs|
    ensures var c := Cheapest(rs[..i]);
      Cheapest(rs[..i + 1]) == if Displaces(rs[i], if c.Some? then Some(rs[c.value]) else None) then Some(i) else c
  {
    assert rs[..i + 1][..i] == rs[..i];
  }

  lemma BestIsUnique(rs: seq<Route>, i: nat, j: nat)
    requires IsBest(rs, i) && IsBest(rs, j)
    ensures i == j
  {
  }

  /** The head after looking for the best entry, and what the kernel is told: a
      change of router, or that the last route is gone. */
  function Reselect(d: Dest): Dest {
    var c := Cheapest(d.routes);
    if c.Some? then d.(head := d.routes[c.value].(valid := true)) else d.(head := d.head.(valid := false))
  }

  function Ask(d: Dest, addr: word): Request {
    var c := Cheapest(d.routes);
    if c.None? then DelVia(addr, d.head.router)
    else if d.routes[c.value].router != d.head.router then AddVia(addr, d.routes[c.value].router)
    else Nothing
  }

  /** The position of a router in the chain, its length when it is not there. */
  function PositionOf(rs: seq<Route>, router: word): (i: nat)
    ensures i <= |rs| && (i < |rs| ==> rs[i].router == router)
    ensures forall j :: 0 <= j < i ==> rs[j].router != router
  {
    if rs == [] || rs[0].router == router then 0 else 1 + PositionOf(rs[1..], router)
  }

  /** The chain after hearing about the destination from a router. */
  function Hear(rs: seq<Route>, from: word, cost: int, hops: int, priority: Option<byte>): seq<Route> {
    var i := PositionOf(rs, from);
    var was := if i < |rs| then rs[i] else Route(from, 0, 0, 0, false);
    var now := Route(from, cost % U16, (if hops == 0 then 1 else hops) % U16,
                     if priority.Some? then priority.value else was.priority, true);
    if i < |rs| then rs[i := now] else rs + [now]
  }

  /** The chain after a router went down. */
  function Lose(rs: seq<Route>, router: word): (r: seq<Route>)
    ensures |r| == |rs|
  {
    seq(|rs|, i requires 0 <= i < |rs| => if rs[i].router == router then rs[i].(valid := false) else rs[i])
  }

  predicate OnePerRouter(rs: seq<Route>) {
    forall i, j :: 0 <= i < j < |rs| ==> rs[i].router != rs[j].router
  }

  // ---- The linked form ----

  class RouteInfo {
    var next: RouteInfo?
    var cost: word
    var hops: word
    var router: word
    var priority: byte
    var valid: bool
    ghost var chain: seq<RouteInfo>   // of a head: the entries behind it

    constructor (router: word)
      ensures next == null && chain == [] && Value() == Route(router, 0, 0, 0, false)
    {
      next, cost, hops, this.router, priority, valid, chain := null, 0, 0, router, 0, false, [];
    }

    function Value(): Route
      reads this
    {
      Route(router, cost, hops, priority, valid)
    }

    ghost predicate Valid()
      reads this, chain
    {
      && this !in chain
      && next == At(chain, 0)
      && (forall i :: 0 <= i < |chain| ==> chain[i].next == At(chain, i + 1))
      && Distinct(chain)
    }

    ghost function Entries(): (rs: seq<Route>)
      reads this, chain
      ensures |rs| == |chain| && forall i :: 0 <= i < |chain| ==> rs[i] == chain[i].Value()
    {
      Values(chain)
    }

    ghost function Destination(): Dest
      reads this, chain
    {
      Dest(Value(), Entries())
    }

    /** Walks the chain for the best entry. */
    method FindCheapest() returns (cheap: RouteInfo?)
      requires Valid()
      ensures var c := Cheapest(Entries());
        if c.Some? then cheap == chain[c.value] else cheap == null
    {
      var best: word := NOCOST;
      var route := next;
      cheap := null;
      ghost var i := 0;
      ghost var rs := Entries();
      while route != null
        invariant i <= |chain| && route == At(chain, i)
        invariant Tracks(rs, i, Cheapest(rs[..i]), chain, cheap, best)
        decreases |chain| - i
      {
        CheapestStep(rs, i);
        if route.valid && (route.cost < best
                           || (route.cost == best && cheap != null && route.priority > cheap.priority)) {
          best := route.cost;
          cheap := route;
        }
        route := route.next;
        i := i + 1;
      }
      assert rs[..i] == rs;
    }

    static ghost predicate Tracks(rs: seq<Route>, i: nat, c: Option<nat>, chain: seq<RouteInfo>, cheap: RouteInfo?, best: word)
    {
      if c.Some? then c.value < |rs| && c.value < |chain| && cheap == chain[c.value] && best == rs[c.value].cost
      else cheap == null && best == NOCOST
    }

    method SetLowestCostRoute(addr: word) returns (ask: Request)
      requires Valid()
      modifies `hops, `cost, `router, `priority, `valid
      ensures Valid() && Destination() == Reselect(old(Destination())) && ask == Ask(old(Destination()), addr)
    {
      var cheap := FindCheapest();
      if cheap != null {
        ask := if cheap.router != router then AddVia(addr, cheap.router) else Nothing;
        SetHead(cheap.Value().(valid := true));
      } else {
        ask := DelVia(addr, router);
        SetHead(Value().(valid := false));
      }
    }

    /** Overwrites the fields of the head. */
    method SetHead(r: Route)
      requires Valid()
      modifies `hops, `cost, `router, `priority, `valid
      ensures Valid() && Entries() == old(Entries()) && Value() == r
    {
      hops, cost, router, priority, valid := r.hops, r.cost, r.router, r.priority, r.valid;
    }

    /** Walks the chain for a router's entry, keeping the entry before it. */
    method Search(from: word) returns (route: RouteInfo?, last: RouteInfo?)
      requires Valid()
      ensures var i := PositionOf(Entries(), from);
        && route == At(chain, i) && (i == |chain| ==> last == if chain == [] then null else chain[|chain| - 1])
    {
      route, last := next, null;
      ghost var i := 0;
      ghost var rs := Entries();
      while route != null && route.router != from
        invariant i <= |chain| && route == At(chain, i)
        invariant last == if i == 0 then null else chain[i - 1]
        invariant forall j :: 0 <= j < i ==> rs[j].router != from
        decreases |chain| - i
      {
        last := route;
        route := route.next;
        i := i + 1;
      }
      FoundAt(rs, from, i);
    }

    /** The entry for a router, added at the end of the chain when there is none. */
    method EntryFor(from: word) returns (route: RouteInfo)
      requires Valid()
      modifies `next, `chain, chain`next
      ensures Valid() && Value() == old(Value())
      ensures var i := PositionOf(old(Entries()), from);
        && i < |chain| && route == chain[i]
        && (if i < |old(chain)| then chain == old(chain) && Entries() == old(Entries())
            else chain == old(chain) + [route] && fresh(route)
                 && Entries() == old(Entries()) + [Route(from, 0, 0, 0, false)])
    {
      var found, last := Search(from);
      if found != null {
        route := found;
      } else {
        route := Append(last, from);
      }
    }

    method Append(last: RouteInfo?, from: word) returns (route: RouteInfo)
      requires Valid() && last == if chain == [] then null else chain[|chain| - 1]
      modifies `next, `chain, chain`next
      ensures Valid() && Value() == old(Value()) && fresh(route)
      ensures chain == old(chain) + [route] && Entries() == old(Entries()) + [Route(from, 0, 0, 0, false)]
    {
      route := new RouteInfo(from);
      if last != null {
        last.next := route;
      } else {
        next := route;
      }
      chain := chain + [route];
    }

    method AddRouteInfo(addr: word, cost: int, hops: int, from: word, priority: Option<byte>) returns (ask: Request)
      requires Valid()
      modifies this, chain
      ensures Valid()
      ensures var d := Dest(old(Value()), Hear(old(Entries()), from, cost, hops, priority));
        Destination() == Reselect(d) && ask == Ask(d, addr)
      ensures forall e :: e in chain ==> e in old(chain) || fresh(e)
    {
      Store(cost, hops, from, priority);
      ask := SetLowestCostRoute(addr);
    }

    method Store(cost: int, hops: int, from: word, priority: Option<byte>)
      requires Valid()
      modifies this, chain
      ensures Valid() && Value() == old(Value())
      ensures Entries() == Hear(old(Entries()), from, cost, hops, priority)
      ensures forall e :: e in chain ==> e in old(chain) || fresh(e)
    {
      var route := EntryFor(from);
      Fill(route, if hops == 0 then 1 else hops, cost, priority, PositionOf(old(Entries()), from));
    }

    /** Stores what was heard in entry i. */
    method Fill(route: RouteInfo, hops: int, cost: int, priority: Option<byte>, ghost i: nat)
      requires Valid() && i < |chain| && route == chain[i]
      modifies route`hops, route`cost, route`valid, route`priority
      ensures Valid() && Value() == old(Value())
      ensures Entries() == old(Entries())[i := Route(old(route.router), cost % U16, hops % U16,
                if priority.Some? then priority.value else old(route.priority), true)]
    {
      route.hops := hops % U16;
      route.cost := cost % U16;
      route.valid := true;
      if priority.Some? {
        route.priority := priority.value;
      }
    }

    /** A router went down; the source passes the router's own address where the
        destination's is expected. */
    method InvalidateRoute(node: word) returns (ask: Request)
      requires Valid()
      modifies this, chain
      ensures Valid()
      ensures chain == old(chain)
      ensures var d := Dest(old(Value()), Lose(old(Entries()), node));
        Destination() == Reselect(d) && ask == Ask(d, node)
    {
      ghost var rs := Entries();
      MarkInvalid(node);
      assert Entries() == Lose(rs, node);
      ask := SetLowestCostRoute(node);
    }

    method MarkInvalid(node: word)
      requires Valid()
      modifies chain`valid
      ensures Valid() && Value() == old(Value())
      ensures Entries() == Lose(old(Entries()), node)
    {
      var route := next;
      ghost var i := 0;
      ghost var rs := Entries();
      while route != null
        invariant i <= |chain| && route == At(chain, i) && Valid() && Value() == old(Value())
        invariant forall j :: 0 <= j < |chain| ==>
                    chain[j].Value() == if j < i && rs[j].router == node then rs[j].(valid := false) else rs[j]
        decreases |chain| - i
      {
        if route.router == node {
          route.valid := false;
        }
        route := route.next;
        i := i + 1;
      }
    }
  }

  ghost function At(chain: seq<RouteInfo>, i: nat): RouteInfo? {
    if i < |chain| then chain[i] else null
  }

  ghost predicate Distinct(chain: seq<RouteInfo>) {
    forall i, j :: 0 <= i < j < |chain| ==> chain[i] != chain[j]
  }

  ghost function Values(chain: seq<RouteInfo>): (rs: seq<Route>)
    reads chain
    ensures |rs| == |chain| && forall i :: 0 <= i < |chain| ==> rs[i] == chain[i].Value()
  {
    seq(|chain|, i requires 0 <= i < |chain| reads chain => chain[i].Value())
  }

  lemma {:induction false} FoundAt(rs: seq<Route>, from: word, i: nat)
    requires i <= |rs| && (i < |rs| ==> rs[i].router == from)
    requires forall j :: 0 <= j < i ==> rs[j].router != from
    ensures PositionOf(rs, from) == i
  {
  }

  // ---- Whole histories ----

  datatype News =
    | Heard(from: word, cost: int, hops: int, priority: Option<byte>)
    | Lost(router: word)

  /** The destination after a history that starts with an empty chain. */
  function After(events: seq<News>): Dest {
    if events == [] then Dest(Route(0, 0, 0, 0, false), [])
    else
      var d := After(events[..|events| - 1]);
      match events[|events| - 1]
      case Heard(from, cost, hops, priority) =>
        Reselect(Dest(d.head, Hear(d.routes, from, cost, hops, priority)))
      case Lost(router) =>
        Reselect(Dest(d.head, Lose(d.routes, router)))
  }

  /** The routers heard from, each once, in the order they were first heard. */
  function FirstHeard(events: seq<News>): seq<word> {
    if events == [] then []
    else
      var rest := FirstHeard(events[..|events| - 1]);
      var e := events[|events| - 1];
      if e.Heard? && e.from !in rest then rest + [e.from] else rest
  }

  /** The latest news about a router, told from the history alone. */
  function Latest(events: seq<News>, router: word): Route {
    if events == [] then Route(router, 0, 0, 0, false)
    else
      var was := Latest(events[..|events| - 1], router);
      match events[|events| - 1]
      case Heard(from, cost, hops, priority) =>
        if from != router then was
        else Route(router, cost % U16, (if hops == 0 then 1 else hops) % U16,
                   if priority.Some? then priority.value else was.priority, true)
      case Lost(lost) =>
        if lost != router then was else was.(valid := false)
  }

  ghost predicate Remembers(rs: seq<Route>, events: seq<News>) {
    && |rs| == |FirstHeard(events)|
    && forall i :: 0 <= i < |rs| ==> rs[i] == Latest(events, FirstHeard(events)[i])
  }

  lemma {:induction false} LatestRouter(events: seq<News>, router: word)
    ensures Latest(events, router).router == router
  {
    if events == [] {
    } else {
      LatestRouter(events[..|events| - 1], router);
    }
  }

  lemma {:induction false} FirstHeardOnce(events: seq<News>, i: nat, j: nat)
    requires i < j < |FirstHeard(events)|
    ensures FirstHeard(events)[i] != FirstHeard(events)[j]
  {
    var rest := FirstHeard(events[..|events| - 1]);
    if j >= |rest| {
    } else {
      FirstHeardOnce(events[..|events| - 1], i, j);
    }
  }

  /** The chain always holds one entry per router, in first-heard order, each with
      the latest news about its router. */
  lemma {:induction false} ChainRemembers(events: seq<News>)
    ensures Remembers(After(events).routes, events) && OnePerRouter(After(events).routes)
  {
    if events == [] {
    } else {
      var before := events[..|events| - 1];
      ChainRemembers(before);
      var rs := After(before).routes;
      forall i | 0 <= i < |rs| ensures rs[i].router == FirstHeard(before)[i] {
        LatestRouter(before, FirstHeard(before)[i]);
      }
      match events[|events| - 1]
      case Lost(router) =>
      case Heard(from, cost, hops, priority) =>
        HearRemembers(before, rs, from);
    }
    OneEach(After(events).routes, events);
  }

  lemma OneEach(rs: seq<Route>, events: seq<News>)
    requires Remembers(rs, events)
    ensures OnePerRouter(rs)
  {
    forall i, j | 0 <= i < j < |rs| ensures rs[i].router != rs[j].router {
      FirstHeardOnce(events, i, j);
      LatestRouter(events, FirstHeard(events)[i]);
      LatestRouter(events, FirstHeard(events)[j]);
    }
  }

  lemma HearRemembers(before: seq<News>, rs: seq<Route>, from: word)
    requires Remembers(rs, before) && OnePerRouter(rs)
    requires forall i :: 0 <= i < |rs| ==> rs[i].router == FirstHeard(before)[i]
    ensures var i := PositionOf(rs, from);
      && (i < |rs| <==> from in FirstHeard(before))
      && (forall j :: 0 <= j < |rs| && j != i ==> FirstHeard(before)[j] != from)
      && (i == |rs| ==> Latest(before, from) == Route(from, 0, 0, 0, false))
  {
    var i := PositionOf(rs, from);
    if i == |rs| {
      NeverHeard(before, from);
    }
  }

  lemma {:induction false} NeverHeard(events: seq<News>, router: word)
    requires router !in FirstHeard(events)
    ensures Latest(events, router) == Route(router, 0, 0, 0, false)
  {
    if events == [] {
    } else {
      NeverHeard(events[..|events| - 1], router);
    }
  }

  /** After any history the head is a copy of the best entry there is, and invalid
      exactly when there is none to choose. */
  lemma {:induction false} HeadIsBest(events: seq<News>)
    ensures var d := After(events);
      && (d.head.valid <==> !NoneEligible(d.routes))
      && (d.head.valid ==> exists i: nat :: IsBest(d.routes, i) && d.head == d.routes[i])
  {
    var d := After(events);
    var c := Cheapest(d.routes);
    if c.Some? { assert IsBest(d.routes, c.value) && Eligible(d.routes[c.value]); }
  }
}
