/** What the dumps of the neighbours alone tell about an address: whether it is in sight,
    on which interface it was last seen, and so which direct route the kernel has to it. */
module Sightings {
  import opened Bits
  import opened Wrappers
  import opened Advert
  import opened RouteChain
  import opened Daemon
  import opened NeighbourMarks

  // ---- Told from the events ----

  function Last(events: seq<Event>): Event
    requires events != []
  {
    events[|events| - 1]
  }

  function Before(events: seq<Event>): (b: seq<Event>)
    requires events != []
    ensures |b| < |events|
  {
    events[..|events| - 1]
  }

  /** The interface of the first entry for an address in a dump. */
  function SeenOn(dump: seq<Neighbour>, a: word): byte
    requires InDump(dump, a)
  {
    if dump[0].addr == a then dump[0].iface
    else
      FirstOf(dump, a);
      SeenOn(dump[1..], a)
  }

  /** The last event is a dump that has the address, and no failed dump since the last
      complete one had it before. Only then does the daemon look at the interface. */
  predicate Observed(events: seq<Event>, a: word)
    requires events != []
  {
    && Last(events).Dump? && InDump(Last(events).dump, a)
    && !InFailedDump(false, Before(events), a)
  }

  /** The last event is a complete dump without the address, and no failed dump since the
      complete one before had it. */
  predicate Missed(events: seq<Event>, a: word)
    requires events != []
  {
    && Last(events).Dump? && Last(events).complete && !InDump(Last(events).dump, a)
    && !InFailedDump(false, Before(events), a)
  }

  predicate InSight(events: seq<Event>, a: word)
    decreases |events|
  {
    events != [] && (Observed(events, a) || (InSight(Before(events), a) && !Missed(events, a)))
  }

  /** The interface of the latest sighting. */
  function LastSeen(events: seq<Event>, a: word): Option<byte>
    decreases |events|
  {
    if events == [] then None
    else if Observed(events, a) then Some(SeenOn(Last(events).dump, a))
    else LastSeen(Before(events), a)
  }

  /** The interface of the kernel's direct route. A sighting on a loopback interface
      leaves the route alone, and an address that goes out of sight loses it only if it
      is that of the interface last seen. */
  function Direct(cfg: Config, events: seq<Event>, a: word): Option<byte>
    requires cfg.Valid()
    decreases |events|
  {
    if events == [] then None
    else
      var was := Direct(cfg, Before(events), a);
      if Observed(events, a) then
        var i := SeenOn(Last(events).dump, a);
        if cfg.loopback[i] then was else Some(i)
      else if InSight(Before(events), a) && Missed(events, a) && was == LastSeen(Before(events), a) then None
      else was
  }

  /** An address that was in sight on another interface was then seen on a loopback one,
      and on no other since. */
  predicate MovedToLoopback(cfg: Config, events: seq<Event>, a: word)
    requires cfg.Valid()
    decreases |events|
  {
    events != [] &&
    if Observed(events, a) then
      && cfg.loopback[SeenOn(Last(events).dump, a)]
      && (MovedToLoopback(cfg, Before(events), a)
          || (InSight(Before(events), a) && !OnLoopback(cfg, LastSeen(Before(events), a))))
    else MovedToLoopback(cfg, Before(events), a)
  }

  predicate OnLoopback(cfg: Config, i: Option<byte>)
    requires cfg.Valid()
  {
    i.Some? && cfg.loopback[i.value]
  }

  predicate EverOnLoopback(cfg: Config, events: seq<Event>, a: word)
    requires cfg.Valid()
  {
    exists i, j :: 0 <= i < |events| && events[i].Dump? && 0 <= j < |events[i].dump|
                   && events[i].dump[j].addr == a && cfg.loopback[events[i].dump[j].iface]
  }

  // ---- The state, seen from one address ----

  function DevOf(s: State, a: word): Option<byte> {
    if a in s.dev then Some(s.dev[a]) else None
  }

  /** The record of the address and the kernel's direct route to it are the same. */
  ghost predicate Unmoved(s: State, t: State, a: word) {
    && (a in s.nodes <==> a in t.nodes) && (a in s.nodes ==> t.nodes[a] == s.nodes[a])
    && DevOf(t, a) == DevOf(s, a)
  }

  /** What a sighting on an interface makes of the record and the route. */
  ghost predicate Met(cfg: Config, s: State, t: State, a: word, i: byte)
    requires cfg.Valid()
  {
    var was := if a in s.nodes then s.nodes[a] else NO_INFO;
    && a in t.nodes && t.nodes[a] == was.(iface := i, scanned := true, deleted := false)
    && DevOf(t, a) == (if (a in s.nodes && !was.deleted && was.iface == i) || cfg.loopback[i]
                       then DevOf(s, a) else Some(i))
  }

  lemma TakenSight(cfg: Config, s: State, n: Neighbour, a: word)
    requires cfg.Valid() && s.Valid()
    ensures var t := Taken(cfg, s, n);
      if a == n.addr
      then DevOf(t, a) == if cfg.loopback[n.iface] then DevOf(s, a) else Some(n.iface)
      else Unmoved(s, t, a)
  {
  }

  lemma GotNeighSight(cfg: Config, s: State, n: Neighbour, a: word)
    requires cfg.Valid() && s.Valid()
    ensures var t := GotNeigh(cfg, s, n);
      if a == n.addr && !Scanned(s, a) then Met(cfg, s, t, a, n.iface) else Unmoved(s, t, a)
  {
    TakenSight(cfg, s, n, a);
  }

  lemma {:induction false} GotAllSight(cfg: Config, s: State, dump: seq<Neighbour>, a: word)
    requires cfg.Valid() && s.Valid()
    ensures var t := GotAll(cfg, s, dump);
      if InDump(dump, a) && !Scanned(s, a) then Met(cfg, s, t, a, SeenOn(dump, a)) else Unmoved(s, t, a)
    decreases |dump|
  {
    if dump == [] {
    } else {
      FirstOf(dump, a);
      GotNeighSight(cfg, s, dump[0], a);
      GotAllSight(cfg, GotNeigh(cfg, s, dump[0]), dump[1..], a);
    }
  }

  /** What the sweep makes of the record and the route of an address in the hash. */
  ghost predicate Swept(s: State, t: State, a: word)
    requires a in s.nodes
  {
    var was := s.nodes[a];
    var gone := !was.scanned && !was.deleted;
    && a in t.nodes && t.nodes[a] == was.(scanned := false, deleted := was.deleted || gone)
    && DevOf(t, a) == if gone && DevOf(s, a) == Some(was.iface) then None else DevOf(s, a)
  }

  lemma SweepOneSight(cfg: Config, s: State, addr: word, a: word)
    requires cfg.Valid() && s.Valid()
    ensures var t := SweepOne(cfg, s, addr);
      if a == addr && a in s.nodes then Swept(s, t, a) else Unmoved(s, t, a)
  {
  }

  lemma {:induction false} SweepSight(cfg: Config, s: State, order: seq<word>, a: word)
    requires cfg.Valid() && s.Valid()
    requires forall i, j :: 0 <= i < j < |order| ==> order[i] != order[j]
    ensures var t := Sweep(cfg, s, order);
      if a in order && a in s.nodes then Swept(s, t, a) else Unmoved(s, t, a)
    decreases |order|
  {
    if order == [] {
    } else {
      SweepOneSight(cfg, s, order[0], a);
      SweepSight(cfg, SweepOne(cfg, s, order[0]), order[1..], a);
      assert a in order <==> a == order[0] || a in order[1..];
    }
  }

  // ---- The other events ----

  /** Only the interface of a deleted record, its level or its priority may change. */
  ghost predicate SameSight(s: State, t: State, a: word) {
    && (a in s.nodes <==> a in t.nodes)
    && (a in s.nodes ==>
          && t.nodes[a].scanned == s.nodes[a].scanned && t.nodes[a].deleted == s.nodes[a].deleted
          && (!s.nodes[a].deleted ==> t.nodes[a].iface == s.nodes[a].iface))
    && DevOf(t, a) == DevOf(s, a)
  }

  lemma {:induction false} NodeRowsSight(cfg: Config, s: State, rows: seq<Row>, from: word, iface: byte, a: word)
    requires cfg.Valid() && s.Valid()
    ensures SameSight(s, NodeRows(cfg, s, rows, from, iface), a)
    decreases |rows|
  {
    if rows == [] {
    } else {
      var t := NodeRow(cfg, s, rows[0], from, iface);
      if t.Some? {
        assert SameSight(s, t.value, a);
        NodeRowsSight(cfg, t.value, rows[1..], from, iface, a);
      }
    }
  }

  lemma {:induction false} AreaRowsSight(cfg: Config, s: State, rows: seq<Row>, from: word, a: word)
    requires cfg.Valid() && s.Valid()
    ensures Unmoved(s, AreaRows(cfg, s, rows, from), a)
    decreases |rows|
  {
    if rows == [] {
    } else {
      var t := AreaRow(cfg, s, rows[0], from);
      if t.Some? { AreaRowsSight(cfg, t.value, rows[1..], from, a); }
    }
  }

  lemma MessageSight(cfg: Config, s: State, e: Event, a: word)
    requires cfg.Valid() && s.Valid() && !e.Dump?
    ensures SameSight(s, Step(cfg, s, e), a)
  {
    match e
    case Level1(from, rows, iface) => NodeRowsSight(cfg, s, rows, from, iface, a);
    case Level2(from, rows) => AreaRowsSight(cfg, SetLevel(s, from, 2, 64, false), rows, from, a);
    case Hello(_, _, _) =>
  }

  // ---- Whole runs ----

  lemma {:induction false} RunLast(cfg: Config, s: State, events: seq<Event>)
    requires cfg.Valid() && s.Valid() && events != []
    ensures Run(cfg, s, events) == Step(cfg, Run(cfg, s, Before(events)), Last(events))
    decreases |events|
  {
    if |events| == 1 {
      assert events[1..] == [] && Before(events) == [];
    } else {
      RunLast(cfg, Step(cfg, s, events[0]), events[1..]);
      assert Before(events)[1..] == Before(events[1..]);
    }
  }

  /** The record of an address and the kernel's direct route to it are as told. */
  ghost predicate SightTold(cfg: Config, s: State, events: seq<Event>, a: word)
    requires cfg.Valid()
  {
    && Consistent(s)
    && (a in s.nodes <==> InSomeDump(events, a))
    && (Scanned(s, a) <==> InFailedDump(false, events, a))
    && (InSight(events, a) <==> a in s.nodes && !s.nodes[a].deleted)
    && (InSight(events, a) ==> LastSeen(events, a) == Some(s.nodes[a].iface))
    && DevOf(s, a) == Direct(cfg, events, a)
    && (InSight(events, a) && !OnLoopback(cfg, LastSeen(events, a)) ==>
          Direct(cfg, events, a) == LastSeen(events, a))
  }

  lemma DumpTold(cfg: Config, s: State, events: seq<Event>, a: word)
    requires cfg.Valid() && s.Valid() && events != [] && Last(events).Dump?
    requires SightTold(cfg, s, Before(events), a)
    requires Consistent(Step(cfg, s, Last(events)))
    requires var t := Step(cfg, s, Last(events));
      (a in t.nodes <==> InSomeDump(events, a)) && (Scanned(t, a) <==> InFailedDump(false, events, a))
    ensures SightTold(cfg, Step(cfg, s, Last(events)), events, a)
  {
    var e := Last(events);
    GotAllSight(cfg, s, e.dump, a);
    if e.complete {
      var t := GotAll(cfg, s, e.dump);
      GotAllMarks(cfg, s, e.dump, a);
      SweepSight(cfg, t, t.order, a);
    }
  }

  lemma {:induction false} RunSight(cfg: Config, events: seq<Event>, a: word)
    requires cfg.Valid()
    ensures SightTold(cfg, Run(cfg, Init(cfg), events), events, a)
    decreases |events|
  {
    RunMarks(cfg, Init(cfg), events, a);
    if events == [] {
    } else {
      RunSight(cfg, Before(events), a);
      RunLast(cfg, Init(cfg), events);
      var s := Run(cfg, Init(cfg), Before(events));
      if Last(events).Dump? {
        DumpTold(cfg, s, events, a);
      } else {
        MessageSight(cfg, s, Last(events), a);
      }
    }
  }

  /** After any run: who is in sight is in the hash and not deleted, and the kernel's
      direct route is the one told by the dumps. */
  lemma DirectTold(cfg: Config, events: seq<Event>, a: word)
    requires cfg.Valid()
    ensures var s := Run(cfg, Init(cfg), events);
      && (InSight(events, a) <==> a in s.nodes && !s.nodes[a].deleted)
      && DevOf(s, a) == Direct(cfg, events, a)
  {
    RunSight(cfg, events, a);
  }

  /** The kernel has a direct route exactly to an address in sight, through the interface
      it was last seen on, and none through a loopback interface. */
  ghost predicate DirectAgrees(cfg: Config, s: State, events: seq<Event>, a: word)
    requires cfg.Valid()
  {
    DevOf(s, a) == if InSight(events, a) && !OnLoopback(cfg, LastSeen(events, a)) then LastSeen(events, a) else None
  }

  /** That holds after a run if and only if the address has not moved to a loopback
      interface: then its old route stays for good. */
  lemma DirectExactly(cfg: Config, events: seq<Event>, a: word)
    requires cfg.Valid()
    ensures DirectAgrees(cfg, Run(cfg, Init(cfg), events), events, a) <==> !MovedToLoopback(cfg, events, a)
  {
    RunSight(cfg, events, a);
    Leftover(cfg, events, a);
  }

  lemma {:induction false} Leftover(cfg: Config, events: seq<Event>, a: word)
    requires cfg.Valid()
    ensures var was := Direct(cfg, events, a);
      if MovedToLoopback(cfg, events, a)
      then was.Some? && !OnLoopback(cfg, was) && OnLoopback(cfg, LastSeen(events, a))
      else was == if InSight(events, a) && !OnLoopback(cfg, LastSeen(events, a)) then LastSeen(events, a) else None
    ensures InSight(events, a) ==> LastSeen(events, a).Some?
    decreases |events|
  {
    if events == [] {
    } else {
      Leftover(cfg, Before(events), a);
    }
  }

  /** An address that no dump ever showed on a loopback interface never moves there. */
  lemma {:induction false} NeverMoved(cfg: Config, events: seq<Event>, a: word)
    requires cfg.Valid() && !EverOnLoopback(cfg, events, a)
    ensures !MovedToLoopback(cfg, events, a) && !OnLoopback(cfg, LastSeen(events, a))
    decreases |events|
  {
    if events == [] {
    } else {
      var before, e := Before(events), Last(events);
      NeverMoved(cfg, before, a);
      if e.Dump? && InDump(e.dump, a) {
        var j := SeenAt(e.dump, a);
        assert events[|events| - 1].Dump? && events[|events| - 1].dump[j].addr == a;
      }
    }
  }

  lemma {:induction false} SeenAt(dump: seq<Neighbour>, a: word) returns (j: nat)
    requires InDump(dump, a)
    ensures j < |dump| && dump[j] == Neighbour(a, SeenOn(dump, a))
  {
    if dump[0].addr == a {
      j := 0;
    } else {
      FirstOf(dump, a);
      j := SeenAt(dump[1..], a);
      j := j + 1;
    }
  }

  /** After any run, the kernel has a direct route to an address that no dump ever showed
      on a loopback interface exactly when it is in the hash and not deleted, and through
      the interface of its latest sighting. */
  lemma DirectRoutes(cfg: Config, events: seq<Event>, a: word)
    requires cfg.Valid() && !EverOnLoopback(cfg, events, a)
    ensures var s := Run(cfg, Init(cfg), events);
      && (a in s.dev <==> a in s.nodes && !s.nodes[a].deleted)
      && (a in s.dev ==> LastSeen(events, a) == Some(s.dev[a]))
  {
    NeverMoved(cfg, events, a);
    DirectExactly(cfg, events, a);
    RunSight(cfg, events, a);
  }
}
