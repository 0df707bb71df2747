/** Mark and sweep over the neighbour hash: what a dump of the neighbours leaves
    marked, and what the sweep after it deletes. */
module NeighbourMarks {
  import opened Bits
  import opened Advert
  import opened Daemon

  predicate InDump(dump: seq<Neighbour>, a: word) {
    exists i :: 0 <= i < |dump| && dump[i].addr == a
  }

  predicate Scanned(s: State, a: word) {
    a in s.nodes && s.nodes[a].scanned
  }

  /** order holds every key exactly once. */
  ghost predicate Enumerates(order: seq<word>, keys: set<word>) {
    && (forall a :: a in order <==> a in keys)
    && forall i, j :: 0 <= i < j < |order| ==> order[i] != order[j]
  }

  /** Nobody is both marked and deleted, and iterating the hash visits everybody once. */
  ghost predicate Consistent(s: State) {
    && (forall a :: a in s.nodes ==> !(s.nodes[a].scanned && s.nodes[a].deleted))
    && Enumerates(s.order, s.nodes.Keys)
  }

  // ---- The order of iteration ----

  lemma {:induction false} PlacedAt(slot: word -> nat, order: seq<word>, a: word) returns (k: nat)
    ensures k <= |order| && Placed(slot, order, a) == order[..k] + [a] + order[k..]
  {
    if order == [] || slot(order[0]) > slot(a) {
      k := 0;
    } else {
      k := PlacedAt(slot, order[1..], a);
      k := k + 1;
      assert order[..k] == [order[0]] + order[1..][..k - 1] && order[k..] == order[1..][k - 1..];
    }
  }

  lemma PlacedEnumerates(slot: word -> nat, order: seq<word>, keys: set<word>, a: word)
    requires Enumerates(order, keys) && a !in keys
    ensures Enumerates(Placed(slot, order, a), keys + {a})
  {
    var k := PlacedAt(slot, order, a);
    InsertEnumerates(order[..k], order[k..], keys, a);
    assert order[..k] + order[k..] == order;
  }

  lemma InsertEnumerates(before: seq<word>, behind: seq<word>, keys: set<word>, a: word)
    requires Enumerates(before + behind, keys) && a !in keys
    ensures Enumerates(before + [a] + behind, keys + {a})
  {
    var order, p, k := before + behind, before + [a] + behind, |before|;
    forall b ensures b in p <==> b in keys + {a} {
      assert b in p <==> b in before || b == a || b in behind;
      assert b in order <==> b in before || b in behind;
    }
    forall i, j | 0 <= i < j < |p| ensures p[i] != p[j] {
      if i != k && j != k {
        assert order[if i < k then i else i - 1] != order[if j < k then j else j - 1];
      } else {
        assert p[if i == k then j else i] in order;
      }
    }
  }

  // ---- One dump ----

  lemma GotNeighMarks(cfg: Config, s: State, n: Neighbour)
    requires cfg.Valid() && s.Valid() && Consistent(s)
    ensures var t := GotNeigh(cfg, s, n);
      && Consistent(t) && Scanned(t, n.addr) && !t.nodes[n.addr].deleted
      && t.nodes.Keys == s.nodes.Keys + {n.addr}
      && forall a :: a in s.nodes && a != n.addr ==> t.nodes[a] == s.nodes[a]
  {
    if n.addr !in s.nodes { PlacedEnumerates(cfg.slot, s.order, s.nodes.Keys, n.addr); }
    assert GotNeigh(cfg, s, n).nodes.Keys == s.nodes.Keys + {n.addr};
  }

  lemma {:induction false} GotAllMarks(cfg: Config, s: State, dump: seq<Neighbour>, a: word)
    requires cfg.Valid() && s.Valid() && Consistent(s)
    ensures var t := GotAll(cfg, s, dump);
      && Consistent(t)
      && (a in t.nodes <==> a in s.nodes || InDump(dump, a))
      && (InDump(dump, a) ==> Scanned(t, a) && !t.nodes[a].deleted)
      && (!InDump(dump, a) && a in s.nodes ==>
            t.nodes[a].scanned == s.nodes[a].scanned && t.nodes[a].deleted == s.nodes[a].deleted)
    decreases |dump|
  {
    if dump == [] {
    } else {
      GotNeighMarks(cfg, s, dump[0]);
      GotAllMarks(cfg, GotNeigh(cfg, s, dump[0]), dump[1..], a);
      FirstOf(dump, a);
    }
  }

  lemma FirstOf(dump: seq<Neighbour>, a: word)
    requires dump != []
    ensures InDump(dump, a) <==> dump[0].addr == a || InDump(dump[1..], a)
  {
    if InDump(dump[1..], a) {
      var i :| 0 <= i < |dump| - 1 && dump[1..][i].addr == a;
      assert dump[i + 1].addr == a;
    }
    if InDump(dump, a) && dump[0].addr != a {
      var i :| 0 <= i < |dump| && dump[i].addr == a;
      assert dump[1..][i - 1].addr == a;
    }
  }

  // ---- The sweep ----

  lemma SweepOneMarks(cfg: Config, s: State, addr: word)
    requires cfg.Valid() && s.Valid() && Consistent(s)
    ensures var t := SweepOne(cfg, s, addr);
      && Consistent(t) && t.nodes.Keys == s.nodes.Keys && t.order == s.order
      && (addr in s.nodes ==> !t.nodes[addr].scanned && t.nodes[addr].deleted == !s.nodes[addr].scanned)
      && forall a :: a in s.nodes && a != addr ==> t.nodes[a] == s.nodes[a]
  {
  }

  lemma {:induction false} SweepMarks(cfg: Config, s: State, order: seq<word>, a: word)
    requires cfg.Valid() && s.Valid() && Consistent(s)
    requires forall i, j :: 0 <= i < j < |order| ==> order[i] != order[j]
    ensures var t := Sweep(cfg, s, order);
      && Consistent(t) && t.nodes.Keys == s.nodes.Keys
      && (a in s.nodes && a !in order ==> t.nodes[a] == s.nodes[a])
      && (a in s.nodes && a in order ==> !t.nodes[a].scanned && t.nodes[a].deleted == !s.nodes[a].scanned)
    decreases |order|
  {
    if order == [] {
    } else {
      SweepOneMarks(cfg, s, order[0]);
      SweepMarks(cfg, SweepOne(cfg, s, order[0]), order[1..], a);
    }
  }

  /** After a complete dump no entry is marked, and an entry is deleted exactly when
      its address is neither in the dump nor still marked from before. */
  lemma MarkAndSweep(cfg: Config, s: State, dump: seq<Neighbour>, a: word)
    requires cfg.Valid() && s.Valid() && Consistent(s)
    ensures var t := Step(cfg, s, Dump(dump, true));
      && Consistent(t) && (a in t.nodes <==> a in s.nodes || InDump(dump, a))
      && (a in t.nodes ==>
            !t.nodes[a].scanned && (t.nodes[a].deleted <==> !InDump(dump, a) && !Scanned(s, a)))
  {
    GotAllMarks(cfg, s, dump, a);
    SweepMarks(cfg, GotAll(cfg, s, dump), GotAll(cfg, s, dump).order, a);
  }

  // ---- All other events ----

  ghost predicate SameMarks(s: State, t: State) {
    && t.nodes.Keys == s.nodes.Keys && t.order == s.order
    && forall a :: a in s.nodes ==> t.nodes[a].scanned == s.nodes[a].scanned && t.nodes[a].deleted == s.nodes[a].deleted
  }

  lemma {:induction false} RowsMarks(cfg: Config, s: State, rows: seq<Row>, from: word, iface: byte)
    requires cfg.Valid() && s.Valid()
    ensures SameMarks(s, NodeRows(cfg, s, rows, from, iface))
    decreases |rows|
  {
    if rows == [] {
    } else {
      var t := NodeRow(cfg, s, rows[0], from, iface);
      if t.Some? {
        assert SameMarks(s, t.value);
        RowsMarks(cfg, t.value, rows[1..], from, iface);
      }
    }
  }

  lemma {:induction false} AreaRowsMarks(cfg: Config, s: State, rows: seq<Row>, from: word)
    requires cfg.Valid() && s.Valid()
    ensures SameMarks(s, AreaRows(cfg, s, rows, from))
    decreases |rows|
  {
    if rows == [] {
    } else {
      var t := AreaRow(cfg, s, rows[0], from);
      if t.Some? { AreaRowsMarks(cfg, t.value, rows[1..], from); }
    }
  }

  /** Only dumps touch the marks. */
  lemma OnlyDumpsMark(cfg: Config, s: State, e: Event)
    requires cfg.Valid() && s.Valid() && !e.Dump?
    ensures SameMarks(s, Step(cfg, s, e))
  {
    match e
    case Level1(from, rows, iface) => RowsMarks(cfg, s, rows, from, iface);
    case Level2(from, rows) => AreaRowsMarks(cfg, SetLevel(s, from, 2, 64, false), rows, from);
    case Hello(_, _, _) =>
  }

  // ---- Whole runs ----

  /** Whether an address is in a dump that failed after the last complete one. */
  predicate InFailedDump(before: bool, events: seq<Event>, a: word)
    decreases |events|
  {
    if events == [] then before
    else
      var now := match events[0]
        case Dump(dump, complete) => !complete && (before || InDump(dump, a))
        case _ => before;
      InFailedDump(now, events[1..], a)
  }

  predicate InSomeDump(events: seq<Event>, a: word) {
    exists i :: 0 <= i < |events| && events[i].Dump? && InDump(events[i].dump, a)
  }

  lemma StepMarks(cfg: Config, s: State, e: Event, a: word)
    requires cfg.Valid() && s.Valid() && Consistent(s)
    ensures var t := Step(cfg, s, e);
      && Consistent(t)
      && (a in t.nodes <==> a in s.nodes || (e.Dump? && InDump(e.dump, a)))
      && (Scanned(t, a) <==> match e
            case Dump(dump, complete) => !complete && (Scanned(s, a) || InDump(dump, a))
            case _ => Scanned(s, a))
  {
    if e.Dump? {
      GotAllMarks(cfg, s, e.dump, a);
      if e.complete { MarkAndSweep(cfg, s, e.dump, a); }
    } else {
      OnlyDumpsMark(cfg, s, e);
    }
  }

  lemma {:induction false} RunMarks(cfg: Config, s: State, events: seq<Event>, a: word)
    requires cfg.Valid() && s.Valid() && Consistent(s)
    ensures var t := Run(cfg, s, events);
      && Consistent(t)
      && (a in t.nodes <==> a in s.nodes || InSomeDump(events, a))
      && (Scanned(t, a) <==> InFailedDump(Scanned(s, a), events, a))
    decreases |events|
  {
    if events == [] {
    } else {
      StepMarks(cfg, s, events[0], a);
      RunMarks(cfg, Step(cfg, s, events[0]), events[1..], a);
      FirstEvent(events, a);
    }
  }

  lemma FirstEvent(events: seq<Event>, a: word)
    requires events != []
    ensures InSomeDump(events, a) <==> (events[0].Dump? && InDump(events[0].dump, a)) || InSomeDump(events[1..], a)
  {
    if InSomeDump(events[1..], a) {
      var i :| 0 <= i < |events| - 1 && events[1..][i].Dump? && InDump(events[1..][i].dump, a);
      assert events[i + 1] == events[1..][i];
    }
    if InSomeDump(events, a) {
      var i :| 0 <= i < |events| && events[i].Dump? && InDump(events[i].dump, a);
      if i > 0 { assert events[1..][i - 1] == events[i]; }
    }
  }

  /** Over any run: the hash holds everybody ever seen; after each complete dump an
      entry is deleted exactly when its address was neither in that dump nor in a
      dump that failed since the complete one before. */
  lemma DeletedIffAbsent(cfg: Config, events: seq<Event>, dump: seq<Neighbour>, a: word)
    requires cfg.Valid()
    ensures var t := Step(cfg, Run(cfg, Init(cfg), events), Dump(dump, true));
      && (a in t.nodes <==> InSomeDump(events, a) || InDump(dump, a))
      && (a in t.nodes ==>
            && !t.nodes[a].scanned
            && (t.nodes[a].deleted <==> !InDump(dump, a) && !InFailedDump(false, events, a)))
  {
    RunMarks(cfg, Init(cfg), events, a);
    MarkAndSweep(cfg, Run(cfg, Init(cfg), events), dump, a);
  }

  // ---- A run that fails ----

  /** A neighbour is seen in a dump that fails half-way and is gone in the complete one
      that follows: it is not deleted. The dump after that deletes it. */
  lemma FailedDumpSpares(cfg: Config, a: word, iface: byte) returns (events: seq<Event>)
    requires cfg.Valid()
    ensures events == [Dump([Neighbour(a, iface)], false)]
    ensures var t := Step(cfg, Run(cfg, Init(cfg), events), Dump([], true));
      a in t.nodes && !t.nodes[a].deleted
    ensures var t := Step(cfg, Run(cfg, Init(cfg), events + [Dump([], true)]), Dump([], true));
      a in t.nodes && t.nodes[a].deleted
  {
    var seen, empty := [Neighbour(a, iface)], Dump([], true);
    events := [Dump(seen, false)];
    assert InDump(seen, a) by { assert seen[0].addr == a; }
    assert InSomeDump(events, a) by { assert events[0].Dump? && InDump(events[0].dump, a); }
    assert InFailedDump(true, [], a);
    assert InFailedDump(false, events, a);
    DeletedIffAbsent(cfg, events, [], a);
    var more := events + [empty];
    assert InSomeDump(more, a) by { assert more[0].Dump? && InDump(more[0].dump, a); }
    assert more[1..] == [empty] && [empty][1..] == [];
    assert !InFailedDump(true, [empty], a) by { assert !InFailedDump(false, [], a); }
    assert !InFailedDump(false, more, a);
    DeletedIffAbsent(cfg, more, [], a);
  }
}
