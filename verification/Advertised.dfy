/** From one daemon to the next: the packets of an advertisement are received as the
    messages of their sender, and leave behind the routes its table stands for. */
module Advertised {
  import opened Bits
  import opened Wrappers
  import opened Csum
  import opened Advert
  import opened RouteChain
  import opened Daemon
  import opened NeighbourMarks
  import opened Sightings
  import opened Hearsay

  /** The types of the two kinds of advertisement. */
  const LEVEL1: byte := 0x07
  const LEVEL2: byte := 0x09

  function AddrOf(addr: seq<byte>): word
    requires |addr| == 2
  {
    addr[0] as nat + 256 * addr[1] as nat
  }

  // ---- Packets ----

  lemma KindIs(b: seq<byte>)
    requires |b| == RECEIVE
    ensures KindOf(b) == b[2] / 2 % 8
  {
    var x: nat := b[2];
    EvenMask(x, 7);
    assert Pow2(3) == 8;
    AndMask(x / 2, 3);
  }

  /** A packet of an advertisement is received as a message of its sender with the rows
      of its part of the table, whatever stands in the buffer behind it. Level 1 messages
      of other areas are ignored. */
  lemma PacketReceived(cfg: Config, b: seq<byte>, len: nat, iface: byte, kind: byte, addr: seq<byte>,
                       table: seq<Entry>, start: nat, end: nat)
    requires cfg.Valid() && Received(b, len) && |addr| == 2 && start < end <= |table| < U16
    requires Advert.Carries(b[..len], kind, addr, table, start, end) && (kind == LEVEL1 || kind == LEVEL2)
    ensures Readable(cfg, b, len)
    ensures MessageOf(cfg, b, len, iface)
         == if kind == LEVEL2 then Some(Level2(AddrOf(addr), TableRows(table, start, end)))
            else if AreaOf(AddrOf(addr)) == cfg.area then Some(Level1(AddrOf(addr), TableRows(table, start, end), iface))
            else None
  {
    BufferHeard(b, len, kind, addr, table, start, end);
    KindIs(b);
    var p := b[..len];
    assert p[2] == b[2] && p[3] == b[3] && p[4] == b[4];
  }

  /** A hello: address, priority, and a node type of 1 for a level 2 router, of 2 for a
      level 1 router and of 3 for an end node. */
  lemma HelloReceived(cfg: Config, b: seq<byte>, len: nat, iface: byte)
    requires cfg.Valid() && Received(b, len) && b[2] / 2 % 8 == 5
    ensures Readable(cfg, b, len)
    ensures MessageOf(cfg, b, len, iface) == Some(Hello(b[10] as nat + 256 * b[11] as nat, 3 - b[12] % 4, b[15]))
  {
    KindIs(b);
    LowMasks(b[12]);
  }

  /** Routes are taken only when their checksum is right, level 1 routes also only from our
      own area; hellos always are, and nothing else. */
  lemma PacketTaken(cfg: Config, b: seq<byte>, len: nat, iface: byte)
    requires cfg.Valid() && Received(b, len) && Readable(cfg, b, len)
    ensures var kind, sound := b[2] / 2 % 8, len >= 2 && Checksum(Words(b, 6, len - 2)) == WordAt(b, len - 2);
      MessageOf(cfg, b, len, iface).Some?
      <==> kind == 5 || (kind == 4 && sound) || (kind == 3 && sound && b[4] / 4 == cfg.area)
  {
    KindIs(b);
    AreaByte(b);
  }

  lemma AreaByte(b: seq<byte>)
    requires |b| > 4
    ensures AreaOf(WordAt(b, 3)) == b[4] / 4
  {
  }

  lemma FirstWord(s: seq<byte>, start: nat, n: nat)
    requires n > 0 && start + 2 * n <= |s|
    ensures Words(s, start, start + 2 * n) == [WordAt(s, start)] + Words(s, start + 2, start + 2 + 2 * (n - 1))
  {
  }

  lemma {:induction false} WordsChanged(s: seq<byte>, t: seq<byte>, start: nat, n: nat, k: nat)
    requires |t| == |s| && start + 2 * n <= |s| && k < n
    requires forall j :: 0 <= j < |s| && j != start + 2 * k && j != start + 2 * k + 1 ==> t[j] == s[j]
    ensures var ws := Words(s, start, start + 2 * n);
      && k < |ws| && ws[k] == WordAt(s, start + 2 * k)
      && Words(t, start, start + 2 * n) == ws[k := WordAt(t, start + 2 * k)]
    decreases n
  {
    FirstWord(s, start, n);
    FirstWord(t, start, n);
    if k == 0 {
      SameWords(s, t, start + 2, n - 1);
    } else {
      WordsChanged(s, t, start + 2, n - 1, k - 1);
    }
  }

  /** One byte of the announced routes damaged on the way: the packet is ignored, whatever
      the damage. */
  lemma DamageIgnored(cfg: Config, b: seq<byte>, len: nat, iface: byte, i: nat, x: byte)
    requires cfg.Valid() && Received(b, len) && len % 2 == 0 && 6 <= i < len - 2 && x != b[i]
    requires ChecksumOk(b, len) && b[2] / 2 % 8 in {3, 4}
    ensures Received(b[i := x], len) && Readable(cfg, b[i := x], len)
    ensures MessageOf(cfg, b[i := x], len, iface) == None
  {
    var c, n, k := b[i := x], (len - 8) / 2, (i - 6) / 2;
    assert len - 2 == 6 + 2 * n;
    WordsChanged(b, c, 6, n, k);
    var ws := Words(b, 6, len - 2);
    OtherWord(b, i, x, 6 + 2 * k);
    OneWordDamaged(ws, k, WordAt(c, 6 + 2 * k));
    KindIs(c);
    if KindOf(c) == 3 || KindOf(c) == 4 { assert !ChecksumOk(c, len); }
  }

  /** One byte changed does not turn all zeros into all ones. */
  lemma OtherWord(b: seq<byte>, i: nat, x: byte, at: nat)
    requires at <= i <= at + 1 < |b| && x != b[i]
    ensures var v, w := WordAt(b, at), WordAt(b[i := x], at); v != w && {v, w} != {0, 0xFFFF}
  {
    var v, w := WordAt(b, at), WordAt(b[i := x], at);
    assert v in {v, w} && w in {v, w};
  }

  // ---- What a table announces ----

  /** An entry that gets across: it is valid and its cost does not end in all ones. */
  predicate Told(table: seq<Entry>, id: nat, start: nat, end: nat) {
    0 < id && start <= id < end <= |table| && table[id].valid && table[id].cost % 256 != 255
  }

  lemma {:induction false} RowsAnnounce(table: seq<Entry>, start: nat, end: nat, max: nat, id: nat)
    requires start <= end <= |table| && end <= max + 1
    ensures Announced(TableRows(table, start, end), max, id)
         == if Told(table, id, start, end) then Some(EntryWord(table[id])) else None
    decreases end - start
  {
    if start == end {
    } else {
      var rows := TableRows(table, start, end);
      assert rows[0] == RowOf(table, start) && rows[1..] == TableRows(table, start + 1, end);
      RowsAnnounce(table, start + 1, end, max, id);
      EntryReadBack(table[start]);
      ReadWord(EntryWord(table[start]));
    }
  }

  lemma ToldSplit(table: seq<Entry>, id: nat, start: nat, end: nat, num: nat)
    requires start <= end <= num <= |table|
    ensures Told(table, id, start, num) <==> Told(table, id, start, end) || Told(table, id, end, num)
    ensures Told(table, id, start, end) ==> !Told(table, id, end, num)
  {
  }

  /** Cost and hops as the receiver reads them: the lower nine bits of the cost; twice the
      hops, with the tenth bit of the cost below. */
  lemma WordNumbers(e: Entry)
    requires e.valid
    ensures EntryWord(e) % 512 == e.cost % 512
    ensures EntryWord(e) / 512 % 64 == e.cost / 512 % 2 + 2 * (e.hops % 32)
  {
    WordOf(e);
    ReadFields(e.cost, e.hops, EntryWord(e));
  }

  // ---- A whole advertisement ----

  function Level1Events(from: word, iface: byte, chunks: seq<seq<Row>>): seq<Event> {
    seq(|chunks|, (k: nat) requires k < |chunks| => Level1(from, chunks[k], iface))
  }

  function Level2Events(from: word, chunks: seq<seq<Row>>): seq<Event> {
    seq(|chunks|, (k: nat) requires k < |chunks| => Level2(from, chunks[k]))
  }

  lemma OneMore(cfg: Config, events: seq<Event>, e: Event, a: word)
    requires cfg.Valid() && !e.Dump?
    ensures Before(events + [e]) == events && Last(events + [e]) == e
    ensures InSight(events + [e], a) <==> InSight(events, a)
    ensures InSomeDump(events + [e], a) <==> InSomeDump(events, a)
  {
    var all := events + [e];
    assert Before(all) == events;
    forall i | 0 <= i < |all| && all[i].Dump? && InDump(all[i].dump, a) ensures InSomeDump(events, a) {
      assert events[i].Dump? && InDump(events[i].dump, a);
    }
    if InSomeDump(events, a) {
      var i :| 0 <= i < |events| && events[i].Dump? && InDump(events[i].dump, a);
      assert all[i].Dump? && InDump(all[i].dump, a);
    }
  }

  /** The first packet of an advertisement and those after it. */
  lemma FirstPacket(table: seq<Entry>, start: nat, num: nat, n: nat) returns (end: nat)
    requires start < num <= |table| && n > 0
    ensures start < end <= num
    ensures var chunks := ChunkRows(table, start, num, n);
      chunks[0] == TableRows(table, start, end) && chunks[1..] == ChunkRows(table, end, num, n)
  {
    end := if start + n > num then num else start + n;
  }

  lemma FirstMessage(events: seq<Event>, more: seq<Event>)
    requires more != []
    ensures events + more == events + [more[0]] + more[1..]
  {
  }

  /** The route to an own-area node that an advertised entry stands for. */
  function NodeLearned(cfg: Config, e: Entry, from: word, iface: byte, priority: byte): Route
    requires cfg.Valid()
  {
    Route(from, e.cost % 512 + cfg.cost[iface], e.cost / 512 % 2 + 2 * (e.hops % 32) + 1, priority, true)
  }

  /** The priority a route through a router gets: that of the router, if it is known, or
      else the one it had. */
  function RouterPriority(cfg: Config, events: seq<Event>, id: nat, from: word): byte
    requires cfg.Valid() && id < 1024
  {
    if InSomeDump(events, from) then PriorityTold(events, from)
    else if NodeTold(cfg, events, id, from).Some? then NodeTold(cfg, events, id, from).value.priority else 0
  }

  lemma NodePacket(cfg: Config, events: seq<Event>, table: seq<Entry>, start: nat, end: nat,
                   from: word, iface: byte, id: nat)
    requires cfg.Valid() && start <= end <= |table| && end <= 1024 && id < 1024
    requires AreaOf(from) == cfg.area && !InSight(events, Own(cfg, id))
    ensures var more := events + [Level1(from, TableRows(table, start, end), iface)];
      && NodeTold(cfg, more, id, from)
         == (if Told(table, id, start, end)
             then Some(NodeLearned(cfg, table[id], from, iface, RouterPriority(cfg, events, id, from)))
             else NodeTold(cfg, events, id, from))
      && RouterPriority(cfg, more, id, from) == RouterPriority(cfg, events, id, from)
      && !InSight(more, Own(cfg, id))
  {
    var e := Level1(from, TableRows(table, start, end), iface);
    OneMore(cfg, events, e, Own(cfg, id));
    OneMore(cfg, events, e, from);
    RowsAnnounce(table, start, end, 1023, id);
    if Told(table, id, start, end) { WordNumbers(table[id]); }
  }

  /** After all packets of a level 1 advertisement have come in on an interface, there is a
      route through its sender to every node that is not in sight and whose entry gets
      across, at the lower nine bits of the advertised cost and the cost of the interface;
      nothing else is learned. */
  lemma {:induction false} NodesLearned(cfg: Config, events: seq<Event>, table: seq<Entry>, start: nat, num: nat, n: nat,
                                        from: word, iface: byte, id: nat)
    requires cfg.Valid() && start <= num <= |table| && num <= 1024 && n > 0 && id < 1024
    requires AreaOf(from) == cfg.area && !InSight(events, Own(cfg, id))
    ensures NodeTold(cfg, events + Level1Events(from, iface, ChunkRows(table, start, num, n)), id, from)
         == if Told(table, id, start, num)
            then Some(NodeLearned(cfg, table[id], from, iface, RouterPriority(cfg, events, id, from)))
            else NodeTold(cfg, events, id, from)
    decreases num - start
  {
    var more := Level1Events(from, iface, ChunkRows(table, start, num, n));
    if start == num {
      assert events + more == events;
    } else {
      var end := FirstPacket(table, start, num, n);
      NodePacket(cfg, events, table, start, end, from, iface, id);
      NodesLearned(cfg, events + [more[0]], table, end, num, n, from, iface, id);
      ToldSplit(table, id, start, end, num);
      FirstMessage(events, more);
      assert more[1..] == Level1Events(from, iface, ChunkRows(table, end, num, n));
    }
  }

  /** The route to an area that an advertised entry stands for. */
  function AreaLearned(e: Entry, from: word, cost: byte, priority: byte): Route {
    var hops: word := e.cost / 512 % 2 + 2 * (e.hops % 32);
    Route(from, e.cost % 512 + cost, if hops == 0 then 1 else hops, priority, true)
  }

  function RaisedPriority(events: seq<Event>, from: word): byte {
    if PriorityTold(events, from) == 0 then 64 else PriorityTold(events, from)
  }

  /** What any level 2 message of a router that was seen before adds to what has been told. */
  lemma Level2Heard(cfg: Config, events: seq<Event>, rows: seq<Row>, from: word, area: nat)
    requires cfg.Valid() && area < 64 && InSomeDump(events, from)
    ensures var more, told := events + [Level2(from, rows)], Announced(rows, 63, area);
      && AreaTold(cfg, more, area, from)
         == (if told.Some?
             then Some(AreaRoute(told.value, from, cfg.cost[IfaceTold(cfg, events, from)], RaisedPriority(events, from)))
             else AreaTold(cfg, events, area, from))
      && IfaceTold(cfg, more, from) == IfaceTold(cfg, events, from) && InSomeDump(more, from)
      && RaisedPriority(more, from) == RaisedPriority(events, from)
  {
    OneMore(cfg, events, Level2(from, rows), from);
  }

  lemma RouteLearned(e: Entry, from: word, cost: byte, priority: byte)
    requires e.valid
    ensures AreaRoute(EntryWord(e), from, cost, priority) == AreaLearned(e, from, cost, priority)
  {
    WordNumbers(e);
  }

  lemma AreaPacket(cfg: Config, events: seq<Event>, table: seq<Entry>, start: nat, end: nat, from: word, area: nat)
    requires cfg.Valid() && start <= end <= |table| && end <= 64 && area < 64 && InSomeDump(events, from)
    ensures var more := events + [Level2(from, TableRows(table, start, end))];
      && AreaTold(cfg, more, area, from)
         == (if Told(table, area, start, end)
             then Some(AreaLearned(table[area], from, cfg.cost[IfaceTold(cfg, events, from)], RaisedPriority(events, from)))
             else AreaTold(cfg, events, area, from))
      && IfaceTold(cfg, more, from) == IfaceTold(cfg, events, from) && InSomeDump(more, from)
      && RaisedPriority(more, from) == RaisedPriority(events, from)
  {
    Level2Heard(cfg, events, TableRows(table, start, end), from, area);
    RowsAnnounce(table, start, end, 63, area);
    if Told(table, area, start, end) {
      RouteLearned(table[area], from, cfg.cost[IfaceTold(cfg, events, from)], RaisedPriority(events, from));
    }
  }

  /** The same for the areas a level 2 router that was seen before advertises. */
  lemma {:induction false} AreasLearned(cfg: Config, events: seq<Event>, table: seq<Entry>, start: nat, num: nat, n: nat,
                                        from: word, area: nat)
    requires cfg.Valid() && start <= num <= |table| && num <= 64 && n > 0 && area < 64 && InSomeDump(events, from)
    ensures AreaTold(cfg, events + Level2Events(from, ChunkRows(table, start, num, n)), area, from)
         == if Told(table, area, start, num)
            then Some(AreaLearned(table[area], from, cfg.cost[IfaceTold(cfg, events, from)], RaisedPriority(events, from)))
            else AreaTold(cfg, events, area, from)
    decreases num - start
  {
    var more := Level2Events(from, ChunkRows(table, start, num, n));
    if start == num {
      assert events + more == events;
    } else {
      var end := FirstPacket(table, start, num, n);
      AreaPacket(cfg, events, table, start, end, from, area);
      AreasLearned(cfg, events + [more[0]], table, end, num, n, from, area);
      ToldSplit(table, area, start, end, num);
      FirstMessage(events, more);
      assert more[1..] == Level2Events(from, ChunkRows(table, end, num, n));
    }
  }
}
