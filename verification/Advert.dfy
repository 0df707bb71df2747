/** Routing advertisements: cutting the node or area table into packets that fit
    the interface, and the receiver's walk over such a packet. */
module Advert {
  import opened Bits
  import opened Wrappers
  import opened Csum

  const PACKET := 1600

  datatype Entry = Entry(valid: bool, cost: word, hops: word)

  /** A range of table entries, and an entry on the wire with the id it is for. */
  datatype Span = Span(start: nat, end: nat)
  datatype Row = Row(id: nat, entry: word)

  function Low(n: nat): byte { n % 256 }

  function High(n: nat): byte { n / 256 % 256 }

  /** The two bytes sent for an entry. */
  function EntryBytes(e: Entry): (b: seq<byte>)
    ensures |b| == 2
  {
    if e.valid then
      [Low(e.cost), Or(e.hops * 4, And(e.cost / 256, 3)) % 256]
    else
      [0xFF, 0x7F]
  }

  function EntryWord(e: Entry): word {
    WordAt(EntryBytes(e), 0)
  }

  /** The entry whose bytes stand at i. */
  predicate Holds(p: seq<byte>, i: nat, e: Entry) {
    i + 1 < |p| && p[i] == EntryBytes(e)[0] && p[i + 1] == EntryBytes(e)[1]
  }

  predicate HeaderIs(p: seq<byte>, kind: byte, addr: seq<byte>, start: nat, n: nat)
    requires |addr| == 2
  {
    && |p| >= 10
    && p[2] == kind && p[3] == addr[0] && p[4] == addr[1] && p[5] == 0
    && p[6] == Low(n) && p[7] == High(n) && p[8] == Low(start) && p[9] == High(start)
  }

  /** A packet that carries the entries from start to end and checks out. */
  ghost predicate Carries(p: seq<byte>, kind: byte, addr: seq<byte>, table: seq<Entry>, start: nat, end: nat)
    requires |addr| == 2 && start <= end <= |table|
  {
    && |p| == 12 + 2 * (end - start)
    && p[0] == Low(|p| - 2) && p[1] == High(|p| - 2)
    && HeaderIs(p, kind, addr, start, end - start)
    && (forall k :: start <= k < end ==> Holds(p, 10 + 2 * (k - start), table[k]))
    && ChecksumOk(p, |p|)
  }

  /** The receiver's test of the first len bytes of its buffer. */
  predicate ChecksumOk(p: seq<byte>, len: nat)
    requires 2 <= len <= |p|
  {
    Checksum(Words(p, 6, len - 2)) == WordAt(p, len - 2)
  }

  lemma {:induction false} SameWords(s: seq<byte>, t: seq<byte>, start: nat, n: nat)
    requires start + 2 * n <= |s| && start + 2 * n <= |t|
    requires forall k :: start <= k < start + 2 * n ==> s[k] == t[k]
    ensures Words(s, start, start + 2 * n) == Words(t, start, start + 2 * n)
    decreases n
  {
    if n == 0 {
    } else {
      SameWords(s, t, start + 2, n - 1);
    }
  }

  /** Builds and sends one packet; the caller keeps the range small enough for the
      packet buffer. */
  method SendRoutingMessage(kind: byte, addr: seq<byte>, table: seq<Entry>, start: nat, end: nat)
    returns (sent: seq<byte>)
    requires |addr| == 2 && start <= end <= |table| && 12 + 2 * (end - start) <= PACKET
    ensures Carries(sent, kind, addr, table, start, end)
  {
    var packet := new byte[PACKET](_ => 0);
    FillHeader(packet, kind, addr, start, end);
    var i := FillBody(packet, table, start, end);
    ghost var before := packet[..];
    i := Finish(packet, i, end - start + 2);
    sent := packet[..i];
    Sealed(before, sent, kind, addr, table, start, end);
  }

  lemma Sealed(before: seq<byte>, p: seq<byte>, kind: byte, addr: seq<byte>, table: seq<Entry>, start: nat, end: nat)
    requires |addr| == 2 && start <= end <= |table| && |p| == 12 + 2 * (end - start) <= |before|
    requires HeaderIs(before, kind, addr, start, end - start)
    requires forall k :: start <= k < end ==> Holds(before, 10 + 2 * (k - start), table[k])
    requires forall k :: 2 <= k < |p| - 2 ==> p[k] == before[k]
    requires p[0] == Low(|p| - 2) && p[1] == High(|p| - 2) && ChecksumOk(p, |p|)
    ensures Carries(p, kind, addr, table, start, end)
  {
    forall k | start <= k < end ensures Holds(p, 10 + 2 * (k - start), table[k]) {
      assert Holds(before, 10 + 2 * (k - start), table[k]);
    }
  }

  method FillHeader(packet: array<byte>, kind: byte, addr: seq<byte>, start: nat, end: nat)
    requires packet.Length >= 10 && |addr| == 2 && start <= end
    modifies packet
    ensures HeaderIs(packet[..], kind, addr, start, end - start)
  {
    packet[0], packet[1], packet[2] := 0, 0, kind;
    packet[3], packet[4], packet[5] := addr[0], addr[1], 0;
    packet[6], packet[7] := Low(end - start), High(end - start);
    packet[8], packet[9] := Low(start), High(start);
  }

  method FillBody(packet: array<byte>, table: seq<Entry>, start: nat, end: nat) returns (i: nat)
    requires start <= end <= |table| && 12 + 2 * (end - start) <= packet.Length
    modifies packet
    ensures i == 10 + 2 * (end - start)
    ensures forall k :: start <= k < end ==> Holds(packet[..], 10 + 2 * (k - start), table[k])
    ensures forall k :: 0 <= k < 10 ==> packet[k] == old(packet[k])
  {
    i := 10;
    var j := start;
    while j < end
      invariant start <= j <= end && i == 10 + 2 * (j - start)
      invariant forall k :: start <= k < j ==> Holds(packet[..], 10 + 2 * (k - start), table[k])
      invariant forall k :: 0 <= k < 10 ==> packet[k] == old(packet[k])
    {
      if table[j].valid {
        packet[i] := Low(table[j].cost);
        packet[i + 1] := Or(table[j].hops * 4, And(table[j].cost / 256, 3)) % 256;
      } else {
        packet[i] := 0xFF;
        packet[i + 1] := 0x7F;
      }
      i := i + 2;
      j := j + 1;
    }
  }

  /** Appends the checksum over n words and fills in the length. */
  method Finish(packet: array<byte>, end: nat, ghost n: nat) returns (i: nat)
    requires end == 6 + 2 * n && n >= 2 && end + 2 <= packet.Length
    modifies packet
    ensures i == end + 2 && packet[0] == Low(i - 2) && packet[1] == High(i - 2)
    ensures forall k :: 2 <= k < end ==> packet[k] == old(packet[k])
    ensures ChecksumOk(packet[..i], i)
  {
    i := end;
    var sum := RouteCsum(packet, 6, i);
    ghost var before := packet[..];
    packet[i], packet[i + 1] := Low(sum), High(sum);
    i := i + 2;
    packet[0], packet[1] := Low(i - 2), High(i - 2);
    SameWords(before, packet[..i], 6, n);
    LowHigh(sum);
    assert WordAt(packet[..i], i - 2) == sum;
  }

  lemma LowHigh(n: nat)
    requires n < U16
    ensures Low(n) as nat + 256 * High(n) as nat == n
  {
  }

  // ---- Splitting ----

  /** How many nodes the source puts into a packet: C division, then a 16-bit mask,
      then a cap. */
  function PerPacket(mtu: nat): (n: nat)
    ensures n <= 256
  {
    var half := if mtu >= 32 then (mtu - 32) / 2 else -((32 - mtu) / 2);
    var n := And(half % U32, 0xFFC0);
    if n > 256 then 256 else n
  }

  lemma MaskFFC0(x: nat)
    ensures And(x, 0xFFC0) == x / 64 % 1024 * 64
  {
    assert Pow2(8) == 256 && Pow2(10) == 1024;
    SixPlaces(1023);
    SixPlaces(x);
    SixPlaces(And(x / 64, 1023));
    AndShifted(x, 1023, 6);
    AndMask(x / 64, 10);
  }

  /** Packets make progress exactly when the halved room, cut to 16 bits, holds a
      block of 64: an interface with room for none loops for ever, and so does a
      huge one whose room has only zeros in those bits. */
  lemma Progress(mtu: nat)
    requires mtu < 0x8000_0000
    ensures PerPacket(mtu) > 0 <==> mtu <= 30 || (mtu >= 32 && (mtu - 32) / 2 % U16 >= 64)
    ensures mtu >= 32 ==> 2 * PerPacket(mtu) <= mtu - 32
    ensures mtu <= 30 ==> PerPacket(mtu) == 256
  {
    if mtu >= 32 {
      var half := (mtu - 32) / 2;
      MaskFFC0(half % U32);
      MaskedRoom(half);
    } else {
      var half: int := (32 - mtu) / 2;
      MaskFFC0((-half) % U32);
      NegativeRoom(half);
    }
  }

  lemma NegativeRoom(half: int)
    requires 0 <= half <= 16
    ensures (-half) % U32 / 64 % 1024 == if half == 0 then 0 else 1023
  {
    if half > 0 {
      ModUnique(-half, U32, -1, U32 - half);
      ModUnique(U32 - half, 64, 0x3FF_FFFF, 64 - half);
    }
  }

  lemma MaskedRoom(half: nat)
    requires half < U32
    ensures half % U32 == half && half / 64 % 1024 * 64 <= half
    ensures half / 64 % 1024 > 0 <==> half % U16 >= 64
  {
    var q, r := half / U16, half % U16;
    ModUnique(half / 64, 1024, q, r / 64);
  }

  function Chunks(start: nat, num: nat, n: nat): (c: seq<Span>)
    requires start < num ==> n > 0
    decreases if start < num then num - start else 0
  {
    if start >= num then []
    else
      var m := if start + n > num then num - start else n;
      [Span(start, start + m)] + Chunks(start + m, num, n)
  }

  /** The packets sent over one interface. */
  method SendRouteMsg(kind: byte, addr: seq<byte>, table: seq<Entry>, start: nat, num: nat, mtu: nat)
    returns (sent: seq<seq<byte>>)
    requires |addr| == 2 && start <= num <= |table| && mtu < 0x8000_0000
    requires start < num ==> PerPacket(mtu) > 0
    ensures Sent(sent, kind, addr, table, Chunks(start, num, PerPacket(mtu)))
  {
    sent := [];
    var lastNode := start;
    var numNodes := PerPacket(mtu);
    ghost var n := numNodes;
    ghost var done: seq<Span>, rest := [], Chunks(start, num, n);
    while lastNode < num
      invariant start <= lastNode <= num && (lastNode < num ==> numNodes == n > 0)
      invariant rest == Chunks(lastNode, num, n)
      invariant done + rest == Chunks(start, num, n)
      invariant Sent(sent, kind, addr, table, done)
      decreases num - lastNode
    {
      if lastNode + numNodes > num {
        numNodes := num - lastNode;
      }
      ghost var c := Span(lastNode, lastNode + numNodes);
      NextChunk(lastNode, num, n, c);
      var p := SendRoutingMessage(kind, addr, table, lastNode, lastNode + numNodes);
      MoreSent(sent, p, kind, addr, table, done, c);
      MoveChunk(done, c, rest[1..]);
      done, rest := done + [c], rest[1..];
      sent := sent + [p];
      lastNode := lastNode + numNodes;
    }
    assert done + [] == done;
  }

  lemma NextChunk(last: nat, num: nat, n: nat, c: Span)
    requires last < num && n > 0 && c == Span(last, if last + n > num then num else last + n)
    ensures Chunks(last, num, n) == [c] + Chunks(c.end, num, n)
    ensures Chunks(last, num, n)[1..] == Chunks(c.end, num, n)
  {
  }

  lemma MoveChunk<T>(a: seq<T>, x: T, b: seq<T>)
    ensures a + ([x] + b) == a + [x] + b
  {
  }

  ghost predicate Sent(sent: seq<seq<byte>>, kind: byte, addr: seq<byte>, table: seq<Entry>, chunks: seq<Span>)
    requires |addr| == 2
  {
    && |sent| == |chunks|
    && forall k :: 0 <= k < |chunks| ==>
         && chunks[k].start <= chunks[k].end <= |table|
         && Carries(sent[k], kind, addr, table, chunks[k].start, chunks[k].end)
  }

  lemma MoreSent(sent: seq<seq<byte>>, p: seq<byte>, kind: byte, addr: seq<byte>, table: seq<Entry>,
                 chunks: seq<Span>, c: Span)
    requires |addr| == 2 && c.start <= c.end <= |table|
    requires Sent(sent, kind, addr, table, chunks) && Carries(p, kind, addr, table, c.start, c.end)
    ensures Sent(sent + [p], kind, addr, table, chunks + [c])
  {
  }

  /** An iteration of the loop: last_node and num_nodes. */
  function Iterate(last: nat, n: nat, num: nat): (nat, nat) {
    if last >= num then (last, n)
    else
      var m := if last + n > num then num - last else n;
      (last + m, m)
  }

  function Iterations(k: nat, last: nat, n: nat, num: nat): (nat, nat) {
    if k == 0 then (last, n)
    else
      var (l, m) := Iterate(last, n, num);
      Iterations(k - 1, l, m, num)
  }

  /** The loop ends exactly when packets make progress or there is nothing to send. */
  lemma {:induction false} LoopEnds(last: nat, n: nat, num: nat)
    ensures (exists k: nat :: Iterations(k, last, n, num).0 >= num) <==> last >= num || n > 0
    decreases if last < num then num - last else 0
  {
    if last >= num {
      assert Iterations(0, last, n, num).0 >= num;
    } else if n == 0 {
      forall k: nat ensures Iterations(k, last, n, num).0 < num { Stuck(k, last, num); }
    } else {
      var (l, m) := Iterate(last, n, num);
      LoopEnds(l, m, num);
      var k: nat :| Iterations(k, l, m, num).0 >= num;
      assert Iterations(k + 1, last, n, num) == Iterations(k, l, m, num);
    }
  }

  lemma {:induction false} Stuck(k: nat, last: nat, num: nat)
    requires last < num
    ensures Iterations(k, last, 0, num) == (last, 0)
  {
    if k == 0 {
    } else {
      Stuck(k - 1, last, num);
    }
  }

  // ---- The receiver ----

  /** The rows of a segment whose entries start at i. */
  function Rows(p: seq<byte>, i: nat, id: nat, num: nat): (rows: seq<Row>)
    requires i + 2 * num <= |p|
    ensures |rows| == num
  {
    seq(num, (k: nat) requires k < num => Row(id + k, WordAt(p, i + 2 * k)))
  }

  /** What the receiver's two loops visit from i on, of a packet of len bytes in a buffer b;
      None when they leave the buffer. */
  function Segments(b: seq<byte>, len: nat, i: nat): Option<seq<Row>>
    requires len <= |b|
    decreases len - i
  {
    if i >= len - 4 then Some([])
    else
      var num, id := WordAt(b, i), WordAt(b, i + 2);
      var next := i + 4 + 2 * num;
      if next > |b| then None
      else
        var rest :- Segments(b, len, next);
        Some(Rows(b, i + 4, id, num) + rest)
  }

  function RowOf(table: seq<Entry>, id: nat): Row
    requires id < |table|
  {
    Row(id, EntryWord(table[id]))
  }

  /** The rows of the table between start and end. */
  function TableRows(table: seq<Entry>, start: nat, end: nat): (rows: seq<Row>)
    requires start <= end <= |table|
    ensures |rows| == end - start
  {
    seq(end - start, (k: nat) requires k < end - start => RowOf(table, start + k))
  }

  lemma RowsMatch(p: seq<byte>, table: seq<Entry>, start: nat, end: nat)
    requires start <= end <= |table| && |p| == 12 + 2 * (end - start)
    requires forall k :: start <= k < end ==> Holds(p, 10 + 2 * (k - start), table[k])
    ensures Rows(p, 10, start, end - start) == TableRows(table, start, end)
  {
    forall k | 0 <= k < end - start
      ensures Rows(p, 10, start, end - start)[k] == TableRows(table, start, end)[k]
    {
      var i := 10 + 2 * (start + k - start);
      assert Holds(p, i, table[start + k]);
      assert i == 10 + 2 * k && WordAt(p, i) == EntryWord(table[start + k]);
    }
  }

  /** The receiver sees exactly the rows that were put in and stops at the
      checksum. */
  lemma PacketHeard(p: seq<byte>, kind: byte, addr: seq<byte>, table: seq<Entry>, start: nat, end: nat)
    requires |addr| == 2 && start < end <= |table| < U16
    requires Carries(p, kind, addr, table, start, end)
    ensures ChecksumOk(p, |p|) && Segments(p, |p|, 6) == Some(TableRows(table, start, end))
  {
    RowsMatch(p, table, start, end);
    OneSegment(p, start, end - start);
  }

  /** The same in a receive buffer, whatever stands behind the packet. */
  lemma BufferHeard(b: seq<byte>, len: nat, kind: byte, addr: seq<byte>, table: seq<Entry>, start: nat, end: nat)
    requires len <= |b| && |addr| == 2 && start < end <= |table| < U16
    requires Carries(b[..len], kind, addr, table, start, end)
    ensures ChecksumOk(b, len) && Segments(b, len, 6) == Some(TableRows(table, start, end))
  {
    var p, n := b[..len], 2 + end - start;
    PacketHeard(p, kind, addr, table, start, end);
    SameWords(b, p, 6, n);
    assert 6 + 2 * n == len - 2;
    SameSegments(b, len, 6);
  }

  /** What a walk that stays within the packet visits does not depend on what is behind. */
  lemma {:induction false} SameSegments(b: seq<byte>, len: nat, i: nat)
    requires len <= |b| && Segments(b[..len], len, i).Some?
    ensures Segments(b, len, i) == Segments(b[..len], len, i)
    decreases len - i
  {
    if i >= len - 4 {
    } else {
      var num: nat, id: nat := WordAt(b, i), WordAt(b, i + 2);
      SameWord(b, len, i);
      SameWord(b, len, i + 2);
      SameSegments(b, len, i + 4 + 2 * num);
      SameRows(b, len, i + 4, id, num);
    }
  }

  lemma SameWord(b: seq<byte>, len: nat, i: nat)
    requires i + 1 < len <= |b|
    ensures WordAt(b[..len], i) == WordAt(b, i)
  {
  }

  lemma SameRows(b: seq<byte>, len: nat, i: nat, id: nat, num: nat)
    requires i + 2 * num <= len <= |b|
    ensures Rows(b[..len], i, id, num) == Rows(b, i, id, num)
  {
    forall k | 0 <= k < num ensures Rows(b[..len], i, id, num)[k] == Rows(b, i, id, num)[k] {
      SameWord(b, len, i + 2 * k);
    }
  }

  lemma OneSegment(p: seq<byte>, id: nat, num: nat)
    requires |p| == 12 + 2 * num && 0 < num < U16 && id < U16
    requires p[6] == Low(num) && p[7] == High(num) && p[8] == Low(id) && p[9] == High(id)
    ensures Segments(p, |p|, 6) == Some(Rows(p, 10, id, num))
  {
    assert WordAt(p, 6) == num && WordAt(p, 8) == id;
    assert Segments(p, |p|, 10 + 2 * num) == Some([]);
    var rows := Rows(p, 10, id, num);
    assert rows + [] == rows;
  }

  function Heard(sent: seq<seq<byte>>): Option<seq<Row>> {
    if sent == [] then Some([])
    else
      var first :- Segments(sent[0], |sent[0]|, 6);
      var rest :- Heard(sent[1..]);
      Some(first + rest)
  }

  lemma TableRowsSplit(table: seq<Entry>, a: nat, b: nat, c: nat)
    requires a <= b <= c <= |table|
    ensures TableRows(table, a, b) + TableRows(table, b, c) == TableRows(table, a, c)
  {
  }

  function Flat(rows: seq<seq<Row>>): seq<Row> {
    if rows == [] then [] else rows[0] + Flat(rows[1..])
  }

  lemma {:induction false} HeardEach(sent: seq<seq<byte>>, rows: seq<seq<Row>>)
    requires |sent| == |rows| && forall k :: 0 <= k < |sent| ==> Segments(sent[k], |sent[k]|, 6) == Some(rows[k])
    ensures Heard(sent) == Some(Flat(rows))
  {
    if sent == [] {
    } else {
      HeardEach(sent[1..], rows[1..]);
    }
  }

  /** The rows of consecutive chunks. */
  function ChunkRows(table: seq<Entry>, start: nat, num: nat, n: nat): (rows: seq<seq<Row>>)
    requires start <= num <= |table| && n > 0
    ensures |rows| == |Chunks(start, num, n)|
    decreases num - start
  {
    if start == num then []
    else
      var m := if start + n > num then num - start else n;
      [TableRows(table, start, start + m)] + ChunkRows(table, start + m, num, n)
  }

  /** The chunks tile the range: their rows put together are the rows of the range,
      each once and in order. */
  lemma {:induction false} ChunksTile(table: seq<Entry>, start: nat, num: nat, n: nat)
    requires start <= num <= |table| && n > 0
    ensures Flat(ChunkRows(table, start, num, n)) == TableRows(table, start, num)
    decreases num - start
  {
    if start >= num {
    } else {
      var m := if start + n > num then num - start else n;
      ChunksTile(table, start + m, num, n);
      TableRowsSplit(table, start, start + m, num);
      assert ChunkRows(table, start, num, n)[1..] == ChunkRows(table, start + m, num, n);
    }
  }

  lemma {:induction false} ChunkAt(table: seq<Entry>, start: nat, num: nat, n: nat, k: nat)
    requires start <= num <= |table| && n > 0 && k < |Chunks(start, num, n)|
    ensures var c := Chunks(start, num, n)[k];
      && c.start < c.end <= num && c.end <= c.start + n
      && ChunkRows(table, start, num, n)[k] == TableRows(table, c.start, c.end)
    decreases num - start
  {
    if k == 0 {
    } else {
      var m := if start + n > num then num - start else n;
      ChunkAt(table, start + m, num, n, k - 1);
    }
  }

  /** Packets that pass the receiver's test and are no longer than limit. */
  predicate AllGood(sent: seq<seq<byte>>, limit: nat) {
    forall p :: p in sent ==> 8 <= |p| <= limit && ChecksumOk(p, |p|)
  }

  lemma ChunksHeard(sent: seq<seq<byte>>, kind: byte, addr: seq<byte>, table: seq<Entry>,
                    start: nat, num: nat, n: nat, k: nat)
    requires |addr| == 2 && start <= num <= |table| < U16 && 0 < n
    requires Sent(sent, kind, addr, table, Chunks(start, num, n)) && k < |sent|
    ensures Segments(sent[k], |sent[k]|, 6) == Some(ChunkRows(table, start, num, n)[k])
    ensures 8 <= |sent[k]| <= 12 + 2 * n && ChecksumOk(sent[k], |sent[k]|)
  {
    ChunkAt(table, start, num, n, k);
    var c := Chunks(start, num, n)[k];
    PacketHeard(sent[k], kind, addr, table, c.start, c.end);
  }

  /** A whole advertisement over an interface that makes progress: every packet
      passes the receiver's checksum, fits the interface and the packet buffer, and
      together the packets tell the receiver about each id exactly once, in order. */
  lemma AdvertisementHeard(sent: seq<seq<byte>>, kind: byte, addr: seq<byte>, table: seq<Entry>,
                           start: nat, num: nat, mtu: nat)
    requires |addr| == 2 && start <= num <= |table| < U16
    requires 32 <= mtu < 0x8000_0000 && PerPacket(mtu) > 0
    requires Sent(sent, kind, addr, table, Chunks(start, num, PerPacket(mtu)))
    ensures Heard(sent) == Some(TableRows(table, start, num))
    ensures AllGood(sent, mtu - 20) && AllGood(sent, PACKET)
  {
    var n := PerPacket(mtu);
    Progress(mtu);
    forall k | 0 <= k < |sent|
      ensures Segments(sent[k], |sent[k]|, 6) == Some(ChunkRows(table, start, num, n)[k])
      ensures 8 <= |sent[k]| <= 12 + 2 * n && ChecksumOk(sent[k], |sent[k]|)
    {
      ChunksHeard(sent, kind, addr, table, start, num, n, k);
    }
    HeardEach(sent, ChunkRows(table, start, num, n));
    ChunksTile(table, start, num, n);
  }

  /** Where packets make progress and there is something to send, every packet fits its
      interface exactly when the MTU is at least 32, or when the table is so short that
      its one packet fits all the same: below that the subtraction of the header wraps
      around, and full packets of 256 nodes are sent. */
  lemma PacketsFit(sent: seq<seq<byte>>, kind: byte, addr: seq<byte>, table: seq<Entry>,
                   start: nat, num: nat, mtu: nat)
    requires |addr| == 2 && start < num <= |table| < U16
    requires mtu < 0x8000_0000 && PerPacket(mtu) > 0
    requires Sent(sent, kind, addr, table, Chunks(start, num, PerPacket(mtu)))
    ensures (forall p :: p in sent ==> |p| <= mtu) <==> mtu >= 32 || 12 + 2 * (num - start) <= mtu
  {
    var n := PerPacket(mtu);
    Progress(mtu);
    forall k | 0 <= k < |sent| ensures |sent[k]| <= 12 + 2 * n {
      ChunksHeard(sent, kind, addr, table, start, num, n, k);
    }
    var first := Chunks(start, num, n)[0];
    assert first == Span(start, if start + n > num then num else start + n);
    PacketHeard(sent[0], kind, addr, table, first.start, first.end);
    assert |sent[0]| == 12 + 2 * (first.end - first.start) && sent[0] in sent;
    if start + n >= num {
      assert Chunks(first.end, num, n) == [];
      assert |sent| == 1;
    }
  }

  // ---- What the two ends make of an entry ----

  predicate ReadsReachable(w: word) { And(w, 0xFF) != 0xFF }

  function ReadCost(w: word): nat { And(w, 0x1FF) }

  function ReadHops(w: word): nat { And(w, 0x7E00) / 512 }

  lemma LowMasks(w: nat)
    ensures And(w, 3) == w % 4 && And(w, 0xFF) == w % 256 && And(w, 0x1FF) == w % 512
  {
    assert Pow2(2) == 4 && Pow2(8) == 256 && Pow2(9) == 512;
    AndMask(w, 2);
    AndMask(w, 8);
    AndMask(w, 9);
  }

  lemma HopsMask(w: nat)
    ensures And(w, 0x7E00) == w / 512 % 64 * 512
  {
    assert Pow2(6) == 64;
    var m := And(w / 8, 0xFC0);
    EvenMask(w, 0x3F00);
    EvenMask(w / 2, 0x1F80);
    EvenMask(w / 4, 0xFC0);
    assert w / 2 / 2 == w / 4 && w / 4 / 2 == w / 8 && w / 8 / 64 == w / 512;
    SixPlaces(63);
    SixPlaces(w / 8);
    SixPlaces(And(w / 512, 63));
    AndShifted(w / 8, 63, 6);
    AndMask(w / 512, 6);
  }

  /** Ten bits of cost and six of hops. */
  lemma WordOf(e: Entry)
    requires e.valid
    ensures EntryWord(e) == e.cost % 1024 + 1024 * (e.hops % 64)
  {
    var c, h: nat := e.cost / 256 % 4, e.hops;
    LowMasks(e.cost / 256);
    assert Pow2(2) == 4;
    OrShifted(c, h, 2);
    OrSwap(h * 4, c);
    HighByte(c, h);
    assert e.cost % 1024 == e.cost % 256 + 256 * c by { TenBits(e.cost); }
  }

  lemma HighByte(c: nat, h: nat)
    requires c < 4
    ensures (c + h * 4) % 256 == c + 4 * (h % 64)
  {
    ModUnique(c + h * 4, 256, h / 64, c + 4 * (h % 64));
  }

  lemma TenBits(cost: nat)
    ensures cost % 1024 == cost % 256 + 256 * (cost / 256 % 4)
  {
    var q := cost / 256;
    ModUnique(cost, 1024, q / 4, cost % 256 + 256 * (q % 4));
  }

  lemma {:induction false} OrSwap(x: nat, y: nat)
    ensures Or(x, y) == Or(y, x)
    decreases x + y
  {
    if x == 0 || y == 0 {
    } else {
      OrSwap(x / 2, y / 2);
    }
  }

  lemma ReadFields(cost: word, hops: word, w: nat)
    requires w == cost % 1024 + 1024 * (hops % 64)
    ensures w % 256 == cost % 256 && w % 512 == cost % 512
    ensures w / 512 % 64 == cost / 512 % 2 + 2 * (hops % 32)
  {
    var c := cost % 1024;
    BitsBelow(cost, cost / 1024, c);
    BitsBelow(w, hops % 64, c);
    HopBits(hops, c / 512, w / 512);
  }

  lemma HopBits(hops: nat, d: nat, v: nat)
    requires d < 2 && v == d + 2 * (hops % 64)
    ensures v % 64 == d + 2 * (hops % 32)
  {
    ModUnique(hops, 32, 2 * (hops / 64) + hops % 64 / 32, hops % 64 % 32);
    ModUnique(v, 64, hops % 64 / 32, d + 2 * (hops % 32));
  }

  lemma BitsBelow(n: nat, q: nat, c: nat)
    requires n == c + 1024 * q && c < 1024
    ensures n % 256 == c % 256 && n % 512 == c % 512 && n / 512 == c / 512 + 2 * q
  {
    ModUnique(n, 256, 4 * q + c / 256, c % 256);
    ModUnique(n, 512, 2 * q + c / 512, c % 512);
  }

  lemma Survives(cost: word, hops: word)
    ensures cost % 512 == cost <==> cost < 512
    ensures cost < 512 ==> (cost / 512 % 2 + 2 * (hops % 32) == hops <==> hops == 0)
    ensures cost < 512 && hops < 32 ==> cost / 512 % 2 + 2 * (hops % 32) == 2 * hops
  {
  }

  lemma ReadWord(w: word)
    ensures ReadsReachable(w) <==> w % 256 != 255
    ensures ReadCost(w) == w % 512 && ReadHops(w) == w / 512 % 64
  {
    LowMasks(w);
    HopsMask(w);
  }

  /** The sender packs a 10-bit cost with the hops above it, the receiver takes a
      9-bit cost with the hops above that. The cost survives exactly below 512 and
      the whole entry only with a hop count of zero: other counts come out
      doubled. An invalid entry and one whose cost ends in all ones read as
      unreachable. */
  lemma EntryReadBack(e: Entry)
    ensures ReadsReachable(EntryWord(e)) <==> e.valid && e.cost % 256 != 255
    ensures e.valid ==>
      && (ReadCost(EntryWord(e)) == e.cost <==> e.cost < 512)
      && (ReadCost(EntryWord(e)) == e.cost && ReadHops(EntryWord(e)) == e.hops <==> e.cost < 512 && e.hops == 0)
      && (e.cost < 512 && e.hops < 32 ==> ReadHops(EntryWord(e)) == 2 * e.hops)
  {
    if !e.valid {
      LowMasks(EntryWord(e));
      return;
    }
    WordOf(e);
    ReadFields(e.cost, e.hops, EntryWord(e));
    ReadWord(EntryWord(e));
    Survives(e.cost, e.hops);
  }
}
