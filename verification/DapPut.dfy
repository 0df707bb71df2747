/** FAL's receiving loop, and what a file becomes on its way through both loops. */
module DapPut {
  import opened Bits
  import opened Wrappers
  import opened DapWire
  import opened DapField
  import opened DapBuffer
  import opened DapSend
  import opened DapReceive
  import opened DapAttributes
  import opened DapTransfer
  import opened DapFile
  import opened DapExchange

  const CLOSE := 1

  /** Whether an Access Complete message leaves the file open: only a well-formed
      end of stream does. */
  predicate StaysOpen(data: seq<byte>) {
    && data != [] && data[0] == ENDSTREAM
    && (data[1..] == [] || (
          var n := ExSize(data[1..], 6);
          n.Some? && (|data| == 1 + n.value || |data| >= 1 + n.value + 2)))
  }

  datatype Action = Store(record: seq<byte>) | Stop | Skip

  /** What the receiver does with a message. */
  function ActionOn(m: Message): Action {
    if m.hdr.kind == DATA then
      var n := ImageSize(m.data, 8);
      if n.Some? then Store(m.data[n.value..]) else Stop
    else if m.hdr.kind == COMPLETE && !StaysOpen(m.data) then Stop
    else Skip
  }

  /** What a sequence of messages writes to the file, and whether it ends there. */
  function Content(fmt: Format, ms: seq<Message>): (seq<byte>, bool) {
    if ms == [] then ([], false)
    else
      match ActionOn(ms[0])
      case Store(record) =>
        var (rest, ended) := Content(fmt, ms[1..]);
        (Stored(fmt, record) + rest, ended)
      case Stop => ([], true)
      case Skip => Content(fmt, ms[1..])
  }

  /** What a connection writes to the file: up to the end of access, a Data message
      without a record number, or a malformed header. None when the connection closes
      before that or a message claims more data than its record holds. */
  function Put(fmt: Format, st: Stream): Option<seq<byte>> {
    match st
    case Closed => None
    case Overrun => None
    case Malformed => Some([])
    case Next(m, rest) =>
      match ActionOn(m)
      case Store(record) => Before(Stored(fmt, record), Put(fmt, rest))
      case Stop => Some([])
      case Skip => Put(fmt, rest)
  }

  function Before(piece: seq<byte>, rest: Option<seq<byte>>): Option<seq<byte>> {
    if rest.Some? then Some(piece + rest.value) else None
  }

  /** On a stream of messages that ends properly this is their content. */
  lemma {:induction false} PutIsContent(fmt: Format, st: Stream)
    requires MessagesOf(st).Some? && Content(fmt, MessagesOf(st).value).1
    ensures Put(fmt, st) == Some(Content(fmt, MessagesOf(st).value).0)
  {
    var ms := MessagesOf(st).value;
    assert st.Next?;
    assert ms[0] == st.m && ms[1..] == MessagesOf(st.rest).value;
    if ActionOn(st.m).Stop? {
    } else {
      PutIsContent(fmt, st.rest);
    }
  }

  /** Takes the record number off a Data message. */
  method TakeRecord(r: DapReader) returns (ok: bool, record: seq<byte>)
    requires r.InMessage()
    modifies r`inptr
    ensures r.InMessage() && r.inptr >= old(r.inptr)
    ensures ok <==> ImageSize(old(r.Left()), 8).Some?
    ensures ok ==> record == old(r.Left())[ImageSize(old(r.Left()), 8).value..]
  {
    ghost var start := r.inptr;
    var at;
    ok, at := r.IGet(8);
    record := [];
    if ok {
      record := r.inbuf[r.inptr..r.msgend];
      Suffix(r.inbuf[..], start, r.msgend, r.inptr - start);
    }
  }

  /** A final CR LF or LF CR of a stream record becomes LF; implied line ends of
      variable records are put back. */
  method Convert(fmt: Format, record: seq<byte>) returns (piece: seq<byte>)
    ensures piece == Stored(fmt, record)
  {
    piece := record;
    match fmt {
      case Variable(implied) =>
        if implied { piece := piece + [LF]; }
      case Stream =>
        var len := |record|;
        if len >= 2 {
          if (record[len - 2] == CR && record[len - 1] == LF)
             || (record[len - 2] == LF && record[len - 1] == CR) {
            piece := record[..len - 2] + [LF];
          }
        }
      case Fixed =>
      case Undefined =>
    }
  }

  /** An Access Complete message: true when the transfer goes on. */
  method ProcessAccessComplete(r: DapReader) returns (on: bool)
    requires r.InMessage()
    modifies r`inptr
    ensures r.InMessage() && r.inptr >= old(r.inptr) && on == StaysOpen(old(r.Left()))
  {
    ghost var t := r.Left();
    var ok, func := r.BGet();
    if !ok { return false; }
    ghost var t1 := r.Left();
    var eom := r.Eom();
    if eom { return func == ENDSTREAM; }
    var at;
    ok, at := r.ExValid(6);
    if !ok { return false; }
    assert |r.Left()| == |t1| - ExSize(t1, 6).value;
    eom := r.Eom();
    if eom { return func == ENDSTREAM; }
    var check;
    ok, check := r.TwoBGet();
    on := ok && func == ENDSTREAM;
  }

  /** Does what the current message asks. */
  method Act(r: DapReader, fmt: Format, ghost m: Message) returns (done: bool, piece: seq<byte>)
    requires r.InMessage() && r.Left() == m.data && r.msgtype == m.hdr.kind
    modifies r`inptr
    ensures r.InMessage() && r.inptr >= old(r.inptr)
    ensures done <==> ActionOn(m).Stop?
    ensures piece == if ActionOn(m).Store? then Stored(fmt, ActionOn(m).record) else []
  {
    done, piece := false, [];
    if r.msgtype == DATA {
      var ok, record := TakeRecord(r);
      if ok {
        piece := Convert(fmt, record);
      } else {
        done := true;
      }
    } else if r.msgtype == COMPLETE {
      var on := ProcessAccessComplete(r);
      done := !on;
    }
  }

  /** Receives one message and does what it asks; a malformed header ends it. */
  method Step(r: DapReader, fmt: Format) returns (done: bool, piece: seq<byte>)
    requires r.Valid() && (r.Ahead().Malformed? || r.Ahead().Next?)
    modifies r, r.inbuf
    ensures r.Valid()
    ensures old(r.Ahead()).Malformed? ==> done && piece == []
    ensures old(r.Ahead()).Next? ==>
      var m := old(r.Ahead()).m;
      && r.Ahead() == old(r.Ahead()).rest && (done <==> ActionOn(m).Stop?)
      && piece == if ActionOn(m).Store? then Stored(fmt, ActionOn(m).record) else []
  {
    ghost var before := r.Ahead();
    done, piece := true, [];
    var rc, func := r.NextMessage();
    if rc >= 0 {
      label L:
      assert r.msgtype == r.Hdr().kind;
      done, piece := Act(r, fmt, before.m);
      CursorOnly@L(r);
    }
  }

  /** Taking fields off the current message leaves what follows it alone. */
  twostate lemma CursorOnly(r: DapReader)
    requires old(r.Valid()) && r.inptr != 0 && old(r.inptr) != 0
    requires r.input == old(r.input) && r.inlen == old(r.inlen) && r.msgstart == old(r.msgstart)
    requires r.hdrlength == old(r.hdrlength) && r.msglength == old(r.msglength)
    requires unchanged(r.inbuf)
    ensures r.Valid() && r.Ahead() == old(r.Ahead())
  {
    assert r.AtRecordEnd() == old(r.AtRecordEnd());
    var next := r.msgstart + r.hdrlength + r.msglength;
    if next <= r.inlen {
      assert r.inbuf[next..r.inlen] == old(r.inbuf[next..r.inlen]);
    }
    assert r.Unparsed() == old(r.Unparsed());
  }

  /** Writes received records to the file until the peer closes it, or its input stops
      making sense. */
  method PutFileData(r: DapReader, fmt: Format) returns (stored: seq<byte>)
    requires r.Valid() && Put(fmt, r.Ahead()).Some?
    modifies r, r.inbuf
    ensures stored == Put(fmt, old(r.Ahead())).value
  {
    ghost var st := r.Ahead();
    ghost var whole := Put(fmt, st).value;
    stored := [];
    var done := false;
    while !done
      invariant r.Valid() && (!done ==> r.Ahead() == st && Put(fmt, st).Some?)
      invariant !done ==> stored + Put(fmt, st).value == whole
      invariant done ==> stored == whole
      decreases st, !done
    {
      var piece;
      PutStep(fmt, st, stored);
      done, piece := Step(r, fmt);
      stored := stored + piece;
      if st.Next? { st := st.rest; }
    }
  }

  /** What one message adds to what is stored already. */
  lemma PutStep(fmt: Format, st: Stream, stored: seq<byte>)
    requires Put(fmt, st).Some?
    ensures st.Malformed? || st.Next?
    ensures st.Malformed? || ActionOn(st.m).Stop? ==> stored + Put(fmt, st).value == stored + []
    ensures st.Next? && !ActionOn(st.m).Stop? ==>
      var piece := if ActionOn(st.m).Store? then Stored(fmt, ActionOn(st.m).record) else [];
      && Put(fmt, st.rest).Some?
      && stored + Put(fmt, st).value == stored + piece + Put(fmt, st.rest).value
  {
    if st.Next? && !ActionOn(st.m).Stop? {
      var rest := Put(fmt, st.rest).value;
      match ActionOn(st.m)
      case Store(record) => Regroup(stored, Stored(fmt, record), rest);
      case Skip => Regroup(stored, [], rest);
    }
  }

  /** The Access Complete message that closes a transfer. */
  const CLOSE_MESSAGE: Message := Message(Plain(COMPLETE, NoLength), [CLOSE])

  /** Data messages followed by a close store the pieces of their records. */
  lemma {:induction false} ContentOfRecords(fmt: Format, form: LengthForm, records: seq<seq<byte>>)
    ensures Content(fmt, DataMessages(form, records) + [CLOSE_MESSAGE]) == (StoredAll(fmt, records), true)
  {
    var ms := DataMessages(form, records) + [CLOSE_MESSAGE];
    if records == [] {
      assert ms == [CLOSE_MESSAGE];
    } else {
      assert ms[1..] == DataMessages(form, records[1..]) + [CLOSE_MESSAGE];
      ContentOfRecords(fmt, form, records[1..]);
      var m := ms[0];
      assert m.data == [0] + records[0] && m.data[1..] == records[0];
      assert ImageSize(m.data, 8) == Some(1);
    }
  }

  /** The length that arrived in the attributes of an image file cuts what was stored back
      to the file. */
  predicate Recovered(r: Remote, blocks: nat, file: seq<byte>, stored: seq<byte>) {
    |r.dataType| == 2 ==>
      var n := Announced(AfterOpen(r, false, true, blocks, |file|));
      n.Some? && 0 <= n.value <= |stored| && stored[..n.value] == file
  }

  /** The condition under which a file of a format arrives unchanged. */
  predicate Faithful(fmt: Format, file: seq<byte>, dataSize: nat)
    requires Enough(fmt, dataSize)
  {
    match fmt
    case Undefined => true
    case Stream => NoNul(file)
    case Variable(implied) => NoNul(file) && (implied ==> WholeLines(file, dataSize - 1))
    case Fixed => |file| % BLOCK == 0
  }

  lemma ArrivesFaithfully(fmt: Format, file: seq<byte>, dataSize: nat)
    requires Enough(fmt, dataSize)
    ensures Arrived(fmt, file, dataSize) == file <==> Faithful(fmt, file, dataSize)
  {
    match fmt {
      case Undefined => UndefinedIdentity(file, dataSize);
      case Stream => StreamIdentity(file, dataSize);
      case Variable(implied) =>
        if implied { ImpliedIdentity(file, dataSize); } else { PlainIdentity(file, dataSize); }
      case Fixed => FixedPadded(file, dataSize);
    }
  }

  /** What a file becomes when its messages are received: unchanged exactly when it meets
      the condition of its format; in fixed records padded, with the length to recover it. */
  lemma TransferIdentity(fmt: Format, form: LengthForm, file: seq<byte>, dataSize: nat)
    requires Enough(fmt, dataSize)
    ensures var (stored, ended) := Content(fmt, DataMessages(form, Records(fmt, file, dataSize)) + [CLOSE_MESSAGE]);
      && ended
      && (stored == file <==> Faithful(fmt, file, dataSize))
      && (fmt == Fixed ==>
            && stored == file + Zeros(Padding(|file|))
            && (LastBlock(|file|) < 0x8000_0000 ==> forall r: Remote, blocks: nat :: Recovered(r, blocks, file, stored)))
  {
    ContentOfRecords(fmt, form, Records(fmt, file, dataSize));
    assert StoredAll(fmt, Records(fmt, file, dataSize)) == Arrived(fmt, file, dataSize);
    ArrivesFaithfully(fmt, file, dataSize);
    if fmt == Fixed {
      FixedPadded(file, dataSize);
      if LastBlock(|file|) < 0x8000_0000 {
        forall r: Remote, blocks: nat ensures Recovered(r, blocks, file, Arrived(Fixed, file, dataSize)) {
          if |r.dataType| == 2 { FixedRecovers(file, dataSize, r, false, true, blocks); }
        }
      }
    }
  }

  method SendClose(d: Dap)
    requires d.Valid() && |d.Held()| < BUFCNT
    modifies d, d.descr, set x | x in d.descr :: x.data
    ensures d.Valid() && d.Held() == old(d.Held()) && d.queued == []
    ensures d.Written() == old(d.Written()) + [CLOSE_MESSAGE]
  {
    ghost var held := d.Held();
    var buf := d.BuildHeader(COMPLETE);
    ghost var h := Plain(COMPLETE, NoLength);
    assert held + {buf} - {buf} == held;
    FillClose(d, buf, h);
    var _ := d.Write(buf, CLOSE_MESSAGE);
  }

  method FillClose(d: Dap, buf: BufDescr, ghost h: Header)
    requires d.Valid() && buf in d.Held() && Started(buf, h) && h == Plain(COMPLETE, NoLength)
    modifies buf`offset, buf.data
    ensures d.Valid() && d.Held() == old(d.Held()) && d.Written() == old(d.Written())
    ensures Filled(buf, CLOSE_MESSAGE)
  {
    PlainSize(buf, h);
    d.OwnStorage(buf);
    label L:
    buf.BPut(CLOSE);
    d.HeldOnly@L(buf);
  }

  lemma {:induction false} DataUsable(form: LengthForm, records: seq<seq<byte>>, m: Message)
    requires m in DataMessages(form, records)
    ensures |m.data| > 0 && m.hdr == Plain(DATA, form)
  {
    var ms := DataMessages(form, records);
    if m == ms[0] {
    } else {
      assert m in ms[1..];
      DataUsable(form, records[1..], m);
    }
  }

  lemma {:induction false} InGroupSize(g: seq<Message>, m: Message)
    requires AllValid(g) && m in g
    ensures |m.data| <= |EncodeAll(g)|
  {
    if m == g[0] {
    } else {
      assert m in g[1..];
      InGroupSize(g[1..], m);
    }
  }

  lemma {:induction false} GroupOf(groups: seq<seq<Message>>, m: Message) returns (g: seq<Message>)
    requires m in Flatten(groups)
    ensures g in groups && m in g
  {
    if m in groups[0] {
      g := groups[0];
    } else {
      assert m in Flatten(groups[1..]);
      g := GroupOf(groups[1..], m);
    }
  }

  /** Nothing a sender has put on the wire is longer than a buffer. */
  lemma SentFits(d: Dap, m: Message)
    requires d.Valid() && d.queued == [] && m in d.Written()
    ensures |m.data| <= BUFSIZ
  {
    assert m in Flatten(d.groups);
    var g := GroupOf(d.groups, m);
    InGroupSize(g, m);
  }

  lemma UploadUsable(d: Dap, form: LengthForm, records: seq<seq<byte>>)
    requires d.Valid() && d.queued == [] && form != OneByte
    requires d.Written() == DataMessages(form, records) + [CLOSE_MESSAGE]
    ensures LengthsUsable(d.Written())
  {
    forall m | m in d.Written() && m.hdr.form != NoLength
      ensures 0 < |m.data| < Capacity(m.hdr.form)
    {
      assert m != CLOSE_MESSAGE;
      DataUsable(form, records, m);
      SentFits(d, m);
    }
  }

  /** The file itself and the message that closes it. */
  method Submit(d: Dap, fmt: Format, file: seq<byte>, dataSize: nat)
    requires d.Valid() && |d.Held()| < BUFCNT && Room(fmt, dataSize)
    modifies d, d.descr, set x | x in d.descr :: x.data
    ensures d.Valid() && d.queued == []
    ensures d.Written() == old(d.Written()) + DataMessages(DataForm(d), Records(fmt, file, dataSize)) + [CLOSE_MESSAGE]
  {
    SendRecords(d, fmt, file, dataSize);
    SendClose(d);
  }

  lemma NothingBefore<T>(a: seq<T>, b: seq<T>)
    ensures [] + a + b == a + b
  {
  }

  lemma Submitted(d: Dap, fmt: Format, form: LengthForm, file: seq<byte>, dataSize: nat)
    requires d.Valid() && d.queued == [] && form != OneByte && Enough(fmt, dataSize)
    requires d.Written() == DataMessages(form, Records(fmt, file, dataSize)) + [CLOSE_MESSAGE]
    ensures forall r :: r in d.wire ==> 0 < |r| <= BUFSIZ
    ensures ParseAll(d.wire).Some?
    ensures Content(fmt, ParseAll(d.wire).value) == (Arrived(fmt, file, dataSize), true)
  {
    UploadUsable(d, form, Records(fmt, file, dataSize));
    WireDelivers(d);
    RecordsFit(d);
    ContentOfRecords(fmt, form, Records(fmt, file, dataSize));
  }

  /** A file through the whole engine: read in chunks, packed into buffers and
      records, parsed back and written. */
  method Upload(d: Dap, fmt: Format, file: seq<byte>) returns (stored: seq<byte>)
    requires d.Valid() && d.Held() == {} && d.Written() == [] && Room(fmt, DataSize(d.bufferSize))
    modifies d, d.descr, set x | x in d.descr :: x.data
    ensures stored == Arrived(fmt, file, DataSize(d.bufferSize))
  {
    var dataSize := DataSize(d.bufferSize);
    Submit(d, fmt, file, dataSize);
    NothingBefore(DataMessages(DataForm(d), Records(fmt, file, dataSize)), [CLOSE_MESSAGE]);
    Submitted(d, fmt, DataForm(d), file, dataSize);
    stored := Receive(d.wire, fmt);
  }

  method Receive(wire: seq<seq<byte>>, fmt: Format) returns (stored: seq<byte>)
    requires forall r :: r in wire ==> 0 < |r| <= BUFSIZ
    requires ParseAll(wire).Some? && Content(fmt, ParseAll(wire).value).1
    ensures stored == Content(fmt, ParseAll(wire).value).0
  {
    var reader := new DapReader(wire);
    var n := reader.Start();
    reader.AheadParses();
    PutIsContent(fmt, reader.Ahead());
    stored := PutFileData(reader, fmt);
  }
}
