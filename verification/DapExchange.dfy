/** Both ends of a DAP link: what a sender writes is what the receiver is given. */
module DapExchange {
  import opened Bits
  import opened Wrappers
  import opened DapWire
  import opened DapBuffer
  import opened DapSend
  import opened DapReceive

  /** Every message that carries a length has data, and no more than the length
      field can count. */
  predicate LengthsUsable(ms: seq<Message>) {
    forall m :: m in ms && m.hdr.form != NoLength ==> 0 < |m.data| < Capacity(m.hdr.form)
  }

  lemma UsableIsSeparable(g: seq<Message>, bufferSize: nat)
    requires Blocked(g, bufferSize) && LengthsUsable(g)
    ensures Separable(g)
  {
    forall i | 0 <= i < |g| ensures Delimited(g[i], i == |g| - 1) {
      assert g[i] in g;
    }
  }

  lemma {:induction false} InFlatten(groups: seq<seq<Message>>, g: seq<Message>, m: Message)
    requires g in groups && m in g
    ensures m in Flatten(groups)
  {
    if g == groups[0] {
    } else {
      assert g in groups[1..];
      InFlatten(groups[1..], g, m);
    }
  }

  /** The records on the wire deliver exactly the messages written, in the order
      they were written and however they were blocked, if and only if every one
      of them is delimited in its record; usable lengths are enough for that. */
  lemma WireDelivers(d: Dap)
    requires d.Valid() && d.queue == []
    ensures ParseAll(d.wire) == Some(d.Written()) <==> forall g :: g in d.groups ==> Separable(g)
    ensures LengthsUsable(d.Written()) ==> ParseAll(d.wire) == Some(d.Written())
  {
    assert d.queued == [] && d.Written() == Flatten(d.groups);
    WireRoundTrip(d.wire, d.groups);
    if LengthsUsable(d.Written()) {
      forall g | g in d.groups ensures Separable(g) {
        forall m | m in g ensures m in d.Written() { InFlatten(d.groups, g, m); }
        UsableIsSeparable(g, d.bufferSize);
      }
    }
  }

  /** The next message, header and data. */
  method ReceiveOne(r: DapReader) returns (m: Message)
    requires r.Valid() && r.Undelivered().Some? && r.Undelivered().value != []
    modifies r, r.inbuf
    ensures r.Valid() && m == old(r.Undelivered()).value[0]
    ensures r.Undelivered() == Some(old(r.Undelivered()).value[1..])
  {
    var rc, func := r.NextMessage();
    m := Message(r.Hdr(), r.inbuf[r.inptr..r.msgend]);
  }

  /** The receiver's loop over all messages until the connection closes. */
  method ReceiveAll(r: DapReader) returns (ms: seq<Message>)
    requires r.Valid() && r.Undelivered().Some?
    modifies r, r.inbuf
    ensures ms == old(r.Undelivered()).value
  {
    ms := [];
    ghost var todo := r.Undelivered().value;
    r.SomethingLeft();
    while !(r.input == [] && r.AtRecordEnd())
      invariant r.Valid() && r.Undelivered() == Some(todo)
      invariant !(r.input == [] && r.AtRecordEnd()) ==> todo != []
      invariant r.input == [] && r.AtRecordEnd() ==> todo == []
      invariant ms + todo == old(r.Undelivered()).value
      decreases |todo|
    {
      MoveOne(ms, todo);
      var m := ReceiveOne(r);
      ms := ms + [m];
      todo := todo[1..];
      r.SomethingLeft();
    }
  }

  lemma MoveOne(ms: seq<Message>, todo: seq<Message>)
    requires todo != []
    ensures ms + todo == ms + [todo[0]] + todo[1..]
  {
  }

  lemma RecordsFit(d: Dap)
    requires d.Valid()
    ensures forall r :: r in d.wire ==> 0 < |r| <= BUFSIZ
  {
    forall r | r in d.wire ensures 0 < |r| <= BUFSIZ {
      var i :| 0 <= i < |d.wire| && d.wire[i] == r;
      assert d.groups[i] in d.groups;
      NonEmptyEncoding(d.groups[i]);
    }
  }

  /** Sends whatever a sender still has pending and receives all it ever wrote. */
  method Exchange(d: Dap) returns (ms: seq<Message>)
    requires d.Valid() && LengthsUsable(d.Written())
    modifies d, d.descr
    ensures ms == old(d.Written())
  {
    var _ := d.FlushBuffers();
    WireDelivers(d);
    RecordsFit(d);
    ms := ReceiveRecords(d.wire);
  }

  method ReceiveRecords(wire: seq<seq<byte>>) returns (ms: seq<Message>)
    requires forall r :: r in wire ==> 0 < |r| <= BUFSIZ
    requires ParseAll(wire).Some?
    ensures ms == ParseAll(wire).value
  {
    var reader := new DapReader(wire);
    var n := reader.Start();
    ms := [];
    if n != 0 {
      ms := ReceiveAll(reader);
    }
  }
}
