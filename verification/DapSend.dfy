/** The transmit side of the DAP engine: eight buffer descriptors kept on a free
    list and a chain of pending messages, and the writes that turn the pending
    chain into one network record. */
module DapSend {
  import opened Bits
  import opened Wrappers
  import opened DapWire
  import opened DapBuffer

  const BUFCNT := 8

  /** s is the linked list that starts at head. */
  ghost predicate Chain(head: BufDescr?, s: seq<BufDescr>)
    reads s`next
  {
    && head == (if s == [] then null else s[0])
    && forall i {:trigger s[i].next} :: 0 <= i < |s| ==>
         s[i].next == if i + 1 < |s| then s[i + 1] else null
  }

  ghost predicate NoDup(s: seq<BufDescr>) {
    s != [] ==> s[0] !in s[1..] && NoDup(s[1..])
  }

  /** No two descriptors of s share their storage. */
  ghost predicate NoShare(s: seq<BufDescr>) {
    s != [] ==> (forall d :: d in s[1..] ==> d.data != s[0].data) && NoShare(s[1..])
  }

  ghost predicate Within(s: seq<BufDescr>, t: seq<BufDescr>) {
    forall i :: 0 <= i < |s| ==> s[i] in t
  }

  ghost predicate Apart(s: seq<BufDescr>, t: seq<BufDescr>) {
    forall d :: d in s ==> d !in t
  }

  /** d holds exactly the encoding of m. */
  ghost predicate Ready(d: BufDescr, m: Message)
    reads d`hdrlength, d`datalength, d`offset, d.data
  {
    && m.Valid() && d.Valid()
    && d.hdrlength + d.datalength == d.offset
    && d.Bytes() == Encode(m)
  }

  ghost predicate AllReady(s: seq<BufDescr>, ms: seq<Message>)
    reads s`hdrlength, s`datalength, s`offset, set d | d in s :: d.data
  {
    |s| == |ms| && forall i :: 0 <= i < |s| ==> Ready(s[i], ms[i])
  }

  /** A record is either one message, or fits the negotiated size; only its last
      message may lack a length field. */
  ghost predicate Blocked(g: seq<Message>, bufferSize: nat) {
    && AllValid(g)
    && (forall i :: 0 <= i < |g| - 1 ==> g[i].hdr.form != NoLength)
    && |EncodeAll(g)| <= BUFSIZ
    && (|g| == 1 || |EncodeAll(g)| <= bufferSize)
  }

  /** Where the length field of a header starts. */
  function LengthAt(h: Header): nat {
    if h.streamId.Some? then 3 else 2
  }

  /** The length bytes at i set to n. */
  function Patched(z: seq<byte>, form: LengthForm, i: nat, n: nat): seq<byte>
    requires i + |LengthBytes(form, 0)| <= |z|
  {
    match form
    case NoLength => z
    case OneByte => z[i := n % 256]
    case TwoBytes => z[i := n % 256][i + 1 := n / 256 % 256]
  }

  /** The encoding of a message differs from its zero-length form in the length
      bytes only. */
  lemma HeaderPatch(h: Header, data: seq<byte>)
    requires h.Valid()
    ensures var z, e, i := HeaderBytes(h, 0) + data, Encode(Message(h, data)), LengthAt(h);
      && |z| == |e| && |z| >= i + |LengthBytes(h.form, 0)| && z[1] == Flags(h)
      && |HeaderBytes(h, 0)| == |HeaderBytes(h, |data|)|
      && e == Patched(z, h.form, i, |data|)
  {
    var tail := OptionalByte(h.bitCount) + (SysSpecBytes(h.sysSpec) + data);
    var front := [h.kind, Flags(h)] + OptionalByte(h.streamId);
    Splice(front, h.form, |data|, tail);
    SplitAtLength(h, 0, data);
    SplitAtLength(h, |data|, data);
  }

  lemma SplitAtLength(h: Header, n: nat, data: seq<byte>)
    requires h.Valid()
    ensures HeaderBytes(h, n) + data
         == ([h.kind, Flags(h)] + OptionalByte(h.streamId))
            + (LengthBytes(h.form, n) + (OptionalByte(h.bitCount) + (SysSpecBytes(h.sysSpec) + data)))
  {
  }

  lemma Splice(front: seq<byte>, form: LengthForm, n: nat, tail: seq<byte>)
    ensures front + (LengthBytes(form, n) + tail)
         == Patched(front + (LengthBytes(form, 0) + tail), form, |front|, n)
  {
  }

  lemma EncodedFlags(d: BufDescr, m: Message)
    requires Ready(d, m)
    ensures d.data.Length >= 2
    ensures And(d.data[1], 2) == 0 <==> m.hdr.form == NoLength
  {
    assert d.Bytes()[1] == Flags(m.hdr);
    FlagMasks(m.hdr);
  }

  lemma FlagMasks(h: Header)
    ensures And(Flags(h), 1) != 0 <==> h.streamId.Some?
    ensures And(Flags(h), 2) != 0 <==> h.form != NoLength
    ensures And(Flags(h), 4) != 0 <==> h.form == TwoBytes
  {
    FlagBits(h);
    assert Pow2(0) == 1 && Pow2(1) == 2 && Pow2(2) == 4;
    AndPow2(Flags(h), 0);
    AndPow2(Flags(h), 1);
    AndPow2(Flags(h), 2);
  }

  /** Every buffer's header and data lengths add up to what it holds. */
  ghost predicate Complete(s: seq<BufDescr>)
    reads s`hdrlength, s`datalength, s`offset
  {
    forall d :: d in s ==> d.Valid() && d.hdrlength + d.datalength == d.offset
  }

  ghost function Contents(s: seq<BufDescr>): seq<byte>
    reads s`hdrlength, s`datalength, s`offset, set d | d in s :: d.data
    requires Complete(s)
  {
    if s == [] then [] else s[0].Bytes() + Contents(s[1..])
  }

  /** A message that still fits goes behind messages that all carry a length. */
  lemma BlockedMore(g: seq<Message>, m: Message, bufferSize: nat)
    requires m.Valid() && AllValid(g) && forall x :: x in g ==> x.hdr.form != NoLength
    requires |Encode(m)| <= BUFSIZ && bufferSize <= BUFSIZ
    requires g == [] || |EncodeAll(g)| + |Encode(m)| <= bufferSize
    ensures AllValid(g + [m]) && Blocked(g + [m], bufferSize)
  {
    EncodeAllAppend(g, m);
    forall i | 0 <= i < |g| ensures (g + [m])[i] == g[i] && g[i] in g { }
  }

  lemma FirstSize(s: seq<BufDescr>)
    requires Complete(s) && s != []
    ensures Complete(s[1..]) && |Contents(s)| == s[0].hdrlength + s[0].datalength + |Contents(s[1..])|
  {
  }

  lemma ChainTail(head: BufDescr?, s: seq<BufDescr>)
    requires Chain(head, s) && head != null
    ensures s != [] && head == s[0] && Chain(head.next, s[1..])
  {
  }

  lemma MoveFirst(s: seq<BufDescr>, t: seq<BufDescr>)
    requires t != []
    ensures s + t == s + [t[0]] + t[1..]
  {
  }

  lemma MoveContents(record: seq<byte>, t: seq<BufDescr>)
    requires t != [] && Complete(t)
    ensures Complete(t[1..])
    ensures record + Contents(t) == record + t[0].Bytes() + Contents(t[1..])
  {
  }

  lemma AllReadyAppend(s: seq<BufDescr>, ms: seq<Message>, d: BufDescr, m: Message)
    requires AllReady(s, ms) && Ready(d, m)
    ensures AllReady(s + [d], ms + [m])
  {
    forall i | 0 <= i < |s| + 1 ensures Ready((s + [d])[i], (ms + [m])[i]) {
      if i < |s| { assert Ready(s[i], ms[i]); }
    }
  }

  lemma {:induction false} ReadyContents(s: seq<BufDescr>, ms: seq<Message>)
    requires AllReady(s, ms)
    ensures AllValid(ms) && Complete(s) && Contents(s) == EncodeAll(ms)
  {
    if s == [] {
    } else {
      ReadyContents(s[1..], ms[1..]);
    }
  }

  function Plain(kind: byte, form: LengthForm): (h: Header)
    ensures h.Valid()
  {
    Header(kind, None, form, None, None)
  }

  /** d holds the header h, its length field still zero, and nothing else. */
  ghost predicate Started(d: BufDescr, h: Header)
    reads d, d.data
  {
    && h.Valid() && d.Valid() && d.hdrlength == d.offset
    && d.Bytes() == HeaderBytes(h, 0)
  }

  /** d holds m, the length field of its header still zero. */
  ghost predicate Filled(d: BufDescr, m: Message)
    reads d, d.data
  {
    && m.Valid() && d.Valid() && d.hdrlength == |HeaderBytes(m.hdr, 0)|
    && d.Bytes() == HeaderBytes(m.hdr, 0) + m.data
  }

  /** Messages of this size more do not fit behind the pending ones. */
  predicate Over(pending: seq<Message>, size: nat, bufferSize: nat)
    requires AllValid(pending)
  {
    pending != [] && |EncodeAll(pending)| + size > bufferSize
  }

  /** The pending messages stay as they are, or leave as one record. */
  ghost predicate Left(leave: bool, wire: seq<seq<byte>>, pending: seq<Message>, wire': seq<seq<byte>>, pending': seq<Message>)
    requires AllValid(pending)
  {
    if leave then pending' == [] && wire' == wire + [EncodeAll(pending)] else pending' == pending && wire' == wire
  }

  /** How a message is blocked: the pending ones leave first when it does not fit behind
      them; and when it carries no length or took the last descriptor, it leaves with all
      that are pending then. */
  ghost predicate Blocks(m: Message, bufferSize: nat, noneFree: bool,
                         wire: seq<seq<byte>>, pending: seq<Message>, wire': seq<seq<byte>>, pending': seq<Message>)
    requires m.Valid() && AllValid(pending)
  {
    var over := Over(pending, |Encode(m)|, bufferSize);
    var first, kept := if over then [EncodeAll(pending)] else [], if over then [] else pending;
    Left(m.hdr.form == NoLength || (noneFree && !over), wire + first, kept + [m], wire', pending')
  }

  lemma BlocksIs(m: Message, bufferSize: nat, noneFree: bool, wire: seq<seq<byte>>, pending: seq<Message>,
                 wire1: seq<seq<byte>>, pending1: seq<Message>, noneLeft: bool,
                 wire2: seq<seq<byte>>, pending2: seq<Message>)
    requires m.Valid() && AllValid(pending) && AllValid(pending1)
    requires Left(Over(pending, |Encode(m)|, bufferSize), wire, pending, wire1, pending1)
    requires noneLeft == (noneFree && !Over(pending, |Encode(m)|, bufferSize))
    requires Left(m.hdr.form == NoLength || noneLeft, wire1, pending1 + [m], wire2, pending2)
    ensures Blocks(m, bufferSize, noneFree, wire, pending, wire2, pending2)
    ensures m.hdr.form == NoLength ==> pending2 == []
  {
    assert wire + [] == wire;
  }

  class Dap {
    const descr: seq<BufDescr>
    const bufferSize: nat
    const remLen: nat
    var buffers: BufDescr?
    var pending: BufDescr?
    var wire: seq<seq<byte>>        // the records handed to the network
    ghost var free: seq<BufDescr>
    ghost var queue: seq<BufDescr>
    ghost var queued: seq<Message>
    ghost var groups: seq<seq<Message>>

    ghost predicate Descriptors()
    {
      && |descr| == BUFCNT && NoDup(descr) && NoShare(descr)
      && (forall d :: d in descr ==> d.data.Length == BUFSIZ)
      && bufferSize <= BUFSIZ && remLen <= 2
    }

    /** Free list and pending chain are separate acyclic lists of descriptors. */
    ghost predicate Pool()
      reads this, descr
    {
      && Descriptors()
      && Within(free, descr) && Within(queue, descr)
      && Chain(buffers, free) && Chain(pending, queue)
      && NoDup(free) && NoDup(queue) && Apart(free, queue)
    }

    ghost predicate Queued()
      reads this, queue`hdrlength, queue`datalength, queue`offset, set d | d in queue :: d.data
    {
      AllReady(queue, queued)
    }

    /** Everything on the wire or waiting is framed as the peer expects. */
    ghost predicate Framed()
      reads this
    {
      && Carries(wire, groups)
      && (forall g :: g in groups ==> Blocked(g, bufferSize))
      && AllValid(queued)
      && (queued != [] ==> Blocked(queued, bufferSize))
    }

    /** The state in which pending messages may be sent. */
    ghost predicate Sendable()
      reads this, descr, set d | d in descr :: d.data
    {
      Pool() && Queued() && Framed()
    }

    ghost predicate Valid()
      reads this, descr, set d | d in descr :: d.data
    {
      Sendable() && forall m :: m in queued ==> m.hdr.form != NoLength
    }

    /** Descriptors in the hands of callers. */
    ghost function Held(): set<BufDescr>
      reads this
    {
      set d | d in descr && d !in free && d !in queue
    }

    /** All messages ever written, in order. */
    ghost function Written(): seq<Message>
      reads this
    {
      Flatten(groups) + queued
    }

    constructor (bufferSize: nat, remLen: nat)
      requires bufferSize <= BUFSIZ && remLen <= 2
      ensures Valid() && Held() == {} && Written() == [] && wire == []
      ensures this.bufferSize == bufferSize && this.remLen == remLen
      ensures fresh(descr) && forall d :: d in descr ==> fresh(d.data)
    {
      var ds: seq<BufDescr> := [];
      var head: BufDescr? := null;
      while |ds| < BUFCNT
        invariant |ds| <= BUFCNT && fresh(ds)
        invariant forall d :: d in ds ==> d.data.Length == BUFSIZ && fresh(d.data)
        invariant NoShare(ds) && NoDup(ds) && Chain(head, ds)
      {
        var d := new BufDescr();
        d.next := head;
        head := d;
        ds := [d] + ds;
      }
      descr := ds;
      this.bufferSize, this.remLen := bufferSize, remLen;
      buffers, pending, wire := head, null, [];
      free, queue, queued, groups := ds, [], [], [];
    }

    /** Puts a descriptor at the head of the free list. */
    method PushFree(d: BufDescr)
      requires Chain(buffers, free) && NoDup(free) && d !in free
      modifies d`next, `buffers, `free
      ensures free == [d] + old(free)
      ensures Chain(buffers, free) && NoDup(free)
    {
      d.next := buffers;
      buffers := d;
      free := [d] + free;
    }

    /** Walks the pending chain, gathering its messages into one record. */
    method Gather() returns (bufs: seq<BufDescr>, record: seq<byte>)
      requires Chain(pending, queue) && Complete(queue)
      ensures bufs == queue && record == Contents(queue)
    {
      bufs, record := [], [];
      var desc := pending;
      ghost var rest := queue;
      while desc != null
        invariant Chain(desc, rest) && Complete(rest)
        invariant bufs + rest == queue
        invariant record + Contents(rest) == Contents(queue)
        decreases |rest|
      {
        ChainTail(desc, rest);
        MoveFirst(bufs, rest);
        MoveContents(record, rest);
        record := record + desc.data[..desc.hdrlength + desc.datalength];
        bufs := bufs + [desc];
        desc := desc.next;
        rest := rest[1..];
      }
    }

    /** Returns descriptors to the free list. */
    method ReturnAll(bufs: seq<BufDescr>)
      requires Chain(buffers, free) && NoDup(free)
      requires NoDup(bufs) && Apart(free, bufs)
      modifies `buffers, `free, bufs`next
      ensures Chain(buffers, free) && NoDup(free)
      ensures |free| == |old(free)| + |bufs|
      ensures forall d :: d in free <==> d in old(free) || d in bufs
    {
      var i := 0;
      while i < |bufs|
        invariant 0 <= i <= |bufs|
        invariant Chain(buffers, free) && NoDup(free)
        invariant NoDup(bufs[i..]) && Apart(free, bufs[i..])
        invariant |free| == |old(free)| + i
        invariant forall d :: d in free || d in bufs[i..] <==> d in old(free) || d in bufs
      {
        assert bufs[i..][0] == bufs[i] && bufs[i..][1..] == bufs[i + 1..];
        PushFree(bufs[i]);
        i := i + 1;
      }
    }

    /** Sends everything pending as one record and frees its descriptors. */
    method FlushBuffers() returns (status: nat)
      requires Sendable()
      modifies this, descr`next
      ensures Valid() && queue == [] && queued == []
      ensures Written() == old(Written()) && Held() == old(Held())
      ensures |free| == |old(free)| + |old(queue)|
      ensures status == |EncodeAll(old(queued))|
      ensures wire == old(wire) + (if old(queued) == [] then [] else [EncodeAll(old(queued))])
    {
      PendingContents();
      var bufs, record := Gather();
      status := |record|;
      Recycle(bufs);
      SendRecord(record);
    }

    /** Empties the pending chain into the free list. */
    method Recycle(bufs: seq<BufDescr>)
      requires Pool() && bufs == queue
      modifies `buffers, `pending, `free, `queue, descr`next
      ensures Pool() && queue == [] && Held() == old(Held())
      ensures |free| == |old(free)| + |bufs|
    {
      pending := null;
      ReturnAll(bufs);
      forall i | 0 <= i < |free| ensures free[i] in descr {
        assert free[i] in free && (free[i] in old(free) || free[i] in bufs);
      }
      queue := [];
    }

    /** One record to the network, unless there is nothing in it. */
    method SendRecord(record: seq<byte>)
      requires Framed() && record == EncodeAll(queued)
      modifies `wire, `queued, `groups
      ensures Framed() && queued == [] && Written() == old(Written())
      ensures wire == old(wire) + (if old(queued) == [] then [] else [EncodeAll(old(queued))])
    {
      if |record| > 0 {
        assert queued != [];
        CarriesAppend(wire, groups, queued);
        FlattenAppend(groups, queued);
        wire := wire + [record];
        groups := groups + [queued];
      } else if queued != [] {
        NonEmptyEncoding(queued);
      }
      queued := [];
    }

    method PopFree() returns (result: BufDescr)
      requires Pool() && free != []
      modifies `buffers, `free
      ensures Pool() && result == old(free)[0] && free == old(free)[1..]
      ensures Held() == old(Held()) + {result}
    {
      result := buffers;
      buffers := result.next;
      free := free[1..];
    }

    method Reset(d: BufDescr)
      requires Valid() && d in Held()
      modifies d`hdrlength, d`datalength, d`offset
      ensures Valid() && d.Valid() && d.offset == d.hdrlength == 0
    {
      d.hdrlength, d.datalength, d.offset := 0, 0, 0;
      HeldOnly(d);
    }

    /** If all buffers are in use, flush. */
    method MakeAvailable()
      requires Valid() && |Held()| < BUFCNT
      modifies this, descr`next
      ensures Valid() && free != [] && Held() == old(Held())
      ensures Written() == old(Written())
      ensures old(wire) <= wire
    {
      SomeAvailable();
      if buffers == null {
        var _ := FlushBuffers();
      }
    }

    /** Allocation succeeds as long as some descriptor is not held by a caller. */
    method AllocBuf() returns (result: BufDescr)
      requires Valid() && |Held()| < BUFCNT
      modifies this, descr`next, descr`hdrlength, descr`datalength, descr`offset
      ensures Valid() && result in descr && result !in old(Held())
      ensures Held() == old(Held()) + {result}
      ensures result.Valid() && result.offset == result.hdrlength == 0
      ensures Written() == old(Written())
      ensures old(wire) <= wire
      ensures forall d :: d in descr && d != result ==>
                d.offset == old(d.offset) && d.hdrlength == old(d.hdrlength)
    {
      MakeAvailable();
      assert forall d :: d in descr ==> d.offset == old(d.offset) && d.hdrlength == old(d.hdrlength);
      result := TakeFree();
    }

    method TakeFree() returns (result: BufDescr)
      requires Valid() && free != []
      modifies `buffers, `free, descr`hdrlength, descr`datalength, descr`offset
      ensures Valid() && result in descr && result !in old(Held())
      ensures Held() == old(Held()) + {result}
      ensures result.Valid() && result.offset == result.hdrlength == 0
      ensures forall d :: d in descr && d != result ==>
                d.offset == old(d.offset) && d.hdrlength == old(d.hdrlength)
    {
      result := PopFree();
      Reset(result);
    }

    /** No other descriptor shares the storage of d. */
    lemma OwnStorage(d: BufDescr)
      requires Descriptors() && d in descr
      ensures forall e :: e in descr && e != d ==> e.data != d.data
    {
      OwnData(descr, d);
    }

    /** Filling a descriptor that a caller holds disturbs nothing else. */
    twostate lemma HeldOnly(d: BufDescr)
      requires old(Valid()) && d in old(Held()) && d.next == old(d.next)
      requires unchanged(this)
      requires forall e :: e in descr && e != d ==> unchanged(e) && unchanged(e.data)
      ensures Valid() && Held() == old(Held())
    {
      assert forall e :: e in queue ==> e in descr && e != d;
      forall i | 0 <= i < |queue| ensures Ready(queue[i], queued[i]) {
        assert old(Ready(queue[i], queued[i])) && queue[i] in queue;
      }
    }

    /** Writes the header fields of a fresh buffer, the length left at zero. */
    method PutHeader(buf: BufDescr, kind: byte, form: LengthForm)
      requires buf.Valid() && buf.offset == 0 && buf.data.Length == BUFSIZ
      modifies buf`offset, buf`hdrlength, buf.data
      ensures Started(buf, Plain(kind, form))
    {
      buf.BPut(kind);
      match form {
        case NoLength =>
          buf.BPut(0);
        case OneByte =>
          buf.BPut(2);
          buf.BPut(0);
        case TwoBytes =>
          buf.BPut(6);
          buf.TwoBPut(0);
      }
      buf.HdrDone();
    }

    /** Allocates a descriptor and starts a message in it. */
    method Start(kind: byte, form: LengthForm) returns (buf: BufDescr)
      requires Valid() && |Held()| < BUFCNT
      modifies this, descr, set d | d in descr :: d.data
      ensures Valid() && buf !in old(Held()) && Held() == old(Held()) + {buf}
      ensures Started(buf, Plain(kind, form))
      ensures Written() == old(Written()) && old(wire) <= wire
    {
      buf := AllocBuf();
      FillHeader(buf, kind, form);
    }

    /** Puts a header into a descriptor that the caller holds. */
    method FillHeader(buf: BufDescr, kind: byte, form: LengthForm)
      requires Valid() && buf in Held() && buf.Valid() && buf.offset == buf.hdrlength == 0
      modifies buf`offset, buf`hdrlength, buf.data
      ensures Valid() && Held() == old(Held()) && Written() == old(Written())
      ensures Started(buf, Plain(kind, form))
    {
      OwnStorage(buf);
      label L:
      PutHeader(buf, kind, form);
      HeldOnly@L(buf);
    }

    method BuildHeader(kind: byte) returns (buf: BufDescr)
      requires Valid() && |Held()| < BUFCNT
      modifies this, descr, set d | d in descr :: d.data
      ensures Valid() && buf !in old(Held()) && Held() == old(Held()) + {buf}
      ensures Started(buf, Plain(kind, NoLength))
      ensures Written() == old(Written()) && old(wire) <= wire
    {
      buf := Start(kind, NoLength);
    }

    /** A one byte length field if the peer supports lengths at all. */
    method BuildHeader1Len(kind: byte) returns (buf: BufDescr)
      requires Valid() && |Held()| < BUFCNT
      modifies this, descr, set d | d in descr :: d.data
      ensures Valid() && buf !in old(Held()) && Held() == old(Held()) + {buf}
      ensures Started(buf, Plain(kind, if remLen != 0 then OneByte else NoLength))
      ensures Written() == old(Written()) && old(wire) <= wire
    {
      buf := Start(kind, if remLen != 0 then OneByte else NoLength);
    }

    /** A two byte length field if the peer supports that. */
    method BuildHeader2Len(kind: byte) returns (buf: BufDescr)
      requires Valid() && |Held()| < BUFCNT
      modifies this, descr, set d | d in descr :: d.data
      ensures Valid() && buf !in old(Held()) && Held() == old(Held()) + {buf}
      ensures Started(buf, Plain(kind, if remLen == 2 then TwoBytes else NoLength))
      ensures Written() == old(Written()) && old(wire) <= wire
    {
      buf := Start(kind, if remLen == 2 then TwoBytes else NoLength);
    }

    /** The total size of the pending messages, summed in 16 bits. */
    method PendingSize() returns (len: nat)
      requires Chain(pending, queue) && Complete(queue) && |Contents(queue)| < U16
      ensures len == |Contents(queue)|
    {
      len := 0;
      var ptr := pending;
      ghost var rest := queue;
      while ptr != null
        invariant Chain(ptr, rest) && Complete(rest)
        invariant len + |Contents(rest)| == |Contents(queue)|
        decreases |rest|
      {
        ChainTail(ptr, rest);
        FirstSize(rest);
        len := (len + ptr.hdrlength + ptr.datalength) % U16;
        ptr := ptr.next;
        rest := rest[1..];
      }
    }

    /** Pending messages, seen as bytes, are the encodings of the queue. */
    lemma PendingContents()
      requires Pool() && Queued() && Framed()
      ensures Complete(queue) && Contents(queue) == EncodeAll(queued)
      ensures |Contents(queue)| <= BUFSIZ
    {
      ReadyContents(queue, queued);
      if |queued| == 1 {
        assert EncodeAll(queued) == Encode(queued[0]) + EncodeAll([]);
      }
    }

    /** Completes the length field of a filled buffer. */
    method PatchLength(desc: BufDescr, ghost m: Message)
      requires desc.data.Length == BUFSIZ && Filled(desc, m)
      modifies desc`datalength, desc.data
      ensures Ready(desc, m)
    {
      ghost var before := desc.Bytes();
      HeaderPatch(m.hdr, m.data);
      FlagMasks(m.hdr);
      desc.datalength := desc.offset - desc.hdrlength;
      if And(desc.data[1], 2) != 0 {
        var idx := if And(desc.data[1], 1) != 0 then 3 else 2;
        desc.data[idx] := desc.datalength % 256;
        if And(desc.data[1], 4) != 0 {
          desc.data[idx + 1] := desc.datalength / 256 % 256;
        }
      }
      assert desc.Bytes() == Encode(m);
    }

    /** Links a message to the end of the pending chain. */
    method AppendPending(desc: BufDescr, ghost m: Message)
      requires Pool() && Queued() && desc in Held() && Ready(desc, m)
      modifies `pending, `queue, `queued, desc`next, queue`next
      ensures Pool() && Queued() && queued == old(queued) + [m]
      ensures queue == old(queue) + [desc] && Held() == old(Held()) - {desc}
    {
      ghost var waiting := queue;
      Link(desc);
      AllReadyAppend(waiting, queued, desc, m);
      queued := queued + [m];
    }

    method Link(desc: BufDescr)
      requires Pool() && desc in Held()
      modifies `pending, `queue, desc`next, queue`next
      ensures Pool() && queue == old(queue) + [desc] && Held() == old(Held()) - {desc}
    {
      LinkLast(desc);
      NoDupAppend(queue, desc);
      forall i | 0 <= i < |free| ensures free[i].next == old(free[i].next) {
        assert free[i] in free;
      }
      assert Chain(buffers, free);
      queue := queue + [desc];
      assert Chain(pending, queue);
    }

    method LinkLast(desc: BufDescr)
      requires Chain(pending, queue) && NoDup(queue) && desc !in queue
      modifies `pending, desc`next, queue`next
      ensures Chain(pending, queue + [desc])
    {
      desc.next := null;
      if pending == null {
        pending := desc;
      } else {
        var last := LastPending();
        forall i | 0 <= i < |queue| - 1 ensures queue[i] != last {
          NoDupIndex(queue, i, |queue| - 1);
        }
        last.next := desc;
      }
    }

    method LastPending() returns (last: BufDescr)
      requires Chain(pending, queue) && queue != []
      ensures last == queue[|queue| - 1]
    {
      last := pending;
      ghost var k := 0;
      while last.next != null
        invariant 0 <= k < |queue| && last == queue[k]
        decreases |queue| - k
      {
        assert queue[k].next == queue[k + 1];
        last := last.next;
        k := k + 1;
      }
      assert queue[k].next == null;
    }

    /** Makes room for a message of the given size in the current record. */
    method FlushIfOver(size: nat)
      requires Valid()
      modifies this, descr`next
      ensures Valid() && Held() == old(Held())
      ensures Written() == old(Written()) && old(wire) <= wire
      ensures Left(Over(old(queued), size, bufferSize), old(wire), old(queued), wire, queued)
      ensures if Over(old(queued), size, bufferSize) then free != [] else free == old(free)
    {
      if pending != null {
        PendingContents();
        var len := PendingSize();
        if len + size > bufferSize {
          var _ := FlushBuffers();
        }
      }
    }

    /** Completes the header of a buffer that its caller is about to write. */
    method PatchHeld(desc: BufDescr, ghost m: Message)
      requires Valid() && desc in Held() && Filled(desc, m)
      modifies desc`datalength, desc.data
      ensures Valid() && Held() == old(Held())
      ensures Ready(desc, m)
    {
      OwnStorage(desc);
      PatchLength(desc, m);
      HeldOnly(desc);
    }

    /** The header is completed and, if need be, the current record closed. */
    method Prepare(desc: BufDescr, ghost m: Message)
      requires Valid() && desc in Held() && Filled(desc, m)
      modifies this, descr`next, desc`datalength, desc.data
      ensures Valid() && Held() == old(Held()) && Ready(desc, m)
      ensures Written() == old(Written()) && old(wire) <= wire
      ensures Left(Over(old(queued), |Encode(m)|, bufferSize), old(wire), old(queued), wire, queued)
      ensures if Over(old(queued), |Encode(m)|, bufferSize) then free != [] else free == old(free)
    {
      PatchHeld(desc, m);
      FlushIfOver(desc.hdrlength + desc.datalength);
    }

    /** The message joins the pending chain. */
    method Enqueue(desc: BufDescr, ghost m: Message)
      requires Valid() && desc in Held() && Ready(desc, m)
      requires queued == [] || |EncodeAll(queued)| + |Encode(m)| <= bufferSize
      modifies `pending, `queue, `queued, desc`next, queue`next
      ensures Sendable() && Held() == old(Held()) - {desc}
      ensures queued == old(queued) + [m] && Written() == old(Written()) + [m]
    {
      assert Flatten(groups) + (queued + [m]) == Flatten(groups) + queued + [m];
      assert |desc.Bytes()| <= BUFSIZ;
      BlockedMore(queued, m, bufferSize);
      AppendPending(desc, m);
    }

    /** Queues a filled buffer; sends everything pending when the message carries
        no length or no free descriptor is left. */
    method Write(desc: BufDescr, ghost m: Message) returns (status: nat)
      requires Valid() && desc in Held() && Filled(desc, m)
      modifies this, descr`next, desc`datalength, desc.data
      ensures Valid() && Held() == old(Held()) - {desc}
      ensures Written() == old(Written()) + [m] && old(wire) <= wire
      ensures Blocks(m, bufferSize, old(free) == [], old(wire), old(queued), wire, queued)
      ensures m.hdr.form == NoLength ==> queued == []
      ensures status > 0
    {
      Prepare(desc, m);
      ghost var wire1, queued1, noneLeft := wire, queued, free == [];
      status := Finish(desc, m);
      BlocksIs(m, bufferSize, old(free) == [], old(wire), old(queued), wire1, queued1, noneLeft, wire, queued);
    }

    method Finish(desc: BufDescr, ghost m: Message) returns (status: nat)
      requires Valid() && desc in Held() && Ready(desc, m)
      requires queued == [] || |EncodeAll(queued)| + |Encode(m)| <= bufferSize
      modifies this, descr`next
      ensures Valid() && Held() == old(Held()) - {desc}
      ensures Written() == old(Written()) + [m] && old(wire) <= wire
      ensures Left(m.hdr.form == NoLength || old(free) == [], old(wire), old(queued) + [m], wire, queued)
      ensures status > 0
    {
      Enqueue(desc, m);
      status := FlushIfDone(desc, m);
    }

    /** A message without a length ends its record; so does the last buffer. */
    method FlushIfDone(desc: BufDescr, ghost m: Message) returns (status: nat)
      requires Sendable() && Ready(desc, m)
      requires queued != [] && queued[|queued| - 1] == m
      modifies this, descr`next
      ensures Valid() && Held() == old(Held())
      ensures Written() == old(Written()) && old(wire) <= wire
      ensures Left(m.hdr.form == NoLength || old(free) == [], old(wire), old(queued), wire, queued)
      ensures status > 0
    {
      EncodedFlags(desc, m);
      if And(desc.data[1], 2) == 0 || buffers == null {
        NonEmptyEncoding(queued);
        status := FlushBuffers();
      } else {
        status := 1;
      }
    }

    method ReleaseBuf(d: BufDescr)
      requires Valid() && d in Held()
      modifies `buffers, `free, d`next
      ensures Valid() && Held() == old(Held()) - {d}
      ensures Written() == old(Written()) && wire == old(wire)
    {
      PushFree(d);
    }

    lemma SomeAvailable()
      requires Pool() && |Held()| < BUFCNT
      ensures free != [] || queue != []
    {
      if free == [] && queue == [] {
        assert Held() == set d | d in descr;
        NoDupCard(descr);
      }
    }
  }

  lemma {:induction false} OwnData(s: seq<BufDescr>, d: BufDescr)
    requires NoShare(s) && d in s
    ensures forall e :: e in s && e != d ==> e.data != d.data
  {
    if d == s[0] {
    } else {
      assert d in s[1..];
      OwnData(s[1..], d);
    }
  }

  lemma {:induction false} NoDupAppend(s: seq<BufDescr>, d: BufDescr)
    requires NoDup(s) && d !in s
    ensures NoDup(s + [d])
  {
    if s == [] {
    } else {
      NoDupAppend(s[1..], d);
      assert (s + [d])[1..] == s[1..] + [d];
    }
  }

  /** In a list without repetition only the last element is last. */
  lemma {:induction false} NoDupIndex(s: seq<BufDescr>, i: nat, j: nat)
    requires NoDup(s) && i < j < |s|
    ensures s[i] != s[j]
  {
    if i == 0 {
    } else {
      NoDupIndex(s[1..], i - 1, j - 1);
    }
  }

  lemma {:induction false} NoDupCard(s: seq<BufDescr>)
    requires NoDup(s)
    ensures |set d | d in s| == |s|
  {
    if s == [] {
    } else {
      var t := s[1..];
      NoDupCard(t);
      assert (set d | d in s) == (set d | d in t) + {s[0]};
      assert s[0] !in t;
    }
  }
}
