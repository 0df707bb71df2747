/** FAL's transfer loops: reading an open file into Data messages, and writing
    received Data messages to a file. */
module DapFile {
  import opened Bits
  import opened DapWire
  import opened DapBuffer
  import opened DapSend
  import opened DapAttributes
  import opened DapTransfer
  import opened Wrappers

  // Message types and access complete functions.
  const COMPLETE := 7
  const DATA := 8
  const STATUS := 9
  const ENDSTREAM := 4

  /** Everything before the end of the message is as it was. */
  twostate predicate FrontKept(buf: BufDescr)
    reads buf.data
    requires buf.offset <= buf.data.Length
    reads buf`offset
  {
    forall j :: 0 <= j < buf.offset ==> buf.data[j] == old(buf.data[j])
  }

  /** The bytes c stand at the end of the message. */
  ghost predicate Holds(buf: BufDescr, c: seq<byte>)
    reads buf`offset, buf.data
  {
    && buf.offset + |c| <= buf.data.Length
    && forall i :: 0 <= i < |c| ==> buf.data[buf.offset + i] == c[i]
  }

  lemma {:induction false} LineStep(s: seq<byte>, max: nat, k: nat)
    requires k < |s| && k < max && forall i :: 0 <= i < k ==> s[i] != LF
    ensures s[k] == LF ==> LineLength(s, max) == k + 1
    ensures s[k] != LF && (k + 1 == |s| || k + 1 == max) ==> LineLength(s, max) == k + 1
  {
    if k == 0 {
    } else {
      LineStep(s[1..], max - 1, k - 1);
    }
  }

  /** Reads a line of at most n - 1 bytes behind the message and terminates it. */
  method Fgets(buf: BufDescr, n: int, file: seq<byte>, pos: nat) returns (eof: bool, got: nat)
    requires buf.Valid() && pos <= |file| && buf.offset + n <= buf.data.Length
    modifies buf.data
    ensures pos + got <= |file| && LineRead(file[pos..], n) == if eof then None else Some(got)
    ensures Holds(buf, file[pos..][..got])
    ensures !eof ==> got < n && buf.data[buf.offset + got] == 0
    ensures FrontKept(buf)
  {
    eof, got := n <= 0, 0;
    if n == 1 {
      buf.data[buf.offset] := 0;
    } else if n >= 2 {
      got := GetLine(buf, n, file, pos);
      eof := got == 0;
    }
  }

  method GetLine(buf: BufDescr, n: nat, file: seq<byte>, pos: nat) returns (got: nat)
    requires buf.Valid() && n >= 2 && pos <= |file| && buf.offset + n <= buf.data.Length
    modifies buf.data
    ensures got == LineLength(file[pos..], n - 1)
    ensures Holds(buf, file[pos..][..got])
    ensures got > 0 ==> buf.data[buf.offset + got] == 0
    ensures FrontKept(buf)
  {
    ghost var s := file[pos..];
    got := 0;
    var more := true;
    while more && got < n - 1 && pos + got < |file|
      invariant got <= n - 1 && pos + got <= |file|
      invariant forall i :: 0 <= i < got ==> buf.data[buf.offset + i] == s[i]
      invariant more ==> forall i :: 0 <= i < got ==> s[i] != LF
      invariant !more ==> got > 0 && got == LineLength(s, n - 1)
      invariant more && got > 0 && (got == n - 1 || got == |s|) ==> got == LineLength(s, n - 1)
      invariant FrontKept(buf)
      decreases n - 1 - got, more
    {
      LineStep(s, n - 1, got);
      buf.data[buf.offset + got] := file[pos + got];
      more := file[pos + got] != LF;
      got := got + 1;
    }
    if got > 0 {
      buf.data[buf.offset + got] := 0;
    }
  }

  /** The length of the C string behind the message, where c and a NUL stand. */
  method StrLen(buf: BufDescr, ghost c: seq<byte>) returns (len: nat)
    requires Holds(buf, c) && buf.offset + |c| < buf.data.Length
    requires buf.data[buf.offset + |c|] == 0
    ensures len == |CString(c)| && Holds(buf, CString(c)) && NoNul(CString(c))
    ensures buf.data[buf.offset + len] == 0
  {
    CStringShape(c);
    len := 0;
    while buf.data[buf.offset + len] != 0
      invariant len <= |c|
      invariant |CString(c)| == len + |CString(c[len..])|
      decreases |c| - len
    {
      assert c[len..][0] == buf.data[buf.offset + len] && c[len..][1..] == c[len + 1..];
      len := len + 1;
    }
    if len < |c| { assert c[len..][0] == buf.data[buf.offset + len]; }
  }

  /** Whether the string t of the given length behind the message ends in LF. */
  method LastIsLf(buf: BufDescr, len: nat, ghost t: seq<byte>) returns (r: bool)
    requires Holds(buf, t) && len == |t|
    ensures r <==> EndsInLf(t)
  {
    r := len > 0 && buf.data[buf.offset + len - 1] == LF;
  }

  method FillVariable(buf: BufDescr, implied: bool, dataSize: nat, file: seq<byte>, pos: nat)
      returns (eof: bool, readlen: nat, used: nat)
    requires buf.Valid() && buf.offset + dataSize <= buf.data.Length && pos <= |file|
    modifies buf.data
    ensures NextChunk(Variable(implied), file[pos..], dataSize) == if eof then None else Some(used)
    ensures !eof ==>
      var r := RecordOf(Variable(implied), file[pos..][..used]);
      Holds(buf, r) && readlen == |r| < dataSize
    ensures FrontKept(buf)
  {
    readlen := 0;
    eof, used := Fgets(buf, dataSize, file, pos);
    if !eof {
      ghost var c := file[pos..][..used];
      readlen := StrLen(buf, c);
      if implied {
        readlen := StripLf(buf, readlen, CString(c));
      }
    }
  }

  /** Cuts a final line feed off the string t behind the message. */
  method StripLf(buf: BufDescr, len: nat, ghost t: seq<byte>) returns (readlen: nat)
    requires Holds(buf, t) && len == |t| && buf.offset + len < buf.data.Length
    requires buf.data[buf.offset + len] == 0 && NoNul(t)
    modifies buf.data
    ensures var r := if EndsInLf(t) then t[..|t| - 1] else t;
      Holds(buf, r) && readlen == |r|
    ensures FrontKept(buf)
  {
    var lf := LastIsLf(buf, len, t);
    ghost var r := t;
    if lf {
      buf.data[buf.offset + len - 1] := 0;
      r := t[..|t| - 1];
    }
    readlen := StrLen(buf, r);
    CStringShape(r);
  }

  /** Turns a final line feed of the string t behind the message into CR LF. */
  method AddCr(buf: BufDescr, len: nat, ghost t: seq<byte>) returns (readlen: nat)
    requires Holds(buf, t) && len == |t| && buf.offset + len + 1 < buf.data.Length
    requires buf.data[buf.offset + len] == 0 && NoNul(t)
    modifies buf.data
    ensures Holds(buf, WithCr(t)) && readlen == |WithCr(t)|
    ensures FrontKept(buf)
  {
    var lf := LastIsLf(buf, len, t);
    if lf {
      PatchCrLf(buf, len, t);
    }
    CStringShape(WithCr(t));
    readlen := StrLen(buf, WithCr(t));
  }

  method PatchCrLf(buf: BufDescr, len: nat, ghost t: seq<byte>)
    requires Holds(buf, t) && len == |t| && buf.offset + len + 1 < buf.data.Length
    requires EndsInLf(t) && NoNul(t)
    modifies buf.data
    ensures Holds(buf, WithCr(t)) && NoNul(WithCr(t)) && |WithCr(t)| == len + 1
    ensures buf.data[buf.offset + len + 1] == 0
    ensures FrontKept(buf)
  {
    buf.data[buf.offset + len - 1] := CR;
    buf.data[buf.offset + len] := LF;
    buf.data[buf.offset + len + 1] := 0;
  }

  method FillStream(buf: BufDescr, dataSize: nat, file: seq<byte>, pos: nat)
      returns (eof: bool, readlen: nat, used: nat)
    requires buf.Valid() && buf.offset + dataSize <= buf.data.Length && pos <= |file|
    modifies buf.data
    ensures NextChunk(Stream, file[pos..], dataSize) == if eof then None else Some(used)
    ensures !eof ==>
      var r := RecordOf(Stream, file[pos..][..used]);
      Holds(buf, r) && readlen == |r| < dataSize
    ensures FrontKept(buf)
  {
    readlen := 0;
    eof, used := Fgets(buf, dataSize - 2, file, pos);
    if !eof {
      ghost var c := file[pos..][..used];
      CStringShape(c);
      var len := StrLen(buf, c);
      readlen := AddCr(buf, len, CString(c));
    }
  }

  method Fread(buf: BufDescr, n: nat, file: seq<byte>, pos: nat) returns (got: nat)
    requires buf.Valid() && pos <= |file| && buf.offset + n <= buf.data.Length
    modifies buf.data
    ensures got == if |file| - pos < n then |file| - pos else n
    ensures Holds(buf, file[pos..][..got])
    ensures FrontKept(buf)
  {
    got := if |file| - pos < n then |file| - pos else n;
    ghost var s := file[pos..];
    forall i | 0 <= i < got { buf.data[buf.offset + i] := file[pos + i]; }
    assert forall i :: 0 <= i < got ==> buf.data[buf.offset + i] == s[i];
  }

  method FillFixed(buf: BufDescr, file: seq<byte>, pos: nat, ghost dataSize: nat)
      returns (eof: bool, readlen: nat, used: nat)
    requires buf.Valid() && buf.offset + BLOCK <= buf.data.Length && pos <= |file|
    modifies buf.data
    ensures NextChunk(Fixed, file[pos..], dataSize) == if eof then None else Some(used)
    ensures !eof ==>
      var r := RecordOf(Fixed, file[pos..][..used]);
      Holds(buf, r) && readlen == |r| == BLOCK
    ensures FrontKept(buf)
  {
    used := Fread(buf, BLOCK, file, pos);
    eof, readlen := used == 0, BLOCK;
    if !eof {
      forall i | used <= i < BLOCK { buf.data[buf.offset + i] := 0; }
      ghost var c := file[pos..][..used];
      assert used == BLOCK ==> c + Zeros(0) == c;
    }
  }

  method FillUndefined(buf: BufDescr, dataSize: nat, file: seq<byte>, pos: nat)
      returns (eof: bool, readlen: nat, used: nat)
    requires buf.Valid() && buf.offset + dataSize <= buf.data.Length && pos <= |file|
    modifies buf.data
    ensures NextChunk(Undefined, file[pos..], dataSize) == if eof then None else Some(used)
    ensures !eof ==>
      var r := RecordOf(Undefined, file[pos..][..used]);
      Holds(buf, r) && readlen == |r| <= dataSize
    ensures FrontKept(buf)
  {
    used := Fread(buf, dataSize, file, pos);
    eof, readlen := used == 0, used;
  }

  /** Puts the next record behind the message. */
  method Fill(buf: BufDescr, fmt: Format, dataSize: nat, file: seq<byte>, pos: nat)
      returns (eof: bool, readlen: nat, used: nat)
    requires buf.Valid() && pos <= |file|
    requires (fmt != Fixed ==> buf.offset + dataSize <= buf.data.Length) && buf.offset + BLOCK <= buf.data.Length
    modifies buf.data
    ensures NextChunk(fmt, file[pos..], dataSize) == if eof then None else Some(used)
    ensures !eof ==>
      var r := RecordOf(fmt, file[pos..][..used]);
      Holds(buf, r) && readlen == |r|
    ensures FrontKept(buf)
  {
    match fmt {
      case Variable(implied) => eof, readlen, used := FillVariable(buf, implied, dataSize, file, pos);
      case Stream => eof, readlen, used := FillStream(buf, dataSize, file, pos);
      case Fixed => eof, readlen, used := FillFixed(buf, file, pos, dataSize);
      case Undefined => eof, readlen, used := FillUndefined(buf, dataSize, file, pos);
    }
  }

  /** The data sizes for which the loop stays within the descriptor. Fixed records do
      not depend on it. */
  predicate Fits(fmt: Format, dataSize: nat) {
    fmt != Fixed ==> dataSize <= BUFSIZ - 13
  }

  /** Those for which it also gets on. */
  predicate Room(fmt: Format, dataSize: nat) {
    Enough(fmt, dataSize) && Fits(fmt, dataSize)
  }

  /** Behind a started Data message: the record number, then the record. */
  method FillMessage(buf: BufDescr, ghost h: Header, fmt: Format, dataSize: nat, file: seq<byte>, pos: nat)
      returns (eof: bool, used: nat)
    requires Started(buf, h) && buf.data.Length == BUFSIZ && buf.offset <= 4
    requires Fits(fmt, dataSize) && pos <= |file|
    modifies buf`offset, buf.data
    ensures NextChunk(fmt, file[pos..], dataSize) == if eof then None else Some(used)
    ensures !eof ==> Filled(buf, Message(h, [0] + RecordOf(fmt, file[pos..][..used])))
  {
    buf.BPut(0);
    ghost var front := buf.Bytes();
    var readlen;
    eof, readlen, used := Fill(buf, fmt, dataSize, file, pos);
    if !eof {
      ghost var r := RecordOf(fmt, file[pos..][..used]);
      assert buf.Bytes() == front;
      AllocateSpace(buf, readlen, r);
      Behind(HeaderBytes(h, 0), r);
    }
  }

  lemma Behind(front: seq<byte>, r: seq<byte>)
    ensures front + [0] + r == front + ([0] + r)
  {
  }

  /** Takes up bytes that were written behind the message directly. */
  method AllocateSpace(buf: BufDescr, len: nat, ghost r: seq<byte>)
    requires buf.Valid() && Holds(buf, r) && len == |r|
    modifies buf`offset
    ensures buf.Valid() && buf.Bytes() == old(buf.Bytes()) + r
  {
    buf.offset := buf.offset + len;
  }

  function DataForm(d: Dap): LengthForm {
    if d.remLen == 2 then TwoBytes else NoLength
  }

  /** The message for the chunk at a position, if the loop does not end there. */
  function Chunk(form: LengthForm, fmt: Format, file: seq<byte>, pos: nat, dataSize: nat): seq<Message>
    requires pos <= |file|
  {
    match NextChunk(fmt, file[pos..], dataSize)
    case None => []
    case Some(k) => [Message(Plain(DATA, form), [0] + RecordOf(fmt, file[pos..][..k]))]
  }

  /** Sends one Data message, or finds that the file is at its end. */
  method FillChunk(d: Dap, buf: BufDescr, ghost h: Header, fmt: Format, dataSize: nat, file: seq<byte>, pos: nat)
      returns (eof: bool, used: nat)
    requires d.Valid() && buf in d.Held() && Started(buf, h)
    requires h.streamId.None? && h.bitCount.None? && h.sysSpec.None?
    requires Fits(fmt, dataSize) && pos <= |file|
    modifies buf`offset, buf.data
    ensures d.Valid() && d.Held() == old(d.Held()) && d.Written() == old(d.Written())
    ensures NextChunk(fmt, file[pos..], dataSize) == if eof then None else Some(used)
    ensures !eof ==> Filled(buf, Message(h, [0] + RecordOf(fmt, file[pos..][..used])))
  {
    PlainSize(buf, h);
    d.OwnStorage(buf);
    label L:
    eof, used := FillMessage(buf, h, fmt, dataSize, file, pos);
    d.HeldOnly@L(buf);
  }

  method SendChunk(d: Dap, fmt: Format, dataSize: nat, file: seq<byte>, pos: nat)
      returns (eof: bool, used: nat)
    requires d.Valid() && |d.Held()| < BUFCNT
    requires Fits(fmt, dataSize) && pos <= |file|
    modifies d, d.descr, set x | x in d.descr :: x.data
    ensures d.Valid() && d.Held() == old(d.Held())
    ensures NextChunk(fmt, file[pos..], dataSize) == if eof then None else Some(used)
    ensures d.Written() == old(d.Written()) + Chunk(DataForm(d), fmt, file, pos, dataSize)
  {
    ghost var held := d.Held();
    var buf := d.BuildHeader2Len(DATA);
    ghost var h := Plain(DATA, DataForm(d));
    assert held + {buf} - {buf} == held;
    eof, used := FillChunk(d, buf, h, fmt, dataSize, file, pos);
    ghost var m := Message(h, [0] + if eof then [] else RecordOf(fmt, file[pos..][..used]));
    WriteUnless(d, eof, buf, m);
  }

  /** Writes the message m, or gives its buffer back. */
  method WriteUnless(d: Dap, eof: bool, buf: BufDescr, ghost m: Message)
    requires d.Valid() && buf in d.Held() && (!eof ==> Filled(buf, m))
    modifies d, d.descr, set x | x in d.descr :: x.data
    ensures d.Valid() && d.Held() == old(d.Held()) - {buf}
    ensures d.Written() == old(d.Written()) + if eof then [] else [m]
  {
    if eof {
      d.ReleaseBuf(buf);
    } else {
      var _ := d.Write(buf, m);
    }
  }

  /** The Data messages that carry the given records. */
  function DataMessages(form: LengthForm, records: seq<seq<byte>>): seq<Message> {
    if records == [] then []
    else [Message(Plain(DATA, form), [0] + records[0])] + DataMessages(form, records[1..])
  }

  /** Reports an error or the end of the file. */
  method ReportError(d: Dap, error: nat)
    requires d.Valid() && |d.Held()| < BUFCNT && error < U16
    modifies d, d.descr, set x | x in d.descr :: x.data
    ensures d.Valid() && d.Held() == old(d.Held()) && d.queued == []
    ensures d.Written() == old(d.Written()) + [StatusMessage(error)]
  {
    ghost var held := d.Held();
    var buf := d.BuildHeader(STATUS);
    ghost var h := Plain(STATUS, NoLength);
    assert held + {buf} - {buf} == held;
    FillStatus(d, buf, h, error);
    var _ := d.Write(buf, StatusMessage(error));
  }

  method FillStatus(d: Dap, buf: BufDescr, ghost h: Header, error: nat)
    requires d.Valid() && buf in d.Held() && Started(buf, h) && h == Plain(STATUS, NoLength) && error < U16
    modifies buf`offset, buf.data
    ensures d.Valid() && d.Held() == old(d.Held()) && d.Written() == old(d.Written())
    ensures Filled(buf, StatusMessage(error))
  {
    PlainSize(buf, h);
    d.OwnStorage(buf);
    label L:
    PutStatus(buf, h, error);
    d.HeldOnly@L(buf);
  }

  function StatusMessage(error: nat): Message {
    Message(Plain(STATUS, NoLength), [error % 256, error / 256 % 256, 0, 0, 0])
  }

  method PutStatus(buf: BufDescr, ghost h: Header, error: nat)
    requires Started(buf, h) && buf.data.Length == BUFSIZ && buf.offset <= 4
    requires h == Plain(STATUS, NoLength) && error < U16
    modifies buf`offset, buf.data
    ensures Filled(buf, StatusMessage(error))
  {
    buf.TwoBPut(error);
    buf.BPut(0);
    buf.BPut(0);
    buf.BPut(0);
  }

  const END_OF_FILE := 0x5027

  /** The room for data that is computed from the negotiated buffer size, in 16 bits. */
  function DataSize(bufferSize: nat): nat {
    (bufferSize - 4 - 9) % U16
  }

  /** Of the buffer sizes a peer may ask for, those below 13 make the room for data wrap
      around, and then every format but fixed records overruns the descriptor; with 14 the
      loop never ends for variable records, with 16 for stream files; with up to 13, and
      for stream files up to 15, it ends at once. */
  lemma DataFits(fmt: Format, bufferSize: nat)
    requires 0 < bufferSize <= BUFSIZ
    ensures Fits(fmt, DataSize(bufferSize)) <==> fmt == Fixed || bufferSize >= 13
    ensures fmt != Fixed && bufferSize < 13 ==> 4 + 1 + DataSize(bufferSize) > BUFSIZ
    ensures Fits(fmt, DataSize(bufferSize)) ==>
              (Spins(fmt, DataSize(bufferSize)) <==> (fmt.Variable? && bufferSize == 14) || (fmt == Stream && bufferSize == 16))
    ensures Fits(fmt, DataSize(bufferSize)) ==>
              (GetsOn(fmt, DataSize(bufferSize)) <==>
                 bufferSize >= match fmt case Fixed => 1 case Undefined => 14 case Variable(_) => 15 case Stream => 17)
  {
    EnoughExact(fmt, DataSize(bufferSize));
    if bufferSize < 13 {
      ModUnique(bufferSize - 13, U16, -1, U16 + bufferSize - 13);
    }
  }

  /** Sends a whole file as Data messages, then the end-of-file status; with too little
      room the status alone. */
  method GetFileData(d: Dap, fmt: Format, file: seq<byte>)
    requires d.Valid() && |d.Held()| < BUFCNT
    requires Fits(fmt, DataSize(d.bufferSize)) && !Spins(fmt, DataSize(d.bufferSize))
    modifies d, d.descr, set x | x in d.descr :: x.data
    ensures d.Valid() && d.Held() == old(d.Held()) && d.queued == []
    ensures d.Written() == old(d.Written())
      + DataMessages(DataForm(d), Sent(fmt, file, DataSize(d.bufferSize))) + [StatusMessage(END_OF_FILE)]
  {
    var dataSize := DataSize(d.bufferSize);
    SendRecords(d, fmt, file, dataSize);
    ReportError(d, END_OF_FILE);
  }

  /** What is left to send after one more turn. */
  lemma SentStep(form: LengthForm, fmt: Format, s: seq<byte>, dataSize: nat)
    requires !Spins(fmt, dataSize)
    ensures match NextChunk(fmt, s, dataSize)
      case None => DataMessages(form, Sent(fmt, s, dataSize)) == []
      case Some(k) =>
        k > 0 &&
        DataMessages(form, Sent(fmt, s, dataSize)) ==
          [Message(Plain(DATA, form), [0] + RecordOf(fmt, s[..k]))] + DataMessages(form, Sent(fmt, s[k..], dataSize))
  {
    if Enough(fmt, dataSize) && s != [] {
      var k := ChunkLength(fmt, s, dataSize);
      var rest := Records(fmt, s[k..], dataSize);
      assert ([RecordOf(fmt, s[..k])] + rest)[1..] == rest;
    } else if Enough(fmt, dataSize) {
      assert ChunkLength(fmt, s, dataSize) == 0;
    }
  }

  /** The messages still to come from a position on. */
  function Pending(form: LengthForm, fmt: Format, file: seq<byte>, pos: nat, dataSize: nat): seq<Message>
    requires pos <= |file|
  {
    DataMessages(form, Sent(fmt, file[pos..], dataSize))
  }

  /** One turn takes its message from what is still to come. */
  lemma PendingStep(form: LengthForm, fmt: Format, file: seq<byte>, pos: nat, dataSize: nat,
                    eof: bool, used: nat, before: seq<Message>, all: seq<Message>)
    requires !Spins(fmt, dataSize) && pos <= |file|
    requires NextChunk(fmt, file[pos..], dataSize) == if eof then None else Some(used)
    requires before + Pending(form, fmt, file, pos, dataSize) == all
    ensures eof ==> before + Chunk(form, fmt, file, pos, dataSize) == all
    ensures !eof ==> 0 < used <= |file| - pos
    ensures !eof ==>
      before + Chunk(form, fmt, file, pos, dataSize) + Pending(form, fmt, file, pos + used, dataSize) == all
  {
    var s := file[pos..];
    SentStep(form, fmt, s, dataSize);
    if eof {
      Regroup(before, [], []);
    } else {
      assert s[used..] == file[pos + used..];
      Regroup(before, Chunk(form, fmt, file, pos, dataSize), Pending(form, fmt, file, pos + used, dataSize));
    }
  }

  lemma Regroup<T>(a: seq<T>, b: seq<T>, c: seq<T>)
    ensures a + (b + c) == a + b + c
  {
  }

  /** The loop over the chunks of a file. */
  method SendRecords(d: Dap, fmt: Format, file: seq<byte>, dataSize: nat)
    requires d.Valid() && |d.Held()| < BUFCNT && Fits(fmt, dataSize) && !Spins(fmt, dataSize)
    modifies d, d.descr, set x | x in d.descr :: x.data
    ensures d.Valid() && d.Held() == old(d.Held())
    ensures d.Written() == old(d.Written()) + DataMessages(DataForm(d), Sent(fmt, file, dataSize))
  {
    var pos := 0;
    var eof := false;
    ghost var form := DataForm(d);
    ghost var all := d.Written() + Pending(form, fmt, file, 0, dataSize);
    assert file[0..] == file;
    while !eof
      invariant d.Valid() && d.Held() == old(d.Held()) && pos <= |file|
      invariant eof ==> d.Written() == all
      invariant !eof ==> d.Written() + Pending(form, fmt, file, pos, dataSize) == all
      decreases |file| - pos, !eof
    {
      eof, pos := SendNext(d, fmt, file, pos, dataSize, all);
    }
  }

  /** One turn of that loop. */
  method SendNext(d: Dap, fmt: Format, file: seq<byte>, pos: nat, dataSize: nat, ghost all: seq<Message>)
      returns (eof: bool, next: nat)
    requires d.Valid() && |d.Held()| < BUFCNT && Fits(fmt, dataSize) && !Spins(fmt, dataSize)
    requires pos <= |file| && d.Written() + Pending(DataForm(d), fmt, file, pos, dataSize) == all
    modifies d, d.descr, set x | x in d.descr :: x.data
    ensures d.Valid() && d.Held() == old(d.Held())
    ensures if eof then next == pos else pos < next <= |file|
    ensures eof ==> d.Written() == all
    ensures !eof ==> d.Written() + Pending(DataForm(d), fmt, file, next, dataSize) == all
  {
    ghost var form, before := DataForm(d), d.Written();
    var used;
    eof, used := SendChunk(d, fmt, dataSize, file, pos);
    PendingStep(form, fmt, file, pos, dataSize, eof, used, before, all);
    next := if eof then pos else pos + used;
  }
}
