/** The receive side of the DAP engine: one input buffer that holds the current
    network record, cursors that cut it into messages, and the routines that take
    fields off the current message. */
module DapReceive {
  import opened Bits
  import opened Wrappers
  import opened DapWire
  import opened DapField
  import opened DapBuffer

  class DapReader {
    const inbuf: array<byte>
    var input: seq<seq<byte>>     // records the network has yet to deliver
    var inptr: nat
    var inlen: nat
    var msgstart: nat
    var hdrlength: nat
    var msglength: nat
    var datalength: nat
    var msgend: nat
    var msgtype: byte
    var msgstreamid: Option<byte>
    var msgform: LengthForm
    var msgbitcnt: Option<byte>
    var msgsysspec: Option<seq<byte>>

    ghost predicate Valid()
      reads this
    {
      && inbuf.Length == BUFSIZ && inlen <= BUFSIZ
      && forall r :: r in input ==> 0 < |r| <= BUFSIZ
    }

    constructor (input: seq<seq<byte>>)
      requires forall r :: r in input ==> 0 < |r| <= BUFSIZ
      ensures Valid() && fresh(inbuf) && this.input == input && inlen == 0
    {
      inbuf := new byte[BUFSIZ](_ => 0);
      this.input := input;
      inptr, inlen, msgstart, hdrlength, msglength, datalength, msgend := 0, 0, 0, 0, 0, 0, 0;
      msgtype, msgstreamid, msgform, msgbitcnt, msgsysspec := 0, None, NoLength, None, None;
    }

    /** The current record is used up. */
    predicate AtRecordEnd()
      reads this
    {
      inptr != 0 && (msglength == 0 || msgstart + hdrlength + msglength == inlen)
    }

    /** The part of the current record that is not yet parsed. */
    ghost function Unparsed(): seq<byte>
      reads this, inbuf
      requires Valid()
    {
      var next := msgstart + hdrlength + msglength;
      if next <= inlen then inbuf[next..inlen] else []
    }

    /** Every message still to be delivered; None when the input is malformed. */
    ghost function Undelivered(): Option<seq<Message>>
      reads this, inbuf
      requires Valid()
    {
      if AtRecordEnd() then ParseAll(input) else Join(ParseRecord(Unparsed()), ParseAll(input))
    }

    /** The same, one message after the other, up to where it stops being well formed. */
    ghost function Ahead(): Stream
      reads this, inbuf
      requires Valid()
    {
      if AtRecordEnd() then CutAll(input) else Cut(Unparsed(), CutAll(input))
    }

    lemma AheadParses()
      requires Valid()
      ensures MessagesOf(Ahead()) == Undelivered()
    {
      CutAllParses(input);
      if !AtRecordEnd() { CutParses(Unparsed(), CutAll(input)); }
    }

    /** The bytes the next message is parsed from: a new record, or the rest of this one. */
    ghost function Upcoming(): seq<byte>
      reads this, inbuf
      requires Valid()
    {
      if !AtRecordEnd() then Unparsed() else if input != [] then input[0] else []
    }

    /** Reads the next record, if there is one, and returns its length. */
    method Read() returns (n: nat)
      requires Valid()
      modifies this`input, this`inlen, this`inptr, this`msgstart, this`msglength, this`hdrlength, inbuf
      ensures Valid() && n == inlen
      ensures inptr == msgstart == msglength == hdrlength == 0
      ensures old(input) == [] ==> n == 0 && input == []
      ensures old(input) != [] ==> input == old(input)[1..] && inbuf[..inlen] == old(input)[0]
    {
      if input == [] {
        inlen := 0;
      } else {
        var r := input[0];
        forall i | 0 <= i < |r| { inbuf[i] := r[i]; }
        inlen, input := |r|, input[1..];
      }
      inptr, msgstart, msglength, hdrlength := 0, 0, 0, 0;
      n := inlen;
    }

    /** The first read of a connection. */
    method Start() returns (n: nat)
      requires Valid()
      modifies `input, `inlen, `inptr, `msgstart, `msglength, `hdrlength, inbuf
      ensures Valid() && (n == 0 <==> old(input) == [])
      ensures n != 0 ==> Undelivered() == ParseAll(old(input))
    {
      assert input != [] ==> input[0] in input;
      n := Read();
    }

    /** Until the last record is used up there is another message. */
    lemma SomethingLeft()
      requires Valid() && Undelivered().Some?
      ensures input == [] && AtRecordEnd() <==> Undelivered().value == []
    {
    }

    /** Takes a header byte if the flags call for one. */
    method TakeOptional(present: bool) returns (ok: bool, v: Option<byte>)
      requires Valid() && msgstart <= inptr <= inlen
      modifies `inptr
      ensures Valid() && msgstart <= inptr <= inlen
      ensures var r := ReadOptional(inbuf[msgstart..inlen], old(inptr) - msgstart, present);
        ok == r.Some? && (ok ==> r.value == (v, inptr - msgstart))
    {
      ok, v := true, None;
      if present {
        if inlen - inptr < 1 {
          return false, None;
        }
        v := Some(inbuf[inptr]);
        inptr := inptr + 1;
      }
    }

    method TakeLength(flags: byte) returns (ok: bool)
      requires Valid() && msgstart <= inptr <= inlen && msglength == 0
      modifies `inptr, `msglength, `msgform
      ensures Valid() && msgstart <= inptr <= inlen
      ensures var r := ReadLength(inbuf[msgstart..inlen], old(inptr) - msgstart, flags);
        ok == r.Some? && (ok ==> r.value == (msgform, msglength, inptr - msgstart))
    {
      assert Pow2(1) == 2 && Pow2(2) == 4;
      AndPow2(flags, LENGTH);
      AndPow2(flags, LEN256);
      ghost var s, p := inbuf[msgstart..inlen], inptr - msgstart;
      assert p < |s| ==> s[p] == inbuf[inptr];
      assert p + 1 < |s| ==> s[p + 1] == inbuf[inptr + 1];
      msgform := NoLength;
      if And(flags, 2) != 0 {
        if inlen - inptr < 1 {
          return false;
        }
        msgform, msglength := OneByte, inbuf[inptr] as nat;
        inptr := inptr + 1;
      }
      if And(flags, 4) != 0 {
        if And(flags, 2) == 0 || inlen - inptr < 1 {
          return false;
        }
        msgform, msglength := TwoBytes, msglength + 256 * inbuf[inptr] as nat;
        inptr := inptr + 1;
      }
      ok := true;
    }

    method TakeSysSpec(present: bool) returns (ok: bool)
      requires Valid() && msgstart <= inptr <= inlen
      modifies `inptr, `msgsysspec
      ensures Valid() && msgstart <= inptr <= inlen
      ensures var r := ReadSysSpec(inbuf[msgstart..inlen], old(inptr) - msgstart, present);
        ok == r.Some? && (ok ==> r.value == (msgsysspec, inptr - msgstart))
    {
      ok, msgsysspec := true, None;
      if present {
        SysSpecAt(inbuf[..], msgstart, inlen, inptr - msgstart);
        if inlen - inptr < 1 || inlen - inptr < inbuf[inptr] as int + 1 {
          return false;
        }
        var n := inbuf[inptr] as nat;
        msgsysspec := Some(inbuf[inptr + 1..inptr + 1 + n]);
        inptr := inptr + 1 + n;
      }
    }

    /** The header fields as last parsed. */
    function Hdr(): Header
      reads this
    {
      Header(msgtype, msgstreamid, msgform, msgbitcnt, msgsysspec)
    }

    /** Takes the optional parts of a header, as its flags call for them. */
    method TakeFields(flags: byte) returns (ok: bool)
      requires Valid() && inptr == msgstart + 2 <= inlen && msglength == 0
      modifies `inptr, `msglength, `msgstreamid, `msgform, `msgbitcnt, `msgsysspec
      ensures Valid() && msgstart <= inptr <= inlen
      ensures var r := ParseFields(inbuf[msgstart..inlen], msgtype, flags);
        ok == r.Some? && (ok ==> r.value == Parsed(Hdr(), msglength, inptr - msgstart))
    {
      ghost var s := inbuf[msgstart..inlen];
      FieldMasks(flags);
      ok, msgstreamid := TakeOptional(And(flags, 1) != 0);
      if !ok { return; }
      ghost var p1 := inptr - msgstart;
      assert ReadOptional(s, 2, Bit(flags, STREAMID)) == Some((msgstreamid, p1));
      ok := TakeLength(flags);
      if !ok { return; }
      ghost var p2 := inptr - msgstart;
      assert ReadLength(s, p1, flags) == Some((msgform, msglength, p2));
      LastFields(s, msgtype, flags, msgstreamid, p1, msgform, msglength, p2);
      ok := TakeLast(flags);
    }

    /** Takes the bit count and the system specific part. */
    method TakeLast(flags: byte) returns (ok: bool)
      requires Valid() && msgstart <= inptr <= inlen
      modifies `inptr, `msgbitcnt, `msgsysspec
      ensures Valid() && msgstart <= inptr <= inlen
      ensures var r := ParseLast(inbuf[msgstart..inlen], msgtype, flags, msgstreamid, msgform, msglength, old(inptr) - msgstart);
        ok == r.Some? && (ok ==> r.value == Parsed(Hdr(), msglength, inptr - msgstart))
    {
      FieldMasks(flags);
      ok, msgbitcnt := TakeOptional(And(flags, 8) != 0);
      if !ok { return; }
      ok := TakeSysSpec(And(flags, 32) != 0);
    }

    /** Parses the header at msgstart. */
    method TakeHeader() returns (ok: bool)
      requires Valid() && inptr == msgstart <= inlen
      modifies `inptr, `msglength, `msgtype, `msgstreamid, `msgform, `msgbitcnt, `msgsysspec
      ensures Valid() && msgstart <= inptr <= inlen
      ensures var r := ParseHeader(inbuf[msgstart..inlen]);
        ok == r.Some? && (ok ==> r.value == Parsed(Hdr(), msglength, inptr - msgstart))
    {
      ghost var s := inbuf[msgstart..inlen];
      if inlen - inptr < 1 {
        return false;
      }
      assert s[0] == inbuf[msgstart];
      msgtype := inbuf[inptr];
      inptr := inptr + 1;
      msgstreamid, msgform, msgbitcnt, msgsysspec, msglength := None, NoLength, None, None, 0;
      ok := true;
      if inlen - inptr != 0 {
        var flags := inbuf[inptr];
        assert s[1] == flags;
        inptr := inptr + 1;
        ok := TakeFields(flags);
        assert ParseHeader(s) == ParseFields(s, msgtype, flags);
      }
    }

    /** The data of the current message that has not been taken yet. */
    ghost function Left(): seq<byte>
      reads this, inbuf
      requires InMessage()
    {
      inbuf[inptr..msgend]
    }

    ghost predicate InMessage()
      reads this
    {
      Valid() && inptr <= msgend <= inlen
    }

    /** Steps over the current message, reading a new record when it was the last;
        fails when the connection is closed. */
    method Advance() returns (more: bool)
      requires Valid()
      modifies `input, `inlen, `inptr, `msgstart, `msglength, `hdrlength, inbuf
      ensures Valid() && (more <==> !(old(AtRecordEnd()) && old(input) == []))
      ensures more ==> inptr == msgstart
      ensures more ==> old(Upcoming()) == if inptr <= inlen then inbuf[inptr..inlen] else []
      ensures more ==> old(Ahead()) == Cut(if inptr <= inlen then inbuf[inptr..inlen] else [], CutAll(input))
      ensures !more ==> old(Ahead()).Closed?
    {
      if inptr != 0 && (msglength == 0 || msgstart + hdrlength + msglength == inlen) {
        more := NextRecord();
      } else {
        assert Ahead() == Cut(Unparsed(), CutAll(input));
        msgstart := msgstart + hdrlength + msglength;
        inptr := msgstart;
        more := true;
      }
    }

    /** Goes on with the next record, if there is one. */
    method NextRecord() returns (more: bool)
      requires Valid() && AtRecordEnd()
      modifies `input, `inlen, `inptr, `msgstart, `msglength, `hdrlength, inbuf
      ensures Valid() && (more <==> old(input) != [])
      ensures more ==> inptr == msgstart == 0 && inptr <= inlen && old(Upcoming()) == inbuf[inptr..inlen]
      ensures more ==> old(Ahead()) == Cut(inbuf[inptr..inlen], CutAll(input))
      ensures !more ==> old(Ahead()).Closed?
    {
      assert input != [] ==> input[0] in input;
      var n := Read();
      if n <= 0 {
        return false;
      }
      assert inbuf[0..inlen] == old(input)[0];
      msgstart := msgstart + hdrlength + msglength;
      inptr := msgstart;
      more := true;
    }

    /** Moves on to the next message and returns its data length, 0 when the
        connection is closed and -1 exactly when the header is malformed. */
    method NextMessage() returns (rc: int, func: byte)
      requires Valid()
      modifies this, inbuf
      ensures Valid()
      ensures old(AtRecordEnd()) && old(input) == [] ==> rc == 0
      ensures !(old(AtRecordEnd()) && old(input) == []) ==> (rc == -1 <==> ParseHeader(old(Upcoming())).None?)
      ensures Delivered(old(Ahead()), rc, func)
      ensures old(Undelivered()).Some? && old(Undelivered()).value != [] ==>
        var ms := old(Undelivered()).value;
        && InMessage() && Left() == ms[0].data && Hdr() == ms[0].hdr
        && rc == |ms[0].data| && func == ms[0].hdr.kind && inptr != 0
        && Undelivered() == Some(ms[1..])
    {
      AheadParses();
      func := 0;
      var more := Advance();
      if !more {
        return 0, func;
      }
      if inlen - inptr < 1 {
        return -1, func;
      }
      rc, func := TakeMessage();
      AheadParses();
    }

    /** The call of NextMessage returned what came next in the stream before it. */
    ghost predicate Delivered(before: Stream, rc: int, func: byte)
      reads this, inbuf
      requires Valid()
    {
      match before
      case Closed => rc == 0
      case Malformed => rc == -1
      case Overrun => rc > 0
      case Next(m, rest) =>
        InMessage() && Left() == m.data && Hdr() == m.hdr
        && rc == |m.data| && func == m.hdr.kind && inptr != 0 && Ahead() == rest
    }

    /** Parses the header at the cursor and marks out the message behind it. */
    method TakeMessage() returns (rc: int, func: byte)
      requires Valid() && inptr == msgstart <= inlen
      modifies this
      ensures Valid() && input == old(input)
      ensures rc == -1 <==> ParseHeader(old(inbuf[inptr..inlen])).None?
      ensures Delivered(Cut(old(inbuf[inptr..inlen]), CutAll(input)), rc, func)
    {
      ghost var s := inbuf[msgstart..inlen];
      var ok := TakeHeader();
      if !ok {
        return -1, 0;
      }
      rc, func := MarkOut(s);
    }

    /** Sets the cursors around the data behind the header just parsed. */
    method MarkOut(ghost s: seq<byte>) returns (rc: int, func: byte)
      requires Valid() && msgstart <= inptr <= inlen && s == inbuf[msgstart..inlen]
      requires ParseHeader(s) == Some(Parsed(Hdr(), msglength, inptr - msgstart))
      modifies `hdrlength, `datalength, `msgend
      ensures Valid() && rc >= 0
      ensures Delivered(Cut(s, CutAll(input)), rc, func)
    {
      SetCursors();
      func := msgtype;
      rc := datalength;
      Marked(s);
    }

    method SetCursors()
      requires Valid() && msgstart <= inptr <= inlen
      modifies `hdrlength, `datalength, `msgend
      ensures Valid() && hdrlength == inptr - msgstart && msgend == inptr + datalength
      ensures datalength == if msglength != 0 then msglength else inlen - inptr
    {
      hdrlength := inptr - msgstart;
      datalength := if msglength != 0 then msglength else inlen - (msgstart + hdrlength);
      msgend := msgstart + hdrlength + datalength;
    }

    lemma Marked(s: seq<byte>)
      requires Valid() && msgstart <= inptr <= inlen && s == inbuf[msgstart..inlen]
      requires ParseHeader(s) == Some(Parsed(Hdr(), msglength, inptr - msgstart))
      requires hdrlength == inptr - msgstart && msgend == inptr + datalength
      requires datalength == if msglength != 0 then msglength else inlen - inptr
      ensures Delivered(Cut(s, CutAll(input)), datalength, msgtype)
    {
      var ph := Parsed(Hdr(), msglength, inptr - msgstart);
      if ph.size + ph.length <= |s| {
        assert datalength == DataLength(ph, |s|);
        DataLeft(s, ph);
        RestLeft(s, ph);
      }
    }

    lemma DataLeft(s: seq<byte>, ph: Parsed)
      requires Valid() && msgstart <= inptr <= inlen && s == inbuf[msgstart..inlen]
      requires ph.size == inptr - msgstart && msgend == inptr + DataLength(ph, |s|) <= inlen
      ensures DataOf(s, ph) == Left()
    {
      SubSlice(inbuf[..], msgstart, inlen, ph.size, ph.size + DataLength(ph, |s|));
    }

    lemma RestLeft(s: seq<byte>, ph: Parsed)
      requires Valid() && msgstart < inptr <= inlen && s == inbuf[msgstart..inlen]
      requires ph.size == inptr - msgstart == hdrlength && ph.length == msglength
      requires ph.size + DataLength(ph, |s|) <= |s|
      ensures AtRecordEnd() <==> EndsRecord(ph, |s|)
      ensures !AtRecordEnd() ==> Unparsed() == s[ph.size + DataLength(ph, |s|)..]
    {
      if !EndsRecord(ph, |s|) {
        Suffix(inbuf[..], msgstart, inlen, ph.size + ph.length);
      }
    }

    // ---- Taking fields off the current message ----

    method Eom() returns (r: bool)
      requires InMessage()
      ensures r <==> Left() == []
    {
      r := inptr == msgend;
    }

    method BGet() returns (ok: bool, value: byte)
      requires InMessage()
      modifies `inptr
      ensures InMessage() && (ok <==> old(Left()) != []) && inptr >= old(inptr)
      ensures if ok then value == old(Left())[0] && Left() == old(Left())[1..] else Left() == old(Left())
    {
      ok, value := msgend - inptr >= 1, 0;
      if ok {
        value := inbuf[inptr];
        inptr := inptr + 1;
      }
    }

    method TwoBGet() returns (ok: bool, value: nat)
      requires InMessage()
      modifies `inptr
      ensures InMessage() && (ok <==> |old(Left())| >= 2) && inptr >= old(inptr)
      ensures ok ==> value == Le(old(Left())[..2]) && Left() == old(Left())[2..]
    {
      ok, value := msgend - inptr >= 2, 0;
      if ok {
        LeOfTwo(inbuf[inptr..inptr + 2]);
        assert Left()[..2] == inbuf[inptr..inptr + 2];
        value := inbuf[inptr] as nat + 256 * inbuf[inptr + 1] as nat;
        inptr := inptr + 2;
      }
    }

    /** An image field; the returned position is that of its length byte. */
    method IGet(maxlen: byte) returns (ok: bool, at: nat)
      requires InMessage()
      modifies `inptr
      ensures InMessage() && (ok <==> ImageSize(old(Left()), maxlen as nat).Some?) && inptr >= old(inptr)
      ensures ok ==> at == old(inptr) && inptr == at + ImageSize(old(Left()), maxlen as nat).value
    {
      ok, at := false, inptr;
      if msgend - inptr >= 1 {
        var len := inbuf[inptr];
        if len <= maxlen {
          if len == 0 || msgend - inptr >= len as int + 1 {
            inptr := inptr + len as nat + 1;
            ok := true;
          }
        }
      }
    }

    /** An extensible field; the returned position is that of its first byte. */
    method ExValid(maxlen: nat) returns (ok: bool, at: nat)
      requires InMessage()
      modifies `inptr
      ensures InMessage() && (ok <==> ExSize(old(Left()), maxlen).Some?) && inptr >= old(inptr)
      ensures ok ==> at == old(inptr) && inptr == at + ExSize(old(Left()), maxlen).value
    {
      at := inptr;
      ok, inptr := ScanEx(maxlen);
    }

    /** Follows the extension bits from the cursor; p is where that stops. */
    method ScanEx(maxlen: nat) returns (ok: bool, p: nat)
      requires InMessage()
      ensures inptr <= p <= msgend
      ensures ok <==> ExSize(Left(), maxlen).Some?
      ensures ok ==> p == inptr + ExSize(Left(), maxlen).value
    {
      p := inptr;
      ghost var rest := Left();
      var more := true;
      while more
        invariant inptr <= p <= msgend && p - inptr <= maxlen && rest == inbuf[p..msgend]
        invariant more ==> ExSize(Left(), maxlen) == AddSize(p - inptr, ExSize(rest, maxlen - (p - inptr)))
        invariant !more ==> ExSize(Left(), maxlen) == Some(p - inptr)
        decreases msgend - p, more
      {
        if msgend - p < 1 || p - inptr >= maxlen {
          return false, p;
        }
        assert rest[0] == inbuf[p] && rest[1..] == inbuf[p + 1..msgend];
        ExtendsBy(rest, p - inptr, maxlen - (p - inptr));
        Extends(inbuf[p]);
        more := And(inbuf[p], 0x80) != 0;
        p := p + 1;
        rest := rest[1..];
      }
      ok := true;
    }

    /** Whether bit belongs to the field of n bytes at position at. */
    method ExGetBit(at: nat, ghost n: nat, bit: nat) returns (r: bool)
      requires at + n <= inbuf.Length && IsField(inbuf[at..at + n])
      ensures r == ExGet(inbuf[at..at + n], bit)
    {
      var ptr, offset: nat := at, bit / 7;
      ghost var f := inbuf[at..at + n];
      Extends(inbuf[ptr]);
      while offset != 0 && And(inbuf[ptr], 0x80) != 0
        invariant at <= ptr < at + n && f == inbuf[ptr..at + n] && IsField(f)
        invariant ExGet(inbuf[at..at + n], bit) == ExGet(f, 7 * offset + bit % 7)
        invariant And(inbuf[ptr], 0x80) != 0 <==> Bit(inbuf[ptr], EXTEND)
      {
        FieldTail(f);
        assert f[1..] == inbuf[ptr + 1..at + n];
        f := f[1..];
        ptr := ptr + 1;
        offset := offset - 1;
        Extends(inbuf[ptr]);
      }
      if offset != 0 {
        return false;
      }
      AndPow2(inbuf[ptr], bit % 7);
      r := And(inbuf[ptr], Pow2(bit % 7)) != 0;
    }

    /** A copy of the field at position at, cut to len bytes. */
    method ExCopy(at: nat, ghost n: nat, len: nat) returns (copy: seq<byte>)
      requires at + n <= inbuf.Length && IsField(inbuf[at..at + n]) && len > 0
      ensures copy == ExTruncate(inbuf[at..at + n], len)
    {
      ghost var f := inbuf[at..at + n];
      copy := [];
      var more := true;
      while more
        invariant |copy| <= n && copy == f[..|copy|]
        invariant more ==> |copy| < n && |copy| < len
        invariant !more ==> |copy| == n && |copy| < len
        decreases n - |copy|, more
      {
        var b := inbuf[at + |copy|];
        assert b == f[|copy|];
        if |copy| + 1 == len {
          LastCopied(f, len);
          return copy + [And(b, 0x7F)];
        }
        Extends(b);
        copy := copy + [b];
        more := And(b, 0x80) != 0;
      }
    }

    /** The integer in the image field at position at; None where the source
        shifts a byte out of an int. */
    method I2Int(at: nat) returns (result: Option<nat>)
      requires at < inbuf.Length && at + inbuf[at] as nat < inbuf.Length
      ensures result == ImageInt(inbuf[at + 1..at + 1 + inbuf[at] as nat])
    {
      ghost var f := inbuf[at + 1..at + 1 + inbuf[at] as nat];
      var acc, i: nat := 0, 0;
      while i < inbuf[at] as nat
        invariant i <= |f| && ImageFrom(f, 0, 0) == ImageFrom(f, i, acc)
      {
        assert inbuf[at + 1 + i] == f[i];
        var v := ShiftInt(inbuf[at + 1 + i] as nat, 8 * i);
        if v.None? {
          return None;
        }
        acc := Or(acc, v.value);
        i := i + 1;
      }
      result := Some(acc);
    }

    /** The integer in the extensible field at position at; None where the source shifts
        digits out of an int. */
    method Ex2Int(at: nat, ghost n: nat) returns (result: Option<nat>)
      requires at + n <= inbuf.Length && IsField(inbuf[at..at + n])
      ensures result == ExInteger(inbuf[at..at + n])
    {
      ghost var f := inbuf[at..at + n];
      var acc, i: nat := 0, 0;
      var more := true;
      while more
        invariant i <= n && ExIntFrom(f, 0, 0) == ExIntFrom(f, i, acc) && (more <==> i < n)
        decreases n - i
      {
        var b := inbuf[at + i];
        assert b == f[i];
        var v := ShiftInt(And(b, 0x7F), 7 * i);
        if v.None? {
          return None;
        }
        Extends(b);
        acc := Or(acc, v.value);
        more := And(b, 0x80) != 0;
        i := i + 1;
      }
      result := Some(acc);
    }
  }

  /** The parse of the optional parts from the bit count on. */
  function ParseLast(s: seq<byte>, kind: byte, flags: byte, streamId: Option<byte>, form: LengthForm,
                     length: nat, p: nat): Option<Parsed>
    requires p <= |s|
  {
    var (bitCount, q) :- ReadOptional(s, p, Bit(flags, BITCNT));
    var (sysSpec, e) :- ReadSysSpec(s, q, Bit(flags, SYSSPEC));
    Some(Parsed(Header(kind, streamId, form, bitCount, sysSpec), length, e))
  }

  lemma LastFields(s: seq<byte>, kind: byte, flags: byte, streamId: Option<byte>, p1: nat,
                   form: LengthForm, length: nat, p2: nat)
    requires |s| >= 2 && p1 <= |s| && p2 <= |s|
    requires ReadOptional(s, 2, Bit(flags, STREAMID)) == Some((streamId, p1))
    requires ReadLength(s, p1, flags) == Some((form, length, p2))
    ensures ParseFields(s, kind, flags) == ParseLast(s, kind, flags, streamId, form, length, p2)
  {
  }

  lemma Suffix(w: seq<byte>, a: nat, b: nat, lo: nat)
    requires a <= b <= |w| && lo <= b - a
    ensures w[a..b][lo..] == w[a + lo..b]
  {
    SubSlice(w, a, b, lo, b - a);
  }

  /** The system specific part of a header that lies between a and b. */
  lemma SysSpecAt(w: seq<byte>, a: nat, b: nat, p: nat)
    requires a <= b <= |w| && p <= b - a
    ensures ReadSysSpec(w[a..b], p, true) ==
      if b - a - p < 1 || b - a - p < w[a + p] as int + 1 then None
      else Some((Some(w[a + p + 1..a + p + 1 + w[a + p]]), p + 1 + w[a + p]))
  {
    if p < b - a && w[a + p] as int + 1 <= b - a - p {
      assert w[a..b][p] == w[a + p];
      SubSlice(w, a, b, p + 1, p + 1 + w[a + p]);
    }
  }

  /** How the loops over a field look for its extension bit. */
  lemma Extends(b: byte)
    ensures And(b, 0x80) != 0 <==> Bit(b, EXTEND)
  {
    assert Pow2(7) == 0x80;
    AndPow2(b, EXTEND);
  }

  lemma FieldMasks(flags: byte)
    ensures And(flags, 1) != 0 <==> Bit(flags, STREAMID)
    ensures And(flags, 8) != 0 <==> Bit(flags, BITCNT)
    ensures And(flags, 32) != 0 <==> Bit(flags, SYSSPEC)
  {
    assert Pow2(0) == 1 && Pow2(3) == 8 && Pow2(5) == 32;
    AndPow2(flags, STREAMID);
    AndPow2(flags, BITCNT);
    AndPow2(flags, SYSSPEC);
  }

  lemma LeOfTwo(f: seq<byte>)
    requires |f| == 2
    ensures Le(f) == f[0] as int + 256 * f[1] as int
  {
    assert f[1..][1..] == [];
    assert Le(f[1..]) == f[1] as int;
  }

  /** A field that does not end before len bytes is cut there; clearing the top
      bit of its last byte changes nothing when the field ends exactly there. */
  lemma LastCopied(f: seq<byte>, len: nat)
    requires IsField(f) && 0 < len <= |f|
    ensures f[..len - 1] + [And(f[len - 1], 0x7F)] == ExTruncate(f, len)
  {
    if len == |f| {
      assert Pow2(8) == 256;
      var b := f[len - 1];
      var c := And(b, 0x7F);
      forall j | 0 <= j < 8 ensures Bit(c, j) <==> Bit(b, j) {
        ClearExtend(b, j);
      }
      SameBits(c, b, 8);
    }
  }

  function AddSize(k: nat, r: Option<nat>): Option<nat> {
    if r.None? then None else Some(k + r.value)
  }

  /** One more byte of a field of which k have been counted. */
  lemma ExtendsBy(t: seq<byte>, k: nat, maxlen: nat)
    requires t != [] && maxlen > 0
    ensures AddSize(k, ExSize(t, maxlen))
         == if Bit(t[0], EXTEND) then AddSize(k + 1, ExSize(t[1..], maxlen - 1)) else Some(k + 1)
  {
  }

  /** The number of bytes the image field at the start of t takes. */
  function ImageSize(t: seq<byte>, maxlen: nat): (r: Option<nat>)
    ensures r.Some? ==> 1 <= r.value <= |t|
  {
    if |t| < 1 || t[0] as int > maxlen || |t| < t[0] as int + 1 then None
    else Some(t[0] as int + 1)
  }

  lemma SubSlice(w: seq<byte>, a: nat, b: nat, lo: nat, hi: nat)
    requires a <= b <= |w| && lo <= hi <= b - a
    ensures w[a..b][lo..hi] == w[a + lo..a + hi]
  {
    var s := w[a..b];
    forall i | 0 <= i < hi - lo ensures s[lo..hi][i] == w[a + lo..a + hi][i] {
      assert s[lo..hi][i] == s[lo + i] == w[a + (lo + i)];
    }
  }
}
