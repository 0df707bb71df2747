/** The framing of DAP messages inside a network record.

    A record holds one or more messages back to back. Each starts with a type
    byte and a flags byte that says which optional header fields follow: stream
    id, one or two length bytes, bit count, system specific data. A message
    without a length, or with a length of zero, runs to the end of its record. */
module DapWire {
  import opened Bits
  import opened Wrappers

  // Bit numbers of the flags byte.
  const STREAMID := 0
  const LENGTH := 1
  const LEN256 := 2
  const BITCNT := 3
  const SYSSPEC := 5

  datatype LengthForm = NoLength | OneByte | TwoBytes

  datatype Header = Header(
    kind: byte,
    streamId: Option<byte>,
    form: LengthForm,
    bitCount: Option<byte>,
    sysSpec: Option<seq<byte>>)
  {
    predicate Valid() { sysSpec.Some? ==> |sysSpec.value| < 256 }
  }

  datatype Message = Message(hdr: Header, data: seq<byte>) {
    predicate Valid() { hdr.Valid() }
  }

  /** What the length field of a form can count to. */
  function Capacity(form: LengthForm): (c: nat)
    ensures c > 0
  {
    match form
    case NoLength => 1
    case OneByte => 256
    case TwoBytes => 0x1_0000
  }

  function Flags(h: Header): byte {
    (if h.streamId.Some? then 1 else 0) +
    (match h.form case NoLength => 0 case OneByte => 2 case TwoBytes => 6) +
    (if h.bitCount.Some? then 8 else 0) +
    (if h.sysSpec.Some? then 32 else 0)
  }

  function OptionalByte(b: Option<byte>): seq<byte> {
    if b.Some? then [b.value] else []
  }

  function LengthBytes(form: LengthForm, n: nat): seq<byte> {
    match form
    case NoLength => []
    case OneByte => [n % 256]
    case TwoBytes => [n % 256, n / 256 % 256]
  }

  function SysSpecBytes(s: Option<seq<byte>>): seq<byte>
    requires s.Some? ==> |s.value| < 256
  {
    if s.Some? then [|s.value|] + s.value else []
  }

  function HeaderBytes(h: Header, n: nat): seq<byte>
    requires h.Valid()
  {
    [h.kind, Flags(h)] + OptionalByte(h.streamId) + LengthBytes(h.form, n)
    + OptionalByte(h.bitCount) + SysSpecBytes(h.sysSpec)
  }

  function Encode(m: Message): seq<byte>
    requires m.Valid()
  {
    HeaderBytes(m.hdr, |m.data|) + m.data
  }

  predicate AllValid(ms: seq<Message>) {
    forall m :: m in ms ==> m.Valid()
  }

  function EncodeAll(ms: seq<Message>): seq<byte>
    requires AllValid(ms)
  {
    if ms == [] then [] else Encode(ms[0]) + EncodeAll(ms[1..])
  }

  lemma {:induction false} EncodeAllAppend(ms: seq<Message>, m: Message)
    requires AllValid(ms) && m.Valid()
    ensures EncodeAll(ms + [m]) == EncodeAll(ms) + Encode(m)
  {
    if ms == [] {
      assert EncodeAll([m]) == Encode(m) + EncodeAll([]);
    } else {
      assert (ms + [m])[1..] == ms[1..] + [m];
      EncodeAllAppend(ms[1..], m);
    }
  }

  // ---- The reader's view ----

  /** A parsed header: its fields, the value of its length field (0 when absent)
      and the number of bytes it took. */
  datatype Parsed = Parsed(hdr: Header, length: nat, size: nat)

  function ReadOptional(s: seq<byte>, p: nat, present: bool): Option<(Option<byte>, nat)> {
    if !present then Some((None, p))
    else if |s| - p < 1 then None
    else Some((Some(s[p]), p + 1))
  }

  function ReadLength(s: seq<byte>, p: nat, flags: byte): Option<(LengthForm, nat, nat)> {
    if !Bit(flags, LENGTH) then
      if Bit(flags, LEN256) then None else Some((NoLength, 0, p))
    else if |s| - p < 1 then None
    else if !Bit(flags, LEN256) then Some((OneByte, s[p], p + 1))
    else if |s| - (p + 1) < 1 then None
    else Some((TwoBytes, s[p] as int + 256 * s[p + 1] as int, p + 2))
  }

  function ReadSysSpec(s: seq<byte>, p: nat, present: bool): Option<(Option<seq<byte>>, nat)> {
    if !present then Some((None, p))
    else if |s| - p < 1 || |s| - p < s[p] as int + 1 then None
    else Some((Some(s[p + 1..p + 1 + s[p]]), p + 1 + s[p]))
  }

  /** The optional parts of a header, in the order of their flag bits. */
  function ParseFields(s: seq<byte>, kind: byte, flags: byte): (r: Option<Parsed>)
    requires |s| >= 2
    ensures r.Some? ==> r.value.hdr.Valid() && 1 <= r.value.size <= |s|
  {
    var (streamId, p1) :- ReadOptional(s, 2, Bit(flags, STREAMID));
    var (form, length, p2) :- ReadLength(s, p1, flags);
    var (bitCount, p3) :- ReadOptional(s, p2, Bit(flags, BITCNT));
    var (sysSpec, p4) :- ReadSysSpec(s, p3, Bit(flags, SYSSPEC));
    Some(Parsed(Header(kind, streamId, form, bitCount, sysSpec), length, p4))
  }

  /** The header at the start of s, where s runs to the end of the record. */
  function ParseHeader(s: seq<byte>): (r: Option<Parsed>)
    ensures r.Some? ==> r.value.hdr.Valid() && 1 <= r.value.size <= |s|
  {
    if |s| < 1 then None
    else if |s| == 1 then Some(Parsed(Header(s[0], None, NoLength, None, None), 0, 1))
    else ParseFields(s, s[0], s[1])
  }

  /** Where the data of a parsed message ends, counted from the end of its header. */
  function DataLength(ph: Parsed, available: nat): nat
    requires ph.size <= available
  {
    if ph.length != 0 then ph.length else available - ph.size
  }

  predicate EndsRecord(ph: Parsed, available: nat) {
    ph.length == 0 || ph.size + ph.length == available
  }

  /** The data of the message whose header is ph. */
  function DataOf(s: seq<byte>, ph: Parsed): seq<byte>
    requires ph.size <= |s| && ph.size + DataLength(ph, |s|) <= |s|
  {
    s[ph.size..ph.size + DataLength(ph, |s|)]
  }

  function FirstIn(s: seq<byte>, ph: Parsed): Message
    requires ph.size <= |s| && ph.size + DataLength(ph, |s|) <= |s|
  {
    Message(ph.hdr, DataOf(s, ph))
  }

  function Join(a: Option<seq<Message>>, b: Option<seq<Message>>): Option<seq<Message>> {
    if a.Some? && b.Some? then Some(a.value + b.value) else None
  }

  /** All messages of a record, or None when some header is malformed or claims
      more data than the record holds. */
  function ParseRecord(s: seq<byte>): (r: Option<seq<Message>>)
    ensures r.Some? ==> |r.value| > 0
    decreases |s|
  {
    var h := ParseHeader(s);
    if h.None? || h.value.size + h.value.length > |s| then None
    else if EndsRecord(h.value, |s|) then Some([FirstIn(s, h.value)])
    else Join(Some([FirstIn(s, h.value)]), ParseRecord(s[h.value.size + h.value.length..]))
  }

  // ---- Round trip of one record ----

  /** The flags byte says which parts are present. */
  lemma FlagBits(h: Header)
    ensures Bit(Flags(h), STREAMID) == h.streamId.Some?
    ensures Bit(Flags(h), LENGTH) == (h.form != NoLength)
    ensures Bit(Flags(h), LEN256) == (h.form == TwoBytes)
    ensures Bit(Flags(h), BITCNT) == h.bitCount.Some?
    ensures Bit(Flags(h), SYSSPEC) == h.sysSpec.Some?
  {
    var a := if h.streamId.Some? then 1 else 0;
    var b := if h.form != NoLength then 1 else 0;
    var c := if h.form == TwoBytes then 1 else 0;
    var d := if h.bitCount.Some? then 1 else 0;
    var e := if h.sysSpec.Some? then 1 else 0;
    SmallBits(Flags(h));
    Digits(a, b, c, d, e);
  }

  lemma Digits(a: nat, b: nat, c: nat, d: nat, e: nat)
    requires a <= 1 && b <= 1 && c <= 1 && d <= 1 && e <= 1
    ensures var f := a + 2 * b + 4 * c + 8 * d + 32 * e;
      f % 2 == a && f / 2 % 2 == b && f / 4 % 2 == c && f / 8 % 2 == d && f / 32 % 2 == e
  {
  }

  lemma ReadOptionalBack(s: seq<byte>, p: nat, b: Option<byte>, rest: seq<byte>) returns (q: nat)
    requires p <= |s| && s[p..] == OptionalByte(b) + rest
    ensures ReadOptional(s, p, b.Some?) == Some((b, q))
    ensures q <= |s| && s[q..] == rest
  {
    var t := s[p..];
    q := p + |OptionalByte(b)|;
    assert t[|OptionalByte(b)|..] == rest;
    if b.Some? { assert s[p] == t[0]; }
  }

  lemma ReadLengthBack(s: seq<byte>, p: nat, h: Header, n: nat, rest: seq<byte>) returns (q: nat)
    requires p <= |s| && s[p..] == LengthBytes(h.form, n) + rest
    ensures ReadLength(s, p, Flags(h)) == Some((h.form, n % Capacity(h.form), q))
    ensures q <= |s| && s[q..] == rest
  {
    FlagBits(h);
    var t := s[p..];
    q := p + |LengthBytes(h.form, n)|;
    assert t[|LengthBytes(h.form, n)|..] == rest;
    if h.form != NoLength { assert s[p] == t[0] == n % 256; }
    if h.form == TwoBytes {
      assert s[p + 1] == t[1] == n / 256 % 256;
      TwoDigits(n);
    }
  }

  lemma TwoDigits(n: nat)
    ensures n % 0x1_0000 == n % 256 + 256 * (n / 256 % 256)
  {
  }

  lemma ReadSysSpecBack(s: seq<byte>, p: nat, h: Header, rest: seq<byte>) returns (q: nat)
    requires h.Valid()
    requires p <= |s| && s[p..] == SysSpecBytes(h.sysSpec) + rest
    ensures ReadSysSpec(s, p, h.sysSpec.Some?) == Some((h.sysSpec, q))
    ensures q == |s| - |rest|
  {
    var t := s[p..];
    q := p + |SysSpecBytes(h.sysSpec)|;
    if h.sysSpec.Some? {
      assert s[p] == t[0] == |h.sysSpec.value|;
      assert s[p + 1..p + 1 + s[p]] == t[1..1 + s[p]] == h.sysSpec.value;
    }
  }

  lemma HeaderShape(h: Header, n: nat, rest: seq<byte>)
    requires h.Valid()
    ensures HeaderBytes(h, n) + rest == [h.kind, Flags(h)] + (OptionalByte(h.streamId)
        + (LengthBytes(h.form, n) + (OptionalByte(h.bitCount) + (SysSpecBytes(h.sysSpec) + rest))))
  {
  }

  /** The four optional parts of a header, read one after the other. */
  lemma ReadParts(s: seq<byte>, h: Header, n: nat, rest: seq<byte>)
      returns (p1: nat, p2: nat, p3: nat, p4: nat)
    requires h.Valid() && |s| >= 2
    requires s[2..] == OptionalByte(h.streamId)
        + (LengthBytes(h.form, n) + (OptionalByte(h.bitCount) + (SysSpecBytes(h.sysSpec) + rest)))
    ensures ReadOptional(s, 2, h.streamId.Some?) == Some((h.streamId, p1))
    ensures ReadLength(s, p1, Flags(h)) == Some((h.form, n % Capacity(h.form), p2))
    ensures ReadOptional(s, p2, h.bitCount.Some?) == Some((h.bitCount, p3))
    ensures ReadSysSpec(s, p3, h.sysSpec.Some?) == Some((h.sysSpec, p4))
    ensures p4 == |s| - |rest|
  {
    var b, c, d := LengthBytes(h.form, n), OptionalByte(h.bitCount), SysSpecBytes(h.sysSpec);
    p1 := ReadOptionalBack(s, 2, h.streamId, b + (c + (d + rest)));
    p2 := ReadLengthBack(s, p1, h, n, c + (d + rest));
    p3 := ReadOptionalBack(s, p2, h.bitCount, d + rest);
    p4 := ReadSysSpecBack(s, p3, h, rest);
  }

  lemma Assemble(s: seq<byte>, h: Header, length: nat, p1: nat, p2: nat, p3: nat, p4: nat)
    requires h.Valid() && |s| >= 2 && s[0] == h.kind && s[1] == Flags(h)
    requires ReadOptional(s, 2, h.streamId.Some?) == Some((h.streamId, p1))
    requires ReadLength(s, p1, Flags(h)) == Some((h.form, length, p2))
    requires ReadOptional(s, p2, h.bitCount.Some?) == Some((h.bitCount, p3))
    requires ReadSysSpec(s, p3, h.sysSpec.Some?) == Some((h.sysSpec, p4))
    ensures ParseHeader(s) == Some(Parsed(h, length, p4))
  {
    FlagBits(h);
  }

  /** Every header is read back, with its length field reduced to what fits. */
  lemma ParseHeaderBytes(h: Header, n: nat, rest: seq<byte>)
    requires h.Valid()
    ensures ParseHeader(HeaderBytes(h, n) + rest)
         == Some(Parsed(h, n % Capacity(h.form), |HeaderBytes(h, n)|))
  {
    var s := HeaderBytes(h, n) + rest;
    var tail := OptionalByte(h.streamId)
        + (LengthBytes(h.form, n) + (OptionalByte(h.bitCount) + (SysSpecBytes(h.sysSpec) + rest)));
    HeaderShape(h, n, rest);
    assert s == [h.kind, Flags(h)] + tail;
    assert s[2..] == tail;
    var p1, p2, p3, p4 := ReadParts(s, h, n, rest);
    Assemble(s, h, n % Capacity(h.form), p1, p2, p3, p4);
  }

  /** Whether the reader can tell where m ends: without a usable length only
      the end of the record can end it. */
  predicate Delimited(m: Message, last: bool) {
    if last then |m.data| % Capacity(m.hdr.form) == 0 || |m.data| < Capacity(m.hdr.form)
    else 0 < |m.data| < Capacity(m.hdr.form)
  }

  predicate Separable(ms: seq<Message>) {
    forall i :: 0 <= i < |ms| ==> Delimited(ms[i], i == |ms| - 1)
  }

  lemma SeparableTail(ms: seq<Message>)
    requires |ms| > 1
    ensures Separable(ms) <==> Delimited(ms[0], false) && Separable(ms[1..])
  {
    var t := ms[1..];
    if Delimited(ms[0], false) && Separable(t) {
      forall i | 0 <= i < |ms| ensures Delimited(ms[i], i == |ms| - 1) {
        if i > 0 { assert ms[i] == t[i - 1]; }
      }
    }
    if Separable(ms) {
      forall i | 0 <= i < |t| ensures Delimited(t[i], i == |t| - 1) {
        assert t[i] == ms[i + 1];
      }
    }
  }

  /** The reader fails, or goes wrong at a message it was given. */
  ghost predicate Differs(r: Option<seq<Message>>, ms: seq<Message>) {
    r.Some? ==> exists j :: 0 <= j < |ms| && j < |r.value| && r.value[j] != ms[j]
  }

  /** Parsing a record gives back exactly the messages put into it if and only
      if each of them is delimited there. */
  lemma {:induction false} RecordRoundTrip(ms: seq<Message>)
    requires AllValid(ms) && ms != []
    ensures Separable(ms) ==> ParseRecord(EncodeAll(ms)) == Some(ms)
    ensures !Separable(ms) ==> Differs(ParseRecord(EncodeAll(ms)), ms)
    decreases |ms|
  {
    var m, rest := ms[0], EncodeAll(ms[1..]);
    var s := EncodeAll(ms);
    var n, cap := |m.data|, Capacity(m.hdr.form);
    assert s == HeaderBytes(m.hdr, n) + (m.data + rest);
    ParseHeaderBytes(m.hdr, n, m.data + rest);
    var size := |HeaderBytes(m.hdr, n)|;
    assert s[size..] == m.data + rest;
    LengthField(n, cap);
    if |ms| == 1 {
      assert ms == [m] && rest == [] && s[size..] == m.data;
      if !Separable(ms) {
        assert n % cap != 0 && n % cap < n;
        assert ParseRecord(s).Some? ==> ParseRecord(s).value[0] != m;
      }
    } else {
      SeparableTail(ms);
      NonEmptyEncoding(ms[1..]);
      if Delimited(m, false) {
        assert s[size..size + n] == m.data && s[size + n..] == rest;
        RecordRoundTrip(ms[1..]);
        Prepend(ms, ParseRecord(rest), ParseRecord(s));
      } else {
        WrongFirst(s, m, size, ms);
      }
    }
  }

  lemma Prepend(ms: seq<Message>, r: Option<seq<Message>>, whole: Option<seq<Message>>)
    requires |ms| > 1
    requires whole == Join(Some([ms[0]]), r)
    ensures r == Some(ms[1..]) ==> whole == Some(ms)
    ensures Differs(r, ms[1..]) ==> Differs(whole, ms)
  {
    assert ms == [ms[0]] + ms[1..];
    if Differs(r, ms[1..]) && r.Some? {
      var j :| 0 <= j < |ms[1..]| && j < |r.value| && r.value[j] != ms[1..][j];
      assert whole.value[j + 1] == r.value[j] && ms[j + 1] == ms[1..][j];
    }
  }

  /** The length field holds n itself exactly when n fits. */
  lemma LengthField(n: nat, cap: nat)
    requires cap > 0
    ensures n % cap <= n
    ensures n % cap == n <==> n < cap
  {
    if n < cap {
      ModUnique(n, cap, 0, n);
    } else {
      assert n % cap < cap;
    }
  }

  lemma NonEmptyEncoding(ms: seq<Message>)
    requires AllValid(ms) && ms != []
    ensures |EncodeAll(ms)| > 0
  {
    assert |Encode(ms[0])| >= 2;
  }

  /** A first message whose length field does not hold its length is cut wrongly. */
  lemma WrongFirst(s: seq<byte>, m: Message, size: nat, ms: seq<Message>)
    requires m.Valid() && |ms| > 1 && ms[0] == m && !Delimited(m, false)
    requires size + |m.data| < |s|
    requires ParseHeader(s) == Some(Parsed(m.hdr, |m.data| % Capacity(m.hdr.form), size))
    ensures Differs(ParseRecord(s), ms)
  {
    var n := |m.data|;
    var length := n % Capacity(m.hdr.form);
    LengthField(n, Capacity(m.hdr.form));
    if ParseRecord(s).Some? {
      assert |ParseRecord(s).value[0].data| != n;
    }
  }

  // ---- A stream of records ----

  function Flatten(groups: seq<seq<Message>>): seq<Message> {
    if groups == [] then [] else groups[0] + Flatten(groups[1..])
  }

  lemma {:induction false} FlattenAppend(groups: seq<seq<Message>>, g: seq<Message>)
    ensures Flatten(groups + [g]) == Flatten(groups) + g
  {
    if groups == [] {
      assert Flatten([g]) == g + Flatten([]);
    } else {
      assert (groups + [g])[1..] == groups[1..] + [g];
      FlattenAppend(groups[1..], g);
    }
  }

  /** The messages of a sequence of records. */
  function ParseAll(records: seq<seq<byte>>): Option<seq<Message>> {
    if records == [] then Some([])
    else Join(ParseRecord(records[0]), ParseAll(records[1..]))
  }

  ghost predicate Carries(records: seq<seq<byte>>, groups: seq<seq<Message>>) {
    && |records| == |groups|
    && (forall i :: 0 <= i < |groups| ==>
          groups[i] != [] && AllValid(groups[i]) && records[i] == EncodeAll(groups[i]))
  }

  /** A stream of records delivers exactly the messages put into it, in order,
      if and only if every message is delimited in its record. */
  lemma {:induction false} WireRoundTrip(records: seq<seq<byte>>, groups: seq<seq<Message>>)
    requires Carries(records, groups)
    ensures ParseAll(records) == Some(Flatten(groups)) <==> forall g :: g in groups ==> Separable(g)
  {
    if records == [] {
    } else {
      assert groups[0] in groups;
      RecordRoundTrip(groups[0]);
      CarriesTail(records, groups);
      WireRoundTrip(records[1..], groups[1..]);
      var r, t := ParseRecord(records[0]), ParseAll(records[1..]);
      if Separable(groups[0]) {
        assert r == Some(groups[0]);
        assert forall g :: g in groups <==> g == groups[0] || g in groups[1..];
        if t.Some? && groups[0] + t.value == Flatten(groups) {
          assert t.value == (groups[0] + t.value)[|groups[0]|..] == Flatten(groups[1..]);
        }
      } else if r.Some? && t.Some? {
        var j :| 0 <= j < |groups[0]| && j < |r.value| && r.value[j] != groups[0][j];
        assert (r.value + t.value)[j] != Flatten(groups)[j];
      }
    }
  }

  lemma CarriesTail(records: seq<seq<byte>>, groups: seq<seq<Message>>)
    requires Carries(records, groups) && records != []
    ensures Carries(records[1..], groups[1..])
  {
    forall i | 0 <= i < |groups[1..]|
      ensures groups[1..][i] != [] && AllValid(groups[1..][i])
           && records[1..][i] == EncodeAll(groups[1..][i])
    {
      assert groups[1..][i] == groups[i + 1] && records[1..][i] == records[i + 1];
    }
  }

  lemma CarriesAppend(records: seq<seq<byte>>, groups: seq<seq<Message>>, g: seq<Message>)
    requires Carries(records, groups) && g != [] && AllValid(g)
    ensures Carries(records + [EncodeAll(g)], groups + [g])
  {
  }

  // ---- One message after the other ----

  /** What a connection delivers: in the end it closes, comes to a malformed header, or to
      a message that claims more data than its record holds. */
  datatype Stream = Closed | Malformed | Overrun | Next(m: Message, rest: Stream)

  /** The messages of a record, and then what comes after it. */
  function Cut(s: seq<byte>, after: Stream): Stream
    decreases |s|
  {
    var h := ParseHeader(s);
    if h.None? then Malformed
    else if h.value.size + h.value.length > |s| then Overrun
    else if EndsRecord(h.value, |s|) then Next(FirstIn(s, h.value), after)
    else Next(FirstIn(s, h.value), Cut(s[h.value.size + h.value.length..], after))
  }

  function CutAll(records: seq<seq<byte>>): Stream {
    if records == [] then Closed else Cut(records[0], CutAll(records[1..]))
  }

  /** All messages of a stream that ends properly. */
  function MessagesOf(st: Stream): Option<seq<Message>> {
    match st
    case Closed => Some([])
    case Malformed => None
    case Overrun => None
    case Next(m, rest) => Join(Some([m]), MessagesOf(rest))
  }

  lemma {:induction false} CutParses(s: seq<byte>, after: Stream)
    ensures MessagesOf(Cut(s, after)) == Join(ParseRecord(s), MessagesOf(after))
    decreases |s|
  {
    var h := ParseHeader(s);
    if h.None? || h.value.size + h.value.length > |s| {
    } else if EndsRecord(h.value, |s|) {
      assert Cut(s, after) == Next(FirstIn(s, h.value), after);
    } else {
      var m, next := FirstIn(s, h.value), s[h.value.size + h.value.length..];
      CutParses(next, after);
      assert Cut(s, after) == Next(m, Cut(next, after));
      JoinAssociates(Some([m]), ParseRecord(next), MessagesOf(after));
    }
  }

  lemma JoinAssociates(a: Option<seq<Message>>, b: Option<seq<Message>>, c: Option<seq<Message>>)
    ensures Join(a, Join(b, c)) == Join(Join(a, b), c)
  {
    if a.Some? && b.Some? && c.Some? { assert a.value + (b.value + c.value) == a.value + b.value + c.value; }
  }

  /** Cutting off one message after the other is parsing. */
  lemma {:induction false} CutAllParses(records: seq<seq<byte>>)
    ensures MessagesOf(CutAll(records)) == ParseAll(records)
  {
    if records == [] {
    } else {
      CutAllParses(records[1..]);
      CutParses(records[0], CutAll(records[1..]));
    }
  }
}
