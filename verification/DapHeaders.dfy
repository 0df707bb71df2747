/** Which bytes are a message header: every record that can be read starts with what its
    header spells, and nothing else is taken. */
module DapHeaders {
  import opened Bits
  import opened Wrappers
  import opened DapWire

  /** A flags byte announces the parts of a header; its other bits mean nothing. */
  predicate Announces(flags: byte, h: Header) {
    && (flags % 2 == 1 <==> h.streamId.Some?)
    && (flags / 2 % 2 == 1 <==> h.form != NoLength)
    && (flags / 4 % 2 == 1 <==> h.form == TwoBytes)
    && (flags / 8 % 2 == 1 <==> h.bitCount.Some?)
    && (flags / 32 % 2 == 1 <==> h.sysSpec.Some?)
  }

  function Parts(h: Header, length: nat): seq<byte>
    requires h.Valid()
  {
    OptionalByte(h.streamId) + (LengthBytes(h.form, length) + (OptionalByte(h.bitCount) + SysSpecBytes(h.sysSpec)))
  }

  /** The bytes start with this header: its type, its flags and the parts they announce. */
  predicate Spells(s: seq<byte>, p: Parsed) {
    && 2 <= p.size <= |s| && p.hdr.Valid()
    && s[0] == p.hdr.kind && Announces(s[1], p.hdr)
    && (if p.hdr.form == NoLength then p.length == 0 else p.length < Capacity(p.hdr.form))
    && s[2..p.size] == Parts(p.hdr, p.length)
  }

  lemma AnnouncedBits(flags: byte, h: Header)
    ensures Announces(flags, h) <==>
      && Bit(flags, STREAMID) == h.streamId.Some? && Bit(flags, LENGTH) == (h.form != NoLength)
      && Bit(flags, LEN256) == (h.form == TwoBytes) && Bit(flags, BITCNT) == h.bitCount.Some?
      && Bit(flags, SYSSPEC) == h.sysSpec.Some?
  {
    SmallBits(flags);
  }

  /** Only five bits of the flags byte are looked at. */
  lemma SameHeader(s: seq<byte>, h: Header, length: nat, p1: nat, p2: nat, p3: nat, p4: nat)
    requires h.Valid() && |s| >= 2 && s[0] == h.kind && Announces(s[1], h)
    requires ReadOptional(s, 2, h.streamId.Some?) == Some((h.streamId, p1))
    requires ReadLength(s, p1, Flags(h)) == Some((h.form, length, p2))
    requires ReadOptional(s, p2, h.bitCount.Some?) == Some((h.bitCount, p3))
    requires ReadSysSpec(s, p3, h.sysSpec.Some?) == Some((h.sysSpec, p4))
    ensures ParseHeader(s) == Some(Parsed(h, length, p4))
  {
    AnnouncedBits(s[1], h);
    FlagBits(h);
  }

  lemma SpelledIsRead(s: seq<byte>, p: Parsed)
    requires Spells(s, p)
    ensures ParseHeader(s) == Some(p)
  {
    var h, n, rest := p.hdr, p.length, s[p.size..];
    PartsThen(h, n, rest);
    assert s[2..] == s[2..p.size] + rest;
    var p1, p2, p3, p4 := ReadParts(s, h, n, rest);
    SameHeader(s, h, n % Capacity(h.form), p1, p2, p3, p4);
  }

  lemma PartsThen(h: Header, n: nat, rest: seq<byte>)
    requires h.Valid()
    ensures Parts(h, n) + rest == OptionalByte(h.streamId)
        + (LengthBytes(h.form, n) + (OptionalByte(h.bitCount) + (SysSpecBytes(h.sysSpec) + rest)))
  {
  }

  lemma Cut(s: seq<byte>, a: nat, b: nat, c: nat)
    requires a <= b <= c <= |s|
    ensures s[a..c] == s[a..b] + s[b..c]
  {
  }

  lemma Assembled(s: seq<byte>, h: Header, n: nat, p1: nat, p2: nat, p3: nat, p4: nat)
    requires h.Valid() && 2 <= p1 <= p2 <= p3 <= p4 <= |s|
    requires s[2..p1] == OptionalByte(h.streamId) && s[p1..p2] == LengthBytes(h.form, n)
    requires s[p2..p3] == OptionalByte(h.bitCount) && s[p3..p4] == SysSpecBytes(h.sysSpec)
    ensures s[2..p4] == Parts(h, n)
  {
    Cut(s, p2, p3, p4);
    Cut(s, p1, p2, p4);
    Cut(s, 2, p1, p4);
  }

  lemma ReadIsSpelled(s: seq<byte>, p: Parsed)
    requires |s| >= 2 && ParseHeader(s) == Some(p)
    ensures Spells(s, p)
  {
    var h, flags := p.hdr, s[1];
    var p1 := OptionalRead(s, 2, Bit(flags, STREAMID));
    var p2 := LengthRead(s, p1, flags);
    var p3 := OptionalRead(s, p2, Bit(flags, BITCNT));
    var p4 := SysSpecRead(s, p3, Bit(flags, SYSSPEC));
    assert p4 == p.size;
    Assembled(s, h, p.length, p1, p2, p3, p4);
    AnnouncedBits(flags, h);
  }

  lemma OptionalRead(s: seq<byte>, p: nat, present: bool) returns (q: nat)
    requires p <= |s| && ReadOptional(s, p, present).Some?
    ensures var v := ReadOptional(s, p, present).value;
      q == v.1 && p <= q <= |s| && s[p..q] == OptionalByte(v.0) && v.0.Some? == present
  {
    q := ReadOptional(s, p, present).value.1;
  }

  lemma LengthRead(s: seq<byte>, p: nat, flags: byte) returns (q: nat)
    requires p <= |s| && ReadLength(s, p, flags).Some?
    ensures var (form, n, end) := ReadLength(s, p, flags).value;
      && q == end && p <= q <= |s| && s[p..q] == LengthBytes(form, n)
      && (if form == NoLength then n == 0 else n < Capacity(form))
      && (form != NoLength <==> Bit(flags, LENGTH)) && (form == TwoBytes <==> Bit(flags, LEN256))
  {
    q := ReadLength(s, p, flags).value.2;
  }

  lemma SysSpecRead(s: seq<byte>, p: nat, present: bool) returns (q: nat)
    requires p <= |s| && ReadSysSpec(s, p, present).Some?
    ensures var v := ReadSysSpec(s, p, present).value;
      && q == v.1 && p <= q <= |s| && v.0.Some? == present && (present ==> |v.0.value| < 256)
      && s[p..q] == SysSpecBytes(v.0)
  {
    q := ReadSysSpec(s, p, present).value.1;
  }

  /** A header is read exactly when the bytes spell it, or a lone byte is a type without
      flags; so a record is refused exactly when its bytes spell no header. */
  lemma HeaderTaken(s: seq<byte>, p: Parsed)
    ensures ParseHeader(s) == Some(p)
       <==> Spells(s, p) || (|s| == 1 && p == Parsed(Header(s[0], None, NoLength, None, None), 0, 1))
    ensures ParseHeader(s).None? <==> |s| != 1 && forall q :: !Spells(s, q)
  {
    if |s| >= 2 {
      if ParseHeader(s).Some? { ReadIsSpelled(s, ParseHeader(s).value); }
      if Spells(s, p) { SpelledIsRead(s, p); }
      forall q | Spells(s, q) ensures ParseHeader(s).Some? { SpelledIsRead(s, q); }
    }
  }
}
