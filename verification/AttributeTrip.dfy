/** Attributes that any peer may send: every menu, with every choice of well-shaped fields,
    is taken as it was meant, field by field. */
module AttributeTrip {
  import opened Bits
  import opened Wrappers
  import opened DapField
  import opened DapBuffer
  import opened DapReceive
  import opened DapAttributes

  // ---- What may be sent ----

  /** An image field of up to n bytes behind its length. */
  predicate Counted(f: seq<byte>, n: nat) {
    1 <= |f| <= n + 1 && f[0] as nat == |f| - 1
  }

  /** An extensible field of up to n bytes. */
  ghost predicate Extends(f: seq<byte>, n: nat) {
    IsField(f) && |f| <= n
  }

  /** The bytes have the form that the protocol gives the field of a menu bit. */
  ghost predicate WellFormed(bit: nat, f: seq<byte>) {
    if bit == DATATYPE then Extends(f, 2)
    else if bit in {ORG, RFM, BKS, FSZ, BSZ} then |f| == 1
    else if bit == RAT then Extends(f, 3)
    else if bit in {BLS, MRS, DEQ, LRL, FFB} then |f| == 2
    else if bit in {ALQ, MRN, HBK, EBK, SBN} then Counted(f, 5)
    else if bit == RUNSYS then Counted(f, 40)
    else bit in {FOP, DEV, SDC} && Extends(f, 6)
  }

  ghost predicate AllWellFormed(fields: map<nat, seq<byte>>) {
    forall b: nat :: WellFormedAt(fields, b)
  }

  ghost predicate WellFormedAt(fields: map<nat, seq<byte>>, b: nat) {
    b in fields ==> b < FIELDS && WellFormed(b, fields[b])
  }

  /** The fields from a menu bit on, in menu order. */
  function Body(fields: map<nat, seq<byte>>, bit: nat): seq<byte>
    decreases FIELDS - bit
  {
    if bit >= FIELDS then []
    else (if bit in fields then fields[bit] else []) + Body(fields, bit + 1)
  }

  /** The menu announces exactly these fields; what its further bits say does not matter. */
  ghost predicate Lists(menu: seq<byte>, fields: map<nat, seq<byte>>) {
    && Extends(menu, 6)
    && forall b: nat :: Announces(menu, fields, b)
  }

  ghost predicate Announces(menu: seq<byte>, fields: map<nat, seq<byte>>, b: nat)
    requires IsField(menu)
  {
    b < FIELDS ==> (ExGet(menu, b) <==> b in fields)
  }

  // ---- It is accepted ----

  lemma FieldTaken(bit: nat, f: seq<byte>, rest: seq<byte>)
    requires bit < FIELDS && WellFormed(bit, f)
    ensures FieldSize(KindOf(bit), f + rest) == Some(|f|)
    ensures Shaped(KindOf(bit), f) && (KindOf(bit).Extensible? ==> IsField(f))
  {
    match KindOf(bit)
    case Extensible(max) => ExSizeOfField(f, rest, max as nat);
    case ImageField(max) => assert (f + rest)[0] == f[0];
    case _ =>
  }

  function From(fields: map<nat, seq<byte>>, bit: nat): map<nat, seq<byte>> {
    map b | b in fields && b >= bit :: fields[b]
  }

  lemma FromMore(fields: map<nat, seq<byte>>, bit: nat)
    ensures From(fields, bit) == if bit in fields then From(fields, bit + 1)[bit := fields[bit]] else From(fields, bit + 1)
  {
  }

  lemma PresentTaken(menu: seq<byte>, bit: nat, f: seq<byte>, body: seq<byte>, rest: seq<byte>,
                     fields: map<nat, seq<byte>>)
    requires IsField(menu) && bit < FIELDS && ExGet(menu, bit) && WellFormed(bit, f)
    requires ParseFrom(menu, bit + 1, body + rest) == Some((fields, rest))
    ensures ParseFrom(menu, bit, f + body + rest) == Some((fields[bit := f], rest))
  {
    assert f + body + rest == f + (body + rest);
    FieldTaken(bit, f, body + rest);
    TakeField(menu, bit, f, body + rest);
  }

  lemma {:induction false} BodyTaken(menu: seq<byte>, fields: map<nat, seq<byte>>, bit: nat, rest: seq<byte>)
    requires Lists(menu, fields) && AllWellFormed(fields) && bit <= FIELDS
    ensures ParseFrom(menu, bit, Body(fields, bit) + rest) == Some((From(fields, bit), rest))
    decreases FIELDS - bit
  {
    if bit >= FIELDS {
      forall b | b in fields ensures b < FIELDS { assert WellFormedAt(fields, b); }
      assert From(fields, bit) == map[];
      assert [] + rest == rest;
    } else {
      BodyTaken(menu, fields, bit + 1, rest);
      FromMore(fields, bit);
      assert Announces(menu, fields, bit) && WellFormedAt(fields, bit);
      if bit in fields {
        PresentTaken(menu, bit, fields[bit], Body(fields, bit + 1), rest, From(fields, bit + 1));
      } else {
        assert [] + Body(fields, bit + 1) == Body(fields, bit + 1);
        SkipField(menu, bit, Body(fields, bit + 1) + rest);
      }
    }
  }

  lemma MessageTaken(menu: seq<byte>, fields: map<nat, seq<byte>>, rest: seq<byte>)
    requires Lists(menu, fields) && AllWellFormed(fields)
    ensures Parse(menu + (Body(fields, 0) + rest)) == Some((fields, rest)) && AllShaped(fields)
  {
    var t := menu + (Body(fields, 0) + rest);
    ExSizeOfField(menu, Body(fields, 0) + rest, 6);
    assert t[..|menu|] == menu && t[|menu|..] == Body(fields, 0) + rest;
    BodyTaken(menu, fields, 0, rest);
    assert From(fields, 0) == fields;
    forall b | b in fields
      ensures b < FIELDS && Shaped(KindOf(b), fields[b]) && (KindOf(b).Extensible? ==> IsField(fields[b]))
    {
      assert WellFormedAt(fields, b);
      FieldTaken(b, fields[b], []);
    }
  }

  // ---- Nothing else is ----

  lemma FieldFound(bit: nat, t: seq<byte>) returns (f: seq<byte>)
    requires bit < FIELDS && FieldSize(KindOf(bit), t).Some?
    ensures f == t[..FieldSize(KindOf(bit), t).value] && WellFormed(bit, f)
  {
    f := t[..FieldSize(KindOf(bit), t).value];
    if KindOf(bit).Extensible? { ExSizeField(t, KindOf(bit).max as nat); }
  }

  /** The fields found from a menu bit on, for a menu that announces others before. */
  ghost predicate Found(menu: seq<byte>, fields: map<nat, seq<byte>>, bit: nat)
    requires IsField(menu)
  {
    AllWellFormed(fields) && forall b: nat :: FoundAt(menu, fields, bit, b)
  }

  ghost predicate FoundAt(menu: seq<byte>, fields: map<nat, seq<byte>>, bit: nat, b: nat)
    requires IsField(menu)
  {
    b in fields <==> bit <= b < FIELDS && ExGet(menu, b)
  }

  lemma FoundSkip(menu: seq<byte>, fields: map<nat, seq<byte>>, bit: nat)
    requires IsField(menu) && Found(menu, fields, bit + 1) && (bit >= FIELDS || !ExGet(menu, bit))
    ensures Found(menu, fields, bit)
  {
    forall b: nat ensures FoundAt(menu, fields, bit, b) { assert FoundAt(menu, fields, bit + 1, b); }
  }

  lemma MoreFormed(fields: map<nat, seq<byte>>, bit: nat, f: seq<byte>)
    requires AllWellFormed(fields) && bit < FIELDS && WellFormed(bit, f)
    ensures AllWellFormed(fields[bit := f])
  {
    var more := fields[bit := f];
    forall b: nat ensures WellFormedAt(more, b) {
      assert WellFormedAt(fields, b);
      if b != bit && b in more { assert more[b] == fields[b]; }
    }
  }

  lemma FoundMore(menu: seq<byte>, fields: map<nat, seq<byte>>, bit: nat, f: seq<byte>)
    requires IsField(menu) && Found(menu, fields, bit + 1) && bit < FIELDS && ExGet(menu, bit) && WellFormed(bit, f)
    ensures Found(menu, fields[bit := f], bit)
  {
    var more := fields[bit := f];
    forall b: nat ensures FoundAt(menu, more, bit, b) {
      assert FoundAt(menu, fields, bit + 1, b);
    }
    MoreFormed(fields, bit, f);
  }

  lemma FoundLater(menu: seq<byte>, fields: map<nat, seq<byte>>, bit: nat)
    requires IsField(menu) && Found(menu, fields, bit + 1)
    ensures forall b :: b in fields ==> b > bit
  {
    forall b | b in fields ensures b > bit { assert FoundAt(menu, fields, bit + 1, b); }
  }

  lemma BodyOfMore(fields: map<nat, seq<byte>>, bit: nat, f: seq<byte>)
    requires bit < FIELDS && forall b :: b in fields ==> b > bit
    ensures Body(fields[bit := f], bit) == f + Body(fields, bit + 1)
    ensures Body(fields, bit) == Body(fields, bit + 1)
  {
    SameBody(fields, fields[bit := f], bit + 1);
    assert [] + Body(fields, bit + 1) == Body(fields, bit + 1);
  }

  lemma {:induction false} SameBody(fields: map<nat, seq<byte>>, more: map<nat, seq<byte>>, bit: nat)
    requires forall b :: b >= bit ==> (b in fields <==> b in more) && (b in fields ==> more[b] == fields[b])
    ensures Body(fields, bit) == Body(more, bit)
    decreases FIELDS - bit
  {
    if bit >= FIELDS {
    } else {
      SameBody(fields, more, bit + 1);
    }
  }

  lemma {:induction false} BodyFound(menu: seq<byte>, bit: nat, t: seq<byte>)
    requires IsField(menu) && bit <= FIELDS && ParseFrom(menu, bit, t).Some?
    ensures var (fields, rest) := ParseFrom(menu, bit, t).value;
      Found(menu, fields, bit) && t == Body(fields, bit) + rest
    decreases FIELDS - bit
  {
    if bit >= FIELDS {
      assert [] + t == t;
    } else if !ExGet(menu, bit) {
      BodyFound(menu, bit + 1, t);
      var (fields, rest) := ParseFrom(menu, bit + 1, t).value;
      FoundLater(menu, fields, bit);
      FoundSkip(menu, fields, bit);
      BodyOfMore(fields, bit, []);
    } else {
      var f := FieldFound(bit, t);
      BodyFound(menu, bit + 1, t[|f|..]);
      var (fields, rest) := ParseFrom(menu, bit + 1, t[|f|..]).value;
      FoundLater(menu, fields, bit);
      FoundMore(menu, fields, bit, f);
      BodyOfMore(fields, bit, f);
      Joined(t, f, Body(fields, bit + 1), rest);
    }
  }

  lemma Joined(t: seq<byte>, f: seq<byte>, body: seq<byte>, rest: seq<byte>)
    requires |f| <= |t| && f == t[..|f|] && t[|f|..] == body + rest
    ensures t == f + body + rest
  {
    assert t == f + (body + rest);
  }

  /** Only messages of this form are accepted. */
  lemma AcceptedOnly(t: seq<byte>) returns (menu: seq<byte>)
    requires Parse(t).Some?
    ensures var (fields, rest) := Parse(t).value;
      Lists(menu, fields) && AllWellFormed(fields) && t == menu + (Body(fields, 0) + rest)
  {
    var n := ExSize(t, 6).value;
    ExSizeField(t, 6);
    menu := t[..n];
    BodyFound(menu, 0, t[n..]);
    var (fields, rest) := ParseFrom(menu, 0, t[n..]).value;
    forall b: nat ensures Announces(menu, fields, b) { assert FoundAt(menu, fields, 0, b); }
  }

  // ---- It is kept ----

  /** Whether a buffer, read along its extension bits, has a member. */
  ghost predicate Reads(buf: seq<byte>, b: nat) {
    var n := ExSize(buf, |buf|);
    n.Some? && (ExSizeField(buf, |buf|); ExGet(buf[..n.value], b))
  }

  ghost predicate SetKept(fields: map<nat, seq<byte>>, bit: nat, was: seq<byte>, now: seq<byte>)
  {
    if bit in fields then IsField(fields[bit]) && forall b: nat :: Reads(now, b) <==> ExGet(fields[bit], b) else now == was
  }

  predicate ByteKept(fields: map<nat, seq<byte>>, bit: nat, was: byte, now: byte) {
    if bit in fields then fields[bit] == [now] else now == was
  }

  predicate WordKept(fields: map<nat, seq<byte>>, bit: nat, was: nat, now: nat) {
    if bit in fields then now < U16 && fields[bit] == [now % 256, now / 256] else now == was
  }

  /** An integer is kept exactly if it has at most 31 digits: four bytes, of the last of
      which the top digit is clear. */
  predicate IntKept(fields: map<nat, seq<byte>>, bit: nat, was: Option<nat>, now: Option<nat>)
  {
    if bit in fields then
      |fields[bit]| >= 1 &&
      var f := fields[bit][1..];
      && (now.Some? <==> |f| <= 4 && (|f| == 4 ==> f[3] < 128))
      && (now.Some? ==> now.value == Le(f))
    else now == was
  }

  /** Each attribute that was sent is as it was sent, and each other one as it was before;
      of the record size the low byte is kept. */
  ghost predicate Kept(fields: map<nat, seq<byte>>, was: Remote, now: Remote) {
    && SetKept(fields, DATATYPE, was.dataType, now.dataType)
    && ByteKept(fields, ORG, was.org, now.org)
    && ByteKept(fields, RFM, was.rfm, now.rfm)
    && SetKept(fields, RAT, was.rat, now.rat)
    && WordKept(fields, BLS, was.bls, now.bls)
    && (if MRS in fields then |fields[MRS]| > 0 && now.mrs == fields[MRS][0] else now.mrs == was.mrs)
    && IntKept(fields, ALQ, was.alq, now.alq)
    && ByteKept(fields, BKS, was.bks, now.bks)
    && ByteKept(fields, FSZ, was.fsz, now.fsz)
    && IntKept(fields, MRN, was.mrn, now.mrn)
    && WordKept(fields, DEQ, was.deq, now.deq)
    && SetKept(fields, FOP, was.fop, now.fop)
    && ByteKept(fields, BSZ, was.bsz, now.bsz)
    && SetKept(fields, DEV, was.dev, now.dev)
    && SetKept(fields, SDC, was.sdc, now.sdc)
    && WordKept(fields, LRL, was.lrl, now.lrl)
    && IntKept(fields, HBK, was.hbk, now.hbk)
    && IntKept(fields, EBK, was.ebk, now.ebk)
    && WordKept(fields, FFB, was.ffb, now.ffb)
    && IntKept(fields, SBN, was.sbn, now.sbn)
  }

  lemma SetCopied(fields: map<nat, seq<byte>>, bit: nat, size: nat, was: seq<byte>)
    requires bit in fields ==> Extends(fields[bit], size)
    ensures SetKept(fields, bit, was, FieldOr(fields, bit, size, was))
  {
    if bit in fields {
      var f := fields[bit];
      var rest := if |f| <= |was| then was[|f|..] else [];
      ExSizeOfField(f, rest, |f + rest|);
      assert (f + rest)[..|f|] == f;
    }
  }

  lemma ByteTaken(fields: map<nat, seq<byte>>, bit: nat, was: byte)
    requires bit in fields ==> |fields[bit]| == 1
    ensures ByteKept(fields, bit, was, ByteOr(fields, bit, was))
  {
  }

  lemma WordTaken(fields: map<nat, seq<byte>>, bit: nat, was: nat)
    requires bit in fields ==> |fields[bit]| == 2
    ensures WordKept(fields, bit, was, WordOr(fields, bit, was))
    ensures bit in fields ==> WordOr(fields, bit, was) % 256 == fields[bit][0] as nat
  {
    if bit in fields { LeOfTwo(fields[bit]); }
  }

  lemma IntTaken(fields: map<nat, seq<byte>>, bit: nat, was: Option<nat>)
    requires bit in fields ==> Counted(fields[bit], 5)
    ensures bit in fields ==> |fields[bit]| >= 1
    ensures IntKept(fields, bit, was, IntOr(fields, bit, was))
  {
    if bit in fields {
      var f := fields[bit][1..];
      ImageFromExact(f, 0, 0);
      assert f[0..] == f && Pow2(0) == 1;
    }
  }

  lemma SetsKept(fields: map<nat, seq<byte>>, r: Remote)
    requires AllWellFormed(fields) && AllShaped(fields)
    ensures var t := Applied(r, fields);
      && SetKept(fields, DATATYPE, r.dataType, t.dataType) && SetKept(fields, RAT, r.rat, t.rat)
      && SetKept(fields, FOP, r.fop, t.fop) && SetKept(fields, DEV, r.dev, t.dev) && SetKept(fields, SDC, r.sdc, t.sdc)
  {
    assert WellFormedAt(fields, DATATYPE) && WellFormedAt(fields, RAT);
    assert WellFormedAt(fields, FOP) && WellFormedAt(fields, DEV) && WellFormedAt(fields, SDC);
    SetCopied(fields, DATATYPE, 2, r.dataType);
    SetCopied(fields, RAT, 3, r.rat);
    SetCopied(fields, FOP, 6, r.fop);
    SetCopied(fields, DEV, 6, r.dev);
    SetCopied(fields, SDC, 6, r.sdc);
  }

  lemma WordsKept(fields: map<nat, seq<byte>>, r: Remote)
    requires AllWellFormed(fields) && AllShaped(fields)
    ensures var t := Applied(r, fields);
      && WordKept(fields, BLS, r.bls, t.bls) && WordKept(fields, DEQ, r.deq, t.deq)
      && WordKept(fields, LRL, r.lrl, t.lrl) && WordKept(fields, FFB, r.ffb, t.ffb)
      && (if MRS in fields then |fields[MRS]| > 0 && t.mrs == fields[MRS][0] else t.mrs == r.mrs)
  {
    assert WellFormedAt(fields, BLS) && WellFormedAt(fields, DEQ) && WellFormedAt(fields, LRL);
    assert WellFormedAt(fields, FFB) && WellFormedAt(fields, MRS);
    WordTaken(fields, BLS, r.bls);
    WordTaken(fields, DEQ, r.deq);
    WordTaken(fields, LRL, r.lrl);
    WordTaken(fields, FFB, r.ffb);
    WordTaken(fields, MRS, r.mrs as nat);
  }

  lemma IntsKept(fields: map<nat, seq<byte>>, r: Remote)
    requires AllWellFormed(fields) && AllShaped(fields)
    ensures var t := Applied(r, fields);
      && IntKept(fields, ALQ, r.alq, t.alq) && IntKept(fields, MRN, r.mrn, t.mrn) && IntKept(fields, HBK, r.hbk, t.hbk)
      && IntKept(fields, EBK, r.ebk, t.ebk) && IntKept(fields, SBN, r.sbn, t.sbn)
  {
    assert WellFormedAt(fields, ALQ) && WellFormedAt(fields, MRN) && WellFormedAt(fields, HBK);
    assert WellFormedAt(fields, EBK) && WellFormedAt(fields, SBN);
    IntTaken(fields, ALQ, r.alq);
    IntTaken(fields, MRN, r.mrn);
    IntTaken(fields, HBK, r.hbk);
    IntTaken(fields, EBK, r.ebk);
    IntTaken(fields, SBN, r.sbn);
  }

  lemma BytesKept(fields: map<nat, seq<byte>>, r: Remote)
    requires AllWellFormed(fields) && AllShaped(fields)
    ensures var t := Applied(r, fields);
      && ByteKept(fields, ORG, r.org, t.org) && ByteKept(fields, RFM, r.rfm, t.rfm) && ByteKept(fields, BKS, r.bks, t.bks)
      && ByteKept(fields, FSZ, r.fsz, t.fsz) && ByteKept(fields, BSZ, r.bsz, t.bsz)
  {
    assert WellFormedAt(fields, ORG) && WellFormedAt(fields, RFM) && WellFormedAt(fields, BKS);
    assert WellFormedAt(fields, FSZ) && WellFormedAt(fields, BSZ);
    ByteTaken(fields, ORG, r.org);
    ByteTaken(fields, RFM, r.rfm);
    ByteTaken(fields, BKS, r.bks);
    ByteTaken(fields, FSZ, r.fsz);
    ByteTaken(fields, BSZ, r.bsz);
  }

  lemma AppliedKept(fields: map<nat, seq<byte>>, r: Remote)
    requires AllWellFormed(fields) && AllShaped(fields)
    ensures Kept(fields, r, Applied(r, fields))
  {
    SetsKept(fields, r);
    WordsKept(fields, r);
    IntsKept(fields, r);
    BytesKept(fields, r);
  }

  // ---- Which data types are taken ----

  /** Nothing but ASCII and image, and not both. */
  ghost predicate TypeAllowed(f: seq<byte>)
    requires IsField(f)
  {
    (forall b: nat :: ExGet(f, b) ==> b == ASCII || b == IMAGE) && !(ExGet(f, ASCII) && ExGet(f, IMAGE))
  }

  lemma {:induction false} SomeBit(x: nat) returns (i: nat)
    requires x > 0
    ensures Bit(x, i)
  {
    if x % 2 == 1 {
      i := 0;
    } else {
      i := SomeBit(x / 2);
      i := i + 1;
    }
  }

  /** Any data type field of one or two bytes, however it is padded. */
  lemma TypesTaken(f: seq<byte>)
    requires Extends(f, 2)
    ensures Supported(ExInt(f)) <==> TypeAllowed(f)
  {
    ExIntegerExact(f);
    var v := ExInt(f);
    assert Pow2(2) == 4;
    AndMask(v, 2);
    SmallBits(v);
    forall b: nat ensures Bit(v, b) <==> ExGet(f, b) { }
    if v >= 4 {
      var i := SomeBit(v / 4);
      assert v / 2 / 2 == v / 4;
      assert Bit(v, i + 2) == Bit(v / 2, i + 1) == Bit(v / 4, i);
      assert ExGet(f, i + 2);
    } else {
      forall b: nat | ExGet(f, b) ensures b == ASCII || b == IMAGE {
        HighBits(v, 2, if b >= 2 then b else 2);
      }
    }
  }

  /** The data type is not one that is supported. */
  ghost predicate Refused(fields: map<nat, seq<byte>>) {
    DATATYPE in fields && IsField(fields[DATATYPE]) && !TypeAllowed(fields[DATATYPE])
  }

  lemma UpdatedIs(fields: map<nat, seq<byte>>, r: Remote)
    requires AllWellFormed(fields) && AllShaped(fields)
    ensures Updated(r, fields) == if Refused(fields) then r else Applied(r, fields)
  {
    assert WellFormedAt(fields, DATATYPE);
    if DATATYPE in fields { TypesTaken(fields[DATATYPE]); }
  }

  /** Every Attributes message, whatever it announces and whatever follows it, is taken to
      its end. If its data type is supported, or there is none, every attribute it announces
      is kept and no other changes; if not, none changes at all. */
  lemma AttributesKept(r: Remote, menu: seq<byte>, fields: map<nat, seq<byte>>, rest: seq<byte>)
    requires Lists(menu, fields) && AllWellFormed(fields)
    ensures Parse(menu + (Body(fields, 0) + rest)) == Some((fields, rest)) && AllShaped(fields)
    ensures if Refused(fields) then Updated(r, fields) == r else Kept(fields, r, Updated(r, fields))
  {
    MessageTaken(menu, fields, rest);
    UpdatedIs(fields, r);
    AppliedKept(fields, r);
  }
}
