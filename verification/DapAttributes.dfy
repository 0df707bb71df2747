/** The Attributes message: a menu of the fields that are present, then those
    fields in menu order. FAL builds one when it opens a file and takes in the
    ones it receives. */
module DapAttributes {
  import opened Bits
  import opened Wrappers
  import opened DapWire
  import opened DapField
  import opened DapBuffer
  import opened DapReceive
  import opened DapSend

  const ATTRIBUTES := 2  // the message type

  // Menu bits.
  const DATATYPE := 0
  const ORG := 1
  const RFM := 2
  const RAT := 3
  const BLS := 4
  const MRS := 5
  const ALQ := 6
  const BKS := 7
  const FSZ := 8
  const MRN := 9
  const RUNSYS := 10
  const DEQ := 11
  const FOP := 12
  const BSZ := 13
  const DEV := 14
  const SDC := 15
  const LRL := 16
  const HBK := 17
  const EBK := 18
  const FFB := 19
  const SBN := 20
  const FIELDS := 21

  const ASCII := 0
  const IMAGE := 1
  const STREAM := 4

  datatype Kind = Extensible(max: byte) | OneByteField | TwoByteField | ImageField(max: byte)

  /** How each menu bit's field is laid out. */
  function KindOf(bit: nat): Kind
    requires bit < FIELDS
  {
    if bit == DATATYPE then Extensible(2)
    else if bit == RAT then Extensible(3)
    else if bit == FOP || bit == DEV || bit == SDC then Extensible(6)
    else if bit == BLS || bit == MRS || bit == DEQ || bit == LRL || bit == FFB then TwoByteField
    else if bit == RUNSYS then ImageField(40)
    else if bit == ALQ || bit == MRN || bit == HBK || bit == EBK || bit == SBN then ImageField(5)
    else OneByteField
  }

  /** The number of bytes a field of this kind takes at the start of t. */
  function FieldSize(kind: Kind, t: seq<byte>): (r: Option<nat>)
    ensures r.Some? ==> r.value <= |t|
  {
    match kind
    case Extensible(max) => ExSize(t, max as nat)
    case OneByteField => if |t| >= 1 then Some(1) else None
    case TwoByteField => if |t| >= 2 then Some(2) else None
    case ImageField(max) => ImageSize(t, max as nat)
  }

  /** The raw bytes of the fields from bit on, and the length of what they take. */
  function ParseFrom(menu: seq<byte>, bit: nat, t: seq<byte>): (r: Option<(map<nat, seq<byte>>, seq<byte>)>)
    requires IsField(menu) && bit <= FIELDS
    ensures r.Some? ==> forall b :: b in r.value.0 ==> bit <= b < FIELDS
    decreases FIELDS - bit
  {
    if bit == FIELDS then Some((map[], t))
    else if !ExGet(menu, bit) then ParseFrom(menu, bit + 1, t)
    else
      var n :- FieldSize(KindOf(bit), t);
      var (fields, rest) :- ParseFrom(menu, bit + 1, t[n..]);
      Some((fields[bit := t[..n]], rest))
  }

  /** The whole message: the menu, then its fields. */
  function Parse(t: seq<byte>): Option<(map<nat, seq<byte>>, seq<byte>)> {
    var n :- ExSize(t, 6);
    (ExSizeField(t, 6); ParseFrom(t[..n], 0, t[n..]))
  }

  // ---- What the opening side builds ----

  /** The fields an open announces. */
  function Menu(ascii: bool, image: bool): (s: set<nat>)
    ensures Below(s, 6)
  {
    {DATATYPE, ALQ, EBK, FFB} + (if ascii then {RFM} else {}) + (if image then {MRS} else {})
  }

  function Types(ascii: bool, image: bool): (s: set<nat>)
    ensures Below(s, 2)
  {
    (if ascii then {ASCII} else {}) + (if image then {IMAGE} else {})
  }

  function TypeBytes(ascii: bool, image: bool): seq<byte> {
    ExEncode(Types(ascii, image), 2)
  }

  function FormatBytes(ascii: bool): seq<byte> {
    if ascii then [STREAM] else []
  }

  /** A maximum record size of 512. */
  function RecordSizeBytes(image: bool): seq<byte> {
    if image then [0, 2] else []
  }

  function LastBlock(size: nat): nat { (size + 511) / 512 }

  function FreeByteBytes(size: nat): seq<byte> {
    [size % 512 % 256, size % 512 / 256]
  }

  function Sizes(blocks: nat, size: nat): seq<byte> {
    IntImage(blocks, 5) + (IntImage(LastBlock(size), 5) + FreeByteBytes(size))
  }

  function Opened(ascii: bool, image: bool, blocks: nat, size: nat): seq<byte> {
    ExEncode(Menu(ascii, image), 6)
    + (TypeBytes(ascii, image) + (FormatBytes(ascii) + (RecordSizeBytes(image) + Sizes(blocks, size))))
  }

  // ---- Reading it back ----

  lemma {:induction false} SkipField(menu: seq<byte>, bit: nat, t: seq<byte>)
    requires IsField(menu) && bit < FIELDS && !ExGet(menu, bit)
    ensures ParseFrom(menu, bit, t) == ParseFrom(menu, bit + 1, t)
  {
  }

  /** One field in front of the rest is taken whole. */
  lemma {:induction false} TakeField(menu: seq<byte>, bit: nat, f: seq<byte>, rest: seq<byte>)
    requires IsField(menu) && bit < FIELDS && ExGet(menu, bit)
    requires FieldSize(KindOf(bit), f + rest) == Some(|f|)
    ensures var r := ParseFrom(menu, bit + 1, rest);
      ParseFrom(menu, bit, f + rest) == if r.None? then None else Some((r.value.0[bit := f], r.value.1))
  {
    assert (f + rest)[..|f|] == f && (f + rest)[|f|..] == rest;
  }

  lemma {:induction false} SkipTo(menu: seq<byte>, lo: nat, hi: nat, t: seq<byte>)
    requires IsField(menu) && lo <= hi <= FIELDS
    requires forall b :: lo <= b < hi ==> !ExGet(menu, b)
    ensures ParseFrom(menu, lo, t) == ParseFrom(menu, hi, t)
    decreases hi - lo
  {
    if lo >= hi {
    } else {
      SkipField(menu, lo, t);
      SkipTo(menu, lo + 1, hi, t);
    }
  }

  /** The fields that an open announces, by menu bit. */
  function SizeFields(blocks: nat, size: nat): map<nat, seq<byte>> {
    map[FFB := FreeByteBytes(size)][EBK := IntImage(LastBlock(size), 5)][ALQ := IntImage(blocks, 5)]
  }

  function FormatFields(ascii: bool, image: bool, blocks: nat, size: nat): map<nat, seq<byte>> {
    var f := RecordSizeFields(image, blocks, size);
    if ascii then f[RFM := FormatBytes(true)] else f
  }

  function OpenedFields(ascii: bool, image: bool, blocks: nat, size: nat): map<nat, seq<byte>> {
    FormatFields(ascii, image, blocks, size)[DATATYPE := TypeBytes(ascii, image)]
  }

  /** menu announces exactly the fields of an open. */
  ghost predicate Announces(menu: seq<byte>, ascii: bool, image: bool) {
    IsField(menu) && forall b: nat :: ExGet(menu, b) <==> b in Menu(ascii, image)
  }

  lemma MenuAnnounces(ascii: bool, image: bool)
    ensures Announces(ExEncode(Menu(ascii, image), 6), ascii, image)
  {
    ExEncodeMember(Menu(ascii, image), 6, 0);
    forall b: nat ensures ExGet(ExEncode(Menu(ascii, image), 6), b) <==> b in Menu(ascii, image) {
      ExEncodeMember(Menu(ascii, image), 6, b);
    }
  }

  lemma ImageSizeBack(v: nat, rest: seq<byte>)
    ensures ImageSize(IntImage(v, 5) + rest, 5) == Some(|IntImage(v, 5)|)
  {
    assert (IntImage(v, 5) + rest)[0] == IntImage(v, 5)[0];
  }

  /** The last three fields. */
  lemma {:induction false} ParseSizes(menu: seq<byte>, ascii: bool, image: bool, blocks: nat, size: nat)
    requires Announces(menu, ascii, image)
    ensures ParseFrom(menu, ALQ, Sizes(blocks, size)) == Some((SizeFields(blocks, size), []))
  {
    var f, e, a := FreeByteBytes(size), IntImage(LastBlock(size), 5), IntImage(blocks, 5);
    assert f + [] == f;
    SkipTo(menu, FFB + 1, FIELDS, []);
    TakeField(menu, FFB, f, []);
    ImageSizeBack(LastBlock(size), f);
    TakeField(menu, EBK, e, f);
    SkipTo(menu, ALQ + 1, EBK, e + f);
    ImageSizeBack(blocks, e + f);
    TakeField(menu, ALQ, a, e + f);
  }

  function RecordSizeFields(image: bool, blocks: nat, size: nat): map<nat, seq<byte>> {
    if image then SizeFields(blocks, size)[MRS := RecordSizeBytes(true)] else SizeFields(blocks, size)
  }

  /** The record size, when it is there, comes before. */
  lemma {:induction false} ParseRecordSize(menu: seq<byte>, ascii: bool, image: bool, blocks: nat, size: nat)
    requires Announces(menu, ascii, image)
    ensures ParseFrom(menu, RFM + 1, RecordSizeBytes(image) + Sizes(blocks, size))
         == Some((RecordSizeFields(image, blocks, size), []))
  {
    var sizes := Sizes(blocks, size);
    ParseSizes(menu, ascii, image, blocks, size);
    if image {
      TakeField(menu, MRS, RecordSizeBytes(true), sizes);
    } else {
      SkipField(menu, MRS, sizes);
      assert RecordSizeBytes(image) + sizes == sizes;
    }
    SkipTo(menu, RFM + 1, MRS, RecordSizeBytes(image) + sizes);
  }

  lemma FormatAnnounced(menu: seq<byte>, ascii: bool, image: bool)
    requires Announces(menu, ascii, image)
    ensures IsField(menu) && !ExGet(menu, ORG) && (ExGet(menu, RFM) <==> ascii)
  {
    assert ORG !in Menu(ascii, image);
    assert RFM in Menu(ascii, image) <==> ascii;
  }

  /** And the record format before that. */
  lemma {:induction false} ParseFormat(menu: seq<byte>, ascii: bool, image: bool, blocks: nat, size: nat)
    requires Announces(menu, ascii, image)
    ensures ParseFrom(menu, ORG, FormatBytes(ascii) + (RecordSizeBytes(image) + Sizes(blocks, size)))
         == Some((FormatFields(ascii, image, blocks, size), []))
  {
    var t := RecordSizeBytes(image) + Sizes(blocks, size);
    FormatAnnounced(menu, ascii, image);
    ParseRecordSize(menu, ascii, image, blocks, size);
    if ascii {
      TakeField(menu, RFM, FormatBytes(true), t);
      SkipField(menu, ORG, FormatBytes(true) + t);
    } else {
      SkipField(menu, RFM, t);
      assert FormatBytes(false) + t == t;
      SkipField(menu, ORG, t);
    }
  }

  /** Every message an open builds is accepted, taken up to its last byte, and its
      fields are those that were put in. */
  lemma {:induction false} ParseOpened(ascii: bool, image: bool, blocks: nat, size: nat)
    ensures Parse(Opened(ascii, image, blocks, size))
         == Some((OpenedFields(ascii, image, blocks, size), []))
  {
    var menu, types := ExEncode(Menu(ascii, image), 6), TypeBytes(ascii, image);
    var t := FormatBytes(ascii) + (RecordSizeBytes(image) + Sizes(blocks, size));
    MenuAnnounces(ascii, image);
    ParseFormat(menu, ascii, image, blocks, size);
    ExEncodeMember(Types(ascii, image), 2, 0);
    ExSizeOfField(types, t, 2);
    TakeField(menu, DATATYPE, types, t);
    ExSizeOfField(menu, types + t, 6);
    var whole := Opened(ascii, image, blocks, size);
    assert whole[..|menu|] == menu && whole[|menu|..] == types + t;
  }

  // ---- What the receiving side keeps ----

  /** The attributes of the peer's file. An integer is None where reading it is
      undefined in the source. */
  datatype Remote = Remote(
    dataType: seq<byte>, org: byte, rfm: byte, rat: seq<byte>, bls: nat, mrs: byte,
    alq: Option<nat>, bks: byte, fsz: byte, mrn: Option<nat>, deq: nat, fop: seq<byte>,
    bsz: byte, dev: seq<byte>, sdc: seq<byte>, lrl: nat, hbk: Option<nat>,
    ebk: Option<nat>, ffb: nat, sbn: Option<nat>)

  predicate Shaped(kind: Kind, f: seq<byte>) {
    match kind
    case Extensible(max) => 1 <= |f| <= max as nat
    case OneByteField => |f| == 1
    case TwoByteField => |f| == 2
    case ImageField(max) => |f| >= 1 && |f| == f[0] as int + 1
  }

  /** Every field has the shape of its kind. */
  ghost predicate AllShaped(fields: map<nat, seq<byte>>) {
    forall b :: b in fields ==> b < FIELDS && Shaped(KindOf(b), fields[b])
                                && (KindOf(b).Extensible? ==> IsField(fields[b]))
  }

  lemma {:induction false} ParsedShapes(menu: seq<byte>, bit: nat, t: seq<byte>)
    requires IsField(menu) && bit <= FIELDS
    ensures ParseFrom(menu, bit, t).Some? ==> AllShaped(ParseFrom(menu, bit, t).value.0)
    decreases FIELDS - bit
  {
    if bit >= FIELDS {
    } else {
      if !ExGet(menu, bit) {
        ParsedShapes(menu, bit + 1, t);
      } else if FieldSize(KindOf(bit), t).Some? {
        var n := FieldSize(KindOf(bit), t).value;
        ParsedShapes(menu, bit + 1, t[n..]);
        TakenShape(KindOf(bit), t);
      }
    }
  }

  lemma TakenShape(kind: Kind, t: seq<byte>)
    requires FieldSize(kind, t).Some?
    ensures Shaped(kind, t[..FieldSize(kind, t).value])
    ensures kind.Extensible? ==> IsField(t[..FieldSize(kind, t).value])
  {
    if kind.Extensible? { ExSizeField(t, kind.max as nat); }
  }

  function ByteOr(fields: map<nat, seq<byte>>, bit: nat, old_: byte): byte
    requires bit in fields ==> |fields[bit]| >= 1
  {
    if bit in fields then fields[bit][0] else old_
  }

  function WordOr(fields: map<nat, seq<byte>>, bit: nat, old_: nat): nat {
    if bit in fields then Le(fields[bit]) else old_
  }

  function IntOr(fields: map<nat, seq<byte>>, bit: nat, old_: Option<nat>): Option<nat>
    requires bit in fields ==> |fields[bit]| >= 1
  {
    if bit in fields then ImageInt(fields[bit][1..]) else old_
  }

  /** A field copied over the front of a fixed buffer of the given size. */
  function FieldOr(fields: map<nat, seq<byte>>, bit: nat, size: nat, old_: seq<byte>): seq<byte>
    requires bit in fields ==> IsField(fields[bit]) && size > 0
  {
    if bit in fields then
      var copy := ExTruncate(fields[bit], size);
      copy + (if |copy| <= |old_| then old_[|copy|..] else [])
    else old_
  }

  /** A data type, a field of one or two bytes, as an integer. */
  function ExInt(f: seq<byte>): nat
    requires IsField(f) && |f| <= 2
  {
    ExIntegerExact(f);
    ExInteger(f).value
  }

  /** Only ASCII and image data are supported, and not both. */
  predicate Supported(v: nat) {
    v != 0 ==> v - And(v, 3) == 0 && And(v, 3) != 3
  }

  /** The attributes after a message; unchanged when its data type is rejected. */
  function Updated(r: Remote, fields: map<nat, seq<byte>>): Remote
    requires AllShaped(fields)
  {
    if DATATYPE in fields && !Supported(ExInt(fields[DATATYPE])) then r
    else Applied(r, fields)
  }

  function Applied(r: Remote, fields: map<nat, seq<byte>>): Remote
    requires AllShaped(fields)
  {
    Remote(
      FieldOr(fields, DATATYPE, 2, r.dataType),
      ByteOr(fields, ORG, r.org),
      ByteOr(fields, RFM, r.rfm),
      FieldOr(fields, RAT, 3, r.rat),
      WordOr(fields, BLS, r.bls),
      if MRS in fields then Le(fields[MRS]) % 256 else r.mrs,
      IntOr(fields, ALQ, r.alq),
      ByteOr(fields, BKS, r.bks),
      ByteOr(fields, FSZ, r.fsz),
      IntOr(fields, MRN, r.mrn),
      WordOr(fields, DEQ, r.deq),
      FieldOr(fields, FOP, 6, r.fop),
      ByteOr(fields, BSZ, r.bsz),
      FieldOr(fields, DEV, 6, r.dev),
      FieldOr(fields, SDC, 6, r.sdc),
      WordOr(fields, LRL, r.lrl),
      IntOr(fields, HBK, r.hbk),
      IntOr(fields, EBK, r.ebk),
      WordOr(fields, FFB, r.ffb),
      IntOr(fields, SBN, r.sbn))
  }

  /** The file length that an end block and a first free byte stand for. */
  function LengthFrom(ebk: nat, ffb: nat): int {
    if ffb == 0 then 512 * ebk else 512 * (ebk - 1) + ffb
  }

  /** The file length that received attributes stand for, if the end block can be read. */
  function Announced(r: Remote): Option<int> {
    if r.ebk.Some? then Some(LengthFrom(r.ebk.value, r.ffb)) else None
  }

  lemma TypeDigits(ascii: bool, image: bool)
    ensures |TypeBytes(ascii, image)| == 1 && IsField(TypeBytes(ascii, image))
    ensures And(TypeBytes(ascii, image)[0], 0x7F) == (if ascii then 1 else 0) + (if image then 2 else 0)
  {
    var s := Types(ascii, image);
    assert !More(s, 0);
    ExEncodeBytes(s, 2, 0);
    ExEncodeMember(s, 2, 0);
    assert LowBits(s, 0, 1) == (if ascii then 1 else 0) by { assert Pow2(0) == 1 && LowBits(s, 0, 0) == 0; }
    assert LowBits(s, 0, 2) == (if ascii then 1 else 0) + (if image then 2 else 0) by { assert Pow2(1) == 2; }
    HighLowBits(s, 7);
    var v := ExByte(s, 0);
    AndMask(v, 7);
    assert Pow2(7) == 128;
  }

  lemma TypeValue(ascii: bool, image: bool)
    ensures |TypeBytes(ascii, image)| == 1 && IsField(TypeBytes(ascii, image))
    ensures ExInt(TypeBytes(ascii, image)) == (if ascii then 1 else 0) + (if image then 2 else 0)
  {
    var f := TypeBytes(ascii, image);
    TypeDigits(ascii, image);
    OneByteInteger(f);
  }

  lemma OneByteInteger(f: seq<byte>)
    requires |f| == 1 && IsField(f)
    ensures ExInt(f) == And(f[0], 0x7F)
  {
    ExIntegerExact(f);
    assert Pow2(0) == 1;
    var v := And(f[0], 0x7F);
    assert ExIntFrom(f, 1, Or(0, v)) == Some(v);
  }

  /** Members below 2 leave the other digits of the first byte clear. */
  lemma {:induction false} HighLowBits(s: set<nat>, k: nat)
    requires k >= 2 && forall b :: b in s ==> b < 2
    ensures LowBits(s, 0, k) == LowBits(s, 0, 2)
  {
    if k <= 2 {
    } else {
      HighLowBits(s, k - 1);
    }
  }

  /** The attributes an open leaves its peer with, field by field. */
  function AfterOpen(r: Remote, ascii: bool, image: bool, blocks: nat, size: nat): Remote
    requires |r.dataType| == 2
  {
    Remote([(if ascii then 1 else 0) + (if image then 2 else 0), r.dataType[1]],
           r.org, if ascii then STREAM else r.rfm, r.rat, r.bls, if image then 0 else r.mrs,
           ImageInt(IntImage(blocks, 5)[1..]), r.bks, r.fsz, r.mrn, r.deq, r.fop,
           r.bsz, r.dev, r.sdc, r.lrl, r.hbk,
           ImageInt(IntImage(LastBlock(size), 5)[1..]), size % 512, r.sbn)
  }

  lemma OpenedUpdate(r: Remote, ascii: bool, image: bool, blocks: nat, size: nat)
    requires |r.dataType| == 2
    ensures AllShaped(OpenedFields(ascii, image, blocks, size))
    ensures Updated(r, OpenedFields(ascii, image, blocks, size))
         == if ascii && image then r else AfterOpen(r, ascii, image, blocks, size)
  {
    OpenedShaped(ascii, image, blocks, size);
    TypeValue(ascii, image);
    SupportedTypes(ascii, image);
    OpenedValues(ascii, image, blocks, size);
    if !(ascii && image) {
      ApplyOpened(r, OpenedFields(ascii, image, blocks, size), ascii, image, blocks, size);
    }
  }

  /** f holds the fields of an open and no others. */
  ghost predicate AsOpened(f: map<nat, seq<byte>>, ascii: bool, image: bool) {
    && DATATYPE in f && ALQ in f && EBK in f && FFB in f
    && (RFM in f <==> ascii) && (MRS in f <==> image)
    && forall b :: b in f ==> b in {DATATYPE, RFM, MRS, ALQ, EBK, FFB}
  }

  lemma ApplyOpened(r: Remote, f: map<nat, seq<byte>>, ascii: bool, image: bool, blocks: nat, size: nat)
    requires |r.dataType| == 2 && AllShaped(f) && AsOpened(f, ascii, image)
    requires f[DATATYPE] == TypeBytes(ascii, image)
    requires f[ALQ] == IntImage(blocks, 5) && f[EBK] == IntImage(LastBlock(size), 5)
    requires f[FFB] == FreeByteBytes(size)
    requires (ascii ==> f[RFM] == [STREAM]) && (image ==> f[MRS] == [0, 2])
    ensures Applied(r, f) == AfterOpen(r, ascii, image, blocks, size)
  {
    FirstField(r, f, ascii, image);
    WordFields(r, f, image, size);
  }

  lemma FirstField(r: Remote, f: map<nat, seq<byte>>, ascii: bool, image: bool)
    requires |r.dataType| == 2 && DATATYPE in f && f[DATATYPE] == TypeBytes(ascii, image)
    requires IsField(f[DATATYPE])
    ensures FieldOr(f, DATATYPE, 2, r.dataType) == [(if ascii then 1 else 0) + (if image then 2 else 0), r.dataType[1]]
  {
    TypeByte(ascii, image);
    assert FieldOr(f, DATATYPE, 2, r.dataType) == [TypeBytes(ascii, image)[0], r.dataType[1]];
  }

  lemma WordFields(r: Remote, f: map<nat, seq<byte>>, image: bool, size: nat)
    requires FFB in f && f[FFB] == FreeByteBytes(size)
    requires MRS in f <==> image
    requires image ==> f[MRS] == [0, 2]
    ensures WordOr(f, FFB, r.ffb) == size % 512
    ensures (if MRS in f then Le(f[MRS]) % 256 else r.mrs as nat) == if image then 0 else r.mrs as nat
  {
    LeOfTwo(FreeByteBytes(size));
    LeOfTwo([0, 2]);
  }

  lemma OpenedValues(ascii: bool, image: bool, blocks: nat, size: nat)
    ensures var f := OpenedFields(ascii, image, blocks, size);
      && AsOpened(f, ascii, image)
      && f[DATATYPE] == TypeBytes(ascii, image)
      && f[ALQ] == IntImage(blocks, 5) && f[EBK] == IntImage(LastBlock(size), 5)
      && f[FFB] == FreeByteBytes(size)
      && (ascii ==> f[RFM] == [STREAM]) && (image ==> f[MRS] == [0, 2])
  {
  }

  /** What an open announces is what the peer ends up with: the data type, the
      record format and the first free byte always; the allocation and the end
      block, and with it the length of the file, exactly when they are below 2^31; the
      record size cut to eight bits.
      A peer asked for ASCII and image at once would ignore the message. */
  lemma AttributesRoundTrip(r: Remote, ascii: bool, image: bool, blocks: nat, size: nat)
    requires |r.dataType| == 2
    ensures Parse(Opened(ascii, image, blocks, size))
         == Some((OpenedFields(ascii, image, blocks, size), []))
    ensures AllShaped(OpenedFields(ascii, image, blocks, size))
    ensures Updated(r, OpenedFields(ascii, image, blocks, size))
         == if ascii && image then r else AfterOpen(r, ascii, image, blocks, size)
    ensures AfterOpen(r, ascii, image, blocks, size).alq == Some(blocks) <==> blocks < 0x8000_0000
    ensures AfterOpen(r, ascii, image, blocks, size).ebk == Some(LastBlock(size))
       <==> LastBlock(size) < 0x8000_0000
    ensures Announced(AfterOpen(r, ascii, image, blocks, size)) == Some(size)
       <==> LastBlock(size) < 0x8000_0000
  {
    ParseOpened(ascii, image, blocks, size);
    OpenedUpdate(r, ascii, image, blocks, size);
    IntRoundTrip(blocks, 5);
    LengthAnnounced(r, ascii, image, blocks, size);
  }

  /** The end block and the first free byte that arrive give the length exactly when the
      end block can be read back. */
  lemma LengthAnnounced(r: Remote, ascii: bool, image: bool, blocks: nat, size: nat)
    requires |r.dataType| == 2
    ensures AfterOpen(r, ascii, image, blocks, size).ebk == Some(LastBlock(size)) <==> LastBlock(size) < 0x8000_0000
    ensures Announced(AfterOpen(r, ascii, image, blocks, size)) == Some(size) <==> LastBlock(size) < 0x8000_0000
  {
    IntRoundTrip(LastBlock(size), 5);
    var ebk := AfterOpen(r, ascii, image, blocks, size).ebk;
    if ebk.Some? { LengthBack(size, ebk.value); }
  }

  lemma LengthBack(size: nat, ebk: nat)
    ensures LengthFrom(ebk, size % 512) == size <==> ebk == LastBlock(size)
  {
  }

  lemma TypeByte(ascii: bool, image: bool)
    ensures |TypeBytes(ascii, image)| == 1
    ensures TypeBytes(ascii, image)[0] as int == (if ascii then 1 else 0) + (if image then 2 else 0)
  {
    TypeDigits(ascii, image);
    LastByte(TypeBytes(ascii, image));
  }

  lemma SupportedTypes(ascii: bool, image: bool)
    ensures Supported((if ascii then 1 else 0) + (if image then 2 else 0)) <==> !(ascii && image)
  {
    var v := (if ascii then 1 else 0) + (if image then 2 else 0);
    assert Pow2(2) == 4;
    AndMask(v, 2);
  }

  lemma OpenedShaped(ascii: bool, image: bool, blocks: nat, size: nat)
    ensures AllShaped(OpenedFields(ascii, image, blocks, size))
  {
    ParseOpened(ascii, image, blocks, size);
    var t := Opened(ascii, image, blocks, size);
    var n := ExSize(t, 6).value;
    ExSizeField(t, 6);
    ParsedShapes(t[..n], 0, t[n..]);
  }

  // ---- The routines themselves ----

  /** The fields of an open, appended to a started message. */
  method PutOpened(buf: BufDescr, ascii: bool, image: bool, blocks: nat, size: nat)
    requires buf.Valid() && buf.data.Length == BUFSIZ && buf.offset <= 16
    modifies buf`offset, buf.data
    ensures buf.Valid()
    ensures buf.Bytes() == old(buf.Bytes()) + Opened(ascii, image, blocks, size)
  {
    ghost var start := buf.Bytes();
    PutMenu(buf, ascii, image);
    PutTypes(buf, ascii, image);
    PutFormat(buf, ascii, image);
    PutSizes(buf, blocks, size);
    Nest(start, ExEncode(Menu(ascii, image), 6), TypeBytes(ascii, image), FormatBytes(ascii),
         RecordSizeBytes(image), Sizes(blocks, size));
  }

  lemma Nest(s: seq<byte>, a: seq<byte>, b: seq<byte>, c: seq<byte>, d: seq<byte>, e: seq<byte>)
    ensures s + a + b + c + d + e == s + (a + (b + (c + (d + e))))
  {
    assert c + d + e == c + (d + e);
    assert s + a + b + (c + (d + e)) == s + (a + (b + (c + (d + e))));
  }

  method PutFormat(buf: BufDescr, ascii: bool, image: bool)
    requires buf.Valid() && buf.data.Length == BUFSIZ && buf.offset <= 32
    modifies buf`offset, buf.data
    ensures buf.Valid() && buf.offset <= old(buf.offset) + 3
    ensures buf.Bytes() == old(buf.Bytes()) + FormatBytes(ascii) + RecordSizeBytes(image)
  {
    if ascii { buf.BPut(STREAM); }
    if image { buf.TwoBPut(512); }
  }

  method PutMenu(buf: BufDescr, ascii: bool, image: bool)
    requires buf.Valid() && buf.data.Length == BUFSIZ && buf.offset <= 16
    modifies buf`offset, buf.data
    ensures buf.Valid() && buf.offset <= old(buf.offset) + 6
    ensures buf.Bytes() == old(buf.Bytes()) + ExEncode(Menu(ascii, image), 6)
  {
    ghost var s: set<nat> := {};
    buf.ExInit(6);
    buf.ExSetBit(DATATYPE, s, 6);
    s := s + {DATATYPE};
    if ascii {
      buf.ExSetBit(RFM, s, 6);
      s := s + {RFM};
    }
    if image {
      buf.ExSetBit(MRS, s, 6);
      s := s + {MRS};
    }
    buf.ExSetBit(ALQ, s, 6);
    buf.ExSetBit(EBK, s + {ALQ}, 6);
    buf.ExSetBit(FFB, s + {ALQ} + {EBK}, 6);
    s := s + {ALQ} + {EBK} + {FFB};
    assert s == Menu(ascii, image);
    buf.ExDone(s, 6);
  }

  method PutTypes(buf: BufDescr, ascii: bool, image: bool)
    requires buf.Valid() && buf.data.Length == BUFSIZ && buf.offset <= 32
    modifies buf`offset, buf.data
    ensures buf.Valid() && buf.offset <= old(buf.offset) + 2
    ensures buf.Bytes() == old(buf.Bytes()) + TypeBytes(ascii, image)
  {
    ghost var s: set<nat> := {};
    buf.ExInit(2);
    if ascii {
      buf.ExSetBit(ASCII, s, 2);
      s := s + {ASCII};
    }
    if image {
      buf.ExSetBit(IMAGE, s, 2);
      s := s + {IMAGE};
    }
    assert s == Types(ascii, image);
    buf.ExDone(s, 2);
  }

  method PutSizes(buf: BufDescr, blocks: nat, size: nat)
    requires buf.Valid() && buf.data.Length == BUFSIZ && buf.offset <= 64
    modifies buf`offset, buf.data
    ensures buf.Valid()
    ensures buf.Bytes() == old(buf.Bytes()) + Sizes(blocks, size)
  {
    buf.Int2I(5, blocks);
    buf.Int2I(5, (size + 511) / 512);
    buf.TwoBPut(size % 512);
  }

  /** Announces an opened file to the peer. */
  method SendOpened(d: Dap, ascii: bool, image: bool, blocks: nat, size: nat)
    requires d.Valid() && |d.Held()| < BUFCNT
    modifies d, d.descr, set x | x in d.descr :: x.data
    ensures d.Valid() && d.Held() == old(d.Held())
    ensures d.Written() == old(d.Written()) + [Message(
        Plain(ATTRIBUTES, if d.remLen != 0 then OneByte else NoLength), Opened(ascii, image, blocks, size))]
  {
    var buf := BuildOpened(d, ascii, image, blocks, size);
    var _ := d.Write(buf, Message(
      Plain(ATTRIBUTES, if d.remLen != 0 then OneByte else NoLength), Opened(ascii, image, blocks, size)));
  }

  method BuildOpened(d: Dap, ascii: bool, image: bool, blocks: nat, size: nat) returns (buf: BufDescr)
    requires d.Valid() && |d.Held()| < BUFCNT
    modifies d, d.descr, set x | x in d.descr :: x.data
    ensures d.Valid() && buf !in old(d.Held()) && d.Held() == old(d.Held()) + {buf}
    ensures d.Written() == old(d.Written())
    ensures Filled(buf, Message(
        Plain(ATTRIBUTES, if d.remLen != 0 then OneByte else NoLength), Opened(ascii, image, blocks, size)))
  {
    buf := d.BuildHeader1Len(ATTRIBUTES);
    ghost var h := Plain(ATTRIBUTES, if d.remLen != 0 then OneByte else NoLength);
    FillHeld(d, buf, h, ascii, image, blocks, size);
  }

  /** Fills a started message that the caller holds; the pool does not notice. */
  method FillHeld(d: Dap, buf: BufDescr, ghost h: Header, ascii: bool, image: bool, blocks: nat, size: nat)
    requires d.Valid() && buf in d.Held()
    requires Started(buf, h) && h.streamId.None? && h.bitCount.None? && h.sysSpec.None?
    modifies buf`offset, buf.data
    ensures d.Valid() && d.Held() == old(d.Held()) && d.Written() == old(d.Written())
    ensures Filled(buf, Message(h, Opened(ascii, image, blocks, size)))
  {
    d.OwnStorage(buf);
    label L:
    FillOpened(buf, h, ascii, image, blocks, size);
    d.HeldOnly@L(buf);
  }

  method FillOpened(buf: BufDescr, ghost h: Header, ascii: bool, image: bool, blocks: nat, size: nat)
    requires Started(buf, h) && buf.data.Length == BUFSIZ && h.streamId.None? && h.bitCount.None? && h.sysSpec.None?
    modifies buf`offset, buf.data
    ensures Filled(buf, Message(h, Opened(ascii, image, blocks, size)))
  {
    PlainSize(buf, h);
    PutOpened(buf, ascii, image, blocks, size);
  }

  lemma PlainSize(buf: BufDescr, h: Header)
    requires Started(buf, h) && h.streamId.None? && h.bitCount.None? && h.sysSpec.None?
    ensures buf.offset == |HeaderBytes(h, 0)| <= 4
  {
  }

  /** The bytes f stand at position p. */
  ghost predicate At(buf: seq<byte>, p: nat, f: seq<byte>) {
    p + |f| <= |buf| && buf[p..p + |f|] == f
  }

  /** place says where in the input buffer each field stands. */
  ghost predicate Placed(buf: seq<byte>, place: map<nat, nat>, fields: map<nat, seq<byte>>) {
    place.Keys == fields.Keys && forall b :: b in fields ==> At(buf, place[b], fields[b])
  }

  /** Takes one field off the current message. */
  method TakeRaw(r: DapReader, kind: Kind) returns (ok: bool, at: nat, ghost f: seq<byte>)
    requires r.InMessage()
    modifies r`inptr
    ensures r.InMessage()
    ensures ok <==> FieldSize(kind, old(r.Left())).Some?
    ensures ok ==> var n := FieldSize(kind, old(r.Left())).value;
      f == old(r.Left())[..n] && r.Left() == old(r.Left())[n..] && At(r.inbuf[..], at, f)
  {
    at := r.inptr;
    ok := StepOver(r, kind);
    f := [];
    if ok {
      f := r.inbuf[at..r.inptr];
      SubSlice(r.inbuf[..], at, r.msgend, 0, r.inptr - at);
      Suffix(r.inbuf[..], at, r.msgend, r.inptr - at);
    }
  }

  /** Moves the cursor past one field. */
  method StepOver(r: DapReader, kind: Kind) returns (ok: bool)
    requires r.InMessage()
    modifies r`inptr
    ensures r.InMessage()
    ensures ok <==> FieldSize(kind, old(r.Left())).Some?
    ensures ok ==> r.inptr == old(r.inptr) + FieldSize(kind, old(r.Left())).value
  {
    match kind {
      case Extensible(max) =>
        var at;
        ok, at := r.ExValid(max as nat);
      case OneByteField =>
        var v;
        ok, v := r.BGet();
      case TwoByteField =>
        var v;
        ok, v := r.TwoBGet();
      case ImageField(max) =>
        var at;
        ok, at := r.IGet(max);
    }
  }

  /** Fields already taken, joined to those a parse still finds. */
  function Merge(fields: map<nat, seq<byte>>, p: Option<(map<nat, seq<byte>>, seq<byte>)>)
    : Option<(map<nat, seq<byte>>, seq<byte>)>
  {
    if p.None? then None else Some((p.value.0 + fields, p.value.1))
  }

  lemma {:induction false} MergeStep(fields: map<nat, seq<byte>>, menu: seq<byte>, bit: nat, t: seq<byte>)
    requires IsField(menu) && bit < FIELDS && ExGet(menu, bit)
    requires forall b :: b in fields ==> b < bit
    ensures var size := FieldSize(KindOf(bit), t);
      Merge(fields, ParseFrom(menu, bit, t))
        == if size.None? then None
           else Merge(fields[bit := t[..size.value]], ParseFrom(menu, bit + 1, t[size.value..]))
  {
    var size := FieldSize(KindOf(bit), t);
    if size.Some? {
      var p := ParseFrom(menu, bit + 1, t[size.value..]);
      if p.Some? {
        var f := t[..size.value];
        assert p.value.0[bit := f] + fields == p.value.0 + fields[bit := f];
      }
    }
  }

  /** Takes every field the menu at position at announces, in menu order. */
  method TakeFields(r: DapReader, at: nat, ghost n: nat)
      returns (ok: bool, place: map<nat, nat>, ghost fields: map<nat, seq<byte>>)
    requires r.InMessage() && at + n <= r.inbuf.Length && IsField(r.inbuf[at..at + n])
    modifies r`inptr
    ensures r.InMessage() && (ok ==> Placed(r.inbuf[..], place, fields))
    ensures var p := ParseFrom(old(r.inbuf[at..at + n]), 0, old(r.Left()));
      ok == p.Some? && (ok ==> p.value == (fields, r.Left()))
  {
    ghost var menu, t := r.inbuf[at..at + n], r.Left();
    place, fields, ok := map[], map[], true;
    MergeEnds(fields, ParseFrom(menu, 0, t));
    var bit := 0;
    while bit < FIELDS
      invariant 0 <= bit <= FIELDS && r.InMessage() && Placed(r.inbuf[..], place, fields)
      invariant forall b :: b in fields ==> b < bit
      invariant ParseFrom(menu, 0, t) == Merge(fields, ParseFrom(menu, bit, r.Left()))
    {
      ok, place, fields := TakeIfPresent(r, at, n, bit, place, fields);
      if !ok {
        return;
      }
      bit := bit + 1;
    }
    MergeEnds(fields, Some((map[], r.Left())));
  }

  /** Takes the field of one menu bit, if the menu announces it. */
  method TakeIfPresent(r: DapReader, at: nat, ghost n: nat, bit: nat, place: map<nat, nat>,
                       ghost fields: map<nat, seq<byte>>)
      returns (ok: bool, morePlace: map<nat, nat>, ghost more: map<nat, seq<byte>>)
    requires r.InMessage() && at + n <= r.inbuf.Length && IsField(r.inbuf[at..at + n])
    requires bit < FIELDS && Placed(r.inbuf[..], place, fields) && forall b :: b in fields ==> b < bit
    modifies r`inptr
    ensures r.InMessage() && (ok ==> Placed(r.inbuf[..], morePlace, more))
    ensures forall b :: b in more ==> b < bit + 1
    ensures Merge(fields, ParseFrom(old(r.inbuf[at..at + n]), bit, old(r.Left())))
         == if ok then Merge(more, ParseFrom(old(r.inbuf[at..at + n]), bit + 1, r.Left())) else None
  {
    ok, morePlace, more := true, place, fields;
    var present := r.ExGetBit(at, n, bit);
    if present {
      MergeStep(fields, r.inbuf[at..at + n], bit, r.Left());
      var p;
      ghost var f;
      ok, p, f := TakeRaw(r, KindOf(bit));
      if ok {
        morePlace, more := place[bit := p], fields[bit := f];
      }
    }
  }

  lemma MergeEnds(fields: map<nat, seq<byte>>, p: Option<(map<nat, seq<byte>>, seq<byte>)>)
    ensures fields == map[] ==> Merge(fields, p) == p
    ensures p.Some? && p.value.0 == map[] ==> Merge(fields, p) == Some((fields, p.value.1))
  {
    if p.Some? {
      assert p.value.0 + map[] == p.value.0;
      assert map[] + fields == fields;
    }
  }

  /** Takes a whole Attributes message: the menu and every field it announces. */
  method TakeMessage(r: DapReader) returns (ok: bool, place: map<nat, nat>, ghost fields: map<nat, seq<byte>>)
    requires r.InMessage()
    modifies r`inptr
    ensures r.InMessage() && (ok ==> Placed(r.inbuf[..], place, fields))
    ensures var p := Parse(old(r.Left()));
      ok == p.Some? && (ok ==> p.value == (fields, r.Left()))
  {
    ghost var t := r.Left();
    place, fields := map[], map[];
    var at;
    ok, at := r.ExValid(6);
    if ok {
      ghost var n := r.inptr - at;
      ExSizeField(t, 6);
      SubSlice(r.inbuf[..], at, r.msgend, 0, n);
      Suffix(r.inbuf[..], at, r.msgend, n);
      ok, place, fields := TakeFields(r, at, n);
    }
  }

  // ---- What is kept of the fields ----

  /** The field of a menu bit, when it was sent, stands in the buffer and has its shape. */
  ghost predicate Here(buf: seq<byte>, place: map<nat, nat>, fields: map<nat, seq<byte>>, bit: nat) {
    && (bit in place <==> bit in fields)
    && (bit in fields ==>
          && bit < FIELDS && At(buf, place[bit], fields[bit]) && Shaped(KindOf(bit), fields[bit])
          && (KindOf(bit).Extensible? ==> IsField(fields[bit])))
  }

  lemma AllHere(buf: seq<byte>, place: map<nat, nat>, fields: map<nat, seq<byte>>)
    requires Placed(buf, place, fields) && AllShaped(fields)
    ensures forall bit: nat :: Here(buf, place, fields, bit)
  {
  }

  method CopyOr(r: DapReader, place: map<nat, nat>, ghost fields: map<nat, seq<byte>>, bit: nat, size: nat,
                before: seq<byte>)
      returns (v: seq<byte>)
    requires bit < FIELDS && KindOf(bit).Extensible? && size > 0 && Here(r.inbuf[..], place, fields, bit)
    ensures v == FieldOr(fields, bit, size, before)
  {
    v := before;
    if bit in place {
      v := r.ExCopy(place[bit], |fields[bit]|, size);
      if |v| <= |before| {
        v := v + before[|v|..];
      } else {
        v := v + [];
      }
    }
  }

  method ImageOr(r: DapReader, place: map<nat, nat>, ghost fields: map<nat, seq<byte>>, bit: nat,
                 before: Option<nat>)
      returns (v: Option<nat>)
    requires bit < FIELDS && KindOf(bit).ImageField? && Here(r.inbuf[..], place, fields, bit)
    ensures bit in fields ==> |fields[bit]| >= 1
    ensures v == IntOr(fields, bit, before)
  {
    v := before;
    if bit in place {
      ghost var p, f := place[bit], fields[bit];
      assert f[0] == r.inbuf[p] && f[1..] == r.inbuf[p + 1..p + |f|];
      v := r.I2Int(place[bit]);
    }
  }

  method OneByteOr(r: DapReader, place: map<nat, nat>, ghost fields: map<nat, seq<byte>>, bit: nat, before: byte)
      returns (v: byte)
    requires bit < FIELDS && KindOf(bit).OneByteField? && Here(r.inbuf[..], place, fields, bit)
    ensures bit in fields ==> |fields[bit]| >= 1
    ensures v == ByteOr(fields, bit, before)
  {
    v := before;
    if bit in place {
      assert fields[bit][0] == r.inbuf[place[bit]];
      v := r.inbuf[place[bit]];
    }
  }

  method TwoBytesOr(r: DapReader, place: map<nat, nat>, ghost fields: map<nat, seq<byte>>, bit: nat, before: nat)
      returns (v: nat)
    requires bit < FIELDS && KindOf(bit).TwoByteField? && Here(r.inbuf[..], place, fields, bit)
    ensures v == WordOr(fields, bit, before)
  {
    v := before;
    if bit in place {
      ghost var p, f := place[bit], fields[bit];
      assert f[0] == r.inbuf[p] && f[1] == r.inbuf[p + 1];
      LeOfTwo(f);
      v := r.inbuf[place[bit]] as nat + 256 * r.inbuf[place[bit] + 1] as nat;
    }
  }

  /** Whether a data type that was sent is one of those supported. */
  method TypeTaken(r: DapReader, place: map<nat, nat>, ghost fields: map<nat, seq<byte>>) returns (ok: bool)
    requires Here(r.inbuf[..], place, fields, DATATYPE)
    ensures DATATYPE in fields ==> IsField(fields[DATATYPE]) && |fields[DATATYPE]| <= 2
    ensures ok <==> (DATATYPE in fields ==> Supported(ExInt(fields[DATATYPE])))
  {
    ok := true;
    if DATATYPE in place {
      ghost var p, f := place[DATATYPE], fields[DATATYPE];
      ExIntegerExact(f);
      var v := r.Ex2Int(place[DATATYPE], |f|);
      assert v == Some(ExInt(f));
      ok := v.value != 0 ==> v.value - And(v.value, 3) == 0 && And(v.value, 3) != 3;
    }
  }

  lemma MessageShapes(t: seq<byte>)
    ensures Parse(t).Some? ==> AllShaped(Parse(t).value.0)
  {
    var n := ExSize(t, 6);
    if n.Some? {
      ExSizeField(t, 6);
      ParsedShapes(t[..n.value], 0, t[n.value..]);
    }
  }

  class Fal {
    var rem: Remote

    constructor (rem: Remote)
      ensures this.rem == rem
    {
      this.rem := rem;
    }

    /** Takes in an Attributes message; false when it is malformed. */
    method ProcessAttributesMessage(r: DapReader) returns (ok: bool)
      requires r.InMessage()
      modifies this, r`inptr
      ensures r.InMessage()
      ensures ok == Parse(old(r.Left())).Some?
      ensures ok ==>
        && Parse(old(r.Left())).value.1 == r.Left()
        && AllShaped(Parse(old(r.Left())).value.0)
        && rem == Updated(old(rem), Parse(old(r.Left())).value.0)
      ensures !ok ==> rem == old(rem)
    {
      MessageShapes(r.Left());
      var place;
      ghost var fields;
      ok, place, fields := TakeMessage(r);
      if ok {
        AllHere(r.inbuf[..], place, fields);
        var taken := TypeTaken(r, place, fields);
        if taken {
          Update(r, place, fields);
        }
      }
    }

    /** Keeps the fields that were sent. */
    method Update(r: DapReader, place: map<nat, nat>, ghost fields: map<nat, seq<byte>>)
      requires AllShaped(fields) && forall bit: nat :: Here(r.inbuf[..], place, fields, bit)
      modifies this
      ensures rem == Applied(old(rem), fields)
    {
      rem := UpToSize(rem, r, place, fields);
      rem := UpToOptions(rem, r, place, fields);
      rem := UpToEnd(rem, r, place, fields);
    }
  }

  method UpToSize(m: Remote, r: DapReader, place: map<nat, nat>, ghost fields: map<nat, seq<byte>>) returns (t: Remote)
    requires AllShaped(fields) && forall bit: nat :: Here(r.inbuf[..], place, fields, bit)
    ensures t == m.(dataType := FieldOr(fields, DATATYPE, 2, m.dataType), org := ByteOr(fields, ORG, m.org),
                    rfm := ByteOr(fields, RFM, m.rfm), rat := FieldOr(fields, RAT, 3, m.rat),
                    bls := WordOr(fields, BLS, m.bls),
                    mrs := if MRS in fields then Le(fields[MRS]) % 256 else m.mrs)
  {
    var dataType := CopyOr(r, place, fields, DATATYPE, 2, m.dataType);
    var org := OneByteOr(r, place, fields, ORG, m.org);
    var rfm := OneByteOr(r, place, fields, RFM, m.rfm);
    var rat := CopyOr(r, place, fields, RAT, 3, m.rat);
    var bls := TwoBytesOr(r, place, fields, BLS, m.bls);
    var mrs := TwoBytesOr(r, place, fields, MRS, m.mrs as nat);
    t := m.(dataType := dataType, org := org, rfm := rfm, rat := rat, bls := bls, mrs := mrs % 256);
  }

  method UpToOptions(m: Remote, r: DapReader, place: map<nat, nat>, ghost fields: map<nat, seq<byte>>) returns (t: Remote)
    requires AllShaped(fields) && forall bit: nat :: Here(r.inbuf[..], place, fields, bit)
    ensures t == m.(alq := IntOr(fields, ALQ, m.alq), bks := ByteOr(fields, BKS, m.bks),
                    fsz := ByteOr(fields, FSZ, m.fsz), mrn := IntOr(fields, MRN, m.mrn),
                    deq := WordOr(fields, DEQ, m.deq), fop := FieldOr(fields, FOP, 6, m.fop),
                    bsz := ByteOr(fields, BSZ, m.bsz))
  {
    var alq := ImageOr(r, place, fields, ALQ, m.alq);
    var bks := OneByteOr(r, place, fields, BKS, m.bks);
    var fsz := OneByteOr(r, place, fields, FSZ, m.fsz);
    var mrn := ImageOr(r, place, fields, MRN, m.mrn);
    var deq := TwoBytesOr(r, place, fields, DEQ, m.deq);
    var fop := CopyOr(r, place, fields, FOP, 6, m.fop);
    var bsz := OneByteOr(r, place, fields, BSZ, m.bsz);
    t := m.(alq := alq, bks := bks, fsz := fsz, mrn := mrn, deq := deq, fop := fop, bsz := bsz);
  }

  method UpToEnd(m: Remote, r: DapReader, place: map<nat, nat>, ghost fields: map<nat, seq<byte>>) returns (t: Remote)
    requires AllShaped(fields) && forall bit: nat :: Here(r.inbuf[..], place, fields, bit)
    ensures t == m.(dev := FieldOr(fields, DEV, 6, m.dev), sdc := FieldOr(fields, SDC, 6, m.sdc),
                    lrl := WordOr(fields, LRL, m.lrl), hbk := IntOr(fields, HBK, m.hbk),
                    ebk := IntOr(fields, EBK, m.ebk), ffb := WordOr(fields, FFB, m.ffb),
                    sbn := IntOr(fields, SBN, m.sbn))
  {
    var dev := CopyOr(r, place, fields, DEV, 6, m.dev);
    var sdc := CopyOr(r, place, fields, SDC, 6, m.sdc);
    var lrl := TwoBytesOr(r, place, fields, LRL, m.lrl);
    var hbk := ImageOr(r, place, fields, HBK, m.hbk);
    var ebk := ImageOr(r, place, fields, EBK, m.ebk);
    var ffb := TwoBytesOr(r, place, fields, FFB, m.ffb);
    var sbn := ImageOr(r, place, fields, SBN, m.sbn);
    t := m.(dev := dev, sdc := sdc, lrl := lrl, hbk := hbk, ebk := ebk, ffb := ffb, sbn := sbn);
  }
}
