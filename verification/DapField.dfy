/** Extensible (EX-n) and image fields of DAP messages.

    An EX-n field is a bit set: seven members a byte, with the top bit of every
    byte but the last set. An image field is a length byte and that many bytes;
    an integer in it is little-endian. */
module DapField {
  import opened Bits
  import opened Wrappers

  const EXTEND := 7

  // ---- Extensible fields ----

  /** Some member lies beyond byte i. */
  predicate More(s: set<nat>, i: nat) {
    exists b :: b in s && b / 7 > i
  }

  function LowBits(s: set<nat>, i: nat, k: nat): (r: nat)
    ensures r < Pow2(k)
  {
    if k == 0 then 0
    else LowBits(s, i, k - 1) + (if 7 * i + k - 1 in s then Pow2(k - 1) else 0)
  }

  /** Byte i of the field that denotes s. */
  function ExByte(s: set<nat>, i: nat): byte {
    assert Pow2(7) == 128;
    LowBits(s, i, 7) + (if More(s, i) then 128 else 0)
  }

  ghost predicate Below(s: set<nat>, n: nat) {
    forall b :: b in s ==> b < 7 * n
  }

  function ExFrom(s: set<nat>, i: nat, n: nat): (f: seq<byte>)
    requires Below(s, n) && i < n
    ensures 1 <= |f| <= n - i
    decreases n - i
  {
    [ExByte(s, i)] + (if More(s, i) then ExFrom(s, i + 1, n) else [])
  }

  /** The shortest EX-n field that denotes s. */
  function ExEncode(s: set<nat>, n: nat): (f: seq<byte>)
    requires Below(s, n) && n > 0
    ensures 1 <= |f| <= n
  {
    ExFrom(s, 0, n)
  }

  lemma {:induction false} LowBitsBit(s: set<nat>, i: nat, k: nat, j: nat)
    ensures Bit(LowBits(s, i, k), j) <==> j < k && 7 * i + j in s
  {
    if k == 0 {
      ZeroHasNoBit(j);
    } else {
      LowBitsBit(s, i, k - 1, j);
      AddBit(LowBits(s, i, k - 1), k - 1, j);
    }
  }

  lemma ExByteBit(s: set<nat>, i: nat, j: nat)
    ensures j < 7 ==> (Bit(ExByte(s, i), j) <==> 7 * i + j in s)
    ensures Bit(ExByte(s, i), EXTEND) <==> More(s, i)
  {
    assert Pow2(7) == 128;
    LowBitsBit(s, i, 7, j);
    LowBitsBit(s, i, 7, 7);
    AddBit(LowBits(s, i, 7), 7, j);
    AddBit(LowBits(s, i, 7), 7, 7);
  }

  /** Or-ing one digit into a byte of the field, seen digit by digit. */
  lemma OrIntoByte(x: byte, y: byte, k: nat)
    requires k < 8
    requires forall j :: 0 <= j < 8 ==> (Bit(y, j) <==> Bit(x, j) || j == k)
    ensures Or(x, Pow2(k)) == y
  {
    assert Pow2(8) == 256;
    Pow2Monotone(k + 1, 8);
    OrBound(x, Pow2(k), 8);
    forall j | 0 <= j < 8
      ensures Bit(Or(x, Pow2(k)), j) <==> Bit(y, j)
    {
      OrBit(x, Pow2(k), j);
      Pow2Bit(k, j);
    }
    SameBits(Or(x, Pow2(k)), y, 8);
  }

  /** What adding a member does to the bytes of a field: its own byte gains the
      member's bit, earlier bytes gain the extension bit, later ones stay. */
  lemma ExByteAdd(s: set<nat>, bit: nat, i: nat)
    ensures i < bit / 7 ==> Or(ExByte(s, i), 0x80) == ExByte(s + {bit}, i)
    ensures i == bit / 7 ==> Or(ExByte(s, i), Pow2(bit % 7)) == ExByte(s + {bit}, i)
    ensures i > bit / 7 ==> ExByte(s, i) == ExByte(s + {bit}, i)
  {
    var t := s + {bit};
    assert Pow2(7) == 0x80 && Pow2(8) == 256;
    assert More(t, i) <==> More(s, i) || bit / 7 > i by {
      if bit / 7 > i { assert bit in t; }
      if More(s, i) { var b :| b in s && b / 7 > i; assert b in t; }
    }
    var k := if i < bit / 7 then 7 else bit % 7;
    forall j | 0 <= j < 8
      ensures Bit(ExByte(t, i), j) <==> Bit(ExByte(s, i), j) || (i <= bit / 7 && j == k)
    {
      ExByteBit(s, i, j);
      ExByteBit(t, i, j);
      assert j < 7 ==> (7 * i + j == bit <==> i == bit / 7 && j == bit % 7);
    }
    if i <= bit / 7 {
      OrIntoByte(ExByte(s, i), ExByte(t, i), k);
    } else {
      SameBits(ExByte(s, i), ExByte(t, i), 8);
    }
  }

  /** The number of bytes the field at the start of t takes, if it ends in time. */
  function ExSize(t: seq<byte>, maxlen: nat): (r: Option<nat>)
    ensures r.Some? ==> 1 <= r.value <= |t| && r.value <= maxlen
  {
    if |t| < 1 || maxlen == 0 then None
    else if !Bit(t[0], EXTEND) then Some(1)
    else
      var n :- ExSize(t[1..], maxlen - 1);
      Some(n + 1)
  }

  /** Exactly the last byte has its extension bit clear. */
  ghost predicate IsField(f: seq<byte>) {
    f != [] && forall i :: 0 <= i < |f| ==> (Bit(f[i], EXTEND) <==> i < |f| - 1)
  }

  /** Membership as the source tests it: walk along the extension bits. */
  function ExGet(f: seq<byte>, bit: nat): bool
    requires IsField(f)
    decreases |f|
  {
    if bit < 7 then Bit(f[0], bit)
    else Bit(f[0], EXTEND) && (FieldTail(f); ExGet(f[1..], bit - 7))
  }

  lemma FieldTail(f: seq<byte>)
    requires IsField(f) && Bit(f[0], EXTEND)
    ensures IsField(f[1..])
  {
    forall i | 0 <= i < |f[1..]|
      ensures Bit(f[1..][i], EXTEND) <==> i < |f[1..]| - 1
    {
      assert f[1..][i] == f[i + 1];
    }
  }

  /** What ExSize delimits is a field, and everything after it is left alone. */
  lemma {:induction false} ExSizeField(t: seq<byte>, maxlen: nat)
    requires ExSize(t, maxlen).Some?
    ensures IsField(t[..ExSize(t, maxlen).value])
  {
    var n := ExSize(t, maxlen).value;
    if !Bit(t[0], EXTEND) {
    } else {
      ExSizeField(t[1..], maxlen - 1);
      assert t[1..][..n - 1] == t[1..n];
      forall i | 0 <= i < n
        ensures Bit(t[..n][i], EXTEND) <==> i < n - 1
      {
        if i > 0 { assert t[..n][i] == t[1..][..n - 1][i - 1]; }
      }
    }
  }

  /** A well-formed field is consumed exactly, whatever follows it. */
  lemma {:induction false} ExSizeOfField(f: seq<byte>, rest: seq<byte>, maxlen: nat)
    requires IsField(f) && |f| <= maxlen
    ensures ExSize(f + rest, maxlen) == Some(|f|)
  {
    assert (f + rest)[0] == f[0];
    if !Bit(f[0], EXTEND) {
    } else {
      FieldTail(f);
      assert (f + rest)[1..] == f[1..] + rest;
      ExSizeOfField(f[1..], rest, maxlen - 1);
    }
  }

  lemma {:induction false} ExFromIsField(s: set<nat>, i: nat, n: nat)
    requires Below(s, n) && i < n
    ensures IsField(ExFrom(s, i, n))
    decreases n - i
  {
    ExByteBit(s, i, 0);
    var f := ExFrom(s, i, n);
    if !More(s, i) {
    } else {
      ExFromIsField(s, i + 1, n);
      var t := ExFrom(s, i + 1, n);
      forall j | 0 <= j < |f| ensures Bit(f[j], EXTEND) <==> j < |f| - 1 {
        if j > 0 { assert f[j] == t[j - 1]; }
      }
    }
  }

  /** The encoding of s contains exactly the members of s, at every bit number. */
  lemma {:induction false} ExFromMember(s: set<nat>, i: nat, n: nat, bit: nat)
    requires Below(s, n) && i < n
    ensures IsField(ExFrom(s, i, n))
    ensures ExGet(ExFrom(s, i, n), bit) <==> 7 * i + bit in s
    decreases n - i
  {
    ExFromIsField(s, i, n);
    ExByteBit(s, i, if bit < 7 then bit else 0);
    if bit < 7 {
    } else {
      if More(s, i) {
        ExFromMember(s, i + 1, n, bit - 7);
        assert ExFrom(s, i, n)[1..] == ExFrom(s, i + 1, n);
      } else {
        assert (7 * i + bit) / 7 > i;
      }
    }
  }

  lemma ExEncodeMember(s: set<nat>, n: nat, bit: nat)
    requires Below(s, n) && n > 0
    ensures IsField(ExEncode(s, n)) && (ExGet(ExEncode(s, n), bit) <==> bit in s)
  {
    ExFromMember(s, 0, n, bit);
  }

  /** The encoding runs to the first byte without a member beyond it. */
  lemma {:induction false} ExFromBytes(s: set<nat>, i: nat, n: nat, last: nat)
    requires Below(s, n) && i <= last < n
    requires !More(s, last) && forall k :: i <= k < last ==> More(s, k)
    ensures |ExFrom(s, i, n)| == last - i + 1
    ensures forall j :: 0 <= j <= last - i ==> ExFrom(s, i, n)[j] == ExByte(s, i + j)
    decreases last - i
  {
    if i >= last {
    } else {
      ExFromBytes(s, i + 1, n, last);
      var f, t := ExFrom(s, i, n), ExFrom(s, i + 1, n);
      assert f == [ExByte(s, i)] + t;
      forall j | 0 <= j <= last - i ensures f[j] == ExByte(s, i + j) {
        if j > 0 { assert f[j] == t[j - 1] == ExByte(s, i + 1 + (j - 1)); }
      }
    }
  }

  lemma ExEncodeBytes(s: set<nat>, n: nat, last: nat)
    requires Below(s, n) && last < n
    requires !More(s, last) && forall k :: 0 <= k < last ==> More(s, k)
    ensures |ExEncode(s, n)| == last + 1
    ensures forall k :: 0 <= k <= last ==> ExEncode(s, n)[k] == ExByte(s, k)
  {
    ExFromBytes(s, 0, n, last);
  }

  /** A copy of at most len bytes, always terminated. */
  function ExTruncate(f: seq<byte>, len: nat): (g: seq<byte>)
    requires IsField(f) && len > 0
    ensures |g| == if |f| < len then |f| else len
  {
    if |f| <= len then f
    else f[..len - 1] + [And(f[len - 1], 0x7F)]
  }

  lemma ClearExtend(b: byte, j: nat)
    ensures Bit(And(b, 0x7F), j) <==> Bit(b, j) && j < 7
  {
    assert Pow2(7) == 128;
    AndMask(b, 7);
    AndBit(b, 0x7F, j);
    if j < 7 {
      SevenOnes(j);
    } else {
      HighBits(0x7F, 7, j);
    }
  }

  lemma SevenOnes(j: nat)
    requires j < 7
    ensures Bit(0x7F, j)
  {
    assert Bit(0x7F, 0) && Bit(0x3F, 0) && Bit(0x1F, 0) && Bit(0xF, 0) && Bit(7, 0) && Bit(3, 0) && Bit(1, 0);
    if j > 0 { assert Bit(0x7F, j) == Bit(0x3F, j - 1); }
    if j > 1 { assert Bit(0x3F, j - 1) == Bit(0x1F, j - 2); }
    if j > 2 { assert Bit(0x1F, j - 2) == Bit(0xF, j - 3); }
    if j > 3 { assert Bit(0xF, j - 3) == Bit(7, j - 4); }
    if j > 4 { assert Bit(7, j - 4) == Bit(3, j - 5); }
    if j > 5 { assert Bit(3, j - 5) == Bit(1, j - 6); }
  }

  /** A copy is a field; it keeps the members below 7 * len and drops the rest. */
  lemma {:induction false} ExTruncateMember(f: seq<byte>, len: nat, bit: nat)
    requires IsField(f) && len > 0
    ensures IsField(ExTruncate(f, len))
    ensures ExGet(ExTruncate(f, len), bit) <==> bit < 7 * len && ExGet(f, bit)
    decreases len
  {
    var g := ExTruncate(f, len);
    if |f| <= len {
      if bit >= 7 * len { PastTheEnd(f, bit); }
    } else {
      ClearExtend(f[len - 1], EXTEND);
      assert IsField(g);
      if len == 1 {
        ClearExtend(f[0], bit);
      } else if bit >= 7 {
        FieldTail(f);
        FieldTail(g);
        assert g[1..] == ExTruncate(f[1..], len - 1);
        ExTruncateMember(f[1..], len - 1, bit - 7);
      }
    }
  }

  lemma {:induction false} PastTheEnd(f: seq<byte>, bit: nat)
    requires IsField(f) && bit >= 7 * |f|
    ensures !ExGet(f, bit)
    decreases |f|
  {
    if !Bit(f[0], EXTEND) {
    } else {
      FieldTail(f);
      PastTheEnd(f[1..], bit - 7);
    }
  }

  // ---- Integers ----

  /** v << k in a 32-bit int: None where C leaves the result undefined. */
  function ShiftInt(v: nat, k: nat): Option<nat> {
    if k < 32 && v * Pow2(k) < 0x8000_0000 then Some(v * Pow2(k)) else None
  }

  /** The little-endian number that f spells. */
  function Le(f: seq<byte>): nat {
    if f == [] then 0 else f[0] as int + 256 * Le(f[1..])
  }

  /** The number as the source accumulates it: each byte shifted in an int and
      or-ed into the result; None when some shift is undefined. */
  function ImageFrom(f: seq<byte>, i: nat, result: nat): Option<nat>
    requires i <= |f|
    decreases |f| - i
  {
    if i == |f| then Some(result)
    else
      var v :- ShiftInt(f[i], 8 * i);
      ImageFrom(f, i + 1, Or(result, v))
  }

  function ImageInt(f: seq<byte>): Option<nat> {
    ImageFrom(f, 0, 0)
  }

  /** An extensible field as an integer, as the source accumulates it: seven digits of
      each byte, shifted in an int; None when some shift is undefined. */
  function ExIntFrom(f: seq<byte>, i: nat, result: nat): Option<nat>
    requires i <= |f|
    decreases |f| - i
  {
    if i == |f| then Some(result)
    else
      var v :- ShiftInt(And(f[i], 0x7F), 7 * i);
      ExIntFrom(f, i + 1, Or(result, v))
  }

  function ExInteger(f: seq<byte>): Option<nat> {
    ExIntFrom(f, 0, 0)
  }

  predicate Shiftable(f: seq<byte>, i: nat)
    requires i < |f|
  {
    ShiftInt(And(f[i], 0x7F), 7 * i).Some?
  }

  lemma {:induction false} ExDefined(f: seq<byte>, i: nat, result: nat)
    requires i <= |f|
    ensures ExIntFrom(f, i, result).Some? <==> forall j :: i <= j < |f| ==> Shiftable(f, j)
    decreases |f| - i
  {
    if i >= |f| {
    } else {
      assert Shiftable(f, i) <==> ShiftInt(And(f[i], 0x7F), 7 * i).Some?;
      if Shiftable(f, i) {
        ExDefined(f, i + 1, Or(result, ShiftInt(And(f[i], 0x7F), 7 * i).value));
      }
    }
  }

  /** Digit b of a field is digit b % 7 of byte b / 7. */
  lemma {:induction false} ExGetAt(f: seq<byte>, b: nat)
    requires IsField(f)
    ensures ExGet(f, b) <==> b / 7 < |f| && Bit(f[b / 7], b % 7)
    decreases |f|
  {
    if b < 7 || !Bit(f[0], EXTEND) {
    } else {
      FieldTail(f);
      ExGetAt(f[1..], b - 7);
      assert (b - 7) / 7 == b / 7 - 1 && (b - 7) % 7 == b % 7;
    }
  }

  /** Multiplying by a power of two moves the digits up. */
  lemma {:induction false} MovedBit(v: nat, k: nat, b: nat)
    ensures Bit(v * Pow2(k), b) <==> b >= k && Bit(v, b - k)
  {
    if k == 0 {
    } else {
      assert v * Pow2(k) == 2 * (v * Pow2(k - 1));
      if b > 0 { MovedBit(v, k - 1, b - 1); }
    }
  }

  lemma {:induction false} ExDigits(f: seq<byte>, i: nat, result: nat, b: nat)
    requires i <= |f| && ExIntFrom(f, i, result).Some?
    ensures Bit(ExIntFrom(f, i, result).value, b)
       <==> Bit(result, b) || (i <= b / 7 < |f| && Bit(f[b / 7], b % 7))
    decreases |f| - i
  {
    if i >= |f| {
    } else {
      var v := And(f[i], 0x7F);
      var next := Or(result, v * Pow2(7 * i));
      ExDigits(f, i + 1, next, b);
      OrBit(result, v * Pow2(7 * i), b);
      MovedBit(v, 7 * i, b);
      if b >= 7 * i {
        ClearExtend(f[i], b - 7 * i);
        if b / 7 == i { assert b - 7 * i == b % 7; }
      }
    }
  }

  /** Reading a field as an integer is defined exactly for fields of at most four bytes and
      those of five whose last is below 8; then the digits of the integer are the members
      of the field. */
  lemma ExIntegerExact(f: seq<byte>)
    requires IsField(f)
    ensures ExInteger(f).Some? <==> |f| <= 4 || (|f| == 5 && f[4] < 8)
    ensures ExInteger(f).Some? ==> forall b: nat :: Bit(ExInteger(f).value, b) <==> ExGet(f, b)
  {
    ExDefined(f, 0, 0);
    forall i | 0 <= i < |f| ensures Shiftable(f, i) <==> i < 4 || (i == 4 && And(f[i], 0x7F) < 8) {
      ShiftableByte(f, i);
    }
    if |f| >= 5 { assert Shiftable(f, 4) ==> And(f[4], 0x7F) < 8; }
    if |f| >= 6 { assert !Shiftable(f, 5); }
    LastByte(f);
    if ExInteger(f).Some? {
      forall b: nat ensures Bit(ExInteger(f).value, b) <==> ExGet(f, b) {
        ExDigits(f, 0, 0, b);
        ZeroHasNoBit(b);
        ExGetAt(f, b);
      }
    }
  }

  lemma ShiftableByte(f: seq<byte>, i: nat)
    requires i < |f|
    ensures Shiftable(f, i) <==> i < 4 || (i == 4 && And(f[i], 0x7F) < 8)
  {
    ShiftableDigits(And(f[i], 0x7F), i);
  }

  lemma ShiftableDigits(v: nat, i: nat)
    requires v <= 0x7F
    ensures ShiftInt(v, 7 * i).Some? <==> i < 4 || (i == 4 && v < 8)
  {
    SevenBits();
    if i < 4 {
      var p := Pow2(7 * i);
      assert p <= 0x20_0000 by {
        assert i == 0 || i == 1 || i == 2 || i == 3;
      }
      assert v * p <= 0x7F * p;
    } else if i == 4 {
      assert Pow2(28) == 0x1000_0000;
    }
  }

  lemma SevenBits()
    ensures Pow2(0) == 1 && Pow2(7) == 0x80 && Pow2(14) == 0x4000 && Pow2(21) == 0x20_0000 && Pow2(28) == 0x1000_0000
  {
    assert Pow2(7) == 0x80;
    Pow2Sum(7, 7);
    Pow2Sum(7, 14);
    Pow2Sum(14, 14);
  }

  /** The last byte of a field has no extension bit. */
  lemma LastByte(f: seq<byte>)
    requires IsField(f)
    ensures f[|f| - 1] < 0x80 && And(f[|f| - 1], 0x7F) == f[|f| - 1]
  {
    var b := f[|f| - 1];
    assert Pow2(7) == 0x80;
    AndMask(b, 7);
    AndPow2(b, 7);
    if b >= 0x80 {
      AddBit(b - 0x80, 7, 7);
    }
  }

  /** Base-256 digits, least significant first, at least one. */
  function LeBytes(v: nat): (f: seq<byte>)
    ensures |f| >= 1
  {
    [v % 256] + (if v / 256 == 0 then [] else LeBytes(v / 256))
  }

  /** An integer as an image field; zero when it needs more than maxlen bytes. */
  function IntImage(v: nat, maxlen: byte): (f: seq<byte>)
    ensures |f| >= 2 && f[0] as int == |f| - 1
  {
    if |LeBytes(v)| <= maxlen as int then [|LeBytes(v)|] + LeBytes(v) else [1, 0]
  }

  lemma {:induction false} LeOfLeBytes(v: nat)
    ensures Le(LeBytes(v)) == v
  {
    if v / 256 != 0 {
      LeOfLeBytes(v / 256);
      assert LeBytes(v)[1..] == LeBytes(v / 256);
    } else {
      assert LeBytes(v)[1..] == [] && Le([]) == 0;
    }
  }

  /** The digits are as few as possible. */
  lemma {:induction false} LeBytesSize(v: nat, n: nat)
    requires n > 0
    ensures |LeBytes(v)| <= n <==> v < Pow2(8 * n)
    decreases n
  {
    Pow2Sum(8, 8 * (n - 1));
    assert Pow2(8) == 256;
    var p := Pow2(8 * (n - 1));
    assert Pow2(8 * n) == 256 * p;
    if n == 1 {
      assert p == 1;
    } else {
      if v / 256 != 0 { LeBytesSize(v / 256, n - 1); }
    }
  }

  /** A byte survives the shift exactly when it stays below the sign bit. */
  lemma ShiftByte(b: byte, i: nat)
    ensures ShiftInt(b, 8 * i).Some? <==> i < 4 && (i == 3 ==> b < 128)
    ensures ShiftInt(b, 8 * i).Some? ==> ShiftInt(b, 8 * i).value == b * Pow2(8 * i)
  {
    ByteShifts();
    if i < 4 { assert i == 0 || i == 1 || i == 2 || i == 3; }
  }

  lemma AddDigit(result: nat, b: byte, p: nat, t: nat)
    requires result < p
    ensures result + b * p < 256 * p
    ensures result + b * p + (256 * p) * t == result + p * (b as int + 256 * t)
  {
    assert (b as int + 1) * p <= 256 * p;
    assert p * (256 * t) == (256 * p) * t;
  }

  /** Accumulating is exact while no shift leaves the 32-bit int, and undefined
      from the first byte that does. */
  lemma {:induction false} ImageFromExact(f: seq<byte>, i: nat, result: nat)
    requires i <= |f| && i <= 4 && result < Pow2(8 * i)
    ensures ImageFrom(f, i, result).Some?
       <==> i == |f| || (|f| <= 4 && (|f| == 4 ==> f[3] < 128))
    ensures ImageFrom(f, i, result).Some? ==>
              ImageFrom(f, i, result).value == result + Pow2(8 * i) * Le(f[i..])
    decreases |f| - i
  {
    if i >= |f| {
    } else {
      ShiftByte(f[i], i);
      if ShiftInt(f[i], 8 * i).Some? {
        assert f[i..][1..] == f[i + 1..];
        Pow2Sum(8, 8 * i);
        ByteShifts();
        var p := Pow2(8 * i);
        OrShifted(result, f[i], 8 * i);
        AddDigit(result, f[i], p, Le(f[i + 1..]));
        ImageFromExact(f, i + 1, result + f[i] * p);
      }
    }
  }

  lemma ByteShifts()
    ensures Pow2(0) == 1 && Pow2(8) == 0x100 && Pow2(16) == 0x1_0000
    ensures Pow2(24) == 0x100_0000 && Pow2(32) == 0x1_0000_0000
  {
    assert Pow2(8) == 256;
    Pow2Sum(8, 8);
    Pow2Sum(8, 16);
    Pow2Sum(16, 16);
  }

  /** Reading an image field that an integer was written to (at most five bytes
      wide) gives the integer back exactly when it is below 2^31. */
  lemma IntRoundTrip(v: nat, maxlen: byte)
    requires 4 <= maxlen <= 5
    ensures ImageInt(IntImage(v, maxlen)[1..]) == Some(v) <==> v < 0x8000_0000
  {
    var d := LeBytes(v);
    ByteShifts();
    LeOfLeBytes(v);
    LeBytesSize(v, 4);
    LeBytesSize(v, maxlen as int);
    if |d| <= maxlen as int {
      assert IntImage(v, maxlen)[1..] == d;
      ImageFromExact(d, 0, 0);
      assert d[0..] == d;
      if |d| == 4 { TopByte(d); }
      if |d| < 4 { LeBytesSize(v, 3); }
    } else {
      assert IntImage(v, maxlen)[1..] == [0];
      ImageFromExact([0], 0, 0);
      assert [0][0..] == [0] && [0][1..] == [] && Le([]) == 0 && Le([0]) == 0;
    }
  }

  lemma TopByte(d: seq<byte>)
    requires |d| == 4
    ensures d[3] < 128 <==> Le(d) < 0x8000_0000
  {
    assert d[1..][1..] == d[2..] && d[2..][1..] == d[3..] && d[3..][1..] == [];
    assert Le(d) == d[0] as int + 256 * Le(d[1..]);
    assert Le(d[1..]) == d[1] as int + 256 * Le(d[2..]);
    assert Le(d[2..]) == d[2] as int + 256 * Le(d[3..]);
    assert Le(d[3..]) == d[3] as int;
  }
}
