/** A transmit buffer of the DAP engine and the routines that append fields to it. */
module DapBuffer {
  import opened Bits
  import opened DapField

  const BUFSIZ := 8192

  class BufDescr {
    var next: BufDescr?
    const data: array<byte>
    var hdrlength: nat
    var datalength: nat
    var offset: nat

    constructor ()
      ensures Valid() && fresh(this) && fresh(data) && data.Length == BUFSIZ
      ensures next == null && offset == 0
    {
      data := new byte[BUFSIZ](_ => 0);
      next, hdrlength, datalength, offset := null, 0, 0, 0;
    }

    ghost predicate Valid()
      reads `hdrlength, `offset
    {
      hdrlength <= offset <= data.Length
    }

    /** The bytes appended so far. */
    ghost function Bytes(): seq<byte>
      reads `hdrlength, `offset, data
      requires Valid()
    {
      data[..offset]
    }

    /** The n bytes at the end of the buffer hold the unfinished field for s. */
    ghost predicate Building(s: set<nat>, n: nat)
      reads this, data
    {
      && offset + n <= data.Length
      && forall i :: 0 <= i < n ==> data[offset + i] == ExByte(s, i)
    }

    method BPut(value: byte)
      requires Valid() && offset < data.Length
      modifies this`offset, data
      ensures Valid() && offset == old(offset) + 1
      ensures Bytes() == old(Bytes()) + [value]
    {
      data[offset] := value;
      offset := offset + 1;
    }

    method TwoBPut(value: nat)
      requires Valid() && value < U16 && offset + 2 <= data.Length
      modifies this`offset, data
      ensures Valid() && offset == old(offset) + 2
      ensures Bytes() == old(Bytes()) + [value % 256, value / 256]
    {
      BPut(value % 256);
      BPut(value / 256 % 256);
    }

    /** Copies bytes to the end of the buffer and takes them up. */
    method Append(value: seq<byte>)
      requires Valid() && offset + |value| <= data.Length
      modifies this`offset, data
      ensures Valid() && offset == old(offset) + |value|
      ensures Bytes() == old(Bytes()) + value
    {
      forall i | 0 <= i < |value| { data[offset + i] := value[i]; }
      offset := offset + |value|;
    }

    method IPut(value: seq<byte>)
      requires Valid() && |value| < 256 && offset + 1 + |value| <= data.Length
      modifies this`offset, data
      ensures Valid() && offset == old(offset) + 1 + |value|
      ensures Bytes() == old(Bytes()) + [|value|] + value
    {
      BPut(|value|);
      Append(value);
    }

    method ExInit(maxlen: nat)
      requires Valid() && offset + maxlen <= data.Length
      modifies data
      ensures Valid() && Bytes() == old(Bytes())
      ensures Building({}, maxlen)
    {
      forall i | 0 <= i < maxlen { data[offset + i] := 0; }
      forall i | 0 <= i < maxlen ensures data[offset + i] == ExByte({}, i) {
        EmptyByte(i, 7);
      }
      assert data[..offset] == old(data[..offset]);
    }

    /** Follows the extension bits towards the byte that holds bit. */
    method ExWalk(bit: nat, ghost s: set<nat>, ghost maxlen: nat) returns (o: nat, bytes: nat)
      requires Valid() && Building(s, maxlen) && bit < 7 * maxlen
      ensures o + bytes == offset + bit / 7 && offset <= o
      ensures forall i :: 0 <= i < o - offset ==> More(s, i)
    {
      o, bytes := offset, bit / 7;
      Extension(data[o], s, 0);
      while bytes != 0 && And(data[o], 0x80) != 0
        invariant o + bytes == offset + bit / 7 && offset <= o
        invariant And(data[o], 0x80) != 0 <==> More(s, o - offset)
        invariant forall i :: 0 <= i < o - offset ==> More(s, i)
      {
        o := o + 1;
        bytes := bytes - 1;
        Extension(data[o], s, o - offset);
      }
    }

    /** One `|=` of a digit into a byte of the buffer. */
    method SetDigit(o: nat, k: nat)
      requires o < data.Length && k < 8
      modifies data
      ensures data[o] as nat == Or(old(data[o]), Pow2(k))
      ensures forall j :: 0 <= j < data.Length && j != o ==> data[j] == old(data[j])
    {
      assert Pow2(8) == 256;
      Pow2Monotone(k + 1, 8);
      OrBound(data[o], Pow2(k), 8);
      data[o] := Or(data[o], Pow2(k));
    }

    method ExSetBit(bit: nat, ghost s: set<nat>, ghost maxlen: nat)
      requires Valid() && Building(s, maxlen) && bit < 7 * maxlen
      modifies data
      ensures Valid() && Bytes() == old(Bytes())
      ensures Building(s + {bit}, maxlen)
    {
      var o, bytes := ExWalk(bit, s, maxlen);
      forall i | 0 <= i < o - offset ensures data[offset + i] == ExByte(s + {bit}, i) {
        StayExtended(s, bit, i);
      }
      Mark(bit, o, bytes, s, maxlen);
    }

    /** Extends the bytes up to the one that holds bit, and sets it there. */
    method Mark(bit: nat, start: nat, count: nat, ghost s: set<nat>, ghost maxlen: nat)
      requires Valid() && offset + maxlen <= data.Length && bit < 7 * maxlen
      requires start + count == offset + bit / 7 && offset <= start
      requires forall i :: 0 <= i < start - offset ==> data[offset + i] == ExByte(s + {bit}, i)
      requires forall i :: start - offset <= i < maxlen ==> data[offset + i] == ExByte(s, i)
      modifies data
      ensures Building(s + {bit}, maxlen)
      ensures forall j :: 0 <= j < offset ==> data[j] == old(data[j])
    {
      Extend(bit, start, count, s, maxlen);
      SetDigit(start + count, bit % 7);
      forall i | bit / 7 <= i < maxlen ensures data[offset + i] == ExByte(s + {bit}, i) {
        ExByteAdd(s, bit, i);
      }
    }

    /** Sets the extension bit of count bytes. */
    method Extend(bit: nat, start: nat, count: nat, ghost s: set<nat>, ghost maxlen: nat)
      requires Valid() && offset + maxlen <= data.Length && bit < 7 * maxlen
      requires start + count == offset + bit / 7 && offset <= start
      requires forall i :: 0 <= i < start - offset ==> data[offset + i] == ExByte(s + {bit}, i)
      requires forall i :: start - offset <= i < maxlen ==> data[offset + i] == ExByte(s, i)
      modifies data
      ensures forall i :: 0 <= i < bit / 7 ==> data[offset + i] == ExByte(s + {bit}, i)
      ensures forall i :: bit / 7 <= i < maxlen ==> data[offset + i] == ExByte(s, i)
      ensures forall j :: 0 <= j < offset ==> data[j] == old(data[j])
    {
      assert Pow2(7) == 0x80;
      var o: nat, bytes: nat := start, count;
      while bytes != 0
        invariant o + bytes == offset + bit / 7 && offset <= o
        invariant forall i :: 0 <= i < o - offset ==> data[offset + i] == ExByte(s + {bit}, i)
        invariant forall i :: o - offset <= i < maxlen ==> data[offset + i] == ExByte(s, i)
        invariant forall j :: 0 <= j < offset ==> data[j] == old(data[j])
      {
        ExByteAdd(s, bit, o - offset);
        SetDigit(o, 7);
        o := o + 1;
        bytes := bytes - 1;
      }
    }

    method ExDone(ghost s: set<nat>, ghost maxlen: nat)
      requires Valid() && maxlen > 0 && Building(s, maxlen) && Below(s, maxlen)
      modifies this`offset
      ensures Valid() && offset == old(offset) + |ExEncode(s, maxlen)|
      ensures Bytes() == old(Bytes()) + ExEncode(s, maxlen)
    {
      ghost var start := offset;
      Extension(data[offset], s, 0);
      while And(data[offset], 0x80) != 0
        invariant start <= offset < start + maxlen && hdrlength <= offset
        invariant And(data[offset], 0x80) != 0 <==> More(s, offset - start)
        invariant forall i :: 0 <= i < offset - start ==> More(s, i)
        decreases start + maxlen - offset
      {
        ghost var b :| b in s && b / 7 > offset - start;
        offset := offset + 1;
        Extension(data[offset], s, offset - start);
      }
      ExEncodeBytes(s, maxlen, offset - start);
      offset := offset + 1;
      assert data[start..offset] == ExEncode(s, maxlen);
    }

    /** Appends the digits of value; gives up, having written maxlen bytes, when
        there are more than that. */
    method PutDigits(maxlen: nat, value: nat) returns (fits: bool)
      requires Valid() && offset + maxlen <= data.Length
      modifies this`offset, data
      ensures Valid() && offset >= old(offset)
      ensures forall k :: 0 <= k < old(offset) ==> data[k] == old(data[k])
      ensures fits <==> |LeBytes(value)| <= maxlen
      ensures fits ==> data[old(offset)..offset] == LeBytes(value)
    {
      var v, count: nat := value, 0;
      ghost var start, done := offset, [];
      fits := false;
      while count != maxlen
        invariant offset == start + count && count <= maxlen
        invariant forall k :: 0 <= k < start ==> data[k] == old(data[k])
        invariant |done| == count
        invariant forall k :: 0 <= k < |done| ==> data[start + k] == done[k]
        invariant done + LeBytes(v) == LeBytes(value)
      {
        NextDigit(done, v);
        data[offset] := v % 256;
        offset := offset + 1;
        done := done + [v % 256];
        v := v / 256;
        count := count + 1;
        if v == 0 {
          assert data[start..offset] == done;
          return true;
        }
      }
    }

    /** Appends value as an image field, or zero when it does not fit. */
    method Int2I(maxlen: byte, value: nat)
      requires Valid() && offset + 2 + maxlen as int <= data.Length
      modifies this`offset, data
      ensures Valid() && offset == old(offset) + |IntImage(value, maxlen)|
      ensures Bytes() == old(Bytes()) + IntImage(value, maxlen)
    {
      var o := offset;
      offset := offset + 1;
      var fits := PutDigits(maxlen as nat, value);
      if fits {
        data[o] := offset - (o + 1);
      } else {
        data[o], data[o + 1] := 1, 0;
        offset := o + 2;
      }
      assert data[o..offset] == IntImage(value, maxlen);
    }

    method HdrDone()
      requires Valid()
      modifies this`hdrlength
      ensures Valid() && hdrlength == offset
    {
      hdrlength := offset;
    }
  }

  lemma Extension(b: byte, s: set<nat>, i: nat)
    requires b == ExByte(s, i)
    ensures And(b, 0x80) != 0 <==> More(s, i)
  {
    assert Pow2(7) == 0x80;
    ExByteBit(s, i, 7);
    AndPow2(b, 7);
  }

  lemma NextDigit(done: seq<byte>, v: nat)
    ensures done + LeBytes(v) == done + [v % 256] + (if v / 256 == 0 then [] else LeBytes(v / 256))
  {
  }

  /** A byte that is already extended does not change when a later member joins. */
  lemma StayExtended(s: set<nat>, bit: nat, i: nat)
    requires More(s, i) && i < bit / 7
    ensures ExByte(s + {bit}, i) == ExByte(s, i)
  {
    assert Pow2(8) == 256;
    assert bit in s + {bit} && More(s + {bit}, i);
    forall j | 0 <= j < 8
      ensures Bit(ExByte(s + {bit}, i), j) <==> Bit(ExByte(s, i), j)
    {
      ExByteBit(s, i, j);
      ExByteBit(s + {bit}, i, j);
    }
    SameBits(ExByte(s + {bit}, i), ExByte(s, i), 8);
  }

  lemma {:induction false} EmptyByte(i: nat, k: nat)
    ensures LowBits({}, i, k) == 0
  {
    if k == 0 {
    } else {
      EmptyByte(i, k - 1);
    }
  }
}
