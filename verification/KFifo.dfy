/** A byte FIFO over a ring buffer with free-running 32-bit indices.

    The indices are never reduced modulo the buffer size; a slot is picked by
    masking the index with size - 1, which only works for a power of two. */
module KFifo {
  import opened Bits

  function Min(a: int, b: int): int {
    if a < b then a else b
  }

  /** The slot an index stands for. */
  function Slot(index: nat, size: nat): nat
    requires size > 0
  {
    And(index, size - 1)
  }

  /** Where byte j of a block that starts at index goes: up to the end of the
      buffer first, then from its beginning. */
  function Place(index: nat, j: nat, size: nat): nat
    requires size > 0 && j < size
  {
    var l := size - Slot(index, size);
    if j < l then Slot(index, size) + j else j - l
  }

  // ---- Arithmetic of slots ----

  lemma SlotIsMod(index: nat, size: nat)
    requires size > 0 && IsPow2(size)
    ensures Slot(index, size) == index % size
  {
    var k: nat :| size == Pow2(k);
    AndMask(index, k);
  }

  /** Moving j < d places on from a. */
  lemma ModMove(a: int, j: int, d: int)
    requires d > 0 && 0 <= j < d
    ensures (a + j) % d == if a % d + j < d then a % d + j else a % d + j - d
  {
    if a % d + j < d {
      ModUnique(a + j, d, a / d, a % d + j);
    } else {
      ModUnique(a + j, d, a / d + 1, a % d + j - d);
    }
  }

  lemma ModDistinct(a: int, b: int, d: int)
    requires d > 0 && a < b < a + d
    ensures a % d != b % d
  {
    ModMove(a, b - a, d);
  }

  /** Wrapping at 2^32 does not move a slot when the size divides 2^32. */
  lemma WrapKeepsSlot(a: int, size: nat)
    requires 0 < size <= U32 && IsPow2(size)
    ensures a % U32 % size == a % size
  {
    var k: nat :| size == Pow2(k);
    Word();
    if k > 32 {
      Pow2Monotone(33, k);
    } else {
      Pow2Sum(k, 32 - k);
      ModOfMod(a, size, Pow2(32 - k));
    }
  }

  lemma Word()
    ensures Pow2(32) == U32 && Pow2(33) == 2 * U32
  {
    assert Pow2(8) == 256;
    Pow2Sum(8, 8);
    Pow2Sum(16, 16);
    assert Pow2(33) == 2 * Pow2(32);
  }

  lemma ModOfMod(a: int, d: int, m: int)
    requires d > 0 && m > 0
    ensures a % (d * m) % d == a % d
  {
    var q, r := a / (d * m), a % (d * m);
    assert a == q * (d * m) + r;
    assert q * (d * m) == q * m * d;
    assert (q * m + r / d) * d == q * m * d + r / d * d;
    ModUnique(a, d, q * m + r / d, r % d);
  }

  // ---- The FIFO ----

  /** A place reached by walking on from a slot, brought back into the buffer. */
  function Turn(p: nat, size: nat): nat
    requires p < 2 * size
  {
    if p < size then p else p - size
  }

  /** The n bytes from slot at on, around the ring. */
  function Window(s: seq<byte>, at: nat, n: nat): (w: seq<byte>)
    requires at < |s| && n <= |s|
    ensures |w| == n && forall i :: 0 <= i < n ==> w[i] == s[Turn(at + i, |s|)]
  {
    seq(n, i requires 0 <= i < n => s[Turn(at + i, |s|)])
  }

  class KFifo {
    const buffer: array<byte>
    const size: nat
    var inIdx: nat    // data is added here
    var outIdx: nat   // data is taken from here

    ghost predicate Valid()
      reads this
    {
      && 0 < size < U32 && IsPow2(size) && buffer.Length == size
      && inIdx < U32 && outIdx < U32 && Used() <= size
    }

    function Used(): nat
      reads this
    {
      (inIdx - outIdx) % U32
    }

    /** The queue of bytes the buffer holds, oldest first. */
    ghost function Contents(): seq<byte>
      reads this, buffer
      requires Valid()
    {
      SlotBound(outIdx, size);
      Window(buffer[..], Slot(outIdx, size), Used())
    }

    /** The size is taken as given; the rounding up that the allocator announces
        does not happen. */
    constructor (size: nat)
      requires 0 < size < U32 && IsPow2(size)
      ensures Valid() && fresh(buffer) && this.size == size && Contents() == []
    {
      buffer := new byte[size](_ => 0);
      this.size := size;
      inIdx, outIdx := 0, 0;
    }

    /** Appends as much of the data as there is room for. */
    method Put(data: seq<byte>) returns (len: nat)
      requires Valid() && |data| < U32
      modifies this`inIdx, buffer
      ensures Valid() && len == Min(|data|, size - |old(Contents())|)
      ensures Contents() == old(Contents()) + data[..len]
    {
      ghost var was, used, first := buffer[..], Used(), Slot(outIdx, size);
      FreeSpace(inIdx, outIdx, size);
      len := Min(|data|, (size - inIdx + outIdx) % U32);
      InSlot(inIdx, outIdx, size);
      var at := Slot(inIdx, size);
      var l := Min(len, size - at);
      CopyIn(at, data, l, len);
      Appended(was, buffer[..], first, used, at, data[..len], l);
      Grown(inIdx, outIdx, len);
      inIdx := (inIdx + len) % U32;
    }

    /** Copies len bytes into the buffer, l of them from slot at on and the rest
        from the start. */
    method CopyIn(at: nat, data: seq<byte>, l: nat, len: nat)
      requires l <= len <= |data| && at + l <= buffer.Length && len - l <= at
      modifies buffer
      ensures forall p :: 0 <= p < buffer.Length ==>
                buffer[p] == if at <= p < at + l then data[p - at]
                             else if p < len - l then data[l + p] else old(buffer[p])
    {
      forall i | 0 <= i < l { buffer[at + i] := data[i]; }
      forall i | 0 <= i < len - l { buffer[i] := data[l + i]; }
    }

    /** Takes up to max bytes from the front. */
    method GetBytes(max: nat) returns (data: seq<byte>)
      requires Valid() && max < U32
      modifies this`outIdx
      ensures Valid() && |data| == Min(max, |old(Contents())|)
      ensures old(Contents()) == data + Contents()
    {
      ghost var used := Used();
      var len := Min(max, (inIdx - outIdx) % U32);
      OutSlot(outIdx, len, size);
      var at := Slot(outIdx, size);
      var l := Min(len, size - at);
      data := buffer[at..at + l] + buffer[..len - l];
      Taken(buffer[..], at, used, data, l);
      Shrunk(inIdx, outIdx, len);
      outIdx := (outIdx + len) % U32;
    }

    /** Taking bytes, then starting the indices over when nothing is left. */
    method Get(max: nat) returns (data: seq<byte>)
      requires Valid() && max < U32
      modifies this`inIdx, this`outIdx
      ensures Valid() && |data| == Min(max, |old(Contents())|)
      ensures old(Contents()) == data + Contents()
      ensures Contents() == [] ==> inIdx == outIdx == 0
    {
      data := GetBytes(max);
      EqualMeansEmpty(inIdx, outIdx);
      if inIdx == outIdx {
        inIdx, outIdx := 0, 0;
      }
    }

    method Reset()
      requires Valid()
      modifies this`inIdx, this`outIdx
      ensures Valid() && Contents() == []
    {
      inIdx, outIdx := 0, 0;
    }

    method Len() returns (n: nat)
      requires Valid()
      ensures n == |Contents()|
    {
      n := (inIdx - outIdx) % U32;
    }

    method Avail() returns (n: nat)
      requires Valid()
      ensures n + |Contents()| == size
    {
      n := (size - (inIdx - outIdx) % U32) % U32;
    }
  }

  lemma SlotBound(index: nat, size: nat)
    requires size > 0
    ensures Slot(index, size) < size
  {
  }

  lemma EqualMeansEmpty(inIdx: nat, outIdx: nat)
    requires inIdx < U32 && outIdx < U32
    ensures (inIdx - outIdx) % U32 == 0 <==> inIdx == outIdx
  {
  }

  lemma FreeSpace(inIdx: nat, outIdx: nat, size: nat)
    requires size < U32 && (inIdx - outIdx) % U32 <= size
    ensures (size - inIdx + outIdx) % U32 == size - (inIdx - outIdx) % U32
  {
    var d := inIdx - outIdx;
    ModUnique(size - d, U32, -(d / U32), size - d % U32);
  }

  lemma Grown(inIdx: nat, outIdx: nat, len: nat)
    requires (inIdx - outIdx) % U32 + len < U32
    ensures ((inIdx + len) % U32 - outIdx) % U32 == (inIdx - outIdx) % U32 + len
  {
    var d, n := inIdx - outIdx, inIdx + len;
    ModUnique(n % U32 - outIdx, U32, d / U32 - n / U32, d % U32 + len);
  }

  lemma Shrunk(inIdx: nat, outIdx: nat, len: nat)
    requires len <= (inIdx - outIdx) % U32
    ensures (inIdx - (outIdx + len) % U32) % U32 == (inIdx - outIdx) % U32 - len
  {
    var d, n := inIdx - outIdx, outIdx + len;
    ModUnique(inIdx - n % U32, U32, d / U32 + n / U32, d % U32 - len);
  }

  /** The reader's slot after it has moved on, also across the wrap. */
  lemma OutSlot(outIdx: nat, len: nat, size: nat)
    requires 0 < size < U32 && IsPow2(size) && len <= size
    ensures Slot(outIdx, size) < size
    ensures Slot((outIdx + len) % U32, size) == Turn(Slot(outIdx, size) + len, size)
  {
    SlotBound(outIdx, size);
    calc {
      Slot((outIdx + len) % U32, size);
    == { SlotIsMod((outIdx + len) % U32, size); }
      (outIdx + len) % U32 % size;
    == { WrapKeepsSlot(outIdx + len, size); }
      (outIdx + len) % size;
    == { ModTurn(outIdx, len, size); }
      Turn(outIdx % size + len, size);
    == { SlotIsMod(outIdx, size); }
      Turn(Slot(outIdx, size) + len, size);
    }
  }

  lemma ModTurn(a: int, len: nat, size: nat)
    requires 0 < size && len <= size
    ensures (a + len) % size == Turn(a % size + len, size)
  {
    if len < size {
      ModMove(a, len, size);
    } else {
      ModUnique(a + len, size, a / size + 1, a % size);
    }
  }

  /** The writer's slot is as many places on from the reader's as bytes are queued. */
  lemma InSlot(inIdx: nat, outIdx: nat, size: nat)
    requires 0 < size < U32 && IsPow2(size) && inIdx < U32 && (inIdx - outIdx) % U32 <= size
    ensures Slot(outIdx, size) < size
    ensures Slot(inIdx, size) == Turn(Slot(outIdx, size) + (inIdx - outIdx) % U32, size)
  {
    var d := inIdx - outIdx;
    OutSlot(outIdx, d % U32, size);
    ModUnique(outIdx + d % U32, U32, -(d / U32), inIdx);
  }

  lemma Appended(was: seq<byte>, now: seq<byte>, first: nat, used: nat, at: nat, data: seq<byte>, l: nat)
    requires first < |was| == |now| && used + |data| <= |was| && at == Turn(first + used, |was|)
    requires l == Min(|data|, |was| - at)
    requires forall p :: 0 <= p < |was| ==>
               now[p] == if at <= p < at + l then data[p - at]
                         else if p < |data| - l then data[l + p] else was[p]
    ensures Window(now, first, used + |data|) == Window(was, first, used) + data
  {
  }

  lemma Taken(s: seq<byte>, at: nat, used: nat, data: seq<byte>, l: nat)
    requires at < |s| && |data| <= used <= |s| && l == Min(|data|, |s| - at)
    requires data == s[at..at + l] + s[..|data| - l]
    ensures Window(s, at, used) == data + Window(s, Turn(at + |data|, |s|), used - |data|)
  {
  }

  // ---- Why the size has to be a power of two ----

  /** Two bytes put together come out in order when taken one at a time. */
  ghost predicate TwoBytesInOrder(size: nat)
    requires size >= 2
  {
    forall buf: seq<byte>, x: nat, a: byte, b: byte :: |buf| == size && x < U32 ==>
      var put := PutTwo(buf, x, a, b);
      put[Slot(x, size)] == a && put[Slot((x + 1) % U32, size)] == b
  }

  function PutTwo(buf: seq<byte>, x: nat, a: byte, b: byte): (put: seq<byte>)
    requires |buf| >= 2
    ensures |put| == |buf|
  {
    buf[Place(x, 0, |buf|) := a][Place(x, 1, |buf|) := b]
  }

  /** The indices work as a queue exactly for the sizes that the allocator was
      meant to round up to. */
  lemma QueueOnlyForPowersOfTwo(size: nat)
    requires 2 <= size < U32
    ensures TwoBytesInOrder(size) <==> IsPow2(size)
  {
    if IsPow2(size) {
      forall buf: seq<byte>, x: nat, a: byte, b: byte | |buf| == size && x < U32
        ensures var put := PutTwo(buf, x, a, b);
          put[Slot(x, size)] == a && put[Slot((x + 1) % U32, size)] == b
      {
        OutSlot(x, 1, size);
      }
    }
    if TwoBytesInOrder(size) {
      SlotsFollow(size, size);
      PowerOfTwoTest(size);
    }
  }

  /** If bytes stay in order, the slots of growing indices go around the buffer. */
  lemma {:induction false} SlotsFollow(size: nat, x: nat)
    requires 2 <= size < U32 && x <= size && TwoBytesInOrder(size)
    ensures Slot(x, size) == if x == size then 0 else x
  {
    if x == 0 {
    } else {
      var y := x - 1;
      SlotsFollow(size, y);
      var buf: seq<byte> := seq(size, _ => 0);
      var put := PutTwo(buf, y, 0, 1);
      assert put[Slot((y + 1) % U32, size)] == 1;
    }
  }
}
