/** The string hash under the table. */
module StringHash {
  import opened Bits

  const U64 := 0x1_0000_0000_0000_0000

  /** The number of every byte. */
  const NUMS: seq<byte> := [
    1, 14, 110, 25, 97, 174, 132, 119, 138, 170, 125, 118, 27, 233, 140, 51,
    87, 197, 177, 107, 234, 169, 56, 68, 30, 7, 173, 73, 188, 40, 36, 65,
    49, 213, 104, 190, 57, 211, 148, 223, 48, 115, 15, 2, 67, 186, 210, 28,
    12, 181, 103, 70, 22, 58, 75, 78, 183, 167, 238, 157, 124, 147, 172, 144,
    176, 161, 141, 86, 60, 66, 128, 83, 156, 241, 79, 46, 168, 198, 41, 254,
    178, 85, 253, 237, 250, 154, 133, 88, 35, 206, 95, 116, 252, 192, 54, 221,
    102, 218, 255, 240, 82, 106, 158, 201, 61, 3, 89, 9, 42, 155, 159, 93,
    166, 80, 50, 34, 175, 195, 100, 99, 26, 150, 16, 145, 4, 33, 8, 189,
    121, 64, 77, 72, 208, 245, 130, 122, 143, 55, 105, 134, 29, 164, 185, 194,
    193, 239, 101, 242, 5, 171, 126, 11, 74, 59, 137, 228, 108, 191, 232, 139,
    6, 24, 81, 20, 127, 17, 91, 92, 251, 151, 225, 207, 21, 98, 113, 112,
    84, 226, 18, 214, 199, 187, 13, 32, 94, 220, 224, 212, 247, 204, 196, 43,
    249, 236, 45, 244, 111, 182, 153, 136, 129, 90, 217, 202, 19, 165, 231, 71,
    230, 142, 96, 227, 62, 179, 246, 114, 162, 53, 160, 215, 205, 180, 47, 109,
    44, 38, 31, 149, 135, 0, 216, 52, 63, 23, 37, 69, 39, 117, 146, 184,
    163, 200, 222, 235, 248, 243, 219, 10, 152, 131, 123, 229, 203, 76, 120, 209
  ]

  lemma NumsSize()
    ensures |NUMS| == 256
  {
  }

  /** One table entry into an unsigned 64-bit hash value. */
  function Mix(h: nat, n: byte): nat {
    var up := (h * 16 % U64 + n) % U64;
    var g := And(up, 0xF0000);
    if g != 0 then Xor(Xor(up, g / 0x1_0000), g / 32) else up
  }

  function Number(b: byte): byte {
    NumsSize();
    NUMS[b]
  }

  function Hash(key: seq<byte>): nat {
    if key == [] then 0 else Mix(Hash(key[..|key| - 1]), Number(key[|key| - 1]))
  }

  method HashOf(key: seq<byte>) returns (h: nat)
    ensures h == Hash(key)
  {
    h := 0;
    var i := 0;
    while i < |key|
      invariant i <= |key| && h == Hash(key[..i])
    {
      assert key[..i + 1][..i] == key[..i];
      h := Mix(h, Number(key[i]));
      i := i + 1;
    }
    assert key[..i] == key;
  }

  lemma LowAnd(x: nat)
    requires x < 0x1_0000
    ensures And(x, 0xF0000) == 0
  {
    assert Pow2(8) == 256;
    Pow2Sum(8, 8);
    AndShifted(x, 15, 16);
    Vanishes(x, 16);
    StaysZero(16);
    FifteenAt16();
  }

  lemma {:induction false} Vanishes(x: nat, k: nat)
    requires x < Pow2(k)
    ensures ShiftRight(x, k) == 0
  {
    if k == 0 {
    } else {
      Vanishes(x / 2, k - 1);
    }
  }

  lemma {:induction false} StaysZero(k: nat)
    ensures ShiftLeft(0, k) == 0
  {
    if k == 0 {
    } else {
      StaysZero(k - 1);
    }
  }

  lemma FifteenAt16()
    ensures ShiftLeft(15, 16) == 0xF0000
  {
    assert ShiftLeft(15, 2) == 2 * ShiftLeft(15, 1) == 60;
    assert ShiftLeft(15, 4) == 2 * ShiftLeft(15, 3) == 240;
    assert ShiftLeft(15, 6) == 2 * ShiftLeft(15, 5) == 960;
    assert ShiftLeft(15, 8) == 2 * ShiftLeft(15, 7) == 3840;
    assert ShiftLeft(15, 10) == 2 * ShiftLeft(15, 9) == 15360;
    assert ShiftLeft(15, 12) == 2 * ShiftLeft(15, 11) == 61440;
    assert ShiftLeft(15, 14) == 2 * ShiftLeft(15, 13) == 245760;
    assert ShiftLeft(15, 16) == 2 * ShiftLeft(15, 15) == 983040;
  }

  lemma SmallMix(h: nat, n: byte)
    requires 16 * h + n < 0x1_0000
    ensures Mix(h, n) == 16 * h + n
  {
    var up := (h * 16 % U64 + n) % U64;
    assert up == 16 * h + n;
    assert And(up, 0xF0000) == 0 by { LowAnd(up); }
  }

  /** The daemon's keys have two bytes. On those the hash neither overflows nor
      feeds its high bits back. */
  lemma TwoByteHash(a: byte, b: byte)
    ensures Hash([a, b]) == 16 * Number(a) as nat + Number(b) as nat
  {
    var key := [a, b];
    assert key[..1] == [a];
    assert [a][..0] == [];
    SmallMix(0, Number(a));
    assert Hash([a]) == Mix(Hash([]), Number(a));
    SmallMix(Number(a), Number(b));
  }
}
