/** Machine bytes and the bitwise operators of C on non-negative integers.

    The operators are defined by recursion on the binary digits, so that a mask
    in the source stays a mask in the model and what it computes is a lemma. */
module Bits {

  type byte = x: int | 0 <= x < 256

  const U16 := 0x1_0000
  const U32 := 0x1_0000_0000

  type word = x: nat | x < U16

  function Pow2(k: nat): (r: nat)
    ensures r > 0
  {
    if k == 0 then 1 else 2 * Pow2(k - 1)
  }

  ghost predicate IsPow2(n: nat) {
    exists k: nat :: n == Pow2(k)
  }

  /** The binary digit of weight 2^i. */
  predicate Bit(x: nat, i: nat) {
    if i == 0 then x % 2 == 1 else Bit(x / 2, i - 1)
  }

  function And(x: nat, y: nat): (r: nat)
    ensures r <= x && r <= y
  {
    if x == 0 || y == 0 then 0
    else 2 * And(x / 2, y / 2) + (if x % 2 == 1 && y % 2 == 1 then 1 else 0)
  }

  function Or(x: nat, y: nat): (r: nat)
    ensures x <= r && y <= r
    decreases x + y
  {
    if x == 0 then y else if y == 0 then x
    else 2 * Or(x / 2, y / 2) + (if x % 2 == 1 || y % 2 == 1 then 1 else 0)
  }

  function Xor(x: nat, y: nat): nat
    decreases x + y
  {
    if x == 0 then y else if y == 0 then x
    else 2 * Xor(x / 2, y / 2) + (if x % 2 != y % 2 then 1 else 0)
  }

  lemma {:induction false} ZeroHasNoBit(i: nat)
    ensures !Bit(0, i)
  {
    if i == 0 {
    } else {
      ZeroHasNoBit(i - 1);
    }
  }

  lemma {:induction false} AndBit(x: nat, y: nat, i: nat)
    ensures Bit(And(x, y), i) <==> Bit(x, i) && Bit(y, i)
  {
    if x == 0 || y == 0 {
      ZeroHasNoBit(i);
    } else if i > 0 {
      AndBit(x / 2, y / 2, i - 1);
      var r := And(x, y);
      assert r / 2 == And(x / 2, y / 2);
      assert Bit(r, i) == Bit(r / 2, i - 1);
    }
  }

  lemma {:induction false} OrBit(x: nat, y: nat, i: nat)
    ensures Bit(Or(x, y), i) <==> Bit(x, i) || Bit(y, i)
  {
    if x == 0 || y == 0 {
      ZeroHasNoBit(i);
    } else if i > 0 {
      OrBit(x / 2, y / 2, i - 1);
      var r := Or(x, y);
      assert r / 2 == Or(x / 2, y / 2);
      assert Bit(r, i) == Bit(r / 2, i - 1);
    }
  }

  /** A power of two has exactly one digit. */
  lemma {:induction false} Pow2Bit(k: nat, i: nat)
    ensures Bit(Pow2(k), i) <==> i == k
  {
    if k == 0 {
      if i > 0 { ZeroHasNoBit(i - 1); }
    } else if i > 0 {
      assert Pow2(k) / 2 == Pow2(k - 1);
      Pow2Bit(k - 1, i - 1);
    }
  }

  /** Testing against a one-digit mask is reading that digit. */
  lemma {:induction false} AndPow2(x: nat, k: nat)
    ensures And(x, Pow2(k)) == 0 <==> !Bit(x, k)
  {
    if x == 0 {
      ZeroHasNoBit(k);
    } else if k == 0 {
      assert Pow2(0) == 1 && And(x / 2, 0) == 0;
    } else {
      assert Pow2(k) / 2 == Pow2(k - 1) && Pow2(k) % 2 == 0;
      AndPow2(x / 2, k - 1);
    }
  }

  /** Masking with 2^k - 1 is reduction modulo 2^k. */
  lemma {:induction false} AndMask(x: nat, k: nat)
    ensures And(x, Pow2(k) - 1) == x % Pow2(k)
  {
    if x > 0 && k > 0 {
      AndMask(x / 2, k - 1);
      AndMaskStep(x, Pow2(k - 1));
    } else if x == 0 {
      ModUnique(0, Pow2(k), 0, 0);
    }
  }

  lemma AndMaskStep(x: nat, p: nat)
    requires x > 0 && p > 0 && And(x / 2, p - 1) == x / 2 % p
    ensures And(x, 2 * p - 1) == x % (2 * p)
  {
    assert (2 * p - 1) / 2 == p - 1 && (2 * p - 1) % 2 == 1;
    HalfMod(x, p);
  }

  /** The low digits, read off by division. */
  lemma SmallBits(x: nat)
    ensures Bit(x, 0) <==> x % 2 == 1
    ensures Bit(x, 1) <==> x / 2 % 2 == 1
    ensures Bit(x, 2) <==> x / 4 % 2 == 1
    ensures Bit(x, 3) <==> x / 8 % 2 == 1
    ensures Bit(x, 4) <==> x / 16 % 2 == 1
    ensures Bit(x, 5) <==> x / 32 % 2 == 1
  {
    var (x1, x2, x3, x4, x5) := (x / 2, x / 4, x / 8, x / 16, x / 32);
    assert x1 / 2 == x2 && x2 / 2 == x3 && x3 / 2 == x4 && x4 / 2 == x5;
    assert Bit(x, 1) == Bit(x1, 0);
    assert Bit(x, 2) == Bit(x1, 1) == Bit(x2, 0);
    assert Bit(x, 3) == Bit(x1, 2) == Bit(x2, 1) == Bit(x3, 0);
    assert Bit(x, 4) == Bit(x1, 3) == Bit(x2, 2) == Bit(x3, 1) == Bit(x4, 0);
    assert Bit(x, 5) == Bit(x1, 4) == Bit(x2, 3) == Bit(x3, 2) == Bit(x4, 1) == Bit(x5, 0);
  }

  lemma HalfMod(x: nat, p: nat)
    requires p > 0
    ensures x % (2 * p) == 2 * (x / 2 % p) + x % 2
  {
    var q, r := x / 2 / p, x / 2 % p;
    assert x == 2 * (q * p + r) + x % 2;
    assert x == q * (2 * p) + (2 * r + x % 2);
    ModUnique(x, 2 * p, q, 2 * r + x % 2);
  }

  lemma ModUnique(x: int, d: int, q: int, r: int)
    requires d > 0 && 0 <= r < d && x == q * d + r
    ensures x % d == r && x / d == q
  {
    var k := q - x / d;
    assert k * d == q * d - x / d * d;
    assert k * d == x % d - r;
    MultipleIsFar(k, d);
  }

  lemma MultipleIsFar(k: int, d: int)
    requires d > 0
    ensures k == 0 || k * d >= d || k * d <= -d
  {
    if k >= 1 {
      assert (k - 1) * d >= 0;
    } else if k <= -1 {
      assert (-k - 1) * d >= 0;
    }
  }

  /** Numbers of at most n digits are determined by those digits. */
  lemma {:induction false} SameBits(x: nat, y: nat, n: nat)
    requires x < Pow2(n) && y < Pow2(n)
    requires forall i :: 0 <= i < n ==> (Bit(x, i) <==> Bit(y, i))
    ensures x == y
  {
    if n == 0 {
    } else {
      assert Bit(x, 0) <==> Bit(y, 0);
      forall i | 0 <= i < n - 1
        ensures Bit(x / 2, i) <==> Bit(y / 2, i)
      {
        assert Bit(x, i + 1) <==> Bit(y, i + 1);
      }
      SameBits(x / 2, y / 2, n - 1);
    }
  }

  lemma {:induction false} OrBound(x: nat, y: nat, n: nat)
    requires x < Pow2(n) && y < Pow2(n)
    ensures Or(x, y) < Pow2(n)
  {
    if n == 0 || x == 0 || y == 0 {
    } else {
      OrBound(x / 2, y / 2, n - 1);
    }
  }

  /** Adding 2^m to a number below 2^m sets digit m and nothing else. */
  lemma {:induction false} AddBit(x: nat, m: nat, i: nat)
    requires x < Pow2(m)
    ensures Bit(x + Pow2(m), i) <==> Bit(x, i) || i == m
  {
    if m == 0 {
      Pow2Bit(0, i);
      ZeroHasNoBit(i);
    } else if i > 0 {
      assert (x + Pow2(m)) / 2 == x / 2 + Pow2(m - 1);
      AddBit(x / 2, m - 1, i - 1);
    }
  }

  /** Digits at and above n of a number below 2^n are clear. */
  lemma {:induction false} HighBits(x: nat, n: nat, i: nat)
    requires x < Pow2(n) && n <= i
    ensures !Bit(x, i)
  {
    if n == 0 {
      ZeroHasNoBit(i);
    } else {
      HighBits(x / 2, n - 1, i - 1);
    }
  }

  /** Or of numbers whose digits do not meet is their sum. */
  lemma {:induction false} OrShifted(x: nat, y: nat, k: nat)
    requires x < Pow2(k)
    ensures Or(x, y * Pow2(k)) == x + y * Pow2(k)
  {
    if k == 0 || x == 0 {
    } else if y == 0 {
      assert y * Pow2(k) == 0;
    } else {
      var z := y * Pow2(k - 1);
      OrShifted(x / 2, y, k - 1);
      assert y * Pow2(k) == 2 * z;
      OrEven(x, z);
    }
  }

  lemma OrEven(x: nat, z: nat)
    ensures Or(x, 2 * z) == 2 * Or(x / 2, z) + x % 2
  {
    assert 2 * z / 2 == z;
  }

  lemma {:induction false} Pow2Sum(i: nat, j: nat)
    ensures Pow2(i + j) == Pow2(i) * Pow2(j)
  {
    if i == 0 {
    } else {
      Pow2Sum(i - 1, j);
    }
  }

  lemma {:induction false} Pow2Monotone(i: nat, j: nat)
    requires i <= j
    ensures Pow2(i) <= Pow2(j)
    decreases j
  {
    if i >= j {
    } else {
      Pow2Monotone(i, j - 1);
    }
  }

  /** The classic test: n and n - 1 share no digit exactly when n is a power of two. */
  lemma {:induction false} PowerOfTwoTest(n: nat)
    requires n > 0
    ensures And(n, n - 1) == 0 <==> IsPow2(n)
  {
    if n % 2 == 1 {
      if n == 1 {
        assert n == Pow2(0);
      } else {
        AndSelf(n / 2);
        forall k: nat ensures n != Pow2(k) { }
      }
    } else {
      var h := n / 2;
      PowerOfTwoTest(h);
      assert (n - 1) / 2 == h - 1;
      if IsPow2(h) {
        var k: nat :| h == Pow2(k);
        assert n == Pow2(k + 1);
      }
      if IsPow2(n) {
        var k: nat :| n == Pow2(k);
        assert h == Pow2(k - 1);
      }
    }
  }

  lemma {:induction false} AndSelf(x: nat)
    ensures And(x, x) == x
  {
    if x == 0 {
    } else {
      AndSelf(x / 2);
    }
  }

  /** y with k zeros behind it, and x without its last k digits. */
  function ShiftLeft(y: nat, k: nat): nat {
    if k == 0 then y else 2 * ShiftLeft(y, k - 1)
  }

  function ShiftRight(x: nat, k: nat): nat {
    if k == 0 then x else ShiftRight(x / 2, k - 1)
  }

  /** A mask with k zeros at the end works on what is left after shifting by k. */
  lemma {:induction false} AndShifted(x: nat, y: nat, k: nat)
    ensures And(x, ShiftLeft(y, k)) == ShiftLeft(And(ShiftRight(x, k), y), k)
  {
    if k == 0 {
    } else {
      AndShifted(x / 2, y, k - 1);
      EvenMask(x, ShiftLeft(y, k - 1));
    }
  }

  lemma EvenMask(x: nat, y: nat)
    ensures And(x, 2 * y) == 2 * And(x / 2, y)
  {
    assert 2 * y / 2 == y;
  }

  /** Six places, the width of the fields in routing messages. */
  lemma SixPlaces(x: nat)
    ensures ShiftLeft(x, 6) == 64 * x && ShiftRight(x, 6) == x / 64
  {
    var x1, x2, x3, x4, x5 := x / 2, x / 4, x / 8, x / 16, x / 32;
    assert x1 / 2 == x2 && x2 / 2 == x3 && x3 / 2 == x4 && x4 / 2 == x5 && x5 / 2 == x / 64;
    assert ShiftRight(x, 6) == ShiftRight(x1, 5) == ShiftRight(x2, 4) == ShiftRight(x3, 3);
    assert ShiftRight(x3, 3) == ShiftRight(x4, 2) == ShiftRight(x5, 1) == x / 64;
    assert ShiftLeft(x, 2) == 2 * ShiftLeft(x, 1) == 4 * x;
    assert ShiftLeft(x, 4) == 2 * ShiftLeft(x, 3) == 16 * x;
    assert ShiftLeft(x, 6) == 2 * ShiftLeft(x, 5) == 64 * x;
  }
}
