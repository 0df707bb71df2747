/** The checksum of DECnet routing messages: 16-bit little-endian words added into
    32 bits, starting from 1, and folded twice. */
module Csum {
  import opened Bits

  function WordAt(s: seq<byte>, i: nat): word
    requires i + 1 < |s|
  {
    s[i] as nat + 256 * s[i + 1] as nat
  }

  /** The words the checksum loop reads between start and end; an odd range is
      rounded up. */
  function Words(s: seq<byte>, start: nat, end: nat): (ws: seq<word>)
    requires start < end ==> end + (end - start) % 2 <= |s|
    ensures |ws| == if start < end then (end - start + 1) / 2 else 0
    decreases if start < end then end - start else 0
  {
    if start >= end then [] else [WordAt(s, start)] + Words(s, start + 2, end)
  }

  function Sum(ws: seq<word>): nat {
    if ws == [] then 0 else ws[0] + Sum(ws[1..])
  }

  /** The upper half added into the lower half. */
  function Fold(sum: nat): nat {
    sum / U16 + sum % U16
  }

  function Checksum(ws: seq<word>): word {
    Fold(Fold((1 + Sum(ws)) % U32)) % U16
  }

  method RouteCsum(buf: array<byte>, start: nat, end: nat) returns (r: word)
    requires start < end ==> end + (end - start) % 2 <= buf.Length
    ensures r == Checksum(Words(buf[..], start, end))
  {
    var sum := AddWords(buf, start, end);
    sum := FoldOnce(sum);
    sum := FoldOnce(sum);
    r := sum % U16;
  }

  /** The loop: 32 bits that start from one. */
  method AddWords(buf: array<byte>, start: nat, end: nat) returns (sum: nat)
    requires start < end ==> end + (end - start) % 2 <= buf.Length
    ensures sum == (1 + Sum(Words(buf[..], start, end))) % U32
  {
    sum := 1;
    ghost var ws := Words(buf[..], start, end);
    var i := start;
    ghost var total: nat := 1;
    while i < end
      invariant start <= i && (i < end ==> end + (end - i) % 2 <= buf.Length)
      invariant sum == total % U32
      invariant 1 + Sum(ws) == total + Sum(Words(buf[..], i, end))
      decreases if i < end then end - i else 0
    {
      ghost var w := WordAt(buf[..], i);
      SumFirst(w, Words(buf[..], i + 2, end));
      WrapAdd(total, w);
      total := total + w;
      sum := (sum + (buf[i] as nat + buf[i + 1] as nat * 256)) % U32;
      i := i + 2;
    }
  }

  method FoldOnce(sum: nat) returns (r: nat)
    ensures r == Fold(sum)
  {
    LowHalf(sum);
    r := sum / U16 + And(sum, 0xFFFF);
  }

  lemma SumFirst(w: word, ws: seq<word>)
    ensures Sum([w] + ws) == w + Sum(ws)
  {
    assert ([w] + ws)[1..] == ws;
  }

  lemma WrapAdd(a: nat, b: nat)
    ensures (a % U32 + b) % U32 == (a + b) % U32
  {
  }

  // ---- What it computes ----

  lemma LowHalf(sum: nat)
    ensures And(sum, 0xFFFF) == sum % U16
  {
    assert Pow2(8) == 256;
    Pow2Sum(8, 8);
    AndMask(sum, 16);
  }

  /** Two folds bring 32 bits into 16 and keep the value modulo 65535, with 65535
      standing for the multiples other than zero. */
  lemma FoldTwice(t: nat)
    requires t < U32
    ensures Fold(Fold(t)) % U16 == if t == 0 then 0 else (t - 1) % 0xFFFF + 1
  {
    Residue(t, t / U16, t % U16, Fold(t) / U16, Fold(t) % U16);
  }

  lemma Residue(t: nat, a: nat, b: nat, c: nat, d: nat)
    requires t == a * U16 + b && a < U16 && b < U16 && a + b == c * U16 + d && d < U16
    ensures (c + d) % U16 == if t == 0 then 0 else (t - 1) % 0xFFFF + 1
  {
    assert c <= 1 && c + d < U16;
    if t > 0 {
      ModUnique(t - 1, 0xFFFF, a + c, c + d - 1);
    }
  }

  lemma {:induction false} SumBound(ws: seq<word>)
    ensures Sum(ws) <= 0xFFFF * |ws|
    ensures Sum(ws) == 0xFFFF * |ws| <==> forall w :: w in ws ==> w == 0xFFFF
  {
    if ws == [] {
    } else {
      SumBound(ws[1..]);
      if Sum(ws) == 0xFFFF * |ws| {
        forall w | w in ws ensures w == 0xFFFF {
          if w != ws[0] { assert w in ws[1..]; }
        }
      } else {
        if w :| w in ws[1..] && w != 0xFFFF {
          assert w in ws;
        } else {
          assert ws[0] in ws;
        }
      }
    }
  }

  /** 32 bits cannot overflow for up to 65536 words. With 65537 words they do, for
      a single input: every word is all ones. */
  lemma NoOverflow(ws: seq<word>)
    requires |ws| <= 0x1_0001
    ensures 1 + Sum(ws) < U32 <==> !(|ws| == 0x1_0001 && forall w :: w in ws ==> w == 0xFFFF)
  {
    SumBound(ws);
  }

  /** The closed form holds exactly as long as the 32-bit sum does not overflow;
      the word count is what an int index can reach. */
  lemma ClosedForm(ws: seq<word>)
    requires |ws| <= 0x4000_0000
    ensures Checksum(ws) == Sum(ws) % 0xFFFF + 1 <==> 1 + Sum(ws) < U32
    ensures 1 + Sum(ws) < U32 ==> Checksum(ws) != 0
  {
    SumBound(ws);
    FoldTwice((1 + Sum(ws)) % U32);
    Carries(1 + Sum(ws), (1 + Sum(ws)) / U32, (1 + Sum(ws)) % U32);
  }

  lemma Carries(n: nat, q: nat, t: nat)
    requires 0 < n == q * U32 + t && t < U32 && q < 0xFFFF
    ensures (if t == 0 then 0 else (t - 1) % 0xFFFF + 1) == (n - 1) % 0xFFFF + 1 <==> n < U32
  {
    if q > 0 && t > 0 {
      LostCarry(q, t - 1);
    }
  }

  /** Dropping fewer than 65535 multiples of 2^32 changes the residue. */
  lemma LostCarry(q: nat, t: nat)
    requires 0 < q < 0xFFFF
    ensures (q * U32 + t) % 0xFFFF != t % 0xFFFF
  {
    ModUnique(q * U32 + t, 0xFFFF, q * 0x1_0001 + (q + t) / 0xFFFF, (q + t) % 0xFFFF);
    ResidueOfDifference(t, q);
  }

  lemma {:induction false} SumTakeOut(ws: seq<word>, i: nat)
    requires i < |ws|
    ensures Sum(ws) == ws[i] + Sum(ws[..i] + ws[i + 1..])
  {
    if i == 0 {
      assert ws[..0] + ws[1..] == ws[1..];
    } else {
      SumTakeOut(ws[1..], i - 1);
      var rest := ws[..i] + ws[i + 1..];
      assert rest[1..] == ws[1..][..i - 1] + ws[1..][i..];
    }
  }

  lemma {:induction false} SameSum(ws: seq<word>, vs: seq<word>)
    requires multiset(ws) == multiset(vs)
    ensures Sum(ws) == Sum(vs)
  {
    if ws == [] {
      assert |multiset(vs)| == 0;
    } else {
      var i := IndexOf(vs, ws[0], ws);
      TakenOut(ws, 0);
      TakenOut(vs, i);
      assert ws[..0] + ws[1..] == ws[1..];
      SameSum(ws[1..], vs[..i] + vs[i + 1..]);
      SumTakeOut(vs, i);
    }
  }

  lemma IndexOf(vs: seq<word>, w: word, ws: seq<word>) returns (i: nat)
    requires multiset(ws) == multiset(vs) && w in ws
    ensures i < |vs| && vs[i] == w
  {
    assert w in multiset(vs);
    i :| i < |vs| && vs[i] == w;
  }

  /** The order of the words does not matter. */
  lemma OrderIrrelevant(ws: seq<word>, vs: seq<word>)
    requires multiset(ws) == multiset(vs)
    ensures Checksum(ws) == Checksum(vs)
  {
    SameSum(ws, vs);
  }

  lemma TakenOut(ws: seq<word>, i: nat)
    requires i < |ws|
    ensures multiset(ws[..i] + ws[i + 1..]) == multiset(ws) - multiset{ws[i]}
  {
    assert ws == ws[..i] + [ws[i]] + ws[i + 1..];
  }

  /** A single damaged word is noticed unless all zeros and all ones were
      exchanged. */
  lemma OneWordDamaged(ws: seq<word>, i: nat, w: word)
    requires i < |ws| <= 0x1_0000
    ensures Checksum(ws[i := w]) == Checksum(ws) <==> w == ws[i] || {w, ws[i]} == {0, 0xFFFF}
  {
    var vs := ws[i := w];
    NoOverflow(ws);
    NoOverflow(vs);
    ClosedForm(ws);
    ClosedForm(vs);
    SumTakeOut(ws, i);
    SumTakeOut(vs, i);
    assert ws[..i] + ws[i + 1..] == vs[..i] + vs[i + 1..];
    SameResidue(Sum(ws[..i] + ws[i + 1..]), ws[i], w);
  }

  lemma SameResidue(n: nat, a: word, b: word)
    ensures (a + n) % 0xFFFF == (b + n) % 0xFFFF <==> a == b || {a, b} == {0, 0xFFFF}
    ensures {a, b} == {b, a}
  {
    if a < b {
      ResidueOfDifference(a + n, b - a);
      if b - a == 0xFFFF { assert {a, b} == {0, 0xFFFF}; } else { assert a !in {0, 0xFFFF} || b !in {0, 0xFFFF}; }
    } else if b < a {
      ResidueOfDifference(b + n, a - b);
      if a - b == 0xFFFF { assert {a, b} == {0, 0xFFFF}; } else { assert a !in {0, 0xFFFF} || b !in {0, 0xFFFF}; }
    }
  }

  lemma ResidueOfDifference(m: nat, d: nat)
    requires 0 < d <= 0xFFFF
    ensures (m + d) % 0xFFFF == m % 0xFFFF <==> d == 0xFFFF
  {
  }
}
