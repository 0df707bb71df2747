/** File contents as Data messages, and back.

    A file goes out in chunks: a line (or as much of one as fits) for the record
    formats with lines, a 512-byte block for fixed records, a buffer full
    otherwise. Each chunk becomes one record, and each record received becomes a
    piece of the stored file. */
module DapTransfer {
  import opened Bits
  import opened DapAttributes
  import opened Wrappers

  const LF: byte := 10
  const CR: byte := 13
  const BLOCK := 512

  /** The record format, with implied line ends for variable records. */
  datatype Format = Variable(implied: bool) | Stream | Fixed | Undefined

  /** How many bytes a line read takes: up to a line feed, at most max. */
  function LineLength(s: seq<byte>, max: nat): (k: nat)
    ensures k <= |s| && k <= max
    ensures s != [] && max > 0 ==> k > 0
  {
    if s == [] || max == 0 then 0
    else if s[0] == LF then 1
    else 1 + LineLength(s[1..], max - 1)
  }

  /** The C string at the start of s. */
  function CString(s: seq<byte>): (t: seq<byte>)
    ensures |t| <= |s| && t == s[..|t|]
  {
    if s == [] || s[0] == 0 then [] else [s[0]] + CString(s[1..])
  }

  predicate EndsInLf(s: seq<byte>) {
    s != [] && s[|s| - 1] == LF
  }

  predicate NoNul(s: seq<byte>) {
    forall i :: 0 <= i < |s| ==> s[i] != 0
  }

  function Zeros(n: nat): (z: seq<byte>)
    ensures |z| == n && forall i :: 0 <= i < n ==> z[i] == 0
  {
    seq(n, _ => 0)
  }

  /** What a line read into n bytes takes: nothing counts as the end of the file. With
      room for the NUL only it takes no byte and succeeds, also at the end. */
  function LineRead(s: seq<byte>, n: int): (r: Option<nat>)
    ensures r.Some? ==> r.value <= |s|
  {
    if n <= 0 then None
    else if n == 1 then Some(0)
    else if s == [] then None
    else Some(LineLength(s, n - 1))
  }

  /** What a block read takes: no byte counts as the end of the file. */
  function BlockRead(s: seq<byte>, n: nat): (r: Option<nat>)
    ensures r.Some? ==> r.value <= |s|
  {
    var k := if |s| < n then |s| else n;
    if k == 0 then None else Some(k)
  }

  /** How much of the remaining file the next message carries, if there is one. */
  function NextChunk(fmt: Format, s: seq<byte>, dataSize: nat): (r: Option<nat>)
    ensures r.Some? ==> r.value <= |s|
  {
    match fmt
    case Variable(_) => LineRead(s, dataSize)
    case Stream => LineRead(s, dataSize - 2)
    case Fixed => BlockRead(s, BLOCK)
    case Undefined => BlockRead(s, dataSize)
  }

  /** The data sizes with which the sending loop gets on: a line needs a byte besides
      its NUL, a stream line two more for its ending. */
  predicate Enough(fmt: Format, dataSize: nat) {
    match fmt
    case Variable(_) => dataSize >= 2
    case Stream => dataSize >= 4
    case Fixed => true
    case Undefined => dataSize >= 1
  }

  /** The data sizes with which every line read takes nothing and succeeds. */
  predicate Spins(fmt: Format, dataSize: nat) {
    (fmt.Variable? && dataSize == 1) || (fmt == Stream && dataSize == 3)
  }

  /** How much of the remaining file one message carries, with enough room. */
  function ChunkLength(fmt: Format, s: seq<byte>, dataSize: nat): (k: nat)
    requires Enough(fmt, dataSize)
    ensures k <= |s| && (s != [] ==> k > 0)
    ensures NextChunk(fmt, s, dataSize) == if s == [] then None else Some(k)
  {
    match fmt
    case Variable(_) => LineLength(s, dataSize - 1)
    case Stream => LineLength(s, dataSize - 3)
    case Fixed => if |s| < BLOCK then |s| else BLOCK
    case Undefined => if |s| < dataSize then |s| else dataSize
  }

  /** A final line feed becomes CR LF. */
  function WithCr(t: seq<byte>): seq<byte> {
    if EndsInLf(t) then t[..|t| - 1] + [CR, LF] else t
  }

  /** The record sent for a chunk. */
  function RecordOf(fmt: Format, chunk: seq<byte>): seq<byte> {
    match fmt
    case Variable(implied) =>
      var t := CString(chunk);
      if implied && EndsInLf(t) then t[..|t| - 1] else t
    case Stream => WithCr(CString(chunk))
    case Fixed => chunk + (if |chunk| < BLOCK then Zeros(BLOCK - |chunk|) else [])
    case Undefined => chunk
  }

  function Records(fmt: Format, s: seq<byte>, dataSize: nat): seq<seq<byte>>
    requires Enough(fmt, dataSize)
  {
    if s == [] then []
    else
      var k := ChunkLength(fmt, s, dataSize);
      [RecordOf(fmt, s[..k])] + Records(fmt, s[k..], dataSize)
  }

  /** What the first n turns of the sending loop send, and whether it has ended then. */
  function Turns(fmt: Format, s: seq<byte>, dataSize: nat, n: nat): (r: (seq<seq<byte>>, bool)) {
    if n == 0 then ([], false)
    else
      match NextChunk(fmt, s, dataSize)
      case None => ([], true)
      case Some(k) =>
        var (rest, ended) := Turns(fmt, s[k..], dataSize, n - 1);
        ([RecordOf(fmt, s[..k])] + rest, ended)
  }

  /** Everything a loop that ends sends. */
  function Sent(fmt: Format, s: seq<byte>, dataSize: nat): seq<seq<byte>> {
    if Enough(fmt, dataSize) then Records(fmt, s, dataSize) else []
  }

  lemma {:induction false} EnoughEnds(fmt: Format, s: seq<byte>, dataSize: nat, n: nat)
    requires Enough(fmt, dataSize) && n > |s|
    ensures Turns(fmt, s, dataSize, n) == (Records(fmt, s, dataSize), true)
    decreases |s|
  {
    if s == [] {
      assert ChunkLength(fmt, s, dataSize) == 0;
    } else {
      EnoughEnds(fmt, s[ChunkLength(fmt, s, dataSize)..], dataSize, n - 1);
    }
  }

  function EmptyRecords(n: nat): (r: seq<seq<byte>>)
    ensures |r| == n && forall i :: 0 <= i < n ==> r[i] == []
  {
    seq(n, _ => [])
  }

  lemma {:induction false} SpinsOn(fmt: Format, s: seq<byte>, dataSize: nat, n: nat)
    requires Spins(fmt, dataSize)
    ensures Turns(fmt, s, dataSize, n) == (EmptyRecords(n), false)
  {
    if n == 0 {
      assert EmptyRecords(0) == [];
    } else {
      SpinsOn(fmt, s, dataSize, n - 1);
      assert s[0..] == s && s[..0] == [];
      assert [[]] + EmptyRecords(n - 1) == EmptyRecords(n);
    }
  }

  /** How the sending loop fares, for every format and data size: unless every line read
      takes nothing and succeeds it ends, and has sent the whole file or, without enough
      room, nothing; otherwise it sends empty records for ever. */
  lemma LoopOutcome(fmt: Format, s: seq<byte>, dataSize: nat)
    ensures Spins(fmt, dataSize) ==>
              forall n :: Turns(fmt, s, dataSize, n) == (EmptyRecords(n), false)
    ensures !Spins(fmt, dataSize) ==>
              forall n :: n > |s| ==> Turns(fmt, s, dataSize, n) == (Sent(fmt, s, dataSize), true)
  {
    if Spins(fmt, dataSize) {
      forall n ensures Turns(fmt, s, dataSize, n) == (EmptyRecords(n), false) { SpinsOn(fmt, s, dataSize, n); }
    } else if Enough(fmt, dataSize) {
      forall n | n > |s| ensures Turns(fmt, s, dataSize, n) == (Sent(fmt, s, dataSize), true) {
        EnoughEnds(fmt, s, dataSize, n);
      }
    }
  }

  /** Every turn carries something as long as there is something left. */
  ghost predicate GetsOn(fmt: Format, dataSize: nat) {
    forall s: seq<byte> :: s != [] ==> Advances(NextChunk(fmt, s, dataSize))
  }

  predicate Advances(chunk: Option<nat>) {
    chunk.Some? && chunk.value > 0
  }

  /** The data sizes with which the loop gets on are exactly those. */
  lemma EnoughExact(fmt: Format, dataSize: nat)
    ensures GetsOn(fmt, dataSize) <==> Enough(fmt, dataSize)
  {
    if Enough(fmt, dataSize) {
      forall s: seq<byte> | s != [] ensures Advances(NextChunk(fmt, s, dataSize)) {
        assert ChunkLength(fmt, s, dataSize) > 0;
      }
    } else {
      assert !Advances(NextChunk(fmt, [0], dataSize));
    }
  }

  predicate TrailingPair(d: seq<byte>) {
    |d| >= 2 && ((d[|d| - 2] == CR && d[|d| - 1] == LF) || (d[|d| - 2] == LF && d[|d| - 1] == CR))
  }

  /** A final CR LF or LF CR becomes a line feed. */
  function WithoutCr(d: seq<byte>): seq<byte> {
    if TrailingPair(d) then d[..|d| - 2] + [LF] else d
  }

  /** What a received record adds to the file. */
  function Stored(fmt: Format, d: seq<byte>): seq<byte> {
    match fmt
    case Variable(implied) => d + (if implied then [LF] else [])
    case Stream => WithoutCr(d)
    case Fixed => d
    case Undefined => d
  }

  function StoredAll(fmt: Format, records: seq<seq<byte>>): seq<byte> {
    if records == [] then [] else Stored(fmt, records[0]) + StoredAll(fmt, records[1..])
  }

  /** The file that arrives when s is sent. */
  function Arrived(fmt: Format, s: seq<byte>, dataSize: nat): seq<byte>
    requires Enough(fmt, dataSize)
  {
    StoredAll(fmt, Records(fmt, s, dataSize))
  }

  lemma {:induction false} ArrivedStep(fmt: Format, s: seq<byte>, dataSize: nat)
    requires Enough(fmt, dataSize) && s != []
    ensures var k := ChunkLength(fmt, s, dataSize);
      Arrived(fmt, s, dataSize) == Stored(fmt, RecordOf(fmt, s[..k])) + Arrived(fmt, s[k..], dataSize)
  {
    var k := ChunkLength(fmt, s, dataSize);
    var rest := Records(fmt, s[k..], dataSize);
    assert ([RecordOf(fmt, s[..k])] + rest)[1..] == rest;
  }

  // ---- Facts about lines ----

  /** A chunk of lines has no line feed except possibly at its end; it stops
      early only there or at the end of the file. */
  lemma {:induction false} LineShape(s: seq<byte>, max: nat)
    ensures var k := LineLength(s, max);
      && (forall i :: 0 <= i < k - 1 ==> s[i] != LF)
      && (k > 0 && s[k - 1] != LF ==> k == max || k == |s|)
  {
    if s == [] || max == 0 || s[0] == LF {
    } else {
      LineShape(s[1..], max - 1);
      var k := LineLength(s[1..], max - 1);
      forall i | 0 <= i < k ensures s[i] != LF {
        if i > 0 { assert s[i] == s[1..][i - 1]; }
      }
    }
  }

  lemma {:induction false} CStringShape(s: seq<byte>)
    ensures NoNul(CString(s))
    ensures CString(s) == s <==> NoNul(s)
  {
    if s == [] {
    } else {
      CStringShape(s[1..]);
      if s[0] != 0 {
        assert forall i :: 1 <= i < |s| ==> s[i] == s[1..][i - 1];
        if NoNul(s) {
          assert NoNul(s[1..]);
        } else {
          var i :| 0 <= i < |s| && s[i] == 0;
          assert s[1..][i - 1] == 0;
        }
        if CString(s) == s { assert CString(s)[1..] == s[1..]; }
      } else {
        assert CString(s) == [] != s;
      }
    }
  }

  lemma NoNulSplit(s: seq<byte>, k: nat)
    requires k <= |s|
    ensures NoNul(s) <==> NoNul(s[..k]) && NoNul(s[k..])
  {
    if NoNul(s[..k]) && NoNul(s[k..]) {
      forall i | 0 <= i < |s| ensures s[i] != 0 {
        if i < k { assert s[i] == s[..k][i]; } else { assert s[i] == s[k..][i - k]; }
      }
    }
  }

  // ---- Undefined format: every file arrives unchanged ----

  lemma UndefinedChunk(c: seq<byte>)
    ensures Stored(Undefined, RecordOf(Undefined, c)) == c
  {
  }

  lemma {:induction false} UndefinedIdentity(s: seq<byte>, dataSize: nat)
    requires dataSize >= 1
    ensures Arrived(Undefined, s, dataSize) == s
    decreases |s|
  {
    if s == [] {
      assert Records(Undefined, s, dataSize) == [];
    } else {
      var k := ChunkLength(Undefined, s, dataSize);
      ArrivedStep(Undefined, s, dataSize);
      UndefinedChunk(s[..k]);
      UndefinedIdentity(s[k..], dataSize);
      assert s[..k] + s[k..] == s;
    }
  }

  // ---- Stream format: exactly the files without NUL arrive unchanged ----

  /** Turning a final LF into CR LF and back restores every line, whatever else
      it ends in. */
  lemma CrRoundTrip(t: seq<byte>)
    requires forall i :: 0 <= i < |t| - 1 ==> t[i] != LF
    ensures WithoutCr(WithCr(t)) == t
  {
    if EndsInLf(t) {
      var d := t[..|t| - 1] + [CR, LF];
      assert d[|d| - 2] == CR && d[|d| - 1] == LF;
      assert d[..|d| - 2] == t[..|t| - 1];
    }
  }

  lemma {:induction false} StreamIdentity(s: seq<byte>, dataSize: nat)
    requires dataSize >= 4
    ensures |Arrived(Stream, s, dataSize)| <= |s|
    ensures Arrived(Stream, s, dataSize) == s <==> NoNul(s)
    decreases |s|
  {
    if s == [] {
    } else {
      var k := ChunkLength(Stream, s, dataSize);
      ArrivedStep(Stream, s, dataSize);
      LineShape(s, dataSize - 3);
      CrRoundTrip(CString(s[..k]));
      StreamIdentity(s[k..], dataSize);
      CutAfter(s, k, CString(s[..k]), Arrived(Stream, s[k..], dataSize));
      CStringShape(s[..k]);
      NoNulSplit(s, k);
    }
  }

  /** Two pieces no longer than the parts they stand for make up the whole only
      when each is its part. */
  lemma CutAfter(s: seq<byte>, k: nat, a: seq<byte>, b: seq<byte>)
    requires k <= |s| && |a| <= k && |b| <= |s| - k
    ensures a + b == s <==> a == s[..k] && b == s[k..]
  {
    if a + b == s {
      assert |a| == k;
      assert a == (a + b)[..k] && b == (a + b)[k..];
    }
  }

  // ---- Variable records without implied line ends ----

  lemma PlainChunk(c: seq<byte>)
    ensures Stored(Variable(false), RecordOf(Variable(false), c)) == CString(c)
  {
  }

  lemma {:induction false} PlainIdentity(s: seq<byte>, dataSize: nat)
    requires dataSize >= 2
    ensures |Arrived(Variable(false), s, dataSize)| <= |s|
    ensures Arrived(Variable(false), s, dataSize) == s <==> NoNul(s)
    decreases |s|
  {
    if s == [] {
    } else {
      var k := ChunkLength(Variable(false), s, dataSize);
      ArrivedStep(Variable(false), s, dataSize);
      PlainChunk(s[..k]);
      PlainIdentity(s[k..], dataSize);
      CutAfter(s, k, CString(s[..k]), Arrived(Variable(false), s[k..], dataSize));
      CStringShape(s[..k]);
      NoNulSplit(s, k);
    }
  }

  // ---- Variable records with implied line ends ----

  /** Every line, its line feed included, is at most max bytes, and the last one
      has its line feed. */
  predicate WholeLines(s: seq<byte>, max: nat) {
    forall i :: 0 <= i < |s| && (i == 0 || s[i - 1] == LF) ==> LfWithin(s, i, max)
  }

  predicate LfWithin(s: seq<byte>, i: nat, max: nat) {
    exists j :: i <= j < i + max && j < |s| && s[j] == LF
  }

  lemma WholeLinesSplit(s: seq<byte>, max: nat)
    requires s != [] && max > 0
    ensures var k := LineLength(s, max);
      WholeLines(s, max) <==> s[k - 1] == LF && WholeLines(s[k..], max)
  {
    var k := LineLength(s, max);
    LineShape(s, max);
    if WholeLines(s, max) {
      assert LfWithin(s, 0, max);
      WholeLinesTail(s, k, max);
    }
    if s[k - 1] == LF && WholeLines(s[k..], max) {
      WholeLinesJoin(s, k, max);
    }
  }

  lemma LfShift(s: seq<byte>, k: nat, i: nat, max: nat)
    requires k <= |s|
    ensures LfWithin(s[k..], i, max) <==> LfWithin(s, i + k, max)
  {
    if LfWithin(s, i + k, max) {
      var j :| i + k <= j < i + k + max && j < |s| && s[j] == LF;
      assert s[k..][j - k] == LF;
    }
    if LfWithin(s[k..], i, max) {
      var j :| i <= j < i + max && j < |s[k..]| && s[k..][j] == LF;
      assert s[j + k] == LF;
    }
  }

  lemma WholeLinesTail(s: seq<byte>, k: nat, max: nat)
    requires 0 < k <= |s| && s[k - 1] == LF && WholeLines(s, max)
    ensures WholeLines(s[k..], max)
  {
    forall i | 0 <= i < |s[k..]| && (i == 0 || s[k..][i - 1] == LF)
      ensures LfWithin(s[k..], i, max)
    {
      LfShift(s, k, i, max);
      assert s[i + k - 1] == LF;
    }
  }

  lemma WholeLinesJoin(s: seq<byte>, k: nat, max: nat)
    requires 0 < k <= |s| && k <= max && s[k - 1] == LF && WholeLines(s[k..], max)
    requires forall i :: 0 <= i < k - 1 ==> s[i] != LF
    ensures WholeLines(s, max)
  {
    forall i | 0 <= i < |s| && (i == 0 || s[i - 1] == LF)
      ensures LfWithin(s, i, max)
    {
      if i >= k {
        assert i == k || s[k..][i - k - 1] == LF;
        LfShift(s, k, i - k, max);
      }
    }
  }

  /** A chunk comes back with exactly one line feed at its end and nothing beyond
      the first NUL. */
  lemma ImpliedChunk(c: seq<byte>)
    requires c != []
    ensures var b := Stored(Variable(true), RecordOf(Variable(true), c));
      && NoNul(b)
      && (NoNul(c) ==> |b| >= |c| && (b == c <==> EndsInLf(c)) && (!EndsInLf(c) ==> |b| > |c|))
  {
    CStringShape(c);
    var t := CString(c);
    if EndsInLf(t) {
      assert t[..|t| - 1] + [LF] == t;
    }
  }

  lemma {:induction false} ImpliedIdentity(s: seq<byte>, dataSize: nat)
    requires dataSize >= 2
    ensures NoNul(Arrived(Variable(true), s, dataSize))
    ensures NoNul(s) ==> |Arrived(Variable(true), s, dataSize)| >= |s|
    ensures Arrived(Variable(true), s, dataSize) == s <==> NoNul(s) && WholeLines(s, dataSize - 1)
    decreases |s|
  {
    if s == [] {
    } else {
      var fmt := Variable(true);
      var k := ChunkLength(fmt, s, dataSize);
      var b, rest := Stored(fmt, RecordOf(fmt, s[..k])), Arrived(fmt, s[k..], dataSize);
      ArrivedStep(fmt, s, dataSize);
      ImpliedChunk(s[..k]);
      ImpliedIdentity(s[k..], dataSize);
      ImpliedPieces(s, k, b, rest, dataSize - 1);
    }
  }

  lemma ImpliedPieces(s: seq<byte>, k: nat, b: seq<byte>, rest: seq<byte>, max: nat)
    requires s != [] && max > 0 && k == LineLength(s, max)
    requires NoNul(b) && (NoNul(s[..k]) ==> |b| >= k && (b == s[..k] <==> EndsInLf(s[..k])))
    requires NoNul(rest) && (NoNul(s[k..]) ==> |rest| >= |s| - k)
    requires rest == s[k..] <==> NoNul(s[k..]) && WholeLines(s[k..], max)
    ensures NoNul(b + rest) && (NoNul(s) ==> |b + rest| >= |s|)
    ensures b + rest == s <==> NoNul(s) && WholeLines(s, max)
  {
    NoNulSplit(s, k);
    assert (b + rest)[..|b|] == b && (b + rest)[|b|..] == rest;
    NoNulSplit(b + rest, |b|);
    WholeLinesSplit(s, max);
    GrownPieces(s, k, b, rest);
  }

  /** Two pieces at least as long as the parts they stand for. */
  lemma GrownPieces(s: seq<byte>, k: nat, b: seq<byte>, rest: seq<byte>)
    requires k <= |s|
    ensures |b| >= k && |rest| >= |s| - k ==>
              |b + rest| >= |s| && (b + rest == s <==> b == s[..k] && rest == s[k..])
  {
    if |b| >= k && |rest| >= |s| - k && b + rest == s {
      assert |b| == k;
      assert b == (b + rest)[..k] && rest == (b + rest)[k..];
    }
    assert s[..k] + s[k..] == s;
  }

  // ---- Fixed records: the file padded to whole blocks ----

  function Padding(n: nat): nat {
    (BLOCK - n % BLOCK) % BLOCK
  }

  lemma PaddingStep(n: nat)
    ensures n < BLOCK ==> Padding(n) == if n == 0 then 0 else BLOCK - n
    ensures n >= BLOCK ==> Padding(n) == Padding(n - BLOCK)
  {
  }

  lemma {:induction false} FixedPadded(s: seq<byte>, dataSize: nat)
    ensures Arrived(Fixed, s, dataSize) == s + Zeros(Padding(|s|))
    decreases |s|
  {
    PaddingStep(|s|);
    if s == [] {
    } else {
      if |s| < BLOCK {
        LastBlockArrives(s, dataSize);
      } else {
        FixedPadded(s[BLOCK..], dataSize);
        ArrivedStep(Fixed, s, dataSize);
        SplitPadded(s, BLOCK, Zeros(Padding(|s|)));
      }
    }
  }

  lemma LastBlockArrives(s: seq<byte>, dataSize: nat)
    requires 0 < |s| < BLOCK
    ensures Arrived(Fixed, s, dataSize) == s + Zeros(BLOCK - |s|)
  {
    ArrivedStep(Fixed, s, dataSize);
    LastPadded(s);
    assert Arrived(Fixed, [], dataSize) == [];
  }

  lemma SplitPadded(s: seq<byte>, k: nat, z: seq<byte>)
    requires k <= |s|
    ensures s[..k] + (s[k..] + z) == s + z
  {
  }

  lemma LastPadded(s: seq<byte>)
    requires 0 < |s| < BLOCK
    ensures s[..|s|] == s && s[|s|..] == []
    ensures RecordOf(Fixed, s) + ([] + Zeros(0)) == s + Zeros(BLOCK - |s|)
  {
  }

  /** In fixed format the stored file is always whole blocks. The end block and first free
      byte that arrived at open cut it back to what was sent, exactly when the end block
      is below 2^31. */
  lemma FixedRecovers(s: seq<byte>, dataSize: nat, r: Remote, ascii: bool, image: bool, blocks: nat)
    requires |r.dataType| == 2
    ensures |Arrived(Fixed, s, dataSize)| % BLOCK == 0
    ensures Arrived(Fixed, s, dataSize) == s <==> |s| % BLOCK == 0
    ensures var a, n := Arrived(Fixed, s, dataSize), Announced(AfterOpen(r, ascii, image, blocks, |s|));
      n.Some? && 0 <= n.value <= |a| && a[..n.value] == s <==> LastBlock(|s|) < 0x8000_0000
  {
    FixedPadded(s, dataSize);
    LengthAnnounced(r, ascii, image, blocks, |s|);
  }
}
