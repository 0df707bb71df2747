/** One writer and one reader on a FIFO, without a lock.

    The unlocked put and get are cut into the steps that touch shared memory. A put
    loads the writer's index four times: with the reader's for the room, for the bytes
    that go before the end of the buffer, for the destination of the first of them, and
    once more to add to it. A get loads the writer's index once; its own index only it
    changes. The locked get goes on to compare the indices and, when they are equal, to
    start both over: two more steps of the reader, the second of which writes the
    writer's index. The two stores of that step are taken as one. Apart from that the
    steps of the two sides interleave arbitrarily. */
module KFifoShared {
  import opened Bits
  import opened Wrappers
  import opened KFifo

  /** A put that has loaded the index for its room, then one with the data it has room
      for: how many bytes go before the end of the buffer, where the first one goes,
      which have been copied so far, and the index it is going to add to. */
  datatype Writer =
    | WriterIdle
    | Looked(seen: nat)
    | Putting(data: seq<byte>, split: Option<nat>, dest: Option<nat>, copied: set<nat>, sum: Option<nat>)

  /** A get holds what it has read so far, and afterwards may have seen the indices
      equal. */
  datatype Reader = ReaderIdle | Getting(len: nat, got: map<nat, byte>) | SawEmpty

  datatype State = State(
    buf: seq<byte>,
    inIdx: nat,
    outIdx: nat,
    writer: Writer,
    reader: Reader,
    accepted: seq<byte>,    // all bytes of finished puts
    delivered: seq<byte>)   // all bytes of finished gets

  datatype Step =
    | PutLooks
    | PutBegins(offer: seq<byte>)
    | PutSplits
    | PutAims
    | PutCopies(j: nat)
    | PutSums
    | PutEnds
    | GetBegins(max: nat)
    | GetCopies(k: nat)
    | GetEnds
    | SeesEmpty
    | StartsOver

  predicate AllCopied(w: Writer)
    requires w.Putting?
  {
    forall j :: 0 <= j < |w.data| ==> j in w.copied
  }

  /** The cell byte j goes to. */
  function Target(w: Writer, j: nat): nat
    requires w.Putting? && w.split.Some? && w.dest.Some?
  {
    if j < w.split.value then w.dest.value + j else j - w.split.value
  }

  /** Each byte is copied once, those at the start of the buffer after the others. */
  predicate CanCopy(w: Writer, j: nat, size: nat) {
    && w.Putting? && w.split.Some? && w.dest.Some? && w.sum.None?
    && j < |w.data| && j !in w.copied && Target(w, j) < size
    && (j >= w.split.value ==> forall i: nat :: i < w.split.value ==> i in w.copied)
  }

  predicate Enabled(s: State, step: Step) {
    match step
    case PutLooks => s.writer.WriterIdle?
    case PutBegins(offer) => s.writer.Looked? && |offer| < U32
    case PutSplits => s.writer.Putting? && s.writer.split.None? && |s.buf| > 0
    case PutAims => s.writer.Putting? && s.writer.split.Some? && s.writer.dest.None? && |s.buf| > 0
    case PutCopies(j) => CanCopy(s.writer, j, |s.buf|)
    case PutSums => s.writer.Putting? && s.writer.dest.Some? && s.writer.sum.None? && AllCopied(s.writer)
    case PutEnds => s.writer.Putting? && s.writer.sum.Some?
    case GetBegins(max) => s.reader.ReaderIdle? && max < U32
    case GetCopies(k) => s.reader.Getting? && k < s.reader.len && k < |s.buf|
    case GetEnds => s.reader.Getting? && forall k :: 0 <= k < s.reader.len ==> k in s.reader.got
    case SeesEmpty => s.reader.ReaderIdle? && s.inIdx == s.outIdx
    case StartsOver => s.reader.SawEmpty?
  }

  function Next(s: State, step: Step): State
    requires Enabled(s, step)
  {
    match step
    case PutLooks => s.(writer := Looked(s.inIdx))
    case PutBegins(offer) =>
      var len := Min(|offer|, (|s.buf| - s.writer.seen + s.outIdx) % U32);
      s.(writer := Putting(offer[..len], None, None, {}, None))
    case PutSplits =>
      s.(writer := s.writer.(split := Some(Min(|s.writer.data|, |s.buf| - Slot(s.inIdx, |s.buf|)))))
    case PutAims =>
      s.(writer := s.writer.(dest := Some(Slot(s.inIdx, |s.buf|))))
    case PutCopies(j) =>
      s.(buf := s.buf[Target(s.writer, j) := s.writer.data[j]],
         writer := s.writer.(copied := s.writer.copied + {j}))
    case PutSums =>
      s.(writer := s.writer.(sum := Some(s.inIdx)))
    case PutEnds =>
      s.(inIdx := (s.writer.sum.value + |s.writer.data|) % U32,
         accepted := s.accepted + s.writer.data,
         writer := WriterIdle)
    case GetBegins(max) =>
      s.(reader := Getting(Min(max, (s.inIdx - s.outIdx) % U32), map[]))
    case GetCopies(k) =>
      s.(reader := s.reader.(got := s.reader.got[k := s.buf[Place(s.outIdx, k, |s.buf|)]]))
    case GetEnds =>
      s.(outIdx := (s.outIdx + s.reader.len) % U32,
         delivered := s.delivered + Collected(s.reader),
         reader := ReaderIdle)
    case SeesEmpty => s.(reader := SawEmpty)
    case StartsOver => s.(inIdx := 0, outIdx := 0, reader := ReaderIdle)
  }

  function Collected(r: Reader): (c: seq<byte>)
    requires r.Getting? && forall k :: 0 <= k < r.len ==> k in r.got
    ensures |c| == r.len
  {
    seq(r.len, k requires 0 <= k < r.len => r.got[k])
  }

  function Start(buf: seq<byte>): State {
    State(buf, 0, 0, WriterIdle, ReaderIdle, [], [])
  }

  // ---- Starting over ----

  /** What cell i will hold when the remaining copies of a put have been made, where a
      destination not yet taken is going to be zero. */
  function Final(buf: seq<byte>, w: Writer, i: nat): byte
    requires w.Putting? && w.split.Some? && i < |buf|
  {
    var l, a := w.split.value, if w.dest.Some? then w.dest.value else 0;
    if i + l < |w.data| && i + l !in w.copied then w.data[i + l]
    else if a <= i < a + l && i - a < |w.data| && i - a !in w.copied then w.data[i - a]
    else buf[i]
  }

  predicate Lands(buf: seq<byte>, w: Writer, i: nat)
    requires w.Putting? && w.split.Some?
  {
    i < |w.data| && i < |buf| ==> Final(buf, w, i) == w.data[i]
  }

  /** The remaining copies leave the bytes of a put where index zero looks for them. */
  ghost predicate LandsAtZero(buf: seq<byte>, w: Writer)
    requires w.Putting? && w.split.Some?
  {
    forall i: nat :: Lands(buf, w, i)
  }

  /** Starting over does no harm now: both indices are zero anyway; or the FIFO is still
      empty, and what a put has loaded so far still leads its bytes to the start of the
      buffer; or a put is about to store the writer's index again and the reader's does
      not change. */
  ghost predicate Harmless(s: State) {
    || (s.inIdx == 0 && s.outIdx == 0)
    || (s.inIdx == s.outIdx &&
        match s.writer
        case WriterIdle => true
        case Looked(seen) => seen <= |s.buf|
        case Putting(_, split, _, _, sum) => sum.None? && (split.Some? ==> LandsAtZero(s.buf, s.writer)))
    || (s.outIdx == 0 && s.writer.Putting? && s.writer.sum == Some(s.inIdx))
  }

  /** s is reached from first by some interleaving of steps, where the reader starts
      over only when that does no harm. */
  ghost predicate Runs(first: State, steps: seq<Step>, s: State)
    decreases |steps|
  {
    if steps == [] then s == first
    else
      && Enabled(first, steps[0])
      && (steps[0].StartsOver? ==> Harmless(first))
      && Runs(Next(first, steps[0]), steps[1..], s)
  }

  // ---- The invariant, in terms of bytes ever accepted and delivered ----
  //
  // The indices count bytes from a base on; starting over moves the base.

  function Cell(i: nat, size: nat): (c: nat)
    requires size > 0
    ensures c < size
  {
    i % size
  }

  predicate SizeOk(size: nat) {
    0 < size < U32
  }

  ghost predicate Indices(s: State, base: nat) {
    && SizeOk(|s.buf|) && IsPow2(|s.buf|)
    && |s.delivered| <= |s.accepted| <= |s.delivered| + |s.buf|
    && s.outIdx == (base + |s.delivered|) % U32
    && (s.inIdx == (base + |s.accepted|) % U32 || Restoring(s, base))
  }

  /** The writer's index was cleared under a put that is about to store it again. */
  ghost predicate Restoring(s: State, base: nat) {
    && s.inIdx == 0 && s.outIdx == 0 && s.writer.Putting?
    && s.writer.sum == Some((base + |s.accepted|) % U32)
    && (s.reader.Getting? ==> s.reader.len == 0)
  }

  ghost predicate Queued(s: State, base: nat)
    requires SizeOk(|s.buf|) && |s.delivered| <= |s.accepted|
  {
    && s.delivered == s.accepted[..|s.delivered|]
    && forall i :: |s.delivered| <= i < |s.accepted| ==> s.buf[Cell(base + i, |s.buf|)] == s.accepted[i]
  }

  /** The loads of a put are in order and stay within the buffer. */
  ghost predicate Shape(w: Writer, size: nat)
    requires w.Putting?
  {
    && (w.split.Some? ==> w.split.value <= |w.data|)
    && (w.dest.Some? ==> w.split.Some? && w.dest.value + w.split.value <= size)
    && (forall j :: j in w.copied ==> j < |w.data| && w.dest.Some?)
    && (forall i: nat, j :: w.split.Some? && i < w.split.value <= j && j in w.copied ==> i in w.copied)
    && (w.sum.Some? ==> w.dest.Some? && AllCopied(w))
  }

  /** What a put has loaded is what it would load now, and the copied bytes are in the
      cells behind the queue. */
  ghost predicate Fresh(s: State, base: nat)
    requires SizeOk(|s.buf|) && s.writer.Putting?
  {
    var w, at := s.writer, base + |s.accepted|;
    && (w.split.Some? ==> w.split.value == Min(|w.data|, |s.buf| - Cell(at, |s.buf|)))
    && (w.dest.Some? ==> w.dest.value == Cell(at, |s.buf|))
    && (w.sum.Some? ==> w.sum.value == at % U32)
    && forall j :: j in w.copied && j < |w.data| ==> s.buf[Cell(at + j, |s.buf|)] == w.data[j]
  }

  /** The indices were started over under a put that lands at zero all the same. */
  ghost predicate Stale(s: State)
    requires s.writer.Putting?
  {
    && s.inIdx == 0 && s.outIdx == 0 && |s.accepted| == |s.delivered|
    && s.writer.split.Some? && LandsAtZero(s.buf, s.writer)
    && (s.writer.sum.Some? ==> s.writer.sum.value == 0)
  }

  ghost predicate WriterOk(s: State, base: nat)
    requires SizeOk(|s.buf|)
  {
    match s.writer
    case WriterIdle => true
    case Looked(seen) =>
      seen == s.inIdx || (s.inIdx == 0 && s.outIdx == 0 && |s.accepted| == |s.delivered| && seen <= |s.buf|)
    case Putting(data, _, _, _, _) =>
      && |s.accepted| + |data| <= |s.delivered| + |s.buf|
      && Shape(s.writer, |s.buf|) && (Fresh(s, base) || Stale(s))
  }

  ghost predicate ReaderOk(s: State) {
    s.reader.Getting? ==>
      && |s.delivered| + s.reader.len <= |s.accepted|
      && forall k :: k in s.reader.got ==>
           k < s.reader.len && s.reader.got[k] == s.accepted[|s.delivered| + k]
  }

  ghost predicate Inv(s: State, base: nat) {
    Indices(s, base) && Queued(s, base) && WriterOk(s, base) && ReaderOk(s)
  }

  // ---- Arithmetic ----

  lemma PlaceIsCell(n: nat, j: nat, size: nat)
    requires SizeOk(size) && IsPow2(size) && j < size
    ensures Place(n % U32, j, size) == Cell(n + j, size)
  {
    SlotIsCell(n, size);
    ModMove(n, j, size);
  }

  lemma SlotIsCell(n: nat, size: nat)
    requires SizeOk(size) && IsPow2(size)
    ensures Slot(n % U32, size) == Cell(n, size)
  {
    SlotBound(n % U32, size);
    SlotIsMod(n % U32, size);
    WrapKeepsSlot(n, size);
  }

  lemma CellsApart(a: nat, b: nat, size: nat)
    requires size > 0 && a < b < a + size
    ensures Cell(a, size) != Cell(b, size)
  {
    ModDistinct(a, b, size);
  }

  lemma Counts(p: nat, c: nat, size: nat)
    requires size < U32 && c <= p <= c + size
    ensures (p % U32 - c % U32) % U32 == p - c
    ensures (size - p % U32 + c % U32) % U32 == size - (p - c)
  {
    ModUnique(p % U32 - c % U32, U32, c / U32 - p / U32, p - c);
    FreeSpace(p % U32, c % U32, size);
  }

  lemma WrapAdd(n: nat, len: nat)
    ensures (n % U32 + len) % U32 == (n + len) % U32
  {
  }

  /** Equal indices mean an empty queue, unless the writer's is about to be restored. */
  lemma EqualIsEmpty(s: State, base: nat)
    requires Indices(s, base) && s.inIdx == s.outIdx
    ensures |s.accepted| == |s.delivered| || (s.inIdx == 0 && Restoring(s, base))
  {
    Counts(base + |s.accepted|, base + |s.delivered|, |s.buf|);
  }

  lemma OtherCell(buf: seq<byte>, a: nat, b: nat, x: byte)
    requires a != b && a < b + |buf| && b < a + |buf|
    ensures buf[Cell(b, |buf|) := x][Cell(a, |buf|)] == buf[Cell(a, |buf|)]
  {
    if a < b { CellsApart(a, b, |buf|); } else { CellsApart(b, a, |buf|); }
  }

  lemma CellOfZero(n: nat, j: nat, size: nat)
    requires n % U32 == 0 && SizeOk(size) && IsPow2(size) && j < size
    ensures Cell(n + j, size) == j
  {
    WrapKeepsSlot(n, size);
    assert n % size == 0;
    ModMove(n, j, size);
  }

  lemma SlotOfZero(size: nat)
    requires size > 0
    ensures Slot(0, size) == 0
  {
    assert And(0, size - 1) == 0;
  }

  /** Where a fresh put copies its bytes. */
  lemma TargetIsCell(s: State, base: nat, j: nat)
    requires SizeOk(|s.buf|) && s.writer.Putting? && Fresh(s, base)
    requires s.writer.split.Some? && s.writer.dest.Some? && j < |s.writer.data| <= |s.buf|
    ensures Target(s.writer, j) == Cell(base + |s.accepted| + j, |s.buf|)
  {
    ModMove(base + |s.accepted|, j, |s.buf|);
  }

  // ---- Every step keeps the invariant: the writer ----

  lemma PutLooksKeeps(s: State, base: nat, step: Step)
    requires Inv(s, base) && Enabled(s, step) && step.PutLooks?
    ensures Inv(Next(s, step), base)
  {
  }

  /** A put finds no more room than there is. */
  lemma OnlyRoom(s: State, base: nat)
    requires Indices(s, base) && s.writer.Looked? && WriterOk(s, base)
    ensures (|s.buf| - s.writer.seen + s.outIdx) % U32 <= |s.delivered| + |s.buf| - |s.accepted|
  {
    if s.writer.seen == s.inIdx {
      Counts(base + |s.accepted|, base + |s.delivered|, |s.buf|);
    } else {
      ModUnique(|s.buf| - s.writer.seen, U32, 0, |s.buf| - s.writer.seen);
    }
  }

  lemma PutBeginsKeeps(s: State, base: nat, step: Step)
    requires Inv(s, base) && Enabled(s, step) && step.PutBegins?
    ensures Inv(Next(s, step), base)
  {
    OnlyRoom(s, base);
  }

  lemma PutSplitsKeeps(s: State, base: nat, step: Step)
    requires Inv(s, base) && Enabled(s, step) && step.PutSplits?
    ensures Inv(Next(s, step), base)
  {
    SlotIsCell(base + |s.accepted|, |s.buf|);
  }

  /** A destination taken with the indices at zero is the one that is reckoned with. */
  lemma AimFinal(buf: seq<byte>, w: Writer, i: nat)
    requires w.Putting? && w.split.Some? && w.dest.None? && i < |buf|
    ensures Final(buf, w.(dest := Some(0)), i) == Final(buf, w, i)
  {
  }

  lemma AimLands(buf: seq<byte>, w: Writer)
    requires w.Putting? && w.split.Some? && w.dest.None? && LandsAtZero(buf, w)
    ensures LandsAtZero(buf, w.(dest := Some(0)))
  {
    forall i: nat ensures Lands(buf, w.(dest := Some(0)), i) {
      assert Lands(buf, w, i);
      if i < |w.data| && i < |buf| { AimFinal(buf, w, i); }
    }
  }

  lemma AimStale(s: State)
    requires s.writer.Putting? && Stale(s) && Shape(s.writer, |s.buf|) && Enabled(s, PutAims)
    requires |s.writer.data| <= |s.buf|
    ensures Next(s, PutAims).writer == s.writer.(dest := Some(0))
    ensures Stale(Next(s, PutAims)) && Shape(Next(s, PutAims).writer, |s.buf|)
  {
    SlotOfZero(|s.buf|);
    AimLands(s.buf, s.writer);
  }

  lemma AimFresh(s: State, base: nat)
    requires Indices(s, base) && s.writer.Putting? && s.writer.sum.None? && Fresh(s, base)
    requires Shape(s.writer, |s.buf|) && Enabled(s, PutAims)
    ensures Fresh(Next(s, PutAims), base) && Shape(Next(s, PutAims).writer, |s.buf|)
  {
    SlotIsCell(base + |s.accepted|, |s.buf|);
  }

  lemma PutAimsKeeps(s: State, base: nat, step: Step)
    requires Inv(s, base) && Enabled(s, step) && step.PutAims?
    ensures Inv(Next(s, step), base)
  {
    assert step == PutAims;
    if Fresh(s, base) { AimFresh(s, base); } else { AimStale(s); }
  }

  /** A copy does not change what the copies will leave. */
  lemma FinalKept(buf: seq<byte>, w: Writer, j: nat, i: nat)
    requires CanCopy(w, j, |buf|) && Shape(w, |buf|) && i < |buf|
    ensures Final(buf[Target(w, j) := w.data[j]], w.(copied := w.copied + {j}), i) == Final(buf, w, i)
  {
  }

  lemma CopiedShape(w: Writer, j: nat, size: nat)
    requires CanCopy(w, j, size) && Shape(w, size)
    ensures Shape(w.(copied := w.copied + {j}), size)
  {
  }

  lemma CopyStale(s: State, j: nat)
    requires s.writer.Putting? && Stale(s) && Shape(s.writer, |s.buf|) && Enabled(s, PutCopies(j))
    ensures Stale(Next(s, PutCopies(j)))
  {
    var t := Next(s, PutCopies(j));
    forall i: nat ensures Lands(t.buf, t.writer, i) {
      assert Lands(s.buf, s.writer, i);
      if i < |s.buf| { FinalKept(s.buf, s.writer, j, i); }
    }
  }

  lemma CopyFresh(s: State, base: nat, j: nat)
    requires SizeOk(|s.buf|) && s.writer.Putting? && Fresh(s, base) && Shape(s.writer, |s.buf|)
    requires |s.writer.data| <= |s.buf| && Enabled(s, PutCopies(j))
    ensures Fresh(Next(s, PutCopies(j)), base)
  {
    var t, at := Next(s, PutCopies(j)), base + |s.accepted|;
    TargetIsCell(s, base, j);
    forall k | k in t.writer.copied && k < |t.writer.data| ensures t.buf[Cell(at + k, |t.buf|)] == t.writer.data[k] {
      if k != j { OtherCell(s.buf, at + k, at + j, s.writer.data[j]); }
    }
  }

  lemma QueuedKept(s: State, base: nat, j: nat, i: nat)
    requires Indices(s, base) && s.writer.Putting? && Fresh(s, base)
    requires |s.accepted| + |s.writer.data| <= |s.delivered| + |s.buf| && Enabled(s, PutCopies(j))
    requires |s.delivered| <= i < |s.accepted|
    ensures Next(s, PutCopies(j)).buf[Cell(base + i, |s.buf|)] == s.buf[Cell(base + i, |s.buf|)]
  {
    TargetIsCell(s, base, j);
    OtherCell(s.buf, base + i, base + |s.accepted| + j, s.writer.data[j]);
  }

  lemma CopyQueued(s: State, base: nat, j: nat)
    requires Indices(s, base) && Queued(s, base) && s.writer.Putting?
    requires |s.accepted| + |s.writer.data| <= |s.delivered| + |s.buf|
    requires Fresh(s, base) || Stale(s)
    requires Enabled(s, PutCopies(j))
    ensures Queued(Next(s, PutCopies(j)), base)
  {
    var t := Next(s, PutCopies(j));
    forall i | |s.delivered| <= i < |s.accepted| ensures t.buf[Cell(base + i, |t.buf|)] == s.accepted[i] {
      QueuedKept(s, base, j, i);
    }
  }

  lemma PutCopiesKeeps(s: State, base: nat, step: Step)
    requires Inv(s, base) && Enabled(s, step) && step.PutCopies?
    ensures Inv(Next(s, step), base)
  {
    CopyQueued(s, base, step.j);
    CopiedShape(s.writer, step.j, |s.buf|);
    if Fresh(s, base) { CopyFresh(s, base, step.j); } else { CopyStale(s, step.j); }
  }

  lemma SumLands(buf: seq<byte>, w: Writer, sum: nat)
    requires w.Putting? && w.split.Some? && LandsAtZero(buf, w)
    ensures LandsAtZero(buf, w.(sum := Some(sum)))
  {
    var v := w.(sum := Some(sum));
    forall i: nat ensures Lands(buf, v, i) {
      assert Lands(buf, w, i);
    }
  }

  lemma PutSumsKeeps(s: State, base: nat, step: Step)
    requires Inv(s, base) && Enabled(s, step) && step.PutSums?
    ensures Inv(Next(s, step), base)
  {
    assert Next(s, step) == s.(writer := s.writer.(sum := Some(s.inIdx)));
    if Stale(s) { SumLands(s.buf, s.writer, s.inIdx); }
  }

  /** The bytes of a put that has copied them all stand behind the queue. */
  lemma AllInPlace(s: State, base: nat, j: nat)
    requires Inv(s, base) && s.writer.Putting? && s.writer.sum.Some? && j < |s.writer.data|
    ensures s.buf[Cell(base + |s.accepted| + j, |s.buf|)] == s.writer.data[j]
  {
    assert j in s.writer.copied;
    if !Fresh(s, base) {
      ZeroCells(s, base, j);
      assert Lands(s.buf, s.writer, j);
    }
  }

  /** With the indices at zero and nothing queued, the cells behind the queue are the
      first ones. */
  lemma ZeroCells(s: State, base: nat, j: nat)
    requires Indices(s, base) && s.inIdx == 0 && s.outIdx == 0 && |s.accepted| == |s.delivered| && j < |s.buf|
    ensures Cell(base + |s.accepted| + j, |s.buf|) == j && (base + |s.accepted|) % U32 == 0
  {
    CellOfZero(base + |s.accepted|, j, |s.buf|);
  }

  lemma SumIsIndex(s: State, base: nat)
    requires Inv(s, base) && s.writer.Putting? && s.writer.sum.Some?
    ensures s.writer.sum.value == (base + |s.accepted|) % U32
  {
    if !Fresh(s, base) { ZeroCells(s, base, 0); }
  }

  lemma EndQueued(s: State, base: nat)
    requires Inv(s, base) && Enabled(s, PutEnds)
    ensures |s.accepted| + |s.writer.data| <= |s.delivered| + |s.buf| && Queued(Next(s, PutEnds), base)
  {
    var p, t := |s.accepted|, Next(s, PutEnds);
    forall i | |s.delivered| <= i < |t.accepted| ensures t.buf[Cell(base + i, |t.buf|)] == t.accepted[i] {
      if i >= p {
        AllInPlace(s, base, i - p);
        assert base + p + (i - p) == base + i;
      }
    }
    assert t.delivered == t.accepted[..|t.delivered|];
  }

  lemma PutEndsKeeps(s: State, base: nat, step: Step)
    requires Inv(s, base) && Enabled(s, step) && step.PutEnds?
    ensures Inv(Next(s, step), base)
  {
    assert step == PutEnds;
    EndQueued(s, base);
    SumIsIndex(s, base);
    WrapAdd(base + |s.accepted|, |s.writer.data|);
  }

  // ---- The reader ----

  /** A get finds no more than there is. */
  lemma OnlyQueued(s: State, base: nat)
    requires Indices(s, base)
    ensures (s.inIdx - s.outIdx) % U32 <= |s.accepted| - |s.delivered|
    ensures s.inIdx == 0 && s.outIdx == 0 ==> (s.inIdx - s.outIdx) % U32 == 0
  {
    Counts(base + |s.accepted|, base + |s.delivered|, |s.buf|);
  }

  lemma GetBeginsKeeps(s: State, base: nat, step: Step)
    requires Inv(s, base) && Enabled(s, step) && step.GetBegins?
    ensures Inv(Next(s, step), base)
  {
    OnlyQueued(s, base);
  }

  lemma GetCopiesKeeps(s: State, base: nat, step: Step)
    requires Inv(s, base) && Enabled(s, step) && step.GetCopies?
    ensures Inv(Next(s, step), base)
  {
    PlaceIsCell(base + |s.delivered|, step.k, |s.buf|);
  }

  lemma GetEndsKeeps(s: State, base: nat, step: Step)
    requires Inv(s, base) && Enabled(s, step) && step.GetEnds?
    ensures Inv(Next(s, step), base)
  {
    assert step == GetEnds;
    DeliveredMore(s, base);
    WrapAdd(base + |s.delivered|, s.reader.len);
  }

  lemma DeliveredMore(s: State, base: nat)
    requires SizeOk(|s.buf|) && |s.delivered| <= |s.accepted| && Queued(s, base) && ReaderOk(s)
    requires Enabled(s, GetEnds)
    ensures |Next(s, GetEnds).delivered| == |s.delivered| + s.reader.len <= |s.accepted|
    ensures Queued(Next(s, GetEnds), base)
  {
    var t := Next(s, GetEnds);
    CollectedIs(s);
    assert t.delivered == t.accepted[..|t.delivered|];
  }

  lemma CollectedIs(s: State)
    requires |s.delivered| <= |s.accepted| && ReaderOk(s) && Enabled(s, GetEnds)
    ensures Collected(s.reader) == s.accepted[|s.delivered|..|s.delivered| + s.reader.len]
  {
    forall k | 0 <= k < s.reader.len ensures Collected(s.reader)[k] == s.accepted[|s.delivered| + k] {
      assert k in s.reader.got;
    }
  }

  /** A base from which counting n bytes leads back to index zero. */
  function NewBase(n: nat): nat {
    n * (U32 - 1)
  }

  lemma NewBaseIsZero(n: nat)
    ensures (NewBase(n) + n) % U32 == 0
  {
    assert NewBase(n) + n == n * U32;
    ModUnique(NewBase(n) + n, U32, n, 0);
  }

  /** The base after starting over: it moves unless the writer's index is cleared under a
      put that stores it again, or both indices are zero already. */
  function BaseAfter(s: State, base: nat): nat {
    if s.inIdx == s.outIdx && s.inIdx != 0 then NewBase(|s.accepted|) else base
  }

  lemma StartsOverKeeps(s: State, base: nat, step: Step)
    requires Inv(s, base) && Enabled(s, step) && step.StartsOver? && Harmless(s)
    ensures Inv(Next(s, step), BaseAfter(s, base))
  {
    NewBaseIsZero(|s.accepted|);
    if s.inIdx == s.outIdx && s.inIdx != 0 { EqualIsEmpty(s, base); }
  }

  lemma StepKeeps(s: State, base: nat, step: Step) returns (after: nat)
    requires Inv(s, base) && Enabled(s, step) && (step.StartsOver? ==> Harmless(s))
    ensures Inv(Next(s, step), after) && |Next(s, step).buf| == |s.buf|
  {
    after := base;
    match step
    case PutLooks => PutLooksKeeps(s, base, step);
    case PutBegins(_) => PutBeginsKeeps(s, base, step);
    case PutSplits => PutSplitsKeeps(s, base, step);
    case PutAims => PutAimsKeeps(s, base, step);
    case PutCopies(_) => PutCopiesKeeps(s, base, step);
    case PutSums => PutSumsKeeps(s, base, step);
    case PutEnds => PutEndsKeeps(s, base, step);
    case GetBegins(_) => GetBeginsKeeps(s, base, step);
    case GetCopies(_) => GetCopiesKeeps(s, base, step);
    case GetEnds => GetEndsKeeps(s, base, step);
    case SeesEmpty =>
    case StartsOver =>
      StartsOverKeeps(s, base, step);
      after := BaseAfter(s, base);
  }

  lemma {:induction false} RunKeeps(first: State, base: nat, steps: seq<Step>, s: State) returns (after: nat)
    requires Inv(first, base) && Runs(first, steps, s)
    ensures Inv(s, after) && |s.buf| == |first.buf|
    decreases |steps|
  {
    if steps == [] {
      after := base;
    } else {
      after := StepKeeps(first, base, steps[0]);
      after := RunKeeps(Next(first, steps[0]), after, steps[1..], s);
    }
  }

  // ---- What the invariant means ----

  /** What has been delivered is a prefix of what has been accepted, the rest stands in
      the buffer from the reader's index on, and no byte is copied into a slot that is
      being read. */
  ghost predicate Safe(s: State) {
    && |s.buf| > 0 && s.delivered <= s.accepted && |s.accepted| <= |s.delivered| + |s.buf|
    && (forall i :: 0 <= i < |s.accepted| - |s.delivered| && i < |s.buf| ==>
          s.buf[Place(s.outIdx, i, |s.buf|)] == s.accepted[|s.delivered| + i])
    && (forall j: nat, k: nat :: CanCopy(s.writer, j, |s.buf|) && s.reader.Getting? && k < s.reader.len ==>
          k < |s.buf| && Target(s.writer, j) != Place(s.outIdx, k, |s.buf|))
  }

  lemma InvIsSafe(s: State, base: nat)
    requires Inv(s, base)
    ensures Safe(s)
  {
    forall i | 0 <= i < |s.accepted| - |s.delivered| && i < |s.buf|
      ensures s.buf[Place(s.outIdx, i, |s.buf|)] == s.accepted[|s.delivered| + i]
    {
      QueuedAt(s, base, i);
    }
    forall j: nat, k: nat | CanCopy(s.writer, j, |s.buf|) && s.reader.Getting? && k < s.reader.len
      ensures k < |s.buf| && Target(s.writer, j) != Place(s.outIdx, k, |s.buf|)
    {
      SlotsApart(s, base, j, k);
    }
  }

  lemma QueuedAt(s: State, base: nat, i: nat)
    requires Indices(s, base) && Queued(s, base) && |s.delivered| + i < |s.accepted| && i < |s.buf|
    ensures s.buf[Place(s.outIdx, i, |s.buf|)] == s.accepted[|s.delivered| + i]
  {
    PlaceIsCell(base + |s.delivered|, i, |s.buf|);
    assert base + (|s.delivered| + i) == base + |s.delivered| + i;
  }

  lemma SlotsApart(s: State, base: nat, j: nat, k: nat)
    requires Indices(s, base) && WriterOk(s, base) && ReaderOk(s)
    requires CanCopy(s.writer, j, |s.buf|) && s.reader.Getting? && k < s.reader.len
    ensures k < |s.buf| && Target(s.writer, j) != Place(s.outIdx, k, |s.buf|)
  {
    assert Fresh(s, base);
    TargetIsCell(s, base, j);
    PlaceIsCell(base + |s.delivered|, k, |s.buf|);
    CellsApart(base + |s.delivered| + k, base + |s.accepted| + j, |s.buf|);
  }

  lemma StartInv(buf: seq<byte>)
    requires SizeOk(|buf|) && IsPow2(|buf|)
    ensures Inv(Start(buf), 0)
  {
  }

  /** However the steps of one writer and one reader interleave, with any harmless
      starting over among them, the FIFO stays safe. */
  lemma LockFree(buf: seq<byte>, steps: seq<Step>, s: State)
    requires SizeOk(|buf|) && IsPow2(|buf|)
    requires Runs(Start(buf), steps, s)
    ensures Safe(s) && |s.buf| == |buf|
  {
    StartInv(buf);
    var base := RunKeeps(Start(buf), 0, steps, s);
    InvIsSafe(s, base);
  }
}
