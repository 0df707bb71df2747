/** When the reader may start the indices over: the exact condition, and a run that
    leads to a state where it is not met. Starting over is one step here: the reader's
    and the writer's index become zero at once. */
module KFifoRestart {
  import opened Bits
  import opened Wrappers
  import opened KFifo
  import opened KFifoShared

  // ---- Extending runs ----

  lemma {:induction false} Then(first: State, steps: seq<Step>, s: State, step: Step)
    requires Runs(first, steps, s) && Enabled(s, step) && !step.StartsOver?
    ensures Runs(first, steps + [step], Next(s, step))
    decreases |steps|
  {
    if steps == [] {
      assert [step][1..] == [];
    } else {
      Then(Next(first, steps[0]), steps[1..], s, step);
      assert (steps + [step])[1..] == steps[1..] + [step];
    }
  }

  lemma Take(first: State, steps: seq<Step>, s: State, step: Step) returns (more: seq<Step>, t: State)
    requires Runs(first, steps, s) && Enabled(s, step) && !step.StartsOver?
    ensures Runs(first, more, t) && t == Next(s, step)
  {
    Then(first, steps, s, step);
    more, t := steps + [step], Next(s, step);
  }

  // ---- Finishing a put ----

  /** The copies of a put stay within the buffer, also of one with too much data. */
  ghost predicate Within(w: Writer, size: nat) {
    && w.Putting? && Shape(w, size)
    && (w.split.Some? ==> w.split.value <= size && |w.data| <= w.split.value + size)
    && (w.split.None? ==> |w.data| <= 2 * size)
  }

  /** The first n bytes of a put that are not copied yet. */
  lemma {:induction false} CopyRest(first: State, steps: seq<Step>, s: State, n: nat) returns (more: seq<Step>, t: State)
    requires Runs(first, steps, s) && Within(s.writer, |s.buf|)
    requires s.writer.split.Some? && s.writer.dest.Some? && s.writer.sum.None? && n <= |s.writer.data|
    ensures Runs(first, more, t) && |t.buf| == |s.buf| && t.writer.Putting?
    ensures t == s.(buf := t.buf, writer := s.writer.(copied := t.writer.copied))
    ensures Within(t.writer, |t.buf|)
    ensures forall i: nat :: i < |s.buf| ==> Final(t.buf, t.writer, i) == Final(s.buf, s.writer, i)
    ensures forall j: nat :: j in t.writer.copied <==> j in s.writer.copied || j < n
  {
    if n == 0 {
      more, t := steps, s;
    } else {
      more, t := CopyRest(first, steps, s, n - 1);
      if n - 1 !in s.writer.copied {
        var u := t;
        more, t := Take(first, more, u, PutCopies(n - 1));
        CopiedShape(u.writer, n - 1, |u.buf|);
        forall i: nat | i < |s.buf| ensures Final(t.buf, t.writer, i) == Final(s.buf, s.writer, i) {
          FinalKept(u.buf, u.writer, n - 1, i);
        }
      }
    }
  }

  /** With the writer's index at zero the destination is taken as zero. */
  lemma Aim(first: State, steps: seq<Step>, s: State) returns (more: seq<Step>, t: State)
    requires Runs(first, steps, s) && s.inIdx == 0 && |s.buf| > 0 && Within(s.writer, |s.buf|)
    ensures Runs(first, more, t) && t == s.(writer := t.writer) && Within(t.writer, |t.buf|)
    ensures t.writer.split.Some? && t.writer.dest.Some?
    ensures t.writer.data == s.writer.data && t.writer.sum == s.writer.sum
    ensures s.writer.split.Some? ==>
              forall i: nat :: i < |s.buf| ==> Final(t.buf, t.writer, i) == Final(s.buf, s.writer, i)
  {
    SlotOfZero(|s.buf|);
    more, t := steps, s;
    if s.writer.split.None? { more, t := Take(first, more, t, PutSplits); }
    if s.writer.dest.None? {
      var u := t;
      more, t := Take(first, more, u, PutAims);
      forall i: nat | i < |s.buf| ensures Final(t.buf, t.writer, i) == Final(u.buf, u.writer, i) {
        AimFinal(u.buf, u.writer, i);
      }
    }
  }

  /** Where the writer's index gets when the put under way ends after starting over. */
  function IndexAfter(w: Writer): nat {
    if w.Putting? then ((if w.sum.Some? then w.sum.value else 0) + |w.data|) % U32 else 0
  }

  function LenOf(w: Writer): nat {
    if w.Putting? then |w.data| else 0
  }

  /** A put under way runs to its end while the writer's index is zero. */
  lemma FinishPut(first: State, steps: seq<Step>, s: State) returns (more: seq<Step>, t: State)
    requires Runs(first, steps, s) && s.inIdx == 0 && |s.buf| > 0 && Within(s.writer, |s.buf|)
    ensures Runs(first, more, t) && |t.buf| == |s.buf|
    ensures t == s.(buf := t.buf, writer := WriterIdle, accepted := s.accepted + s.writer.data,
                    inIdx := IndexAfter(s.writer))
    ensures s.writer.sum.None? && s.writer.split.Some? ==>
              forall i: nat :: i < |s.buf| ==> t.buf[i] == Final(s.buf, s.writer, i)
  {
    if s.writer.sum.None? {
      var u, v;
      more, u := Aim(first, steps, s);
      more, v := CopyRest(first, more, u, |u.writer.data|);
      more, t := Take(first, more, v, PutSums);
      forall i: nat | s.writer.split.Some? && i < |s.buf| ensures t.buf[i] == Final(s.buf, s.writer, i) {
        assert Final(v.buf, v.writer, i) == v.buf[i];
      }
    } else {
      more, t := steps, s;
    }
    more, t := Take(first, more, t, PutEnds);
  }

  /** Whatever the writer is doing comes to an end; without a put nothing is added. */
  lemma FinishWriter(first: State, steps: seq<Step>, s: State) returns (more: seq<Step>, t: State)
    requires Runs(first, steps, s) && s.inIdx == 0 && |s.buf| > 0
    requires s.writer.Putting? ==> Within(s.writer, |s.buf|)
    ensures Runs(first, more, t) && |t.buf| == |s.buf|
    ensures t.writer.WriterIdle? && t.reader == s.reader && t.outIdx == s.outIdx && t.delivered == s.delivered
    ensures t.inIdx == IndexAfter(s.writer)
    ensures t.accepted == s.accepted + if s.writer.Putting? then s.writer.data else []
  {
    more, t := steps, s;
    if s.writer.Looked? {
      more, t := Take(first, more, t, PutBegins([]));
      assert t.writer == Putting([], None, None, {}, None);
    }
    if !s.writer.WriterIdle? { more, t := FinishPut(first, more, t); }
  }

  // ---- Reading on ----

  lemma GetOne(first: State, steps: seq<Step>, s: State) returns (more: seq<Step>, t: State)
    requires Runs(first, steps, s) && |s.buf| > 0 && s.reader.ReaderIdle?
    requires (s.inIdx - s.outIdx) % U32 > 0
    ensures Slot(s.outIdx, |s.buf|) < |s.buf| && Runs(first, more, t)
    ensures t == s.(outIdx := (s.outIdx + 1) % U32, delivered := s.delivered + [s.buf[Slot(s.outIdx, |s.buf|)]])
  {
    SlotBound(s.outIdx, |s.buf|);
    more, t := Take(first, steps, s, GetBegins(1));
    more, t := Take(first, more, t, GetCopies(0));
    assert Collected(t.reader) == [s.buf[Slot(s.outIdx, |s.buf|)]];
    more, t := Take(first, more, t, GetEnds);
  }

  lemma FirstRound(index: nat, size: nat)
    requires 0 < size && IsPow2(size)
    ensures index < size ==> Slot(index, size) == index
  {
    if index < size {
      SlotIsMod(index, size);
      ModUnique(index, size, 0, index);
    }
  }

  /** The reader takes n bytes from index zero on, one after the other. */
  lemma {:induction false} ReadSome(first: State, steps: seq<Step>, s: State, n: nat)
      returns (more: seq<Step>, t: State)
    requires Runs(first, steps, s) && SizeOk(|s.buf|) && IsPow2(|s.buf|) && s.reader.ReaderIdle?
    requires s.outIdx == 0 && n <= s.inIdx < U32
    ensures Runs(first, more, t) && t == s.(outIdx := n, delivered := t.delivered)
    ensures |t.delivered| == |s.delivered| + n && s.delivered <= t.delivered
    ensures forall k: nat :: k < n && k < |s.buf| ==> t.delivered[|s.delivered| + k] == s.buf[k]
  {
    if n == 0 {
      more, t := steps, s;
    } else {
      var u;
      more, u := ReadSome(first, steps, s, n - 1);
      ModUnique(s.inIdx - (n - 1), U32, 0, s.inIdx - (n - 1));
      more, t := GetOne(first, more, u);
      FirstRound(n - 1, |s.buf|);
    }
  }

  /** One more byte goes through an empty FIFO. */
  lemma OneByte(first: State, steps: seq<Step>, s: State, b: byte) returns (more: seq<Step>, t: State)
    requires Runs(first, steps, s) && SizeOk(|s.buf|)
    requires s.writer.WriterIdle? && s.reader.ReaderIdle? && s.inIdx == s.outIdx < U32
    ensures Slot(s.inIdx, |s.buf|) < |s.buf| && Runs(first, more, t)
    ensures t == s.(buf := s.buf[Slot(s.inIdx, |s.buf|) := b], inIdx := (s.inIdx + 1) % U32,
                    outIdx := (s.inIdx + 1) % U32,
                    accepted := s.accepted + [b], delivered := s.delivered + [b])
  {
    var u;
    more, u := PutOne(first, steps, s, b);
    ModUnique((s.inIdx + 1) % U32 - s.outIdx, U32, if s.inIdx + 1 < U32 then 0 else -1, 1);
    more, t := GetOne(first, more, u);
  }

  lemma PutOne(first: State, steps: seq<Step>, s: State, b: byte) returns (more: seq<Step>, t: State)
    requires Runs(first, steps, s) && SizeOk(|s.buf|) && s.writer.WriterIdle? && s.inIdx == s.outIdx < U32
    ensures Slot(s.inIdx, |s.buf|) < |s.buf| && Runs(first, more, t)
    ensures t == s.(buf := s.buf[Slot(s.inIdx, |s.buf|) := b], inIdx := (s.inIdx + 1) % U32,
                    accepted := s.accepted + [b])
  {
    more, t := AimOne(first, steps, s, b);
    more, t := Take(first, more, t, PutCopies(0));
    more, t := Take(first, more, t, PutSums);
    more, t := Take(first, more, t, PutEnds);
  }

  /** A put of one byte up to the point where its destination is taken. */
  lemma AimOne(first: State, steps: seq<Step>, s: State, b: byte) returns (more: seq<Step>, t: State)
    requires Runs(first, steps, s) && SizeOk(|s.buf|) && s.writer.WriterIdle? && s.inIdx == s.outIdx < U32
    ensures Slot(s.inIdx, |s.buf|) < |s.buf| && Runs(first, more, t)
    ensures t == s.(writer := Putting([b], Some(1), Some(Slot(s.inIdx, |s.buf|)), {}, None))
  {
    SlotBound(s.inIdx, |s.buf|);
    more, t := Take(first, steps, s, PutLooks);
    assert (|s.buf| - s.inIdx + s.outIdx) % U32 == |s.buf|;
    more, t := Take(first, more, t, PutBegins([b]));
    assert t.writer == Putting([b], None, None, {}, None);
    more, t := Take(first, more, t, PutSplits);
    more, t := Take(first, more, t, PutAims);
  }

  // ---- The exact condition ----

  predicate Wrong(t: State) {
    !(t.delivered <= t.accepted)
  }

  /** When the writer's index does not count the queue, the reader takes too much, or a
      later byte is delivered in the place of one that is missing. */
  lemma Mismatch(first: State, steps: seq<Step>, s: State) returns (more: seq<Step>, t: State)
    requires Runs(first, steps, s) && SizeOk(|s.buf|) && IsPow2(|s.buf|)
    requires s.writer.WriterIdle? && s.reader.ReaderIdle? && s.outIdx == 0 && s.inIdx < U32
    requires |s.delivered| <= |s.accepted| && s.inIdx != |s.accepted| - |s.delivered|
    ensures Runs(first, more, t) && Wrong(t)
  {
    var n := |s.accepted| - |s.delivered|;
    if s.inIdx > n {
      more, t := ReadSome(first, steps, s, n + 1);
    } else {
      more, t := ReadSome(first, steps, s, s.inIdx);
      if !Wrong(t) {
        var u, at := t, |t.delivered|;
        var b: byte := if u.accepted[at] == 0 then 1 else 0;
        more, t := OneByte(first, more, u, b);
        assert t.delivered[at] == b != t.accepted[at];
      }
    }
  }

  lemma Difference(s: State, base: nat)
    requires Indices(s, base) && (s.inIdx != 0 || s.outIdx != 0)
    ensures s.inIdx < U32 && s.outIdx < U32 && |s.accepted| - |s.delivered| == (s.inIdx - s.outIdx) % U32
    ensures |s.accepted| == |s.delivered| ==> s.inIdx == s.outIdx
  {
    Counts(base + |s.accepted|, base + |s.delivered|, |s.buf|);
  }

  lemma LossCounts(s: State, base: nat)
    requires Inv(s, base) && !Harmless(s)
    requires s.inIdx != s.outIdx || (s.writer.Putting? && s.writer.sum.Some?)
    ensures IndexAfter(s.writer) != |s.accepted| + LenOf(s.writer) - |s.delivered|
  {
    var n := |s.accepted| - |s.delivered|;
    Difference(s, base);
    if s.writer.Putting? && s.writer.sum.Some? {
      SumIsIndex(s, base);
      assert s.writer.sum.value == s.inIdx && s.outIdx != 0;
      NotCounted(s.inIdx, s.outIdx, n, |s.writer.data|);
    } else {
      assert LenOf(s.writer) < U32;
      ModUnique(LenOf(s.writer), U32, 0, LenOf(s.writer));
    }
  }

  /** Bytes are queued, or the put stores an index that counted from elsewhere. */
  lemma LossShows(s: State, base: nat) returns (steps: seq<Step>, t: State)
    requires Inv(s, base) && Enabled(s, StartsOver) && !Harmless(s)
    requires s.inIdx != s.outIdx || (s.writer.Putting? && s.writer.sum.Some?)
    ensures Runs(Next(s, StartsOver), steps, t) && Wrong(t)
  {
    var r := Next(s, StartsOver);
    var u;
    steps, u := FinishWriter(r, [], r);
    LossCounts(s, base);
    assert u.inIdx == IndexAfter(s.writer) && |u.accepted| == |s.accepted| + LenOf(s.writer);
    steps, t := Mismatch(r, steps, u);
  }

  lemma NotCounted(inIdx: nat, outIdx: nat, n: nat, len: nat)
    requires inIdx < U32 && 0 < outIdx < U32 && n == (inIdx - outIdx) % U32 && n + len < U32
    ensures (inIdx + len) % U32 != n + len
  {
    var d := if inIdx < outIdx then 1 else 0;
    ModUnique(inIdx - outIdx, U32, -d, inIdx - outIdx + d * U32);
    assert n == inIdx - outIdx + d * U32;
  }

  lemma InvWithin(s: State, base: nat)
    requires Inv(s, base) && s.writer.Putting?
    ensures Within(s.writer, |s.buf|) && |s.writer.data| <= |s.buf|
  {
  }

  /** A put that has copied to cells, or is going to, where index zero does not look. */
  lemma StrayShows(s: State, i: nat) returns (steps: seq<Step>, t: State)
    requires SizeOk(|s.buf|) && IsPow2(|s.buf|) && Within(s.writer, |s.buf|) && |s.writer.data| <= |s.buf|
    requires Enabled(s, StartsOver) && |s.accepted| == |s.delivered|
    requires s.writer.Putting? && s.writer.split.Some? && s.writer.sum.None?
    requires !Lands(s.buf, s.writer, i)
    ensures Runs(Next(s, StartsOver), steps, t) && Wrong(t)
  {
    var r := Next(s, StartsOver);
    var u;
    steps, u := FinishPut(r, [], r);
    ModUnique(|s.writer.data|, U32, 0, |s.writer.data|);
    steps, t := ReadSome(r, steps, u, i + 1);
    assert u.buf[i] == Final(r.buf, r.writer, i);
    assert t.delivered[|s.delivered| + i] == u.buf[i] != s.writer.data[i] == t.accepted[|s.delivered| + i];
  }

  /** A put that has loaded an index beyond the size finds more room than there is. */
  lemma RoomShows(s: State, base: nat) returns (steps: seq<Step>, t: State)
    requires Inv(s, base) && Enabled(s, StartsOver) && s.inIdx == s.outIdx && |s.accepted| == |s.delivered|
    requires s.writer.Looked? && s.writer.seen > |s.buf|
    ensures Runs(Next(s, StartsOver), steps, t) && Wrong(t)
  {
    var r, size := Next(s, StartsOver), |s.buf|;
    var offer: seq<byte> := seq(size + 1, i => if i == 0 then 0 else 1);
    var u, v, x;
    assert size + 1 < U32;
    assert (size - s.writer.seen) % U32 == size - s.writer.seen + U32;
    steps, u := Take(r, [], r, PutBegins(offer));
    assert u.writer == Putting(offer, None, None, {}, None) by { assert offer[..size + 1] == offer; }
    SlotOfZero(size);
    steps, v := Take(r, steps, u, PutSplits);
    steps, x := FinishPut(r, steps, v);
    assert x.buf[0] == Final(v.buf, v.writer, 0) == 1;
    steps, t := ReadSome(r, steps, x, 1);
    assert t.delivered[|s.delivered|] == 1 != t.accepted[|s.delivered|];
  }

  /** Starting over in a harmful state leads on to a wrong byte. */
  lemma HarmShows(s: State, base: nat) returns (steps: seq<Step>, t: State)
    requires Inv(s, base) && Enabled(s, StartsOver) && !Harmless(s)
    ensures Runs(Next(s, StartsOver), steps, t) && Wrong(t)
  {
    if s.inIdx != s.outIdx || (s.writer.Putting? && s.writer.sum.Some?) {
      steps, t := LossShows(s, base);
    } else {
      EqualIsEmpty(s, base);
      if s.writer.Putting? {
        var i: nat :| !Lands(s.buf, s.writer, i);
        InvWithin(s, base);
        steps, t := StrayShows(s, i);
      } else {
        steps, t := RoomShows(s, base);
      }
    }
  }

  /** However the run goes on, only accepted bytes are delivered, in order. */
  ghost predicate StaysRight(s: State) {
    forall steps, t :: Runs(s, steps, t) ==> !Wrong(t)
  }

  /** In every state the FIFO can get into, the reader may start the indices over if
      and only if that is harmless then: otherwise some way of going on delivers what
      was not accepted. */
  lemma RestartExact(buf: seq<byte>, steps: seq<Step>, s: State)
    requires SizeOk(|buf|) && IsPow2(|buf|)
    requires Runs(Start(buf), steps, s) && Enabled(s, StartsOver)
    ensures Harmless(s) <==> StaysRight(Next(s, StartsOver))
  {
    StartInv(buf);
    var base := RunKeeps(Start(buf), 0, steps, s);
    if Harmless(s) {
      var after := StepKeeps(s, base, StartsOver);
      StaysRightFrom(Next(s, StartsOver), after);
    } else {
      var more, t := HarmShows(s, base);
    }
  }

  lemma StaysRightFrom(s: State, base: nat)
    requires Inv(s, base)
    ensures StaysRight(s)
  {
    forall steps, t | Runs(s, steps, t) ensures !Wrong(t) {
      var b := RunKeeps(s, base, steps, t);
      InvIsSafe(t, b);
    }
  }

  // ---- Without looking at the bytes ----

  /** The index is zero already; or there is no put, or its room is reckoned from an
      index within the size; or it has not added to the index yet, and has no data, or
      not found out how much goes before the end of the buffer, or all of it goes there
      and the destination is not taken, or the destination is the first cell. */
  predicate Settled(s: State) {
    || s.inIdx == 0
    || match s.writer
       case WriterIdle => true
       case Looked(seen) => seen <= |s.buf|
       case Putting(data, split, dest, _, sum) =>
         sum.None? &&
         (data == [] || split.None? || (dest.None? && split.value == |data|) || dest == Some(0))
  }

  /** The same state of both sides, with other bytes. */
  predicate SameProgress(s: State, t: State) {
    && t.inIdx == s.inIdx && t.outIdx == s.outIdx && |t.buf| == |s.buf| && t.reader == s.reader
    && t.accepted == s.accepted && t.delivered == s.delivered
    && (s.writer.Putting? ==>
          t.writer.Putting? && |t.writer.data| == |s.writer.data|
          && t.writer == s.writer.(data := t.writer.data))
    && (!s.writer.Putting? ==> t.writer == s.writer)
  }

  /** With the FIFO empty, starting over is harmless whatever the bytes are exactly when
      what the put under way has loaded is settled. */
  lemma RestartWhateverTheBytes(s: State, base: nat)
    requires Inv(s, base) && s.inIdx == s.outIdx
    ensures Settled(s) ==> Harmless(s)
    ensures !Settled(s) ==> exists t :: SameProgress(s, t) && Inv(t, base) && !Harmless(t)
  {
    EqualIsEmpty(s, base);
    if Settled(s) {
      if s.inIdx != 0 && s.writer.Putting? && s.writer.split.Some? { SettledLands(s, base); }
    } else if s.writer.Putting? && s.writer.sum.None? {
      var t := OtherByte(s, base);
      assert SameProgress(s, t);
    } else {
      assert SameProgress(s, s);
    }
  }

  lemma SettledLands(s: State, base: nat)
    requires Inv(s, base) && Settled(s) && s.inIdx != 0 && s.writer.Putting? && s.writer.split.Some?
    ensures LandsAtZero(s.buf, s.writer)
  {
    var w, at, size := s.writer, base + |s.accepted|, |s.buf|;
    forall i: nat ensures Lands(s.buf, w, i) {
      if i < |w.data| && i in w.copied {
        assert s.buf[Cell(at + i, size)] == w.data[i];
        ModMove(at, i, size);
      }
    }
  }

  /** The first byte of the put under way as another one than cell 0 is going to hold. */
  lemma OtherByte(s: State, base: nat) returns (t: State)
    requires Inv(s, base) && s.inIdx == s.outIdx && !Settled(s) && s.writer.Putting? && s.writer.sum.None?
    ensures SameProgress(s, t) && Inv(t, base) && !Harmless(t)
  {
    var w, at, size := s.writer, base + |s.accepted|, |s.buf|;
    var b: byte := if Final(s.buf, w, 0) == 0 then 1 else 0;
    var c := Cell(at, size);
    t := s.(buf := if 0 in w.copied then s.buf[c := b] else s.buf,
            writer := w.(data := w.data[0 := b]));
    assert SameProgress(s, t);
    OtherByteInv(s, base, b, t);
    assert Final(t.buf, t.writer, 0) == Final(s.buf, w, 0);
    assert !Lands(t.buf, t.writer, 0);
  }

  lemma OtherByteInv(s: State, base: nat, b: byte, t: State)
    requires Inv(s, base) && s.inIdx == s.outIdx != 0 && s.writer.Putting? && s.writer.data != []
    requires t == s.(buf := if 0 in s.writer.copied then s.buf[Cell(base + |s.accepted|, |s.buf|) := b] else s.buf,
                     writer := s.writer.(data := s.writer.data[0 := b]))
    ensures Inv(t, base)
  {
    EqualIsEmpty(s, base);
    var at, size := base + |s.accepted|, |s.buf|;
    forall k | k in t.writer.copied && k < |t.writer.data| ensures t.buf[Cell(at + k, size)] == t.writer.data[k] {
      if k > 0 && 0 in s.writer.copied { OtherCell(s.buf, at + k, at, b); }
    }
  }

  // ---- Harm can happen ----

  /** Whatever the writer is doing comes to an end, wherever its index is. */
  lemma WriterEnds(first: State, base: nat, steps: seq<Step>, s: State) returns (more: seq<Step>, t: State)
    requires Inv(first, base) && Runs(first, steps, s)
    ensures Runs(first, more, t) && t.writer.WriterIdle? && t.reader == s.reader
  {
    more, t := steps, s;
    if s.writer.Looked? { more, t := Take(first, more, t, PutBegins([])); }
    if !s.writer.WriterIdle? {
      if t.writer.sum.None? { more, t := CopyAll(first, base, more, t); }
      more, t := Take(first, more, t, PutEnds);
    }
  }

  /** A put goes on to the point where it has loaded the index that it adds to. */
  lemma CopyAll(first: State, base: nat, steps: seq<Step>, s: State) returns (more: seq<Step>, t: State)
    requires Inv(first, base) && Runs(first, steps, s) && s.writer.Putting? && s.writer.sum.None?
    ensures Runs(first, more, t) && t.writer.Putting? && t.writer.sum.Some? && t.reader == s.reader
  {
    var u := s;
    var b := RunKeeps(first, base, steps, s);
    more := steps;
    if s.writer.split.None? { more, u := Take(first, more, u, PutSplits); }
    if s.writer.dest.None? { more, u := Take(first, more, u, PutAims); }
    b := RunKeeps(first, base, more, u);
    InvWithin(u, b);
    more, u := CopyRest(first, more, u, |u.writer.data|);
    more, t := Take(first, more, u, PutSums);
  }

  /** Between seeing the FIFO empty and starting over there is always time for harm:
      from every reachable state in which the reader is about to start over, the writer
      alone can reach one where that is not harmless any more. */
  lemma HarmAhead(buf: seq<byte>, steps: seq<Step>, s: State) returns (more: seq<Step>, t: State)
    requires SizeOk(|buf|) && IsPow2(|buf|)
    requires Runs(Start(buf), steps, s) && Enabled(s, StartsOver)
    ensures Runs(s, more, t) && Enabled(t, StartsOver) && !Harmless(t)
  {
    StartInv(buf);
    var base := RunKeeps(Start(buf), 0, steps, s);
    more, t := WriterEnds(s, base, [], s);
    var b := RunKeeps(s, base, more, t);
    if t.inIdx == t.outIdx {
      more, t := PutOne(s, more, t, 0);
    }
  }

  /** A state where starting over would do harm is reached: the reader has seen the FIFO
      empty, and a put has taken its destination and copied nothing. */
  lemma StartOverRaces(a: byte, b: byte) returns (steps: seq<Step>, s: State)
    requires a != b
    ensures Runs(Start(seq(8, _ => 0)), steps, s) && Enabled(s, StartsOver) && !Harmless(s)
    ensures s.writer.Putting? && s.writer.copied == {}
  {
    var first := Start(seq(8, _ => 0));
    SlotOfZero(8);
    steps, s := OneByte(first, [], first, a);
    assert s.inIdx == s.outIdx == 1 && s.buf[0] == a;
    steps, s := Take(first, steps, s, SeesEmpty);
    assert Slot(1, 8) == 1;
    steps, s := AimOne(first, steps, s, b);
    assert !Lands(s.buf, s.writer, 0);
  }
}
