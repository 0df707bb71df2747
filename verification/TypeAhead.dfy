/** The typeahead ring of sethost: 32 places and a wrap flag that is set only when
    the ring is full and cleared when the reader comes round. */
module TypeAhead {
  import opened Bits
  import opened KFifo

  const PLACES := 32

  class Ring {
    const ahead: array<byte>
    var rptr: nat
    var wptr: nat
    var wrapped: bool
    var count: int     // the count reported to the host

    /** A set wrap flag means that the writer is not ahead of the reader. */
    ghost predicate Valid()
      reads this
    {
      ahead.Length == PLACES && rptr < PLACES && wptr < PLACES && (wrapped ==> wptr <= rptr)
    }

    ghost function Length(): (n: nat)
      reads this
      requires Valid()
      ensures n <= PLACES
    {
      if wrapped then PLACES - (rptr - wptr) else if wptr >= rptr then wptr - rptr else PLACES - (rptr - wptr)
    }

    /** The typed bytes not yet read, oldest first. */
    ghost function Queue(): (q: seq<byte>)
      reads this, ahead
      requires Valid()
      ensures |q| == Length()
    {
      Window(ahead[..], rptr, Length())
    }

    /** The reported count is right. */
    ghost predicate InSync()
      reads this, ahead
      requires Valid()
    {
      count == |Queue()|
    }

    constructor ()
      ensures Valid() && fresh(ahead) && Queue() == [] && InSync()
    {
      ahead := new byte[PLACES](_ => 0);
      rptr, wptr, wrapped, count := 0, 0, false, 0;
    }

    /** Fails exactly when the ring holds 32 bytes. */
    method Insert(c: byte) returns (ok: bool)
      requires Valid()
      modifies `wptr, `wrapped, `count, ahead
      ensures Valid() && (ok <==> |old(Queue())| < PLACES)
      ensures Queue() == old(Queue()) + (if ok then [c] else [])
      ensures old(InSync()) ==> InSync()
    {
      if rptr == wptr && wrapped {
        return false;
      }
      ghost var was, n := ahead[..], Length();
      Step32(wptr);
      ahead[wptr] := c;
      wptr := And(wptr + 1, 31);
      if wptr == rptr {
        wrapped := true;
      }
      count := count + 1;
      ok := true;
      Longer(was, ahead[..], rptr, n, c);
    }

    /** The oldest byte; 255 when there is none, which a queued 255 cannot be told
        from. */
    method Read() returns (r: byte)
      requires Valid()
      modifies `rptr, `wrapped, `count
      ensures Valid()
      ensures if old(Queue()) == [] then r == 255 && Queue() == [] && count == old(count)
              else old(Queue()) == [r] + Queue() && count == old(count) - 1
      ensures old(InSync()) ==> InSync()
    {
      if rptr + (if wrapped then 1 else 0) == wptr {
        return 255;
      }
      ghost var at, n := rptr, Length();
      Step32(rptr);
      r := ahead[rptr];
      count := count - 1;
      rptr := And(rptr + 1, 31);
      if rptr == 0 {
        wrapped := false;
      }
      Shorter(ahead[..], at, n);
    }

    /** Control-X and the host's clear request empty the ring but leave the count, so
        the count stays right only when there was nothing to clear. */
    method Cancel()
      requires Valid()
      modifies `rptr, `wptr, `wrapped
      ensures Valid() && Queue() == []
      ensures old(InSync()) ==> (InSync() <==> old(Queue()) == [])
    {
      rptr, wptr, wrapped := 0, 0, false;
    }

    /** A read request that clears typeahead starts everything over. */
    method Clear()
      requires Valid()
      modifies `rptr, `wptr, `wrapped, `count
      ensures Valid() && Queue() == [] && InSync()
    {
      rptr, wptr, wrapped, count := 0, 0, false, 0;
    }
  }

  lemma Step32(p: nat)
    requires p < PLACES
    ensures And(p + 1, 31) == if p == 31 then 0 else p + 1
  {
    AndMask(p + 1, 5);
    Thirty2(p + 1);
  }

  lemma Thirty2(q: nat)
    requires 1 <= q <= 32
    ensures Pow2(5) == 32 && q % Pow2(5) == if q == 32 then 0 else q
  {
  }

  lemma Longer(was: seq<byte>, now: seq<byte>, at: nat, n: nat, c: byte)
    requires at < |was| == |now| && n < |was|
    requires now == was[Turn(at + n, |was|) := c]
    ensures Window(now, at, n + 1) == Window(was, at, n) + [c]
  {
  }

  lemma Shorter(s: seq<byte>, at: nat, n: nat)
    requires at < |s| && 0 < n <= |s|
    ensures Window(s, at, n) == [s[at]] + Window(s, Turn(at + 1, |s|), n - 1)
  {
  }

  // ---- Any use of the ring ----

  datatype Op = Put(c: byte) | Take

  /** What a queue holds after some operations, what it accepted and what was taken. */
  datatype Outcome = Outcome(queue: seq<byte>, accepted: seq<byte>, taken: seq<byte>)

  function OneOp(o: Outcome, op: Op): Outcome {
    match op
    case Put(c) => if |o.queue| < PLACES then o.(queue := o.queue + [c], accepted := o.accepted + [c]) else o
    case Take => if o.queue == [] then o else o.(queue := o.queue[1..], taken := o.taken + [o.queue[0]])
  }

  function Ops(o: Outcome, ops: seq<Op>): Outcome
    decreases |ops|
  {
    if ops == [] then o else Ops(OneOp(o, ops[0]), ops[1..])
  }

  /** First in, first out: what was taken and what is left is what was there and
      what was accepted, in order. */
  lemma {:induction false} Conserved(start: seq<byte>, o: Outcome, ops: seq<Op>)
    requires o.taken + o.queue == start + o.accepted && |o.queue| <= PLACES
    ensures var e := Ops(o, ops); e.taken + e.queue == start + e.accepted && |e.queue| <= PLACES
    decreases |ops|
  {
    if ops == [] {
    } else {
      var n := OneOp(o, ops[0]);
      assert n.taken + n.queue == start + n.accepted by { OneConserved(start, o, ops[0]); }
      Conserved(start, n, ops[1..]);
    }
  }

  lemma OneConserved(start: seq<byte>, o: Outcome, op: Op)
    requires o.taken + o.queue == start + o.accepted
    ensures var n := OneOp(o, op); n.taken + n.queue == start + n.accepted
  {
    match op
    case Put(c) =>
      assert o.taken + (o.queue + [c]) == o.taken + o.queue + [c];
      assert start + (o.accepted + [c]) == start + o.accepted + [c];
    case Take =>
      if o.queue != [] { assert o.taken + [o.queue[0]] + o.queue[1..] == o.taken + o.queue; }
  }

  /** The ring behaves like that queue under any mixture of inserts and of reads that
      look at the count first, and the count stays right throughout. */
  method Use(r: Ring, ops: seq<Op>) returns (taken: seq<byte>, ghost o: Outcome)
    requires r.Valid() && r.InSync()
    modifies r, r.ahead
    ensures r.Valid() && r.InSync()
    ensures o == Ops(Outcome(old(r.Queue()), [], []), ops) && r.Queue() == o.queue && taken == o.taken
    ensures taken + r.Queue() == old(r.Queue()) + o.accepted
  {
    taken, o := [], Outcome(r.Queue(), [], []);
    ghost var start := o;
    ghost var todo := ops;
    var i := 0;
    while i < |ops|
      invariant i <= |ops| && r.Valid() && r.InSync() && todo == ops[i..]
      invariant r.Queue() == o.queue && taken == o.taken
      invariant Ops(start, ops) == Ops(o, todo)
    {
      match ops[i] {
        case Put(c) =>
          var _ := r.Insert(c);
        case Take =>
          if r.count > 0 {
            var b := r.Read();
            assert o.queue[1..] == r.Queue();
            taken := taken + [b];
          }
      }
      o := OneOp(o, ops[i]);
      todo := todo[1..];
      i := i + 1;
    }
    assert start.taken + start.queue == start.queue + start.accepted;
    Conserved(start.queue, start, ops);
  }
}
