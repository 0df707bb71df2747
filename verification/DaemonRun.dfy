/** The daemon from its start on: whatever it is given, its tables and the kernel end up
    as the run of events says, on the linked structures and with the hash it really uses. */
module DaemonRun {
  import opened Bits
  import opened HashTable
  import opened StringHash
  import opened Neighbours
  import opened Daemon
  import opened NeighbourMarks
  import opened AreaRoutes
  import opened Sightings
  import opened HearsayAreas
  import opened HearsayNodes
  import opened Dnroute

  /** What the daemon is given: a dump of the neighbours, or a packet of len bytes in the
      receive buffer on an interface. */
  datatype Input = Sighting(dump: seq<Neighbour>, complete: bool) | Packet(b: seq<byte>, len: nat, iface: byte)

  predicate Given(cfg: Config, i: Input)
    requires cfg.Valid()
  {
    i.Packet? ==> Received(i.b, i.len) && Readable(cfg, i.b, i.len)
  }

  /** The events of a list of inputs; a packet that is ignored is none. */
  function EventsOf(cfg: Config, inputs: seq<Input>): seq<Event>
    requires cfg.Valid() && forall i :: i in inputs ==> Given(cfg, i)
    decreases |inputs|
  {
    if inputs == [] then []
    else
      assert inputs[0] in inputs && forall i :: i in inputs[1..] ==> i in inputs;
      EventOf(cfg, inputs[0]) + EventsOf(cfg, inputs[1..])
  }

  function EventOf(cfg: Config, i: Input): (es: seq<Event>)
    requires cfg.Valid() && Given(cfg, i)
    ensures |es| <= 1
  {
    match i
    case Sighting(dump, complete) => [Dump(dump, complete)]
    case Packet(b, len, iface) =>
      var e := MessageOf(cfg, b, len, iface);
      if e.Some? then [e.value] else []
  }

  /** The slots of addresses are those of the table of 1024 slots. */
  ghost predicate UsesHash(cfg: Config, hash: Key -> nat) {
    Slots(cfg.slot, key => SlotOf(hash, key, RoundedUp(16, 1024)))
  }

  lemma RunStep(cfg: Config, s: State, es: seq<Event>, more: seq<Event>)
    requires cfg.Valid() && s.Valid() && |es| <= 1
    ensures Run(cfg, s, es + more) == Run(cfg, if es == [] then s else Step(cfg, s, es[0]), more)
  {
    if es == [] {
      assert es + more == more;
    } else {
      assert (es + more)[1..] == more;
    }
  }

  method Take(d: Dnroute, input: Input)
    requires d.Valid() && Given(d.cfg, input)
    modifies d, d.repr
    ensures d.Valid() && fresh(d.repr - old(d.repr))
    ensures var es := EventOf(d.cfg, input);
      d.St() == if es == [] then old(d.St()) else Step(d.cfg, old(d.St()), es[0])
  {
    match input {
      case Sighting(dump, complete) =>
        d.GetNeighbours(dump, complete);
      case Packet(b, len, iface) =>
        var buf := new byte[RECEIVE](i requires 0 <= i < |b| => b[i]);
        assert buf[..] == b;
        d.ProcessRoutingMessage(buf, len, iface);
    }
  }

  /** Runs the daemon on a list of inputs. At the end the kernel's indirect routes to the
      nodes of our area are those the table names; so are the routes to other areas if no
      sweep hit a router in use; and the hash holds everybody who was ever in a dump,
      marked exactly if a dump that failed since the last complete one had them. The kernel
      has direct routes exactly to the addresses in sight, through the interfaces they were
      last seen on, but for those that moved to a loopback interface. The routes to areas
      and nodes are those told of, and the heads the best of them. */
  method Serve(cfg: Config, hash: Key -> nat, inputs: seq<Input>) returns (d: Dnroute)
    requires cfg.Valid() && UsesHash(cfg, hash) && forall i :: i in inputs ==> Given(cfg, i)
    requires forall e :: e in EventsOf(cfg, inputs) ==> e.Valid()
    ensures d.Valid() && d.cfg == cfg && d.St() == Run(cfg, Init(cfg), EventsOf(cfg, inputs))
    ensures forall id :: 0 < id < 1024 ==> Agrees(cfg, d.St(), id)
    ensures RunSpares(cfg, Init(cfg), EventsOf(cfg, inputs)) ==>
              forall area :: Watched(cfg, area) ==> AreaAgrees(d.St(), area)
    ensures Consistent(d.St())
    ensures forall a: word ::
              && (a in d.St().nodes <==> InSomeDump(EventsOf(cfg, inputs), a))
              && (Scanned(d.St(), a) <==> InFailedDump(false, EventsOf(cfg, inputs), a))
    ensures forall a: word ::
              DirectAgrees(cfg, d.St(), EventsOf(cfg, inputs), a) <==> !MovedToLoopback(cfg, EventsOf(cfg, inputs), a)
    ensures forall area :: Routed(cfg, area) ==> AreaHears(cfg, d.St(), EventsOf(cfg, inputs), area)
    ensures forall id :: 0 <= id < 1024 ==> NodeHears(cfg, d.St(), EventsOf(cfg, inputs), id)
  {
    d := new Dnroute(cfg, hash);
    var i := 0;
    while i < |inputs|
      invariant i <= |inputs| && d.Valid() && d.cfg == cfg && fresh(d) && fresh(d.repr)
      invariant forall k :: k in inputs[i..] ==> Given(cfg, k)
      invariant Run(cfg, d.St(), EventsOf(cfg, inputs[i..])) == Run(cfg, Init(cfg), EventsOf(cfg, inputs))
    {
      ghost var s := d.St();
      assert inputs[i..][0] == inputs[i] && inputs[i..][1..] == inputs[i + 1..];
      RunStep(cfg, s, EventOf(cfg, inputs[i]), EventsOf(cfg, inputs[i + 1..]));
      Take(d, inputs[i]);
      i := i + 1;
    }
    RunResults(cfg, EventsOf(cfg, inputs));
    RunRoutes(cfg, EventsOf(cfg, inputs));
  }

  lemma RunResults(cfg: Config, events: seq<Event>)
    requires cfg.Valid() && forall e :: e in events ==> e.Valid()
    ensures var s := Run(cfg, Init(cfg), events);
      && (forall id :: 0 < id < 1024 ==> Agrees(cfg, s, id))
      && (RunSpares(cfg, Init(cfg), events) ==> forall area :: Watched(cfg, area) ==> AreaAgrees(s, area))
      && Consistent(s)
      && forall a: word :: (a in s.nodes <==> InSomeDump(events, a)) && (Scanned(s, a) <==> InFailedDump(false, events, a))
  {
    var s := Run(cfg, Init(cfg), events);
    forall id | 0 < id < 1024 ensures Agrees(cfg, s, id) { KernelAgrees(cfg, events, id); }
    if RunSpares(cfg, Init(cfg), events) {
      forall area | Watched(cfg, area) ensures AreaAgrees(s, area) { AreasAgree(cfg, events, area); }
    }
    RunMarks(cfg, Init(cfg), events, 0);
    forall a: word
      ensures (a in s.nodes <==> InSomeDump(events, a)) && (Scanned(s, a) <==> InFailedDump(false, events, a))
    {
      RunMarks(cfg, Init(cfg), events, a);
    }
  }

  lemma RunRoutes(cfg: Config, events: seq<Event>)
    requires cfg.Valid() && forall e :: e in events ==> e.Valid()
    ensures var s := Run(cfg, Init(cfg), events);
      && (forall a: word :: DirectAgrees(cfg, s, events, a) <==> !MovedToLoopback(cfg, events, a))
      && (forall area :: Routed(cfg, area) ==> AreaHears(cfg, s, events, area))
      && forall id :: 0 <= id < 1024 ==> NodeHears(cfg, s, events, id)
  {
    var s := Run(cfg, Init(cfg), events);
    forall a: word ensures DirectAgrees(cfg, s, events, a) <==> !MovedToLoopback(cfg, events, a) {
      DirectExactly(cfg, events, a);
    }
    forall area | Routed(cfg, area) ensures AreaHears(cfg, s, events, area) { AreaRoutesTold(cfg, events, area); }
    forall id | 0 <= id < 1024 ensures NodeHears(cfg, s, events, id) { NodeRoutesTold(cfg, events, id); }
  }

  // ---- The hash the daemon uses ----

  /** With the string hash, the slot of an address comes from its two bytes alone: sixteen
      times the number of the low one plus that of the high one, below 1024. */
  lemma SlotOfAddress(cfg: Config, a: word)
    requires UsesHash(cfg, Hash)
    ensures cfg.slot(a) == (16 * Number(a % 256) as nat + Number(a / 256) as nat) % 1024
  {
    SlotMasked(cfg, a);
    HashOfAddress(a);
    Masked(Hash(KeyOf(a)));
  }

  lemma SlotMasked(cfg: Config, a: word)
    requires UsesHash(cfg, Hash)
    ensures cfg.slot(a) == And(Hash(KeyOf(a)), 1023)
  {
    assert SlotIs(cfg.slot, key => SlotOf(Hash, key, RoundedUp(16, 1024)), a);
    Rounded1024();
  }

  lemma HashOfAddress(a: word)
    ensures Hash(KeyOf(a)) == 16 * Number(a % 256) as nat + Number(a / 256) as nat
  {
    TwoByteHash(a % 256, a / 256);
  }

  lemma Rounded1024()
    ensures RoundedUp(16, 1024) == 1024
  {
    assert RoundedUp(256, 1024) == RoundedUp(512, 1024) == 1024;
    assert RoundedUp(64, 1024) == RoundedUp(128, 1024) == RoundedUp(256, 1024);
    assert RoundedUp(16, 1024) == RoundedUp(32, 1024) == RoundedUp(64, 1024);
  }

  lemma Masked(x: nat)
    ensures And(x, 1023) == x % 1024
  {
    Pow2Sum(5, 5);
    assert Pow2(5) == 32;
    AndMask(x, 10);
  }
}
