/** A table of destinations: one head per node or area, each with a chain of its own. */
module RouteTables {
  import opened Bits
  import opened Wrappers
  import opened RouteChain

  const EMPTY := Dest(Route(0, 0, 0, 0, false), [])

  class RouteTable {
    const heads: seq<RouteInfo>
    ghost var owner: map<RouteInfo, nat>   // the destination every entry belongs to
    ghost var dests: seq<Dest>             // what the table says about every destination

    ghost predicate Valid()
      reads this, owner.Keys
    {
      |dests| == |heads| && forall i :: 0 <= i < |heads| ==> Owns(i)
    }

    ghost predicate Owns(i: nat)
      requires i < |heads| == |dests|
      reads this, owner.Keys
    {
      && heads[i] in owner && owner[heads[i]] == i
      && (forall e :: e in heads[i].chain ==> e in owner && owner[e] == i)
      && heads[i].Valid() && heads[i].Destination() == dests[i]
    }

    constructor (size: nat)
      ensures Valid() && fresh(owner.Keys) && |heads| == size && dests == seq(size, _ => EMPTY)
    {
      var hs: seq<RouteInfo> := [];
      ghost var own: map<RouteInfo, nat> := map[];
      while |hs| < size
        invariant |hs| <= size && fresh(own.Keys)
        invariant forall i :: 0 <= i < |hs| ==> hs[i] in own && own[hs[i]] == i
        invariant forall i :: 0 <= i < |hs| ==> hs[i].chain == [] && hs[i].Valid() && hs[i].Destination() == EMPTY
      {
        var h := new RouteInfo(0);
        own := own[h := |hs|];
        hs := hs + [h];
      }
      heads, owner, dests := hs, own, seq(size, _ => EMPTY);
    }

    /** The cached best route to a destination. */
    method Head(i: nat) returns (r: Route)
      requires Valid() && i < |heads|
      ensures r == dests[i].head
    {
      assert Owns(i);
      r := heads[i].Value();
    }

    /** Overwrites the cached route. */
    method SetHead(i: nat, r: Route)
      requires Valid() && i < |heads|
      modifies this`dests, owner.Keys
      ensures Valid() && dests == old(dests)[i := old(dests)[i].(head := r)]
    {
      assert Owns(i);
      heads[i].SetHead(r);
      dests := dests[i := dests[i].(head := r)];
      OthersKept(i);
    }

    /** When only entries of destination i have changed, all others are as they were. */
    twostate lemma OthersKept(i: nat)
      requires old(Valid()) && i < |heads| == |dests| == old(|dests|)
      requires forall j :: 0 <= j < |heads| && j != i ==> dests[j] == old(dests[j])
      requires forall e :: e in old(owner) ==> e in owner && owner[e] == old(owner[e])
      requires forall e :: e in old(owner) && old(owner[e]) != i ==> unchanged(e)
      ensures forall j :: 0 <= j < |heads| && j != i ==> Owns(j)
    {
      forall j | 0 <= j < |heads| && j != i ensures Owns(j) {
        assert old(Owns(j));
        var c := old(heads[j].chain);
        assert unchanged(heads[j]);
        forall k | 0 <= k < |c| ensures unchanged(c[k]) { assert c[k] in c; }
      }
    }

    /** Hears about destination i from a router. */
    method Add(i: nat, addr: word, cost: int, hops: int, from: word, priority: Option<byte>) returns (ask: Request)
      requires Valid() && i < |heads|
      modifies this`owner, this`dests, owner.Keys
      ensures Valid() && fresh(owner.Keys - old(owner.Keys))
      ensures var d := Dest(old(dests)[i].head, Hear(old(dests)[i].routes, from, cost, hops, priority));
        dests == old(dests)[i := Reselect(d)] && ask == Ask(d, addr)
    {
      assert Owns(i);
      ask := heads[i].AddRouteInfo(addr, cost, hops, from, priority);
      OthersKept(i);
      Enrol(i);
    }

    /** A destination that has changed, and may have a new entry, is entered again. */
    ghost method Enrol(i: nat)
      requires i < |heads| == |dests| && (forall j :: 0 <= j < |heads| && j != i ==> Owns(j))
      requires heads[i] in owner && owner[heads[i]] == i && heads[i].Valid()
      requires forall e :: e in heads[i].chain && e in owner ==> owner[e] == i
      modifies this`owner, this`dests
      ensures Valid() && owner.Keys == old(owner.Keys) + set e | e in heads[i].chain
      ensures dests == old(dests)[i := old(heads[i].Destination())]
    {
      owner := Joined(owner, heads[i].chain, i);
      dests := dests[i := heads[i].Destination()];
      forall j | 0 <= j < |heads| && j != i ensures Owns(j) {
        assert old(Owns(j));
      }
      assert Owns(i);
    }

    /** Entries not seen before belong to destination i. */
    static ghost function Joined(owner: map<RouteInfo, nat>, chain: seq<RouteInfo>, i: nat): (j: map<RouteInfo, nat>)
      ensures j.Keys == owner.Keys + set e | e in chain
      ensures forall e :: e in j ==> j[e] == if e in owner then owner[e] else i
    {
      map e | e in owner.Keys + (set e | e in chain) :: if e in owner then owner[e] else i
    }

    /** Loses a router on the way to destination i. */
    method Invalidate(i: nat, node: word) returns (ask: Request)
      requires Valid() && i < |heads|
      modifies this`dests, owner.Keys
      ensures Valid()
      ensures var d := Dest(old(dests)[i].head, Lose(old(dests)[i].routes, node));
        dests == old(dests)[i := Reselect(d)] && ask == Ask(d, node)
    {
      assert Owns(i);
      ask := heads[i].InvalidateRoute(node);
      dests := dests[i := heads[i].Destination()];
      OthersKept(i);
      assert Owns(i);
    }

    /** A table none of whose entries has changed is as it was. */
    twostate lemma Kept()
      requires old(Valid()) && unchanged(this) && forall e :: e in owner ==> unchanged(e)
      ensures Valid()
    {
      forall j | 0 <= j < |heads| ensures Owns(j) {
        assert old(Owns(j));
        var c := old(heads[j].chain);
        assert heads[j] in owner && unchanged(heads[j]);
        assert forall k :: 0 <= k < |c| ==> c[k] in c && c[k] in owner;
        assert forall k :: 0 <= k < |c| ==> unchanged(c[k]);
      }
    }
  }
}
