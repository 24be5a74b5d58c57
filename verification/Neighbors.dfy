/** The AODV neighbour table of src/aodv/model/aodv-neighbor.cc. */
module Neighbors {

  datatype Neighbor = Neighbor(addr: nat, hw: nat, expire: int, close: bool)

  // Mac48Address()
  const NO_MAC: nat := 0

  predicate Gone(nb: Neighbor, now: int) {
    nb.expire < now || nb.close
  }

  function Kept(nbs: seq<Neighbor>, now: int): seq<Neighbor> {
    if |nbs| == 0 then [] else (if Gone(nbs[0], now) then [] else [nbs[0]]) + Kept(nbs[1..], now)
  }

  function Failed(nbs: seq<Neighbor>, now: int): seq<nat> {
    if |nbs| == 0 then [] else (if Gone(nbs[0], now) then [nbs[0].addr] else []) + Failed(nbs[1..], now)
  }

  function Marked(nbs: seq<Neighbor>, mac: nat): (r: seq<Neighbor>)
    ensures |r| == |nbs|
    ensures forall i :: 0 <= i < |nbs| ==> r[i] == if nbs[i].hw == mac then nbs[i].(close := true) else nbs[i]
  {
    seq(|nbs|, i requires 0 <= i < |nbs| => if nbs[i].hw == mac then nbs[i].(close := true) else nbs[i])
  }

  // A known neighbour at addr: its expiry is only ever extended, a missing hardware address is looked up.
  function Refreshed(o: Neighbor, addr: nat, until: int, mac: nat): Neighbor {
    if o.addr != addr then o
    else o.(expire := if until < o.expire then o.expire else until, hw := if o.hw == NO_MAC then mac else o.hw)
  }

  ghost predicate UniqueAddrs(nbs: seq<Neighbor>) {
    forall i, j :: 0 <= i < j < |nbs| ==> nbs[i].addr != nbs[j].addr
  }

  ghost predicate Present(nbs: seq<Neighbor>, a: nat) {
    exists i :: 0 <= i < |nbs| && nbs[i].addr == a
  }

  ghost function Times(s: seq<nat>, a: nat): nat {
    multiset(s)[a]
  }

  // For each address, links opened less failures reported is 1 if present and 0 otherwise.
  ghost predicate Balanced(nbs: seq<Neighbor>, links: seq<nat>, failures: seq<nat>) {
    forall a: nat :: Times(links, a) == Times(failures, a) + if Present(nbs, a) then 1 else 0
  }

  // Who stays over a purge.
  lemma {:induction false} StayIff(nbs: seq<Neighbor>, now: int)
    ensures forall nb :: nb in Kept(nbs, now) <==> nb in nbs && now <= nb.expire && !nb.close
  {
    if |nbs| > 0 {
      StayIff(nbs[1..], now);
    }
  }

  lemma {:induction false} KeptOrFailed(nbs: seq<Neighbor>, now: int, a: nat)
    requires UniqueAddrs(nbs)
    ensures (if Present(Kept(nbs, now), a) then 1 else 0) + Times(Failed(nbs, now), a)
            == if Present(nbs, a) then 1 else 0
  {
    if |nbs| > 0 {
      var t := nbs[1..];
      KeptOrFailed(t, now, a);
      PresentCons(nbs[0], t, a);
      PresentCons(nbs[0], Kept(t, now), a);
      assert nbs == [nbs[0]] + t;
      OnlyOnce(nbs, a);
      hide Present;
      if Gone(nbs[0], now) {
        assert Kept(nbs, now) == Kept(t, now) && Failed(nbs, now) == [nbs[0].addr] + Failed(t, now);
      } else {
        assert Kept(nbs, now) == [nbs[0]] + Kept(t, now) && Failed(nbs, now) == Failed(t, now);
      }
    }
  }

  lemma {:induction false} OnlyOnce(nbs: seq<Neighbor>, a: nat)
    requires UniqueAddrs(nbs) && |nbs| > 0
    ensures nbs[0].addr == a ==> !Present(nbs[1..], a)
  {
  }

  lemma {:induction false} PresentCons(n: Neighbor, t: seq<Neighbor>, a: nat)
    ensures Present([n] + t, a) <==> n.addr == a || Present(t, a)
  {
    if n.addr == a {
      assert ([n] + t)[0].addr == a;
    } else if i :| 0 <= i < |t| && t[i].addr == a {
      assert ([n] + t)[i + 1].addr == a;
    }
  }

  lemma {:induction false} KeptProperties(nbs: seq<Neighbor>, now: int)
    requires UniqueAddrs(nbs)
    ensures UniqueAddrs(Kept(nbs, now))
    ensures forall k :: 0 <= k < |Kept(nbs, now)| ==> !Gone(Kept(nbs, now)[k], now) && Kept(nbs, now)[k] in nbs
  {
    if |nbs| > 0 {
      var t := nbs[1..];
      KeptProperties(t, now);
      forall k | 0 <= k < |Kept(t, now)| ensures Kept(t, now)[k].addr != nbs[0].addr {
        var i :| 0 <= i < |t| && t[i] == Kept(t, now)[k];
        assert nbs[i + 1] == t[i];
      }
    }
  }

  lemma {:induction false} FailedAppend(nbs: seq<Neighbor>, n: Neighbor, now: int)
    ensures Failed(nbs + [n], now) == Failed(nbs, now) + if Gone(n, now) then [n.addr] else []
  {
    if |nbs| > 0 {
      assert (nbs + [n])[1..] == nbs[1..] + [n];
      FailedAppend(nbs[1..], n, now);
    }
  }

  lemma {:induction false} PurgeBalanced(nbs: seq<Neighbor>, links: seq<nat>, failures: seq<nat>, now: int)
    requires UniqueAddrs(nbs) && Balanced(nbs, links, failures)
    ensures Balanced(Kept(nbs, now), links, failures + Failed(nbs, now))
  {
    forall a: nat
      ensures Times(links, a) == Times(failures + Failed(nbs, now), a) + if Present(Kept(nbs, now), a) then 1 else 0
    {
      KeptOrFailed(nbs, now, a);
    }
  }

  // The address list alone decides presence.
  lemma {:induction false} SameAddrs(nbs: seq<Neighbor>, nbs': seq<Neighbor>, links: seq<nat>, failures: seq<nat>)
    requires |nbs'| == |nbs| && forall i :: 0 <= i < |nbs| ==> nbs'[i].addr == nbs[i].addr
    requires UniqueAddrs(nbs) && Balanced(nbs, links, failures)
    ensures UniqueAddrs(nbs') && Balanced(nbs', links, failures)
  {
  }

  class Table {
    var nbs: seq<Neighbor>
    // addresses handed to the link failure callback, and addresses a link was opened to
    var failures: seq<nat>
    ghost var links: seq<nat>

    constructor ()
      ensures Valid() && nbs == [] && failures == [] && links == []
    {
      nbs, failures, links := [], [], [];
    }

    // Between calls: every address at most once, no entry left closed, openings and failures balanced.
    ghost predicate Valid()
      reads this
    {
      Consistent() && forall i :: 0 <= i < |nbs| ==> !nbs[i].close
    }

    ghost predicate Consistent()
      reads this
    {
      UniqueAddrs(nbs) && Balanced(nbs, links, failures)
    }

    method Purge(now: int)
      requires Consistent()
      modifies `nbs, `failures
      ensures Valid()
      ensures nbs == Kept(old(nbs), now) && failures == old(failures) + Failed(old(nbs), now)
      ensures forall nb :: nb in nbs <==> nb in old(nbs) && now <= nb.expire && !nb.close
    {
      StayIff(nbs, now);
      if |nbs| == 0 {
        return;
      }
      assert nbs[..0] == [];
      for j := 0 to |nbs|
        invariant nbs == old(nbs) && failures == old(failures) + Failed(nbs[..j], now)
      {
        assert nbs[..j + 1] == nbs[..j] + [nbs[j]];
        FailedAppend(nbs[..j], nbs[j], now);
        if Gone(nbs[j], now) {
          failures := failures + [nbs[j].addr];
        }
      }
      assert nbs[..|nbs|] == nbs;
      PurgeBalanced(nbs, links, old(failures), now);
      KeptProperties(nbs, now);
      nbs := Kept(nbs, now);
    }

    method IsNeighbor(addr: nat, now: int) returns (r: bool)
      requires Valid()
      modifies `nbs, `failures
      ensures Valid() && nbs == Kept(old(nbs), now) && failures == old(failures) + Failed(old(nbs), now)
      ensures r <==> Present(nbs, addr)
    {
      Purge(now);
      for i := 0 to |nbs|
        invariant forall j :: 0 <= j < i ==> nbs[j].addr != addr
      {
        if nbs[i].addr == addr {
          return true;
        }
      }
      r := false;
    }

    // mac is what LookupMacAddress finds for addr. A known neighbour is refreshed without a purge.
    method Update(addr: nat, expire: int, mac: nat, now: int)
      requires Valid()
      modifies `nbs, `failures, `links
      ensures Valid()
      ensures !old(Present(nbs, addr)) ==>
                var all := old(nbs) + [Neighbor(addr, mac, expire + now, false)];
                nbs == Kept(all, now) && failures == old(failures) + Failed(all, now) && links == old(links) + [addr]
      ensures old(Present(nbs, addr)) ==> failures == old(failures) && links == old(links) && |nbs| == |old(nbs)|
      ensures old(Present(nbs, addr)) ==>
                forall i :: 0 <= i < |nbs| ==> nbs[i] == Refreshed(old(nbs)[i], addr, expire + now, mac)
      // an expiry never falls and reaches expire + now, a known hardware address stays, all else too
      ensures old(Present(nbs, addr)) ==>
                forall i :: 0 <= i < |nbs| ==>
                  && nbs[i].addr == old(nbs)[i].addr && nbs[i].close == old(nbs)[i].close
                  && nbs[i].expire >= old(nbs)[i].expire
                  && nbs[i].hw == (if nbs[i].addr == addr && old(nbs)[i].hw == 0 then mac else old(nbs)[i].hw)
                  && (if nbs[i].addr == addr then
                        nbs[i].expire >= expire + now
                        && (nbs[i].expire == expire + now || nbs[i].expire == old(nbs)[i].expire)
                      else nbs[i].expire == old(nbs)[i].expire)
    {
      for i := 0 to |nbs|
        invariant forall j :: 0 <= j < i ==> nbs[j].addr != addr
      {
        if nbs[i].addr == addr {
          ghost var before := nbs;
          nbs := nbs[i := Refreshed(nbs[i], addr, expire + now, mac)];
          SameAddrs(before, nbs, links, failures);
          return;
        }
      }
      OpenBalanced(nbs, Neighbor(addr, mac, expire + now, false), links, failures);
      nbs := nbs + [Neighbor(addr, mac, expire + now, false)];
      links := links + [addr];
      Purge(now);
    }

    method ProcessTxError(mac: nat, now: int)
      requires Valid()
      modifies `nbs, `failures
      ensures Valid()
      ensures nbs == Kept(Marked(old(nbs), mac), now)
      ensures failures == old(failures) + Failed(Marked(old(nbs), mac), now)
    {
      for i := 0 to |nbs|
        invariant |nbs| == |old(nbs)| && failures == old(failures)
        invariant forall j :: 0 <= j < |nbs| ==>
                    nbs[j] == if j < i then Marked(old(nbs), mac)[j] else old(nbs)[j]
      {
        if nbs[i].hw == mac {
          nbs := nbs[i := nbs[i].(close := true)];
        }
      }
      assert nbs == Marked(old(nbs), mac);
      SameAddrs(old(nbs), nbs, links, failures);
      Purge(now);
    }
  }

  lemma {:induction false} OpenBalanced(nbs: seq<Neighbor>, n: Neighbor, links: seq<nat>, failures: seq<nat>)
    requires UniqueAddrs(nbs) && Balanced(nbs, links, failures) && !Present(nbs, n.addr)
    ensures UniqueAddrs(nbs + [n]) && Balanced(nbs + [n], links + [n.addr], failures)
  {
    forall a: nat ensures Present(nbs + [n], a) <==> Present(nbs, a) || a == n.addr {
      assert (nbs + [n])[|nbs|] == n;
      if i :| 0 <= i < |nbs| && nbs[i].addr == a {
        assert (nbs + [n])[i].addr == a;
      }
    }
  }

  /** A transmission error towards a neighbour's hardware address reports exactly the neighbours it removes. */
  lemma {:induction false} TxErrorRemoves(nbs: seq<Neighbor>, mac: nat, now: int, i: nat)
    requires UniqueAddrs(nbs) && i < |nbs| && nbs[i].hw == mac
    ensures !Present(Kept(Marked(nbs, mac), now), nbs[i].addr)
    ensures Times(Failed(Marked(nbs, mac), now), nbs[i].addr) == 1
  {
    var ms := Marked(nbs, mac);
    KeptOrFailed(ms, now, nbs[i].addr);
    KeptProperties(ms, now);
    assert ms[i].addr == nbs[i].addr && Gone(ms[i], now);
    forall k | 0 <= k < |Kept(ms, now)| ensures Kept(ms, now)[k].addr != nbs[i].addr {
      var j :| 0 <= j < |ms| && ms[j] == Kept(ms, now)[k];
    }
  }
}
