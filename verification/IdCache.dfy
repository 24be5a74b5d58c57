/** The AODV duplicate cache of src/aodv/model/aodv-id-cache.cc. */
module IdCache {

  datatype UniqueId = UniqueId(context: nat, id: nat, expire: int)

  // What erase(remove_if(IsExpired)) leaves at time now.
  function Live(c: seq<UniqueId>, now: int): seq<UniqueId> {
    if |c| == 0 then [] else (if c[0].expire < now then [] else [c[0]]) + Live(c[1..], now)
  }

  // A log that never forgets: a packet is a duplicate while some record of it has not expired.
  ghost predicate LogHas(log: seq<UniqueId>, addr: nat, id: nat, now: int) {
    exists r :: r in log && r.context == addr && r.id == id && r.expire >= now
  }

  lemma {:induction false} LiveMembers(c: seq<UniqueId>, now: int)
    ensures forall r :: r in Live(c, now) <==> r in c && r.expire >= now
  {
    if |c| > 0 {
      LiveMembers(c[1..], now);
    }
  }

  lemma {:induction false} LiveAgain(c: seq<UniqueId>, before: int, now: int)
    requires before <= now
    ensures Live(Live(c, before), now) == Live(c, now)
  {
    if |c| > 0 {
      LiveAgain(c[1..], before, now);
      if c[0].expire >= before {
        assert Live(c, before)[1..] == Live(c[1..], before);
      } else {
        assert Live(c, before) == Live(c[1..], before);
      }
    }
  }

  lemma {:induction false} LiveAppend(c: seq<UniqueId>, r: UniqueId, now: int)
    ensures Live(c + [r], now) == Live(c, now) + if r.expire < now then [] else [r]
  {
    if |c| > 0 {
      assert (c + [r])[1..] == c[1..] + [r];
      LiveAppend(c[1..], r, now);
    }
  }

  lemma {:induction false} AppendBoth(c: seq<UniqueId>, log: seq<UniqueId>, r: UniqueId, now: int)
    requires forall t: int :: t >= now ==> Live(c, t) == Live(log, t)
    ensures forall t: int :: t >= now ==> Live(c + [r], t) == Live(log + [r], t)
  {
    forall t: int | t >= now ensures Live(c + [r], t) == Live(log + [r], t) {
      LiveAppend(c, r, t);
      LiveAppend(log, r, t);
    }
  }

  predicate Matches(r: UniqueId, addr: nat, id: nat) {
    r.context == addr && r.id == id
  }

  ghost predicate Has(c: seq<UniqueId>, addr: nat, id: nat) {
    exists i :: 0 <= i < |c| && Matches(c[i], addr, id)
  }

  lemma {:induction false} KnownIff(log: seq<UniqueId>, addr: nat, id: nat, now: int)
    ensures LogHas(log, addr, id, now) <==> Has(Live(log, now), addr, id)
  {
    var live := Live(log, now);
    LiveMembers(log, now);
    if LogHas(log, addr, id, now) {
      var r :| r in log && r.context == addr && r.id == id && r.expire >= now;
      assert r in live;
      var i :| 0 <= i < |live| && live[i] == r;
      assert Matches(live[i], addr, id);
    }
    if Has(live, addr, id) {
      var i :| 0 <= i < |live| && Matches(live[i], addr, id);
      assert live[i] in live;
      assert live[i] in log && live[i].expire >= now;
    }
  }

  class Cache {
    var cache: seq<UniqueId>
    var lifetime: int
    // every record ever made, and the time of the last purge
    ghost var log: seq<UniqueId>
    ghost var purged: int

    constructor (lifetime: int, ghost now: int)
      ensures Valid() && log == [] && purged == now && this.lifetime == lifetime
    {
      cache, log, purged, this.lifetime := [], [], now, lifetime;
    }

    // At any time from the last purge on, a purge of the cache leaves what a purge of the whole log would.
    ghost predicate Valid()
      reads this
    {
      forall t: int :: t >= purged ==> Live(cache, t) == Live(log, t)
    }

    method SetLifetime(t: int)
      requires Valid()
      modifies `lifetime
      ensures Valid() && lifetime == t
    {
      lifetime := t;
    }

    method Purge(now: int)
      requires Valid() && now >= purged
      modifies `cache, `purged
      ensures Valid() && cache == Live(log, now) && purged == now
    {
      cache := Live(cache, now);
      purged := now;
      forall t: int | t >= now ensures Live(cache, t) == Live(log, t) {
        LiveAgain(log, now, t);
      }
    }

    /** Answers as the never-purged log does, and records exactly the packets it does not know. */
    method IsDuplicate(addr: nat, id: nat, now: int) returns (dup: bool)
      requires Valid() && now >= purged
      modifies `cache, `purged, `log
      ensures Valid() && purged == now
      ensures dup <==> LogHas(old(log), addr, id, now)
      ensures dup <==> exists r :: r in old(log) && r.context == addr && r.id == id && now <= r.expire
      ensures log == old(log) + if dup then [] else [UniqueId(addr, id, lifetime + now)]
    {
      Purge(now);
      KnownIff(log, addr, id, now);
      hide Live, LogHas;
      for i := 0 to |cache|
        invariant forall j :: 0 <= j < i ==> !Matches(cache[j], addr, id)
      {
        if Matches(cache[i], addr, id) {
          return true;
        }
      }
      var uniqueId := UniqueId(addr, id, lifetime + now);
      AppendBoth(cache, log, uniqueId, now);
      cache := cache + [uniqueId];
      log := log + [uniqueId];
      dup := false;
    }

    method GetSize(now: int) returns (size: nat)
      requires Valid() && now >= purged
      modifies `cache, `purged
      ensures Valid() && purged == now && size == |Live(log, now)|
    {
      Purge(now);
      size := |cache|;
    }
  }
}
