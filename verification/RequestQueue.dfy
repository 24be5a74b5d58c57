/** The AODV route request queue of src/aodv/model/aodv-rqueue.cc: bounded, expiring, one error callback per drop. */
module RequestQueue {
  import opened Common

  // expire is the absolute time m_expire
  datatype Entry = Entry(uid: nat, dst: nat, expire: int)

  // GetExpireTime() < 0
  predicate IsExpired(e: Entry, now: int) {
    e.expire - now < 0
  }

  function Live(q: seq<Entry>, now: int): seq<Entry> {
    if |q| == 0 then [] else (if IsExpired(q[0], now) then [] else [q[0]]) + Live(q[1..], now)
  }

  function Outdated(q: seq<Entry>, now: int): seq<Entry> {
    if |q| == 0 then [] else (if IsExpired(q[0], now) then [q[0]] else []) + Outdated(q[1..], now)
  }

  // The entries for one destination, in queue order.
  function For(q: seq<Entry>, dst: nat): seq<Entry> {
    if |q| == 0 then [] else (if q[0].dst == dst then [q[0]] else []) + For(q[1..], dst)
  }

  function NotFor(q: seq<Entry>, dst: nat): seq<Entry> {
    if |q| == 0 then [] else (if q[0].dst == dst then [] else [q[0]]) + NotFor(q[1..], dst)
  }

  predicate SameKey(e: Entry, f: Entry) {
    e.uid == f.uid && e.dst == f.dst
  }

  ghost predicate UniqueKeys(q: seq<Entry>) {
    forall i, j :: 0 <= i < j < |q| ==> !SameKey(q[i], q[j])
  }

  ghost predicate Sorted(q: seq<Entry>) {
    forall i, j :: 0 <= i < j < |q| ==> q[i].expire <= q[j].expire
  }

  // ----- filters -----

  lemma {:induction false} LiveAppend(q: seq<Entry>, e: Entry, now: int)
    ensures Live(q + [e], now) == Live(q, now) + if IsExpired(e, now) then [] else [e]
    ensures Outdated(q + [e], now) == Outdated(q, now) + if IsExpired(e, now) then [e] else []
  {
    if |q| > 0 {
      assert (q + [e])[1..] == q[1..] + [e];
      LiveAppend(q[1..], e, now);
    }
  }

  // One more entry goes to either part.
  lemma {:induction false} OneMore(x: Entry, t: seq<Entry>, a: seq<Entry>, b: seq<Entry>)
    requires multiset(t) == multiset(a) + multiset(b)
    ensures multiset([x] + t) == multiset([x] + a) + multiset(b)
    ensures multiset([x] + t) == multiset(a) + multiset([x] + b)
  {
  }

  lemma {:induction false} LiveHead(q: seq<Entry>, now: int)
    requires |q| > 0
    ensures q == [q[0]] + q[1..]
    ensures IsExpired(q[0], now) ==>
              Live(q, now) == Live(q[1..], now) && Outdated(q, now) == [q[0]] + Outdated(q[1..], now)
    ensures !IsExpired(q[0], now) ==>
              Live(q, now) == [q[0]] + Live(q[1..], now) && Outdated(q, now) == Outdated(q[1..], now)
  {
  }

  lemma {:induction false} LiveConserves(q: seq<Entry>, now: int)
    ensures multiset(q) == multiset(Live(q, now)) + multiset(Outdated(q, now))
  {
    if |q| > 0 {
      LiveConserves(q[1..], now);
      LiveHead(q, now);
      OneMore(q[0], q[1..], Live(q[1..], now), Outdated(q[1..], now));
      hide Live, Outdated;
    }
  }

  lemma {:induction false} LiveMembers(q: seq<Entry>, now: int)
    ensures forall e :: e in Live(q, now) <==> e in q && !IsExpired(e, now)
    ensures |Live(q, now)| <= |q|
  {
    if |q| > 0 {
      LiveMembers(q[1..], now);
    }
  }

  lemma {:induction false} LiveUnique(q: seq<Entry>, now: int)
    requires UniqueKeys(q)
    ensures UniqueKeys(Live(q, now))
  {
    if |q| > 0 {
      LiveUnique(q[1..], now);
      LiveMembers(q[1..], now);
      Prepend(q[0], q[1..], Live(q[1..], now));
    }
  }

  // A head that differs from all of t differs from all of its sub-list u.
  lemma {:induction false} Prepend(h: Entry, t: seq<Entry>, u: seq<Entry>)
    requires UniqueKeys(u) && (forall e :: e in u ==> e in t) && UniqueKeys([h] + t)
    ensures UniqueKeys([h] + u)
  {
    forall j | 0 <= j < |u| ensures !SameKey(h, u[j]) {
      assert u[j] in t;
      var i :| 0 <= i < |t| && t[i] == u[j];
      assert ([h] + t)[0] == h && ([h] + t)[i + 1] == u[j];
    }
  }

  lemma {:induction false} ForHead(q: seq<Entry>, dst: nat)
    requires |q| > 0
    ensures q == [q[0]] + q[1..]
    ensures q[0].dst == dst ==> NotFor(q, dst) == NotFor(q[1..], dst) && For(q, dst) == [q[0]] + For(q[1..], dst)
    ensures q[0].dst != dst ==> NotFor(q, dst) == [q[0]] + NotFor(q[1..], dst) && For(q, dst) == For(q[1..], dst)
  {
  }

  lemma {:induction false} NotForConserves(q: seq<Entry>, dst: nat)
    ensures multiset(q) == multiset(NotFor(q, dst)) + multiset(For(q, dst))
  {
    if |q| > 0 {
      NotForConserves(q[1..], dst);
      ForHead(q, dst);
      OneMore(q[0], q[1..], NotFor(q[1..], dst), For(q[1..], dst));
      hide For, NotFor;
    }
  }

  lemma {:induction false} NotForMembers(q: seq<Entry>, dst: nat)
    ensures forall e :: e in NotFor(q, dst) <==> e in q && e.dst != dst
    ensures |NotFor(q, dst)| <= |q|
  {
    if |q| > 0 {
      NotForMembers(q[1..], dst);
    }
  }

  lemma {:induction false} NotForUnique(q: seq<Entry>, dst: nat)
    requires UniqueKeys(q)
    ensures UniqueKeys(NotFor(q, dst))
  {
    if |q| > 0 {
      NotForUnique(q[1..], dst);
      NotForMembers(q[1..], dst);
      Prepend(q[0], q[1..], NotFor(q[1..], dst));
    }
  }

  lemma {:induction false} NotForSorted(q: seq<Entry>, dst: nat)
    requires Sorted(q)
    ensures Sorted(NotFor(q, dst))
  {
    if |q| > 0 {
      NotForSorted(q[1..], dst);
      NotForMembers(q[1..], dst);
      forall e | e in q[1..] ensures q[0].expire <= e.expire {
        var i :| 0 <= i < |q| - 1 && q[1..][i] == e;
        assert q[i + 1] == e;
      }
    }
  }

  lemma {:induction false} ForSplit(a: seq<Entry>, b: seq<Entry>, dst: nat)
    ensures For(a + b, dst) == For(a, dst) + For(b, dst)
  {
    if |a| == 0 {
      assert a + b == b;
    } else {
      assert (a + b)[1..] == a[1..] + b;
      ForSplit(a[1..], b, dst);
    }
  }

  lemma {:induction false} ForNone(q: seq<Entry>, dst: nat)
    requires forall e :: e in q ==> e.dst != dst
    ensures For(q, dst) == []
  {
    if |q| > 0 {
      ForNone(q[1..], dst);
    }
  }

  /** In a sorted queue a purge removes a prefix, oldest first. */
  lemma {:induction false} PurgeRemovesPrefix(q: seq<Entry>, now: int)
    requires Sorted(q)
    ensures var k := |Outdated(q, now)|; k <= |q| && Outdated(q, now) == q[..k] && Live(q, now) == q[k..]
  {
    if |q| > 0 {
      PurgeRemovesPrefix(q[1..], now);
      if !IsExpired(q[0], now) {
        NoneOutdated(q, now);
      }
    }
  }

  lemma {:induction false} NoneOutdated(q: seq<Entry>, now: int)
    requires forall e :: e in q ==> !IsExpired(e, now)
    ensures Outdated(q, now) == [] && Live(q, now) == q
  {
    if |q| > 0 {
      NoneOutdated(q[1..], now);
    }
  }

  // ----- the books -----

  // Conservation: an accepted entry is queued, handed out by Dequeue, or dropped with one error callback.
  ghost predicate Books(queue: seq<Entry>, accepted: seq<Entry>, handed: seq<Entry>, errors: seq<Entry>) {
    UniqueKeys(queue) && multiset(accepted) == multiset(queue) + multiset(handed) + multiset(errors)
  }

  lemma {:induction false} BooksDrop(q: seq<Entry>, q': seq<Entry>, dropped: seq<Entry>, a: seq<Entry>, h: seq<Entry>,
                                     e: seq<Entry>)
    requires Books(q, a, h, e) && UniqueKeys(q') && multiset(q) == multiset(q') + multiset(dropped)
    ensures Books(q', a, h, e + dropped)
  {
  }

  lemma {:induction false} BooksHand(q: seq<Entry>, q': seq<Entry>, x: Entry, a: seq<Entry>, h: seq<Entry>,
                                     e: seq<Entry>)
    requires Books(q, a, h, e) && UniqueKeys(q') && multiset(q) == multiset(q') + multiset{x}
    ensures Books(q', a, h + [x], e)
  {
  }

  lemma {:induction false} BooksAccept(q: seq<Entry>, x: Entry, a: seq<Entry>, h: seq<Entry>, e: seq<Entry>)
    requires Books(q, a, h, e) && forall f :: f in q ==> !SameKey(f, x)
    ensures Books(q + [x], a + [x], h, e)
  {
  }

  // With maxLen and timeout fixed: the bound, and expiries in queue order, none later than now + timeout.
  ghost predicate Timely(q: seq<Entry>, maxLen: nat, timeout: int, now: int) {
    |q| <= maxLen && Sorted(q) && forall e :: e in q ==> e.expire <= now + timeout
  }

  lemma {:induction false} TimelyPurge(q: seq<Entry>, maxLen: nat, timeout: int, before: int, now: int)
    requires Timely(q, maxLen, timeout, before) && before <= now
    ensures Timely(Live(q, now), maxLen, timeout, now)
  {
    PurgeRemovesPrefix(q, now);
  }

  lemma {:induction false} TimelyDequeue(live: seq<Entry>, queue: seq<Entry>, dst: nat, r: Option<Entry>, maxLen: nat,
                                         timeout: int, now: int)
    requires Timely(live, maxLen, timeout, now) && TakenFirst(live, queue, dst, r)
    ensures Timely(queue, maxLen, timeout, now)
  {
    hide For;
    forall e | e in queue ensures e.expire <= now + timeout {
      assert e in multiset(queue);
      assert e in multiset(live);
    }
  }

  lemma {:induction false} TimelyDrop(live: seq<Entry>, dst: nat, maxLen: nat, timeout: int, now: int)
    requires Timely(live, maxLen, timeout, now)
    ensures Timely(NotFor(live, dst), maxLen, timeout, now)
  {
    NotForSorted(live, dst);
    NotForMembers(live, dst);
  }

  lemma {:induction false} TimelyEnqueue(live: seq<Entry>, maxLen: nat, timeout: int, now: int, e: Entry)
    requires Timely(live, maxLen, timeout, now) && maxLen >= 1 && e.expire == timeout + now
    ensures Timely(Pushed(live, maxLen, e), maxLen, timeout, now)
  {
  }

  // The queue after an accepted entry: the oldest is evicted when it is full.
  function Pushed(live: seq<Entry>, maxLen: nat, e: Entry): seq<Entry>
    requires maxLen >= 1
  {
    (if |live| == maxLen then live[1..] else live) + [e]
  }

  function Evicted(live: seq<Entry>, maxLen: nat): seq<Entry>
    requires maxLen >= 1
  {
    if |live| == maxLen then [live[0]] else []
  }

  // ----- runs -----

  // The calls that work on the queue, and what they return.
  datatype Call = DoEnqueue(uid: nat, dst: nat) | DoDequeue(dst: nat) | DoDrop(dst: nat) | DoGetSize

  datatype Reply = Enqueued(ok: bool) | Dequeued(r: Option<Entry>) | Dropped | Size(size: nat)

  // The queue, the entries whose error callback was called, those accepted and those handed out.
  datatype State = State(queue: seq<Entry>, errors: seq<Entry>, accepted: seq<Entry>, handed: seq<Entry>)

  // The position of the first entry for dst, or the length.
  function FirstFor(q: seq<Entry>, dst: nat): (i: nat)
    ensures i <= |q| && (i < |q| ==> q[i].dst == dst)
    ensures forall j :: 0 <= j < i ==> q[j].dst != dst
  {
    if |q| == 0 || q[0].dst == dst then 0 else 1 + FirstFor(q[1..], dst)
  }

  predicate HasKey(q: seq<Entry>, e: Entry) {
    exists f :: f in q && SameKey(f, e)
  }

  // One call at time now.
  function Next(s: State, call: Call, now: int, maxLen: nat, timeout: int): State
    requires maxLen >= 1
  {
    var live, errors := Live(s.queue, now), s.errors + Outdated(s.queue, now);
    match call
    case DoEnqueue(uid, dst) =>
      var e := Entry(uid, dst, timeout + now);
      if HasKey(live, e) then s.(queue := live, errors := errors)
      else State(Pushed(live, maxLen, e), errors + Evicted(live, maxLen), s.accepted + [e], s.handed)
    case DoDequeue(dst) =>
      var i := FirstFor(live, dst);
      if i == |live| then s.(queue := live, errors := errors)
      else State(Without(live, i), errors, s.accepted, s.handed + [live[i]])
    case DoDrop(dst) => s.(queue := NotFor(live, dst), errors := errors + For(live, dst))
    case DoGetSize => s.(queue := live, errors := errors)
  }

  function Answer(s: State, call: Call, now: int, timeout: int): Reply {
    var live := Live(s.queue, now);
    match call
    case DoEnqueue(uid, dst) => Enqueued(!HasKey(live, Entry(uid, dst, timeout + now)))
    case DoDequeue(dst) =>
      var i := FirstFor(live, dst);
      Dequeued(if i == |live| then None else Some(live[i]))
    case DoDrop(_) => Dropped
    case DoGetSize => Size(|live|)
  }

  // The state after the first k calls.
  function After(s: State, calls: seq<Call>, times: seq<int>, k: nat, maxLen: nat, timeout: int): State
    requires maxLen >= 1 && k <= |calls| && k <= |times|
  {
    if k == 0 then s
    else Next(After(s, calls, times, k - 1, maxLen, timeout), calls[k - 1], times[k - 1], maxLen, timeout)
  }

  ghost predicate Balanced(s: State) {
    Books(s.queue, s.accepted, s.handed, s.errors)
  }

  // Every call keeps the books, at any time and whatever the bound.
  lemma {:induction false} NextBalanced(s: State, call: Call, now: int, maxLen: nat, timeout: int)
    requires Balanced(s) && maxLen >= 1
    ensures Balanced(Next(s, call, now, maxLen, timeout))
  {
    hide Books, Live, Outdated, For, NotFor;
    var live, errors := Live(s.queue, now), s.errors + Outdated(s.queue, now);
    BooksPurge(s.queue, now, s.accepted, s.handed, s.errors);
    match call {
      case DoEnqueue(uid, dst) =>
        BooksPushed(live, maxLen, Entry(uid, dst, timeout + now), s.accepted, s.handed, errors);
      case DoDequeue(dst) =>
        var i := FirstFor(live, dst);
        if i < |live| {
          BooksTake(live, i, s.accepted, s.handed, errors);
        }
      case DoDrop(dst) => BooksDropFor(live, dst, s.accepted, s.handed, errors);
      case DoGetSize =>
    }
  }

  // Every call at a later time keeps the bound and the order of the expiries.
  lemma {:induction false} NextTimely(s: State, call: Call, before: int, now: int, maxLen: nat, timeout: int)
    requires Timely(s.queue, maxLen, timeout, before) && before <= now && maxLen >= 1
    ensures Timely(Next(s, call, now, maxLen, timeout).queue, maxLen, timeout, now)
  {
    hide Timely, Live, Outdated, For, NotFor, TakenFirst;
    var live := Live(s.queue, now);
    TimelyPurge(s.queue, maxLen, timeout, before, now);
    match call {
      case DoEnqueue(uid, dst) => TimelyEnqueue(live, maxLen, timeout, now, Entry(uid, dst, timeout + now));
      case DoDequeue(dst) =>
        var i := FirstFor(live, dst);
        if i < |live| {
          TakeAt(live, i);
          TimelyDequeue(live, Without(live, i), dst, Some(live[i]), maxLen, timeout, now);
        }
      case DoDrop(dst) => TimelyDrop(live, dst, maxLen, timeout, now);
      case DoGetSize =>
    }
  }

  ghost predicate NotEarlier(times: seq<int>, before: int) {
    && (forall i :: 0 <= i < |times| ==> before <= times[i])
    && forall i, j :: 0 <= i < j < |times| ==> times[i] <= times[j]
  }

  /** Safety over whole runs, with maxLen and timeout fixed and a clock that does not go back: after any number of calls
      the books balance, the size is within maxLen, expiries stand in queue order, none later than timeout from the last
      call, and what the next call purges is a prefix. */
  lemma {:induction false} RunIsSafe(s: State, calls: seq<Call>, times: seq<int>, k: nat, before: int, maxLen: nat,
                                     timeout: int)
    requires Balanced(s) && Timely(s.queue, maxLen, timeout, before) && maxLen >= 1
    requires |times| == |calls| && k <= |calls| && NotEarlier(times, before)
    ensures var s' := After(s, calls, times, k, maxLen, timeout);
            && Balanced(s') && Timely(s'.queue, maxLen, timeout, if k == 0 then before else times[k - 1])
            && forall now :: Outdated(s'.queue, now) <= s'.queue
    ensures var s' := After(s, calls, times, k, maxLen, timeout);
            && multiset(s'.accepted) == multiset(s'.queue) + multiset(s'.handed) + multiset(s'.errors)
            && |s'.queue| <= maxLen
            && (forall e :: e in s'.queue ==> e.expire <= (if k == 0 then before else times[k - 1]) + timeout)
            && forall i, j :: 0 <= i < j < |s'.queue| ==>
                 && s'.queue[i].expire <= s'.queue[j].expire
                 && (s'.queue[i].uid != s'.queue[j].uid || s'.queue[i].dst != s'.queue[j].dst)
  {
    hide Timely, Balanced, Next, Outdated;
    if k > 0 {
      RunIsSafe(s, calls, times, k - 1, before, maxLen, timeout);
      var t := After(s, calls, times, k - 1, maxLen, timeout);
      NextBalanced(t, calls[k - 1], times[k - 1], maxLen, timeout);
      NextTimely(t, calls[k - 1], if k == 1 then before else times[k - 2], times[k - 1], maxLen, timeout);
    }
    var s' := After(s, calls, times, k, maxLen, timeout);
    TimelySorted(s', maxLen, timeout, if k == 0 then before else times[k - 1]);
    forall now ensures Outdated(s'.queue, now) <= s'.queue {
      PurgeRemovesPrefix(s'.queue, now);
    }
  }

  lemma {:induction false} TimelySorted(s: State, maxLen: nat, timeout: int, now: int)
    requires Balanced(s) && Timely(s.queue, maxLen, timeout, now)
    ensures Sorted(s.queue) && |s.queue| <= maxLen && forall e :: e in s.queue ==> e.expire <= now + timeout
    ensures multiset(s.accepted) == multiset(s.queue) + multiset(s.handed) + multiset(s.errors)
    ensures forall i, j :: 0 <= i < j < |s.queue| ==>
              && s.queue[i].expire <= s.queue[j].expire
              && (s.queue[i].uid != s.queue[j].uid || s.queue[i].dst != s.queue[j].dst)
  {
  }

  // ----- when an entry leaves -----

  // What one call does, case by case.
  lemma {:induction false} NextIs(s: State, call: Call, now: int, maxLen: nat, timeout: int)
    requires maxLen >= 1
    ensures var live, errors := Live(s.queue, now), s.errors + Outdated(s.queue, now);
            var t, answer := Next(s, call, now, maxLen, timeout), Answer(s, call, now, timeout);
            match call
            case DoEnqueue(uid, dst) =>
              var e := Entry(uid, dst, timeout + now);
              && answer == Enqueued(!HasKey(live, e))
              && t.queue == (if HasKey(live, e) then live else Pushed(live, maxLen, e))
              && t.errors == if HasKey(live, e) then errors else errors + Evicted(live, maxLen)
            case DoDequeue(dst) =>
              var i := FirstFor(live, dst);
              && t.errors == errors && t.queue == (if i == |live| then live else Without(live, i))
              && answer == Dequeued(if i == |live| then None else Some(live[i]))
            case DoDrop(dst) =>
              t.queue == NotFor(live, dst) && t.errors == errors + For(live, dst) && answer == Dropped
            case DoGetSize => t.queue == live && t.errors == errors && answer == Size(|live|)
  {
    hide Live, Outdated, For, NotFor, HasKey, Pushed, Evicted, FirstFor;
  }

  // In a queue ordered by expiry the purge takes a first part: what has expired before now.
  lemma {:induction false} PurgeAt(q: seq<Entry>, now: int) returns (n: nat)
    requires Sorted(q)
    ensures n <= |q| && Live(q, now) == q[n..] && Outdated(q, now) == q[..n]
    ensures forall i :: 0 <= i < |q| ==> (i < n <==> q[i].expire < now)
  {
    PurgeRemovesPrefix(q, now);
    LiveMembers(q, now);
    n := |Outdated(q, now)|;
    OutdatedExpired(q, now);
    forall i | 0 <= i < |q| ensures i < n <==> q[i].expire < now {
      if i < n {
        assert q[i] == Outdated(q, now)[i];
      } else {
        assert q[i] == Live(q, now)[i - n] && q[i] in Live(q, now);
      }
    }
  }

  lemma {:induction false} OutdatedExpired(q: seq<Entry>, now: int)
    ensures forall i :: 0 <= i < |Outdated(q, now)| ==> Outdated(q, now)[i].expire < now
  {
    if |q| > 0 {
      OutdatedExpired(q[1..], now);
    }
  }

  // e is the oldest entry that has not expired at now, and as many as maxLen have not.
  ghost predicate OldestOfFull(q: seq<Entry>, now: int, maxLen: nat, e: Entry) {
    exists i {:trigger q[i]} :: 0 <= i < |q| && q[i] == e && now <= e.expire && |q| - i == maxLen
           && forall a :: 0 <= a < i ==> q[a].expire < now
  }

  // The call accepts its entry.
  ghost predicate Accepts(s: State, call: Call, now: int, timeout: int) {
    call.DoEnqueue? && Answer(s, call, now, timeout) == Enqueued(true)
  }

  /** A queued entry stays over a call at time now iff it has not expired before now, is not handed out or dropped by
      destination, and is not the oldest of a full queue that accepts another. */
  lemma {:induction false} Fate(s: State, call: Call, before: int, now: int, maxLen: nat, timeout: int, e: Entry)
    requires Balanced(s) && Timely(s.queue, maxLen, timeout, before) && before <= now && maxLen >= 1 && timeout >= 0
    requires e in s.queue
    ensures e in Next(s, call, now, maxLen, timeout).queue <==>
              && now <= e.expire && call != DoDrop(e.dst) && Answer(s, call, now, timeout) != Dequeued(Some(e))
              && !(Accepts(s, call, now, timeout) && OldestOfFull(s.queue, now, maxLen, e))
  {
    hide Next, Answer, Live, Outdated, Sorted, NotFor, For;
    var n := PurgeAt(s.queue, now);
    var live := s.queue[n..];
    var p :| 0 <= p < |s.queue| && s.queue[p] == e;
    OldestIs(s.queue, now, maxLen, n, p);
    UniqueKeysUnique(s.queue, p);
    InRest(s.queue, n, p);
    LiveUnique(s.queue, now);
    NextIs(s, call, now, maxLen, timeout);
    hide OldestOfFull, UniqueKeys, Pushed, Evicted, HasKey, Books, Balanced, Timely;
    match call {
      case DoEnqueue(uid, dst) =>
        PushedKeeps(live, maxLen, Entry(uid, dst, timeout + now), e);
      case DoDequeue(dst) =>
        if FirstFor(live, dst) < |live| {
          TakenKeeps(live, dst, e);
        }
      case DoDrop(dst) => NotForMembers(live, dst);
      case DoGetSize =>
    }
  }

  lemma {:induction false} UniqueKeysUnique(q: seq<Entry>, p: nat)
    requires UniqueKeys(q) && p < |q|
    ensures forall i :: 0 <= i < |q| && q[i] == q[p] ==> i == p
  {
  }

  lemma {:induction false} InRest(q: seq<Entry>, n: nat, p: nat)
    requires n <= |q| && p < |q| && forall i :: 0 <= i < |q| && q[i] == q[p] ==> i == p
    ensures q[p] in q[n..] <==> n <= p
    ensures p == n ==> q[n..][0] == q[p]
    ensures n < |q| && q[n..][0] == q[p] ==> p == n
  {
    if n <= p {
      assert q[n..][p - n] == q[p];
    }
  }

  lemma {:induction false} PushedKeeps(live: seq<Entry>, maxLen: nat, x: Entry, e: Entry)
    requires UniqueKeys(live) && maxLen >= 1
    ensures e in Pushed(live, maxLen, x) <==> (e in live && !(|live| == maxLen && e == live[0])) || e == x
  {
    if |live| == maxLen {
      assert live == [live[0]] + live[1..] && live[0] !in live[1..];
    }
  }

  lemma {:induction false} TakenKeeps(live: seq<Entry>, dst: nat, e: Entry)
    requires UniqueKeys(live) && FirstFor(live, dst) < |live|
    ensures e in Without(live, FirstFor(live, dst)) <==> e in live && e != live[FirstFor(live, dst)]
  {
    LeavesOnly(live, FirstFor(live, dst));
  }

  lemma {:induction false} OldestIs(q: seq<Entry>, now: int, maxLen: nat, n: nat, p: nat)
    requires UniqueKeys(q) && n <= |q| && p < |q|
    requires forall i :: 0 <= i < |q| ==> (i < n <==> q[i].expire < now)
    ensures OldestOfFull(q, now, maxLen, q[p]) <==> p == n && |q| - n == maxLen
  {
    var early := n < |q| && q[n].expire < now;
    if OldestOfFull(q, now, maxLen, q[p]) {
      var i :| 0 <= i < |q| && q[i] == q[p] && now <= q[p].expire && |q| - i == maxLen
               && forall a :: 0 <= a < i ==> q[a].expire < now;
      assert i == p && !early;
    }
  }

  lemma {:induction false} LeavesOnly(live: seq<Entry>, i: nat)
    requires UniqueKeys(live) && i < |live|
    ensures forall e :: e in Without(live, i) <==> e in live && e != live[i]
  {
    assert live == live[..i] + [live[i]] + live[i + 1..];
    assert forall j :: 0 <= j < |live| && j != i ==> live[j] != live[i];
  }

  // What is queued after a call was queued before, or is what the call accepted.
  lemma {:induction false} QueuedFrom(s: State, call: Call, now: int, maxLen: nat, timeout: int, e: Entry)
    requires maxLen >= 1 && e in Next(s, call, now, maxLen, timeout).queue
    ensures e in s.queue
            || (Accepts(s, call, now, timeout) && call == DoEnqueue(e.uid, e.dst) && e.expire == now + timeout)
  {
    LiveMembers(s.queue, now);
    hide Live, Outdated;
    if call.DoDrop? {
      NotForMembers(Live(s.queue, now), call.dst);
    }
  }

  // Call j neither hands e out nor drops it by destination nor evicts it.
  ghost predicate Spares(s: State, calls: seq<Call>, times: seq<int>, maxLen: nat, timeout: int, j: nat, e: Entry)
    requires maxLen >= 1 && |times| == |calls| && j < |calls|
  {
    var t := After(s, calls, times, j, maxLen, timeout);
    && calls[j] != DoDrop(e.dst) && Answer(t, calls[j], times[j], timeout) != Dequeued(Some(e))
    && !(Accepts(t, calls[j], times[j], timeout) && OldestOfFull(t.queue, times[j], maxLen, e))
  }

  /** An entry accepted at time times[k], and not handed out, dropped by destination or evicted since, is queued after a
      later call iff that call comes no more than timeout after it. */
  lemma {:induction false} StaysUntilExpiry(s: State, calls: seq<Call>, times: seq<int>, before: int, maxLen: nat,
                                            timeout: int, k: nat, m: nat, e: Entry)
    requires Balanced(s) && Timely(s.queue, maxLen, timeout, before) && maxLen >= 1 && timeout >= 0
    requires |times| == |calls| && NotEarlier(times, before) && k <= m < |calls|
    requires Accepts(After(s, calls, times, k, maxLen, timeout), calls[k], times[k], timeout)
    requires calls[k] == DoEnqueue(e.uid, e.dst) && e.expire == times[k] + timeout
    requires forall j :: k < j <= m ==> Spares(s, calls, times, maxLen, timeout, j, e)
    ensures e in After(s, calls, times, m + 1, maxLen, timeout).queue <==> times[m] <= times[k] + timeout
  {
    hide After, Next, Answer, Accepts, Spares, Timely, Balanced, OldestOfFull;
    var t := After(s, calls, times, m, maxLen, timeout);
    AfterOne(s, calls, times, m, maxLen, timeout);
    if m == k {
      AcceptedIsQueued(t, calls[m], times[m], maxLen, timeout, e);
    } else {
      RunIsSafe(s, calls, times, m, before, maxLen, timeout);
      StaysUntilExpiry(s, calls, times, before, maxLen, timeout, k, m - 1, e);
      SparesAt(s, calls, times, maxLen, timeout, m, e);
      StaysOver(t, calls[m], times[m - 1], times[m], maxLen, timeout, e);
    }
  }

  /** With a negative timeout nothing outlives the call that accepted it: the next one finds no entry that has not
      expired. */
  lemma {:induction false} NothingLasts(s: State, call: Call, before: int, now: int, maxLen: nat, timeout: int,
                                        e: Entry)
    requires Balanced(s) && Timely(s.queue, maxLen, timeout, before) && before <= now && maxLen >= 1 && timeout < 0
    requires e in Next(s, call, now, maxLen, timeout).queue
    ensures Accepts(s, call, now, timeout) && call == DoEnqueue(e.uid, e.dst) && e.expire == now + timeout
  {
    NoneLive(s.queue, now);
    hide Live, Outdated;
  }

  lemma {:induction false} NoneLive(q: seq<Entry>, now: int)
    requires forall f :: f in q ==> f.expire < now
    ensures Live(q, now) == []
  {
    if |q| > 0 {
      NoneLive(q[1..], now);
    }
  }

  lemma {:induction false} SparesAt(s: State, calls: seq<Call>, times: seq<int>, maxLen: nat, timeout: int, j: nat,
                                    e: Entry)
    requires maxLen >= 1 && |times| == |calls| && j < |calls| && Spares(s, calls, times, maxLen, timeout, j, e)
    ensures var t := After(s, calls, times, j, maxLen, timeout);
            && calls[j] != DoDrop(e.dst) && Answer(t, calls[j], times[j], timeout) != Dequeued(Some(e))
            && !(Accepts(t, calls[j], times[j], timeout) && OldestOfFull(t.queue, times[j], maxLen, e))
  {
  }

  lemma {:induction false} StaysOver(t: State, call: Call, before: int, now: int, maxLen: nat, timeout: int, e: Entry)
    requires Balanced(t) && Timely(t.queue, maxLen, timeout, before) && before <= now && maxLen >= 1 && timeout >= 0
    requires e in t.queue <==> before <= e.expire
    requires call != DoDrop(e.dst) && Answer(t, call, now, timeout) != Dequeued(Some(e))
    requires !(Accepts(t, call, now, timeout) && OldestOfFull(t.queue, now, maxLen, e))
    ensures e in Next(t, call, now, maxLen, timeout).queue <==> now <= e.expire
  {
    hide Next, Answer, Accepts, Balanced, Timely, OldestOfFull;
    if e in t.queue {
      Fate(t, call, before, now, maxLen, timeout, e);
    } else if e in Next(t, call, now, maxLen, timeout).queue {
      QueuedFrom(t, call, now, maxLen, timeout, e);
    }
  }

  lemma {:induction false} AcceptedIsQueued(s: State, call: Call, now: int, maxLen: nat, timeout: int, e: Entry)
    requires maxLen >= 1 && Accepts(s, call, now, timeout)
    requires call == DoEnqueue(e.uid, e.dst) && e.expire == now + timeout
    ensures e in Next(s, call, now, maxLen, timeout).queue
  {
    hide Live, Outdated, HasKey;
  }

  lemma {:induction false} AfterOne(s: State, calls: seq<Call>, times: seq<int>, m: nat, maxLen: nat, timeout: int)
    requires maxLen >= 1 && m < |calls| && m < |times|
    ensures After(s, calls, times, m + 1, maxLen, timeout)
            == Next(After(s, calls, times, m, maxLen, timeout), calls[m], times[m], maxLen, timeout)
  {
  }

  // Call k of the run accepted e.
  ghost predicate AcceptedBy(s: State, calls: seq<Call>, times: seq<int>, maxLen: nat, timeout: int, k: nat, e: Entry)
    requires maxLen >= 1 && |times| == |calls|
  {
    && k < |calls| && calls[k] == DoEnqueue(e.uid, e.dst) && e.expire == times[k] + timeout
    && Accepts(After(s, calls, times, k, maxLen, timeout), calls[k], times[k], timeout)
  }

  lemma {:induction false} Origin(s: State, calls: seq<Call>, times: seq<int>, maxLen: nat, timeout: int, m: nat,
                                  e: Entry) returns (k: nat)
    requires maxLen >= 1 && |times| == |calls| && m <= |calls| && s.queue == []
    requires e in After(s, calls, times, m, maxLen, timeout).queue
    ensures k < m && AcceptedBy(s, calls, times, maxLen, timeout, k, e)
  {
    AfterOne(s, calls, times, m - 1, maxLen, timeout);
    var t := After(s, calls, times, m - 1, maxLen, timeout);
    hide Next, Answer;
    if e in t.queue {
      k := Origin(s, calls, times, maxLen, timeout, m - 1, e);
    } else {
      QueuedFrom(t, calls[m - 1], times[m - 1], maxLen, timeout, e);
      k := m - 1;
    }
  }

  /** From an empty queue, Dequeue only hands out what an earlier call accepted, no more than timeout before. */
  lemma {:induction false} HandedInTime(s: State, calls: seq<Call>, times: seq<int>, maxLen: nat, timeout: int, m: nat,
                                        e: Entry) returns (k: nat)
    requires maxLen >= 1 && |times| == |calls| && m < |calls| && s.queue == []
    requires Answer(After(s, calls, times, m, maxLen, timeout), calls[m], times[m], timeout) == Dequeued(Some(e))
    ensures k < m && AcceptedBy(s, calls, times, maxLen, timeout, k, e)
    ensures times[m] <= times[k] + timeout && calls[m] == DoDequeue(e.dst)
  {
    var t := After(s, calls, times, m, maxLen, timeout);
    LiveMembers(t.queue, times[m]);
    assert e in Live(t.queue, times[m]);
    k := Origin(s, calls, times, maxLen, timeout, m, e);
    hide After;
  }

  /** A packet is accepted iff no queued entry that has not expired before now has its id and destination. */
  lemma {:induction false} AcceptsIff(s: State, uid: nat, dst: nat, now: int, timeout: int)
    ensures Accepts(s, DoEnqueue(uid, dst), now, timeout) <==>
              forall f :: f in s.queue && now <= f.expire ==> !(f.uid == uid && f.dst == dst)
  {
    LiveMembers(s.queue, now);
    hide Live;
  }

  ghost predicate FirstUnexpired(q: seq<Entry>, dst: nat, now: int, e: Entry) {
    && e.dst == dst && now <= e.expire
    && exists i {:trigger q[i]} ::
         0 <= i < |q| && q[i] == e && forall a :: 0 <= a < i && q[a].dst == dst ==> q[a].expire < now
  }

  /** Dequeue hands out the first queued entry for dst that has not expired before now, and nothing iff there is
      none. */
  lemma {:induction false} HandsOutFirst(s: State, dst: nat, now: int, timeout: int)
    requires Sorted(s.queue)
    ensures match Answer(s, DoDequeue(dst), now, timeout).r
            case None => forall f :: f in s.queue && f.dst == dst ==> f.expire < now
            case Some(e) => FirstUnexpired(s.queue, dst, now, e)
  {
    var n := PurgeAt(s.queue, now);
    var live := s.queue[n..];
    var i := FirstFor(live, dst);
    forall j | n <= j < n + i && j < |s.queue| ensures s.queue[j].dst != dst {
      assert s.queue[j] == live[j - n];
    }
    if i < |live| {
      assert s.queue[n + i] == live[i];
    }
    hide Live, Outdated, Sorted;
  }

  /** Whatever else leaves the queue in a call leaves with an error callback. */
  lemma {:induction false} LeavesWithCallback(s: State, call: Call, now: int, maxLen: nat, timeout: int, e: Entry)
    requires maxLen >= 1 && e in s.queue && e !in Next(s, call, now, maxLen, timeout).queue
    ensures s.errors <= Next(s, call, now, maxLen, timeout).errors
    ensures Answer(s, call, now, timeout) == Dequeued(Some(e)) || e in Next(s, call, now, maxLen, timeout).errors
  {
    var live := Live(s.queue, now);
    EitherPart(s.queue, now, e);
    NextIs(s, call, now, maxLen, timeout);
    ErrorsGrow(s, call, now, maxLen, timeout);
    hide Next, Answer, Live, Outdated, For, NotFor, HasKey, Pushed, Evicted;
    if e in live {
      match call {
        case DoEnqueue(uid, dst) => PushedOrEvicted(live, maxLen, Entry(uid, dst, timeout + now), e);
        case DoDequeue(dst) => TakenOrKept(live, FirstFor(live, dst), e);
        case DoDrop(dst) => DroppedOrKept(live, dst, e);
        case DoGetSize =>
      }
    }
  }

  lemma {:induction false} ErrorsGrow(s: State, call: Call, now: int, maxLen: nat, timeout: int)
    requires maxLen >= 1
    ensures s.errors <= Next(s, call, now, maxLen, timeout).errors
    ensures forall e :: e in Outdated(s.queue, now) ==> e in Next(s, call, now, maxLen, timeout).errors
  {
    NextIs(s, call, now, maxLen, timeout);
    hide Next, Live, Outdated, For, Evicted, HasKey;
  }

  lemma {:induction false} PushedOrEvicted(live: seq<Entry>, maxLen: nat, x: Entry, e: Entry)
    requires e in live && maxLen >= 1
    ensures e in Pushed(live, maxLen, x) || e in Evicted(live, maxLen)
  {
    if |live| == maxLen {
      assert live == [live[0]] + live[1..];
    }
  }

  lemma {:induction false} TakenOrKept(live: seq<Entry>, i: nat, e: Entry)
    requires e in live
    ensures i < |live| ==> e in Without(live, i) || e == live[i]
  {
    if i < |live| {
      assert live == live[..i] + [live[i]] + live[i + 1..];
    }
  }

  lemma {:induction false} EitherPart(q: seq<Entry>, now: int, e: Entry)
    requires e in q
    ensures e in Live(q, now) || e in Outdated(q, now)
  {
    if |q| > 0 && e != q[0] {
      EitherPart(q[1..], now, e);
    }
  }

  lemma {:induction false} DroppedOrKept(q: seq<Entry>, dst: nat, e: Entry)
    requires e in q
    ensures e in For(q, dst) || e in NotFor(q, dst)
  {
    if |q| > 0 && e != q[0] {
      DroppedOrKept(q[1..], dst, e);
    }
  }

  // ----- the class -----

  class Queue {
    var queue: seq<Entry>
    var maxLen: nat
    var timeout: int
    // the entries whose error callback has been called
    var errors: seq<Entry>
    // all entries Enqueue has accepted and all that Dequeue has handed out
    ghost var accepted: seq<Entry>
    ghost var handed: seq<Entry>

    constructor (maxLen: nat, timeout: int)
      ensures Valid() && queue == [] && errors == [] && this.maxLen == maxLen && this.timeout == timeout
      ensures accepted == [] && handed == []
    {
      queue, errors, accepted, handed := [], [], [], [];
      this.maxLen, this.timeout := maxLen, timeout;
    }

    ghost predicate Valid()
      reads this
    {
      Books(queue, accepted, handed, errors)
    }

    method Purge(now: int)
      requires Valid()
      modifies `queue, `errors
      ensures Valid()
      ensures queue == Live(old(queue), now) && errors == old(errors) + Outdated(old(queue), now)
    {
      hide Books, Live;
      assert queue[..0] == [];
      for i := 0 to |queue|
        invariant queue == old(queue) && errors == old(errors) + Outdated(queue[..i], now)
      {
        assert queue[..i + 1] == queue[..i] + [queue[i]];
        LiveAppend(queue[..i], queue[i], now);
        if IsExpired(queue[i], now) {
          errors := errors + [queue[i]];
        }
      }
      assert queue[..|queue|] == queue;
      BooksPurge(queue, now, accepted, handed, old(errors));
      queue := Live(queue, now);
    }

    method GetSize(now: int) returns (size: nat)
      requires Valid()
      modifies `queue, `errors
      ensures Valid() && queue == Live(old(queue), now) && errors == old(errors) + Outdated(old(queue), now)
      ensures size == |queue|
    {
      Purge(now);
      size := |queue|;
    }

    // The scan for a queued packet with the same key.
    method Knows(entry: Entry) returns (known: bool)
      ensures known <==> exists f :: f in queue && SameKey(f, entry)
    {
      for i := 0 to |queue|
        invariant forall j :: 0 <= j < i ==> !SameKey(queue[j], entry)
      {
        if SameKey(queue[i], entry) {
          return true;
        }
      }
      known := false;
    }

    method Enqueue(uid: nat, dst: nat, now: int) returns (ok: bool)
      requires Valid() && maxLen >= 1
      modifies `queue, `errors, `accepted
      ensures Valid()
      ensures var live, e := Live(old(queue), now), Entry(uid, dst, timeout + now);
              && (ok <==> forall f :: f in live ==> !SameKey(f, e))
              && accepted == old(accepted) + (if ok then [e] else [])
              && queue == (if ok then Pushed(live, maxLen, e) else live)
              && errors == old(errors) + Outdated(old(queue), now) + if ok then Evicted(live, maxLen) else []
    {
      hide Books, Live, Outdated, SameKey;
      Purge(now);
      var entry := Entry(uid, dst, timeout + now);
      var known := Knows(entry);
      if known {
        return false;
      }
      Accept(entry);
      ok := true;
    }

    // Appends an entry with a new key; a full queue first drops its most aged entry.
    method Accept(entry: Entry)
      requires Valid() && maxLen >= 1 && forall f :: f in queue ==> !SameKey(f, entry)
      modifies `queue, `errors, `accepted
      ensures Valid() && accepted == old(accepted) + [entry]
      ensures queue == Pushed(old(queue), maxLen, entry) && errors == old(errors) + Evicted(old(queue), maxLen)
    {
      hide Books, SameKey;
      if |queue| == maxLen {
        BooksEvict(queue, accepted, handed, errors);
        errors := errors + [queue[0]];
        queue := queue[1..];
      }
      BooksAccept(queue, entry, accepted, handed, errors);
      queue := queue + [entry];
      accepted := accepted + [entry];
    }

    method DropPacketWithDst(dst: nat, now: int)
      requires Valid()
      modifies `queue, `errors
      ensures Valid()
      ensures queue == NotFor(Live(old(queue), now), dst)
      ensures errors == old(errors) + Outdated(old(queue), now) + For(Live(old(queue), now), dst)
    {
      hide Books, Live, Outdated;
      Purge(now);
      ghost var live, before := queue, errors;
      assert queue[..0] == [];
      for i := 0 to |queue|
        invariant queue == live && errors == before + For(queue[..i], dst)
      {
        assert queue[..i + 1] == queue[..i] + [queue[i]];
        ForSplit(queue[..i], [queue[i]], dst);
        if queue[i].dst == dst {
          errors := errors + [queue[i]];
        }
      }
      assert queue[..|queue|] == queue;
      BooksDropFor(queue, dst, accepted, handed, before);
      queue := NotFor(queue, dst);
    }

    // First in, first out for each destination.
    method Dequeue(dst: nat, now: int) returns (r: Option<Entry>)
      requires Valid()
      modifies `queue, `errors, `handed
      ensures Valid()
      ensures errors == old(errors) + Outdated(old(queue), now)
      ensures TakenFirst(Live(old(queue), now), queue, dst, r)
      ensures var live := Live(old(queue), now);
              var i := FirstFor(live, dst);
              && queue == (if i == |live| then live else Without(live, i))
              && r == if i == |live| then None else Some(live[i])
      ensures handed == old(handed) + if r.Some? then [r.value] else []
    {
      hide UniqueKeys, TakenFirst, Books, Live, Outdated;
      Purge(now);
      for i := 0 to |queue|
        invariant forall j :: 0 <= j < i ==> queue[j].dst != dst
      {
        if queue[i].dst == dst {
          var e := queue[i];
          FirstForIs(queue, dst, i);
          TakeAt(queue, i);
          BooksTake(queue, i, accepted, handed, errors);
          queue := queue[..i] + queue[i + 1..];
          handed := handed + [e];
          return Some(e);
        }
      }
      FirstForIs(queue, dst, |queue|);
      ForNone(queue, dst);
      NoneTaken(queue, dst);
      r := None;
    }

    // Does not purge.
    method Find(dst: nat) returns (found: bool)
      ensures found <==> exists e :: e in queue && e.dst == dst
    {
      for i := 0 to |queue|
        invariant forall j :: 0 <= j < i ==> queue[j].dst != dst
      {
        if queue[i].dst == dst {
          return true;
        }
      }
      found := false;
    }

    ghost function TheState(): State
      reads this
    {
      State(queue, errors, accepted, handed)
    }

    /** One call does what Next says and returns what Answer says. */
    method Perform(call: Call, now: int) returns (reply: Reply)
      requires Valid() && maxLen >= 1
      modifies `queue, `errors, `accepted, `handed
      ensures Valid()
      ensures TheState() == Next(old(TheState()), call, now, maxLen, timeout)
      ensures reply == Answer(old(TheState()), call, now, timeout)
    {
      hide Books, TakenFirst, Live, Outdated, For, NotFor, SameKey;
      match call {
        case DoEnqueue(uid, dst) =>
          var ok := Enqueue(uid, dst, now);
          reply := Enqueued(ok);
        case DoDequeue(dst) =>
          var r := Dequeue(dst, now);
          reply := Dequeued(r);
        case DoDrop(dst) =>
          DropPacketWithDst(dst, now);
          reply := Dropped;
        case DoGetSize =>
          var size := GetSize(now);
          reply := Size(size);
      }
    }

    /** A run of calls ends in the state the fold of Next gives, with the answers along it. */
    method Run(calls: seq<Call>, times: seq<int>) returns (replies: seq<Reply>)
      requires Valid() && maxLen >= 1 && |times| == |calls|
      modifies `queue, `errors, `accepted, `handed
      ensures Valid() && TheState() == After(old(TheState()), calls, times, |calls|, maxLen, timeout)
      ensures |replies| == |calls|
      ensures forall k :: 0 <= k < |calls| ==>
                replies[k] == Answer(After(old(TheState()), calls, times, k, maxLen, timeout),
                                     calls[k], times[k], timeout)
    {
      hide Books, Next, Answer;
      replies := [];
      for k := 0 to |calls|
        invariant Valid() && TheState() == After(old(TheState()), calls, times, k, maxLen, timeout)
        invariant |replies| == k
        invariant forall j :: 0 <= j < k ==>
                    replies[j] == Answer(After(old(TheState()), calls, times, j, maxLen, timeout),
                                         calls[j], times[j], timeout)
      {
        var reply := Perform(calls[k], times[k]);
        replies := replies + [reply];
      }
    }
  }

  lemma {:induction false} FirstForIs(q: seq<Entry>, dst: nat, i: nat)
    requires i <= |q| && (i < |q| ==> q[i].dst == dst) && forall j :: 0 <= j < i ==> q[j].dst != dst
    ensures FirstFor(q, dst) == i
  {
  }

  lemma {:induction false} BooksPushed(live: seq<Entry>, maxLen: nat, e: Entry, a: seq<Entry>, h: seq<Entry>,
                                       errors: seq<Entry>)
    requires Books(live, a, h, errors) && maxLen >= 1
    ensures !HasKey(live, e) ==> Books(Pushed(live, maxLen, e), a + [e], h, errors + Evicted(live, maxLen))
  {
    hide Books, SameKey;
    if !HasKey(live, e) {
      if |live| == maxLen {
        BooksEvict(live, a, h, errors);
        BooksAccept(live[1..], e, a, h, errors + [live[0]]);
      } else {
        BooksAccept(live, e, a, h, errors);
        assert errors + [] == errors;
      }
    }
  }

  // r is the first entry for dst; the order of all others is kept.
  ghost predicate TakenFirst(live: seq<Entry>, queue: seq<Entry>, dst: nat, r: Option<Entry>) {
    match r
    case None => For(live, dst) == [] && queue == live
    case Some(e) =>
      && For(live, dst) == [e] + For(queue, dst)
      && (forall d :: d != dst ==> For(queue, d) == For(live, d))
      && (Sorted(live) ==> Sorted(queue)) && |queue| == |live| - 1
      && multiset(live) == multiset(queue) + multiset{e}
  }

  lemma {:induction false} NoneTaken(q: seq<Entry>, dst: nat)
    requires For(q, dst) == []
    ensures TakenFirst(q, q, dst, None)
  {
  }

  lemma {:induction false} BooksPurge(q: seq<Entry>, now: int, a: seq<Entry>, h: seq<Entry>, e: seq<Entry>)
    requires Books(q, a, h, e)
    ensures Books(Live(q, now), a, h, e + Outdated(q, now))
  {
    LiveConserves(q, now);
    LiveUnique(q, now);
    BooksDrop(q, Live(q, now), Outdated(q, now), a, h, e);
  }

  lemma {:induction false} BooksEvict(q: seq<Entry>, a: seq<Entry>, h: seq<Entry>, e: seq<Entry>)
    requires |q| > 0 && Books(q, a, h, e)
    ensures Books(q[1..], a, h, e + [q[0]])
  {
    assert q == [q[0]] + q[1..];
    BooksDrop(q, q[1..], [q[0]], a, h, e);
  }

  lemma {:induction false} BooksDropFor(q: seq<Entry>, dst: nat, a: seq<Entry>, h: seq<Entry>, e: seq<Entry>)
    requires Books(q, a, h, e)
    ensures Books(NotFor(q, dst), a, h, e + For(q, dst))
  {
    NotForConserves(q, dst);
    NotForUnique(q, dst);
    BooksDrop(q, NotFor(q, dst), For(q, dst), a, h, e);
  }

  lemma {:induction false} BooksTake(q: seq<Entry>, i: nat, a: seq<Entry>, h: seq<Entry>, e: seq<Entry>)
    requires i < |q| && Books(q, a, h, e)
    ensures Books(Without(q, i), a, h + [q[i]], e)
  {
    TakeSorted(q, i);
    RemoveOne(q, i);
    BooksHand(q, Without(q, i), q[i], a, h, e);
  }

  lemma {:induction false} TakeAt(q: seq<Entry>, i: nat)
    requires i < |q| && forall j :: 0 <= j < i ==> q[j].dst != q[i].dst
    ensures TakenFirst(q, Without(q, i), q[i].dst, Some(q[i]))
  {
    hide For;
    RemoveOne(q, i);
    TakeSorted(q, i);
    forall d: nat
      ensures For(q, d) == (if d == q[i].dst then [q[i]] else []) + For(Without(q, i), d)
    {
      TakeFor(q, i, d);
    }
  }

  lemma {:induction false} TakeSorted(q: seq<Entry>, i: nat)
    requires i < |q|
    ensures UniqueKeys(q) ==> UniqueKeys(Without(q, i))
    ensures Sorted(q) ==> Sorted(Without(q, i))
  {
  }

  lemma {:induction false} TakeFor(q: seq<Entry>, i: nat, d: nat)
    requires i < |q| && forall j :: 0 <= j < i ==> q[j].dst != q[i].dst
    ensures For(q, d) == (if d == q[i].dst then [q[i]] else []) + For(Without(q, i), d)
  {
    ForAround(q, i, d);
    if d == q[i].dst {
      ForNone(q[..i], d);
    }
    assert For([q[i]], d) == if d == q[i].dst then [q[i]] else [];
  }

  lemma {:induction false} ForAround(q: seq<Entry>, i: nat, d: nat)
    requires i < |q|
    ensures For(q, d) == For(q[..i], d) + For([q[i]], d) + For(q[i + 1..], d)
    ensures For(Without(q, i), d) == For(q[..i], d) + For(q[i + 1..], d)
  {
    assert q == q[..i] + ([q[i]] + q[i + 1..]);
    ForSplit(q[..i], [q[i]] + q[i + 1..], d);
    ForSplit([q[i]], q[i + 1..], d);
    ForSplit(q[..i], q[i + 1..], d);
  }

  /** One accepted Enqueue keeps the bound exactly when the purged queue was within it: lowering maxLen below the size
      voids it. */
  lemma {:induction false} BoundKeptIff(live: seq<Entry>, maxLen: nat, e: Entry)
    requires maxLen >= 1
    ensures |Pushed(live, maxLen, e)| <= maxLen <==> |live| <= maxLen
  {
  }
}
