/** Queue-pair selection and the event-driven flow generation of scratch/third.cc. */
module Traffic {
  import opened Common

  type Pair = (nat, nat)

  predicate InterRack(p: Pair, hosts: nat, perRack: nat)
    requires perRack > 0
  {
    p.0 < hosts && p.1 < hosts && p.0 / perRack != p.1 / perRack
  }

  ghost predicate AllPairs(all: seq<Pair>, hosts: nat, perRack: nat)
    requires perRack > 0
  {
    Distinct(all) && forall p :: p in all <==> InterRack(p, hosts, perRack)
  }

  method ListPairs(hosts: nat, perRack: nat) returns (all: seq<Pair>)
    requires perRack > 0
    ensures AllPairs(all, hosts, perRack)
    ensures forall p: Pair :: p in all <==> p.0 < hosts && p.1 < hosts && p.0 / perRack != p.1 / perRack
    ensures perRack == 1 && hosts > 0 ==> |all| == hosts * (hosts - 1)
  {
    all := [];
    for sender := 0 to hosts
      invariant Distinct(all) && (perRack == 1 && hosts > 0 ==> |all| == sender * (hosts - 1))
      invariant forall p: Pair :: p in all <==> InterRack(p, hosts, perRack) && p.0 < sender
    {
      for receiver := 0 to hosts
        invariant Distinct(all)
        invariant perRack == 1 ==>
                    |all| == sender * (hosts - 1) + if sender < receiver then receiver - 1 else receiver
        invariant forall p: Pair :: p in all <==>
                    InterRack(p, hosts, perRack) && (p.0 < sender || (p.0 == sender && p.1 < receiver))
      {
        if sender / perRack == receiver / perRack { continue; }
        assert (sender, receiver) !in all;
        all := all + [(sender, receiver)];
      }
    }
  }

  // Different pairs of all.
  ghost predicate Chosen(qps: seq<Pair>, all: seq<Pair>) {
    Distinct(qps) && forall p :: p in qps ==> p in all
  }

  // erase(begin + k) keeps the rest apart and forgets exactly that pair.
  lemma {:induction false} Erase(all: seq<Pair>, k: nat)
    requires k < |all| && Distinct(all)
    ensures Distinct(Without(all, k)) && all[k] !in Without(all, k)
    ensures forall p :: p in Without(all, k) ==> p in all
  {
  }

  // The random index is any index. None: the assertion on the number of pairs fails.
  method GenerateQp(hosts: nat, perRack: nat, flowNum: nat, avg: nat)
    returns (r: Option<seq<Pair>>, ghost all: seq<Pair>)
    requires perRack > 0
    ensures avg == 0 ==> r == Some([])
    ensures avg > 0 ==> AllPairs(all, hosts, perRack)
    ensures avg > 0 ==> (r.None? <==> |all| == 0 && flowNum / avg == 0)
    ensures avg > 0 && r.Some? ==> Chosen(r.value, all)
    ensures avg > 0 && r.Some? && flowNum / avg >= |all| ==> |r.value| == |all|
    ensures avg > 0 && r.Some? && 1 <= flowNum / avg <= |all| ==> |r.value| == flowNum / avg
    ensures avg > 0 && r.Some? && flowNum / avg == 0 && |all| > 0 ==> |r.value| == 1
    ensures avg > 0 ==>
              forall p: Pair :: p in all <==> p.0 < hosts && p.1 < hosts && p.0 / perRack != p.1 / perRack
  {
    all := [];
    if avg == 0 {
      return Some([]), [];
    }
    var left := ListPairs(hosts, perRack);
    all := left;
    var qpNum := flowNum / avg;
    if qpNum > |left| {
      qpNum := |left|;
    } else if qpNum < 1 {
      qpNum := 1;
    }
    var n := |left|;
    if qpNum < n / 2 {
      // pick
      var qps: seq<Pair> := [];
      while |qps| < qpNum
        invariant |qps| <= qpNum && |qps| + |left| == n && Distinct(qps) && Distinct(left)
        invariant (forall p :: p in qps ==> p in all && p !in left) && forall p :: p in left ==> p in all
        decreases qpNum - |qps|
      {
        var curr: nat :| curr < |left|;
        Erase(left, curr);
        assert left[curr] in left;
        qps := qps + [left[curr]];
        left := left[..curr] + left[curr + 1..];
      }
      r := Some(qps);
    } else {
      // remove
      while |left| > qpNum
        invariant Distinct(left) && (forall p :: p in left ==> p in all) && (|left| >= qpNum || left == all)
        decreases |left|
      {
        var curr: nat :| curr < |left|;
        Erase(left, curr);
        left := left[..curr] + left[curr + 1..];
      }
      r := if |left| == qpNum then Some(left) else None;
    }
  }

  // ----- the codes -----

  function Code(p: Pair): nat {
    p.0 * 1000 + p.1
  }

  function Decode(code: nat): Pair {
    (code / 1000, code % 1000)
  }

  /** The pair codes decode back for all pairs of hosts exactly when there are at most 1000 hosts. */
  lemma {:induction false} CodesDecodeIff(hosts: nat)
    ensures (forall p: Pair :: p.0 < hosts && p.1 < hosts ==> Decode(Code(p)) == p) <==> hosts <= 1000
  {
    if hosts > 1000 {
      var p: Pair := (0, 1000);
      assert Decode(Code(p)) == (1, 0);
    } else {
      forall p: Pair | p.1 < hosts ensures Decode(Code(p)) == p {
        CodesDecode(p);
      }
    }
  }

  // ----- the event loop -----

  datatype Event = Event(time: int, code: nat)

  predicate Earlier(a: Event, b: Event) {
    a.time < b.time || (a.time == b.time && a.code <= b.code)
  }

  datatype Flow = Flow(src: nat, dst: nat, size: nat, start: int, qp: nat, msg: nat)

  // How many of the flows carry the queue pair's id, and how many are between the two hosts.
  ghost function Sent(flows: seq<Flow>, qp: nat): nat {
    if |flows| == 0 then 0 else Sent(flows[..|flows| - 1], qp) + if Last(flows).qp == qp then 1 else 0
  }

  ghost function SentBy(flows: seq<Flow>, p: Pair): nat {
    if |flows| == 0 then 0
    else SentBy(flows[..|flows| - 1], p) + if (Last(flows).src, Last(flows).dst) == p then 1 else 0
  }

  lemma {:induction false} SentIs(flows: seq<Flow>, qp: nat)
    ensures Sent(flows, qp) == |set i | 0 <= i < |flows| && flows[i].qp == qp|
  {
    if |flows| > 0 {
      var q, n := flows[..|flows| - 1], |flows| - 1;
      SentIs(q, qp);
      var a := set i | 0 <= i < |q| && q[i].qp == qp;
      var b := set i | 0 <= i < |flows| && flows[i].qp == qp;
      assert forall i :: 0 <= i < n ==> q[i] == flows[i];
      OneMoreIn(a, b, n, flows[n].qp == qp);
    }
  }

  lemma {:induction false} SentByIs(flows: seq<Flow>, p: Pair)
    ensures SentBy(flows, p) == |set i | 0 <= i < |flows| && flows[i].src == p.0 && flows[i].dst == p.1|
  {
    if |flows| > 0 {
      var q, n := flows[..|flows| - 1], |flows| - 1;
      SentByIs(q, p);
      var a := set i | 0 <= i < |q| && q[i].src == p.0 && q[i].dst == p.1;
      var b := set i | 0 <= i < |flows| && flows[i].src == p.0 && flows[i].dst == p.1;
      assert forall i :: 0 <= i < n ==> q[i] == flows[i];
      OneMoreIn(a, b, n, flows[n].src == p.0 && flows[n].dst == p.1);
    }
  }

  // priority_queue::top and pop: a least event.
  method PopLeast(q: seq<Event>) returns (e: Event, rest: seq<Event>)
    requires |q| > 0
    ensures e in q && forall x :: x in q ==> Earlier(e, x)
    ensures |rest| == |q| - 1 && Codes(q) == Codes(rest) + multiset{e.code} && forall x :: x in rest ==> x in q
  {
    var best := 0;
    for i := 1 to |q|
      invariant best < |q| && forall j :: 0 <= j < i ==> Earlier(q[best], q[j])
    {
      if !Earlier(q[best], q[i]) {
        best := i;
      }
    }
    e, rest := q[best], q[..best] + q[best + 1..];
    CodesWithout(q, best);
    forall x | x in rest ensures x in q {
      var i :| 0 <= i < |rest| && rest[i] == x;
      assert x == q[if i < best then i else i + 1];
    }
  }

  // Queue pairs of hosts below 1000, all different.
  ghost predicate GoodPairs(qps: seq<Pair>) {
    Distinct(qps) && forall k :: 0 <= k < |qps| ==> qps[k].0 < 1000 && qps[k].1 < 1000
  }

  // ----- the 32-bit index -----

  // An entry of qpIndexMap: 10000 * queue pair + next message number, in 32 bits.
  function IndexEntry(k: nat, n: nat): nat {
    (k * 10000 + n) % WORD
  }

  // What is read from an entry: queue pair and message number.
  function DecodeIndex(x: nat): (nat, nat) {
    (x / 10000, x % 10000)
  }

  // How many messages queue pair k sends before the assertion on its entry fails.
  function Limit(k: nat): nat {
    var first := IndexEntry(k, 0);
    if WORD - 1 - first < 9999 - first % 10000 then WORD - 1 - first else 9999 - first % 10000
  }

  lemma {:induction false} LimitIs(k: nat, n: nat)
    requires n <= Limit(k)
    ensures IndexEntry(k, n) == IndexEntry(k, 0) + n && IndexEntry(k, n + 1) == (IndexEntry(k, n) + 1) % WORD
    ensures DecodeIndex(IndexEntry(k, n + 1)).1 == 0 <==> n == Limit(k)
    ensures Limit(k) <= 9999
  {
    IndexIs(k, n);
    IndexIs(k, n + 1);
    NextEntry(IndexEntry(k, 0), n);
    hide IndexEntry;
  }

  lemma {:induction false} NextEntry(first: nat, n: nat)
    requires first < WORD && first + n < WORD && first % 10000 + n <= 9999
    ensures (first + n + 1) % WORD == if first + n + 1 == WORD then 0 else first + n + 1
    ensures first + n + 1 < WORD ==> ((first + n + 1) % 10000 == 0 <==> first % 10000 + n == 9999)
  {
    var r := first % 10000;
    assert first == 10000 * (first / 10000) + r;
    assert first + n + 1 == 10000 * (first / 10000) + (r + n + 1);
    ModBy(first / 10000, r + n + 1);
  }

  lemma {:induction false} ModBy(q: nat, x: nat)
    ensures (10000 * q + x) % 10000 == x % 10000
  {
  }

  lemma {:induction false} IndexIs(k: nat, n: nat)
    ensures IndexEntry(k, n) == (IndexEntry(k, 0) + n) % WORD && IndexEntry(k, 0) < WORD
  {
    var q := k * 10000 / WORD;
    assert k * 10000 == WORD * q + IndexEntry(k, 0);
    Wrap(q, IndexEntry(k, 0) + n);
  }

  lemma {:induction false} Wrap(q: nat, x: nat)
    ensures (WORD * q + x) % WORD == x % WORD
  {
  }

  // Up to queue pair 429495 entries keep queue pair and number, of queue pair 429496 only 7296 do.
  lemma {:induction false} NumbersDecode(k: nat, n: nat)
    requires k <= 429496 && n < 10000 && k * 10000 + n < WORD
    ensures DecodeIndex(IndexEntry(k, n)) == (k, n)
  {
  }

  lemma {:induction false} LimitOf(k: nat)
    requires k <= 429497
    ensures Limit(k) == if k < 429496 then 9999 else 7295
    ensures k == 429497 ==> IndexEntry(k, 0) == 2704
  {
    assert (k * 10000) % 10000 == 0;
  }

  /** All 10000 numbers of the first m queue pairs decode back exactly when m is at most 429496. */
  lemma {:induction false} NumbersDecodeIff(m: nat)
    ensures (forall k, n :: 0 <= k < m && 0 <= n < 10000 ==> DecodeIndex(IndexEntry(k, n)) == (k, n)) <==> m <= 429496
  {
    if m > 429496 {
      assert DecodeIndex(IndexEntry(429496, 7296)) == (0, 0);
    } else {
      forall k, n | 0 <= k < m && 0 <= n < 10000 ensures DecodeIndex(IndexEntry(k, n)) == (k, n) {
        NumbersDecode(k, n);
      }
    }
  }

  /** Exactly then every queue pair has room for 9999 messages. */
  lemma {:induction false} RoomIff(m: nat)
    ensures (forall k :: 0 <= k < m ==> Limit(k) == 9999) <==> m <= 429496
  {
    hide Limit;
    if m > 429496 {
      LimitOf(429496);
    } else {
      forall k | 0 <= k < m ensures Limit(k) == 9999 {
        LimitOf(k);
      }
    }
  }

  // ----- what is emitted -----

  // Flow i is between the hosts of queue pair k, which has room for it, and carries what k's entry decodes to.
  ghost predicate FlowOf(qps: seq<Pair>, flows: seq<Flow>, i: nat, k: nat)
    requires i < |flows|
  {
    && k < |qps| && qps[k] == (flows[i].src, flows[i].dst)
    && var n := SentBy(flows[..i], qps[k]);
    && n < Limit(k) && DecodeIndex(IndexEntry(k, n)) == (flows[i].qp, flows[i].msg)
  }

  ghost predicate Emitted(qps: seq<Pair>, flows: seq<Flow>, i: nat)
    requires i < |flows|
  {
    exists k: nat :: FlowOf(qps, flows, i, k)
  }

  ghost predicate Rising(flows: seq<Flow>) {
    forall i, j :: 0 <= i < j < |flows| ==> flows[i].start <= flows[j].start
  }

  // What the loop emits, for any number of queue pairs.
  ghost predicate Numbered(qps: seq<Pair>, flows: seq<Flow>) {
    Rising(flows) && forall i :: 0 <= i < |flows| ==> Emitted(qps, flows, i)
  }

  // Start times do not decrease, and every flow is the next message of its own queue pair.
  ghost predicate Ordered(qps: seq<Pair>, flows: seq<Flow>) {
    Rising(flows) && forall i :: 0 <= i < |flows| ==> NextOf(qps, flows, i)
  }

  ghost predicate NextOf(qps: seq<Pair>, flows: seq<Flow>, i: nat)
    requires i < |flows|
  {
    && flows[i].qp < |qps| && qps[flows[i].qp] == (flows[i].src, flows[i].dst)
    && flows[i].msg == Sent(flows[..i], flows[i].qp)
  }

  lemma {:induction false} NumberedFront(qps: seq<Pair>, flows: seq<Flow>, n: nat)
    requires n <= |flows| && Numbered(qps, flows)
    ensures Numbered(qps, flows[..n])
  {
    var front := flows[..n];
    forall i | 0 <= i < n ensures Emitted(qps, front, i) {
      assert Emitted(qps, flows, i);
      var k: nat :| FlowOf(qps, flows, i, k);
      assert front[..i] == flows[..i] && FlowOf(qps, front, i, k);
    }
  }

  // With room in the index a flow's id is that of its queue pair, and its number counts from 0.
  lemma {:induction false} IdIsPair(qps: seq<Pair>, flows: seq<Flow>, i: nat) returns (k: nat)
    requires Numbered(qps, flows) && |qps| <= 429497 && i < |flows|
    ensures k < |qps| && qps[k] == (flows[i].src, flows[i].dst)
    ensures flows[i].qp == k && flows[i].msg == SentBy(flows[..i], qps[k])
  {
    hide Limit, IndexEntry, DecodeIndex, SentBy, Rising;
    assert Emitted(qps, flows, i);
    k :| FlowOf(qps, flows, i, k);
    LimitOf(k);
    NumbersDecode(k, SentBy(flows[..i], qps[k]));
  }

  lemma {:induction false} SameCounts(qps: seq<Pair>, flows: seq<Flow>, k: nat)
    requires Distinct(qps) && Numbered(qps, flows) && |qps| <= 429497 && k < |qps|
    ensures Sent(flows, k) == SentBy(flows, qps[k])
  {
    if |flows| > 0 {
      NumberedFront(qps, flows, |flows| - 1);
      SameCounts(qps, flows[..|flows| - 1], k);
      var m := IdIsPair(qps, flows, |flows| - 1);
      hide Numbered;
    }
  }

  lemma {:induction false} NumberedIsOrdered(qps: seq<Pair>, flows: seq<Flow>)
    requires Distinct(qps) && Numbered(qps, flows) && |qps| <= 429497
    ensures Ordered(qps, flows)
  {
    forall i | 0 <= i < |flows| ensures NextOf(qps, flows, i) {
      var k := IdIsPair(qps, flows, i);
      NumberedFront(qps, flows, i);
      SameCounts(qps, flows[..i], k);
      hide Numbered, Sent, SentBy;
    }
  }

  // The first flow of queue pair 429497 is numbered 2704 of queue pair 0.
  lemma {:induction false} Misfiled(qps: seq<Pair>, f: Flow)
    requires Distinct(qps) && |qps| > 429497 && (f.src, f.dst) == qps[429497] && f.qp == 0 && f.msg == 2704
    ensures Numbered(qps, [f]) && !Ordered(qps, [f])
  {
    var flows := [f];
    LimitOf(429497);
    assert flows[..0] == [] && SentBy(flows[..0], qps[429497]) == 0;
    assert FlowOf(qps, flows, 0, 429497);
    assert Emitted(qps, flows, 0);
    assert !NextOf(qps, flows, 0);
  }

  /** Every queue pair keeps its hosts and numbers its messages 0, 1, 2, ... in all that can be emitted exactly when
      there are at most 429497 of them. */
  lemma {:induction false} OrderedIff(qps: seq<Pair>)
    requires Distinct(qps)
    ensures (forall flows :: Numbered(qps, flows) ==> Ordered(qps, flows)) <==> |qps| <= 429497
  {
    hide Numbered, Ordered;
    if |qps| <= 429497 {
      forall flows | Numbered(qps, flows) ensures Ordered(qps, flows) {
        NumberedIsOrdered(qps, flows);
      }
    } else {
      Misfiled(qps, Flow(qps[429497].0, qps[429497].1, 0, 0, 0, 2704));
    }
  }

  // ----- the loop -----

  // qpIndexMap holds every queue pair's entry, and none has gone beyond its room.
  ghost predicate Indexed(qps: seq<Pair>, flows: seq<Flow>, index: map<nat, nat>) {
    forall k :: 0 <= k < |qps| ==> IndexedAt(qps, flows, index, k)
  }

  ghost predicate IndexedAt(qps: seq<Pair>, flows: seq<Flow>, index: map<nat, nat>, k: nat)
    requires k < |qps|
  {
    && Code(qps[k]) in index && index[Code(qps[k])] == IndexEntry(k, SentBy(flows, qps[k]))
    && SentBy(flows, qps[k]) <= Limit(k)
  }

  // Every queue pair has one pending event, which is not before the last flow.
  ghost predicate Pending(qps: seq<Pair>, flows: seq<Flow>, q: seq<Event>) {
    && Codes(q) == PairCodes(qps)
    && (|flows| > 0 ==> forall e :: e in q ==> Last(flows).start <= Lead + e.time)
  }

  ghost function Codes(q: seq<Event>): multiset<nat> {
    if |q| == 0 then multiset{} else Codes(q[..|q| - 1]) + multiset{Last(q).code}
  }

  ghost function PairCodes(qps: seq<Pair>): multiset<nat> {
    if |qps| == 0 then multiset{} else PairCodes(qps[..|qps| - 1]) + multiset{Code(Last(qps))}
  }

  // Each pair of hosts has as many pending events as it is listed: one.
  lemma {:induction false} CodesAre(q: seq<Event>, c: nat)
    ensures Codes(q)[c] == |set i | 0 <= i < |q| && q[i].code == c|
  {
    if |q| > 0 {
      var r, n := q[..|q| - 1], |q| - 1;
      CodesAre(r, c);
      var a := set i | 0 <= i < |r| && r[i].code == c;
      var b := set i | 0 <= i < |q| && q[i].code == c;
      assert forall i :: 0 <= i < n ==> r[i] == q[i];
      OneMoreIn(a, b, n, q[n].code == c);
    }
  }

  lemma {:induction false} PairCodesAre(qps: seq<Pair>, c: nat)
    ensures PairCodes(qps)[c] == |set k | 0 <= k < |qps| && qps[k].0 * 1000 + qps[k].1 == c|
  {
    if |qps| > 0 {
      var r, n := qps[..|qps| - 1], |qps| - 1;
      PairCodesAre(r, c);
      var a := set k | 0 <= k < |r| && r[k].0 * 1000 + r[k].1 == c;
      var b := set k | 0 <= k < |qps| && qps[k].0 * 1000 + qps[k].1 == c;
      assert forall i :: 0 <= i < n ==> r[i] == qps[i];
      OneMoreIn(a, b, n, qps[n].0 * 1000 + qps[n].1 == c);
    }
  }

  lemma {:induction false} CodesWithout(q: seq<Event>, k: nat)
    requires k < |q|
    ensures Codes(q) == Codes(Without(q, k)) + multiset{q[k].code}
  {
    if k == |q| - 1 {
      assert Without(q, k) == q[..k];
    } else {
      CodesWithout(q[..|q| - 1], k);
      assert Without(q, k)[..|q| - 2] == Without(q[..|q| - 1], k);
    }
  }

  lemma {:induction false} CodeOfPair(qps: seq<Pair>, c: nat) returns (k: nat)
    requires c in PairCodes(qps)
    ensures k < |qps| && c == Code(qps[k])
  {
    k := |qps| - 1;
    if c != Code(Last(qps)) {
      k := CodeOfPair(qps[..|qps| - 1], c);
    }
  }

  // First gaps and codes of all queue pairs; the gaps are any non-negative times.
  method FirstEvents(qps: seq<Pair>) returns (q: seq<Event>, index: map<nat, nat>)
    requires GoodPairs(qps)
    ensures |q| == |qps| && Pending(qps, [], q) && Indexed(qps, [], index)
  {
    q, index := [], map[];
    for i := 0 to |qps|
      invariant |q| == i && Codes(q) == PairCodes(qps[..i])
      invariant forall k :: 0 <= k < i ==> IndexedAt(qps, [], index, k)
    {
      var t: int :| t >= 0;
      assert (q + [Event(t, Code(qps[i]))])[..i] == q && qps[..i + 1][..i] == qps[..i];
      q := q + [Event(t, Code(qps[i]))];
      var index' := index[Code(qps[i]) := IndexEntry(i, 0)];
      FirstIndex(qps, i, index, index');
      hide IndexedAt, Code, IndexEntry;
      index := index';
    }
    assert qps[..|qps|] == qps;
  }

  lemma {:induction false} FirstIndex(qps: seq<Pair>, i: nat, index: map<nat, nat>, index': map<nat, nat>)
    requires i < |qps| && index' == index[Code(qps[i]) := IndexEntry(i, 0)]
    requires GoodPairs(qps) && i < |qps| && forall k :: 0 <= k < i ==> IndexedAt(qps, [], index, k)
    ensures forall k :: 0 <= k <= i ==> IndexedAt(qps, [], index', k)
  {
    CodesApart(qps, i);
    LimitIs(i, 0);
    hide Code, IndexEntry, Limit;
    forall k | 0 <= k <= i ensures IndexedAt(qps, [], index', k) {
      assert k < i ==> IndexedAt(qps, [], index, k);
    }
  }

  lemma {:induction false} CodesApart(qps: seq<Pair>, i: nat)
    requires GoodPairs(qps) && i < |qps|
    ensures forall k :: 0 <= k < |qps| && k != i ==> Code(qps[k]) != Code(qps[i])
  {
  }

  lemma {:induction false} NextFlow(qps: seq<Pair>, flows: seq<Flow>, f: Flow, k: nat, index: map<nat, nat>)
    requires GoodPairs(qps) && Numbered(qps, flows) && Indexed(qps, flows, index)
    requires k < |qps| && qps[k] == (f.src, f.dst) && SentBy(flows, qps[k]) < Limit(k)
    requires DecodeIndex(IndexEntry(k, SentBy(flows, qps[k]))) == (f.qp, f.msg)
    requires |flows| > 0 ==> Last(flows).start <= f.start
    ensures Numbered(qps, flows + [f])
    ensures Indexed(qps, flows + [f], index[Code(qps[k]) := IndexEntry(k, SentBy(flows, qps[k]) + 1)])
  {
    hide Limit, IndexEntry, DecodeIndex;
    var fs := flows + [f];
    assert fs[..|flows|] == flows;
    forall i | 0 <= i < |fs| ensures Emitted(qps, fs, i) {
      assert fs[..i] == flows[..i];
      if i < |flows| {
        assert Emitted(qps, flows, i);
        var m: nat :| FlowOf(qps, flows, i, m);
        assert FlowOf(qps, fs, i, m);
      } else {
        assert FlowOf(qps, fs, i, k);
      }
    }
    NextIndex(qps, flows, f, k, index);
  }

  lemma {:induction false} NextIndex(qps: seq<Pair>, flows: seq<Flow>, f: Flow, k: nat, index: map<nat, nat>)
    requires GoodPairs(qps) && Indexed(qps, flows, index)
    requires k < |qps| && qps[k] == (f.src, f.dst) && SentBy(flows, qps[k]) < Limit(k)
    ensures Indexed(qps, flows + [f], index[Code(qps[k]) := IndexEntry(k, SentBy(flows, qps[k]) + 1)])
  {
    hide Limit, IndexEntry;
    assert (flows + [f])[..|flows|] == flows;
    CodesApart(qps, k);
    var index' := index[Code(qps[k]) := IndexEntry(k, SentBy(flows, qps[k]) + 1)];
    forall m | 0 <= m < |qps| ensures IndexedAt(qps, flows + [f], index', m) {
      assert IndexedAt(qps, flows, index, m);
    }
  }

  // Times are in nanoseconds; flows start two seconds late.
  const Lead: int := 2_000_000_000

  lemma {:induction false} NextPending(qps: seq<Pair>, flows: seq<Flow>, q: seq<Event>, p: Event, rest: seq<Event>,
                                       gap: int, f: Flow)
    requires Pending(qps, flows, q) && p in q && gap >= 0
    requires Codes(q) == Codes(rest) + multiset{p.code} && forall x :: x in rest ==> x in q && Earlier(p, x)
    requires f.start == Lead + p.time
    ensures Pending(qps, flows + [f], rest + [Event(p.time + gap, p.code)])
    ensures |flows| > 0 ==> Last(flows).start <= f.start
  {
    assert (rest + [Event(p.time + gap, p.code)])[..|rest|] == rest;
  }

  // One turn of the loop: the least event becomes a flow and the next event of its queue pair is queued.
  method Step(qps: seq<Pair>, flows: seq<Flow>, q: seq<Event>, index: map<nat, nat>)
    returns (r: Option<Flow>, q': seq<Event>, index': map<nat, nat>, ghost p: Event, ghost k: nat)
    requires GoodPairs(qps) && |q| == |qps| > 0
    requires Numbered(qps, flows) && Indexed(qps, flows, index) && Pending(qps, flows, q)
    ensures |q'| == |qps|
    ensures p in q && k < |qps| && p.code == qps[k].0 * 1000 + qps[k].1
    ensures forall x :: x in q ==> p.time < x.time || (p.time == x.time && p.code <= x.code)
    ensures SentBy(flows, qps[k]) <= Limit(k) && (r.None? <==> SentBy(flows, qps[k]) == Limit(k))
    ensures r.Some? ==> (r.value.src, r.value.dst) == qps[k] && r.value.start == p.time + 2_000_000_000
    ensures r.Some? ==> Numbered(qps, flows + [r.value]) && Indexed(qps, flows + [r.value], index')
    ensures r.Some? ==> Pending(qps, flows + [r.value], q')
  {
    var e, rest := PopLeast(q);
    p := e;
    k := CodeOfPair(qps, e.code);
    CodesDecode(qps[k]);
    assert IndexedAt(qps, flows, index, k);
    LimitIs(k, SentBy(flows, qps[k]));
    hide Decode, Code, DecodeIndex, IndexEntry, Limit, Codes, PairCodes, Numbered, SentBy, GoodPairs, Indexed, Earlier;
    hide Pending;
    var (qpId, msgSeq) := DecodeIndex(index[e.code]);
    index' := index[e.code := (index[e.code] + 1) % WORD];
    q' := q;
    if DecodeIndex(index'[e.code]).1 == 0 {
      return None, q, index', p, k;
    }
    var (i, j) := Decode(e.code);
    var s: nat :| true;
    var gap: int :| gap >= 0;
    q' := rest + [Event(e.time + gap, Code((i, j)))];
    r := Some(Flow(i, j, s, Lead + e.time, qpId, msgSeq));
    NextPending(qps, flows, q, e, rest, gap, r.value);
    NextFlow(qps, flows, r.value, k, index);
  }

  lemma {:induction false} CodesDecode(p: Pair)
    requires p.1 < 1000
    ensures Decode(Code(p)) == p
  {
  }

  /** In order: every flow is between the hosts of its queue pair, and its number counts the earlier ones of that. */
  lemma {:induction false} OrderedMeans(qps: seq<Pair>, flows: seq<Flow>, i: nat)
    requires Ordered(qps, flows) && i < |flows|
    ensures flows[i].qp < |qps| && qps[flows[i].qp] == (flows[i].src, flows[i].dst)
    ensures flows[i].msg == |set j | 0 <= j < i && flows[j].qp == flows[i].qp|
    ensures forall j :: i <= j < |flows| ==> flows[i].start <= flows[j].start
  {
    SentIs(flows[..i], flows[i].qp);
    assert NextOf(qps, flows, i);
    assert (set j | 0 <= j < i && flows[j].qp == flows[i].qp)
        == (set j | 0 <= j < |flows[..i]| && flows[..i][j].qp == flows[i].qp);
    hide Sent;
  }

  /** The flows of the loop. With up to 429497 queue pairs each keeps its hosts and numbers its messages 0, 1, 2, ...;
      what is left pending, one event per queue pair, comes no earlier.
      None: the assertion on an entry failed. That needs more flows than some queue pair has room for, so 10000 with up
      to 429496 queue pairs, and cannot be avoided with more flows than there is room for in all. */
  method GenerateFlows(qps: seq<Pair>, flowNum: nat) returns (r: Option<seq<Flow>>, q: seq<Event>)
    requires GoodPairs(qps)
    ensures r.Some? ==> Numbered(qps, r.value) && Pending(qps, r.value, q)
    ensures r.Some? && |qps| <= 429497 ==> Ordered(qps, r.value)
    ensures r.Some? ==> forall i, j :: 0 <= i < j < |r.value| ==> r.value[i].start <= r.value[j].start
    ensures r.Some? ==> |r.value| == if |qps| == 0 then 0 else flowNum
    ensures r.None? ==> exists k :: 0 <= k < |qps| && flowNum > Limit(k)
    ensures r.None? && |qps| <= 429496 ==> flowNum >= 10000
    ensures |qps| > 0 && flowNum > TotalLimit(|qps|) ==> r.None?
  {
    var index;
    q, index := FirstEvents(qps);
    RoomIff(|qps|);
    hide Limit;
    var flows: seq<Flow> := [];
    if |q| == 0 {
      return Some(flows), q;
    }
    while |flows| != flowNum
      invariant |flows| <= flowNum && |q| == |qps| > 0
      invariant Numbered(qps, flows) && Indexed(qps, flows, index) && Pending(qps, flows, q)
      decreases flowNum - |flows|
    {
      hide Ordered, Numbered, Indexed, Pending, Earlier;
      var f;
      ghost var p, k;
      f, q, index, p, k := Step(qps, flows, q, index);
      if f.None? {
        SentByBound(flows, qps[k]);
        return None, q;
      }
      flows := flows + [f.value];
    }
    WithinLimits(qps, flows, index);
    if |qps| <= 429497 {
      NumberedIsOrdered(qps, flows);
    }
    r := Some(flows);
  }

  // The room of the first m queue pairs.
  ghost function TotalLimit(m: nat): nat {
    if m == 0 then 0 else TotalLimit(m - 1) + Limit(m - 1)
  }

  lemma {:induction false} TotalLimitAtMost(m: nat)
    ensures TotalLimit(m) <= 9999 * m
    ensures m <= 429496 ==> TotalLimit(m) == 9999 * m
  {
    if m > 0 {
      TotalLimitAtMost(m - 1);
      LimitIs(m - 1, 0);
      if m <= 429496 {
        LimitOf(m - 1);
      }
      hide Limit;
    }
  }

  // How many of the flows are between the hosts of the first m queue pairs.
  ghost function SentByFirst(qps: seq<Pair>, flows: seq<Flow>, m: nat): nat
    requires m <= |qps|
  {
    if |flows| == 0 then 0
    else SentByFirst(qps, flows[..|flows| - 1], m)
         + if (Last(flows).src, Last(flows).dst) in qps[..m] then 1 else 0
  }

  lemma {:induction false} OneMorePair(qps: seq<Pair>, flows: seq<Flow>, m: nat)
    requires Distinct(qps) && m < |qps|
    ensures SentByFirst(qps, flows, 0) == 0
    ensures SentByFirst(qps, flows, m + 1) == SentByFirst(qps, flows, m) + SentBy(flows, qps[m])
  {
    if |flows| > 0 {
      OneMorePair(qps, flows[..|flows| - 1], m);
      assert qps[..m + 1] == qps[..m] + [qps[m]] && qps[m] !in qps[..m];
    }
  }

  lemma {:induction false} AllSent(qps: seq<Pair>, flows: seq<Flow>)
    requires forall i :: 0 <= i < |flows| ==> (flows[i].src, flows[i].dst) in qps
    ensures SentByFirst(qps, flows, |qps|) == |flows|
  {
    if |flows| > 0 {
      AllSent(qps, flows[..|flows| - 1]);
      assert qps[..|qps|] == qps;
    }
  }

  lemma {:induction false} WithinLimits(qps: seq<Pair>, flows: seq<Flow>, index: map<nat, nat>)
    requires Distinct(qps) && |qps| > 0 && Numbered(qps, flows) && Indexed(qps, flows, index)
    ensures |flows| <= TotalLimit(|qps|)
  {
    hide Limit, IndexEntry, DecodeIndex, SentBy, SentByFirst;
    forall i | 0 <= i < |flows| ensures (flows[i].src, flows[i].dst) in qps {
      assert Emitted(qps, flows, i);
      var k: nat :| FlowOf(qps, flows, i, k);
    }
    AllSent(qps, flows);
    OneMorePair(qps, flows, 0);
    for m := 0 to |qps|
      invariant SentByFirst(qps, flows, m) <= TotalLimit(m)
    {
      assert IndexedAt(qps, flows, index, m);
      OneMorePair(qps, flows, m);
    }
  }

  lemma {:induction false} SentByBound(flows: seq<Flow>, p: Pair)
    ensures SentBy(flows, p) <= |flows|
  {
    if |flows| > 0 {
      SentByBound(flows[..|flows| - 1], p);
    }
  }
}
