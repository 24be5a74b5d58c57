/** Equal-cost shortest-path routing of scratch/third.cc: the link graph and what its routes are. */
module RouteSpec {
  import opened Common
  import Floyd

  datatype Interface = Interface(idx: nat, up: bool, delay: nat, bw: nat)

  // nbr2if: node -> neighbour -> the interface towards it
  type Graph = map<nat, map<nat, Interface>>

  const PAYLOAD_NS: nat := 1000000000 * 8

  ghost predicate Up(g: Graph, u: nat, v: nat) {
    u in g && v in g[u] && g[u][v].up
  }

  // Up links are up in both directions, with one delay and one positive rate.
  ghost predicate Symmetric(g: Graph) {
    forall u, v :: Up(g, u, v) ==>
      Up(g, v, u) && g[v][u].delay == g[u][v].delay && g[v][u].bw == g[u][v].bw > 0
  }

  ghost predicate InRange(g: Graph, n: nat) {
    forall u: nat, v: nat :: Up(g, u, v) ==> u < n && v < n
  }

  // The search leaves u towards v: over an up link, and only the destination host or a switch is left.
  ghost predicate Step(g: Graph, sw: set<nat>, host: nat, u: nat, v: nat) {
    Up(g, u, v) && (u == host || u in sw)
  }

  // ----- routes -----

  // A walk from host to the end of p over up links with only switches in between.
  ghost predicate Route(g: Graph, sw: set<nat>, host: nat, p: seq<nat>) {
    && |p| > 0 && p[0] == host
    && (forall t :: 1 <= t < |p| ==> Up(g, p[t - 1], p[t]))
    && (forall t :: 1 <= t < |p| - 1 ==> p[t] in sw)
  }

  ghost predicate Walk(g: Graph, p: seq<nat>) {
    |p| > 0 && forall t :: 1 <= t < |p| ==> Up(g, p[t - 1], p[t])
  }

  ghost function LastLink(g: Graph, p: seq<nat>): (i: Interface)
    requires Walk(g, p) && |p| > 1
    ensures Symmetric(g) ==> i.bw > 0
  {
    assert Up(g, p[|p| - 2], p[|p| - 1]);
    g[p[|p| - 2]][p[|p| - 1]]
  }

  ghost function DelayOf(g: Graph, p: seq<nat>): nat
    requires Walk(g, p)
  {
    if |p| == 1 then 0 else DelayOf(g, p[..|p| - 1]) + LastLink(g, p).delay
  }

  ghost function TxDelayOf(g: Graph, payload: nat, p: seq<nat>): nat
    requires Walk(g, p) && Symmetric(g)
  {
    if |p| == 1 then 0
    else TxDelayOf(g, payload, p[..|p| - 1]) + payload * PAYLOAD_NS / LastLink(g, p).bw
  }

  const MAX_BW: nat := 0xffff_ffff_ffff_ffff

  ghost function BottleneckOf(g: Graph, p: seq<nat>): nat
    requires Walk(g, p)
  {
    if |p| == 1 then MAX_BW
    else
      var b, w := BottleneckOf(g, p[..|p| - 1]), LastLink(g, p).bw;
      if w < b then w else b
  }

  // bw is the least rate of the links of p.
  ghost predicate IsLeastRate(g: Graph, p: seq<nat>, bw: nat)
    requires Walk(g, p)
  {
    && (forall t :: 1 <= t < |p| ==> Up(g, p[t - 1], p[t]) && bw <= g[p[t - 1]][p[t]].bw)
    && exists t :: 1 <= t < |p| && Up(g, p[t - 1], p[t]) && bw == g[p[t - 1]][p[t]].bw
  }

  // Rates are 64-bit numbers.
  ghost predicate RatesFit(g: Graph) {
    forall u, v :: Up(g, u, v) ==> g[u][v].bw <= 0xffff_ffff_ffff_ffff
  }

  lemma {:induction false} NoWider(g: Graph, p: seq<nat>, t: nat)
    requires Walk(g, p) && 1 <= t < |p|
    ensures Up(g, p[t - 1], p[t]) && BottleneckOf(g, p) <= g[p[t - 1]][p[t]].bw
  {
    var q := p[..|p| - 1];
    if t < |p| - 1 {
      NoWider(g, q, t);
      assert q[t - 1] == p[t - 1] && q[t] == p[t];
    }
  }

  lemma {:induction false} FrontWalk(g: Graph, p: seq<nat>, n: nat)
    requires Walk(g, p) && 0 < n <= |p|
    ensures Walk(g, p[..n])
  {
    forall t | 1 <= t < n ensures Up(g, p[..n][t - 1], p[..n][t]) {
      assert p[..n][t - 1] == p[t - 1] && p[..n][t] == p[t];
    }
  }

  lemma {:induction false} LastStep(g: Graph, p: seq<nat>, n: nat)
    requires Walk(g, p) && 1 < n <= |p|
    ensures Walk(g, p[..n]) && Walk(g, p[..n - 1]) && Up(g, p[n - 2], p[n - 1])
    ensures var b, w := BottleneckOf(g, p[..n - 1]), g[p[n - 2]][p[n - 1]].bw;
            BottleneckOf(g, p[..n]) == if w < b then w else b
    ensures n == 2 ==> BottleneckOf(g, p[..1]) == MAX_BW
  {
    FrontWalk(g, p, n);
    FrontWalk(g, p, n - 1);
    assert p[..n][..n - 1] == p[..n - 1];
  }

  lemma {:induction false} RateFits(g: Graph, u: nat, v: nat)
    requires RatesFit(g) && Up(g, u, v)
    ensures u in g && v in g[u] && g[u][v].bw <= MAX_BW
  {
  }

  lemma {:induction false} SomeRate(g: Graph, p: seq<nat>, n: nat) returns (t: nat)
    requires Walk(g, p) && 1 < n <= |p| && RatesFit(g)
    ensures Walk(g, p[..n]) && 1 <= t < n && Up(g, p[t - 1], p[t])
    ensures BottleneckOf(g, p[..n]) == g[p[t - 1]][p[t]].bw
  {
    hide Walk, BottleneckOf, RatesFit, Up;
    LastStep(g, p, n);
    t := n - 1;
    RateFits(g, p[n - 2], p[n - 1]);
    if n > 2 && BottleneckOf(g, p[..n - 1]) <= g[p[n - 2]][p[n - 1]].bw {
      t := SomeRate(g, p, n - 1);
    }
  }

  /** The bottleneck is the least rate along the route, and the largest 64-bit number for the host itself. */
  lemma {:induction false} BottleneckIsLeast(g: Graph, p: seq<nat>)
    requires Walk(g, p) && RatesFit(g)
    ensures |p| == 1 ==> BottleneckOf(g, p) == 0xffff_ffff_ffff_ffff
    ensures |p| > 1 ==> IsLeastRate(g, p, BottleneckOf(g, p))
  {
    if |p| > 1 {
      var bw := BottleneckOf(g, p);
      var s := SomeRate(g, p, |p|);
      assert p[..|p|] == p;
      forall t | 1 <= t < |p| ensures Up(g, p[t - 1], p[t]) && bw <= g[p[t - 1]][p[t]].bw {
        NoWider(g, p, t);
      }
      hide BottleneckOf;
    }
  }

  lemma {:induction false} WalkOn(g: Graph, p: seq<nat>, q: seq<nat>)
    requires Walk(g, p) && Walk(g, q) && Last(p) == q[0]
    ensures Walk(g, p + q[1..]) && Last(p + q[1..]) == Last(q)
  {
    var r := p + q[1..];
    forall t | 1 <= t < |r| ensures Up(g, r[t - 1], r[t]) {
      if t >= |p| {
        assert Up(g, q[t - |p|], q[t - |p| + 1]);
      }
    }
  }

  lemma {:induction false} OneLink(g: Graph, payload: nat, q: seq<nat>)
    requires Symmetric(g) && Walk(g, q) && |q| <= 2
    ensures |q| == 1 ==> DelayOf(g, q) == TxDelayOf(g, payload, q) == 0
    ensures |q| == 2 ==> Up(g, q[0], q[1]) && g[q[0]][q[1]].bw > 0
    ensures |q| == 2 ==> DelayOf(g, q) == g[q[0]][q[1]].delay
    ensures |q| == 2 ==> TxDelayOf(g, payload, q) == payload * 8000000000 / g[q[0]][q[1]].bw
  {
    if |q| == 2 {
      assert Up(g, q[0], q[1]);
    }
  }

  /** Delay and transmission delay add up link by link. */
  lemma {:induction false} DelaysAddUp(g: Graph, payload: nat, p: seq<nat>, q: seq<nat>)
    requires Symmetric(g) && Walk(g, p) && Walk(g, q) && Last(p) == q[0]
    ensures Walk(g, p + q[1..])
    ensures DelayOf(g, p + q[1..]) == DelayOf(g, p) + DelayOf(g, q)
    ensures TxDelayOf(g, payload, p + q[1..]) == TxDelayOf(g, payload, p) + TxDelayOf(g, payload, q)
    decreases |q|
  {
    var r := p + q[1..];
    WalkOn(g, p, q);
    if |q| == 1 {
      assert r == p;
    } else {
      var front := q[..|q| - 1];
      DelaysAddUp(g, payload, p, front);
      hide Symmetric;
      assert r[..|r| - 1] == p + front[1..];
      assert r[|r| - 1] == q[|q| - 1] && r[|r| - 2] == q[|q| - 2];
      assert LastLink(g, r) == LastLink(g, q);
    }
  }

  // ----- distances -----

  ghost predicate HasParent(g: Graph, sw: set<nat>, host: nat, dis: map<nat, nat>, v: nat)
    requires v in dis
  {
    exists u :: u in dis && Step(g, sw, host, u, v) && dis[u] + 1 == dis[v]
  }

  // The local conditions that make dis the hop distance from host.
  ghost predicate Layered(g: Graph, sw: set<nat>, host: nat, dis: map<nat, nat>) {
    && host in dis && dis[host] == 0
    && (forall u, v :: u in dis && Step(g, sw, host, u, v) ==> v in dis && dis[v] <= dis[u] + 1)
    && (forall v {:trigger HasParent(g, sw, host, dis, v)} :: v in dis && v != host ==> HasParent(g, sw, host, dis, v))
  }

  lemma {:induction false} LayeredBelow(g: Graph, sw: set<nat>, host: nat, dis: map<nat, nat>, p: seq<nat>)
    requires Layered(g, sw, host, dis) && Route(g, sw, host, p)
    ensures Last(p) in dis && dis[Last(p)] <= |p| - 1
  {
    if |p| > 1 {
      var q := p[..|p| - 1];
      LayeredBelow(g, sw, host, dis, q);
      assert Step(g, sw, host, Last(q), Last(p));
    }
  }

  lemma {:induction false} LayeredAttained(g: Graph, sw: set<nat>, host: nat, dis: map<nat, nat>, v: nat)
    returns (p: seq<nat>)
    requires Layered(g, sw, host, dis) && v in dis
    ensures Route(g, sw, host, p) && Last(p) == v && |p| == dis[v] + 1
    decreases dis[v]
  {
    if v == host {
      p := [host];
    } else {
      assert HasParent(g, sw, host, dis, v);
      var u :| u in dis && Step(g, sw, host, u, v) && dis[u] + 1 == dis[v];
      var q := LayeredAttained(g, sw, host, dis, u);
      p := q + [v];
    }
  }

  ghost predicate Reachable(g: Graph, sw: set<nat>, host: nat, v: nat) {
    exists p: seq<nat> :: Route(g, sw, host, p) && Last(p) == v
  }

  // The shortest routes to v have d links.
  ghost predicate HopDistance(g: Graph, sw: set<nat>, host: nat, v: nat, d: nat) {
    && (exists p: seq<nat> :: Route(g, sw, host, p) && Last(p) == v && |p| == d + 1)
    && forall p: seq<nat> :: Route(g, sw, host, p) && Last(p) == v ==> d + 1 <= |p|
  }

  /** Such a map is the true hop distance: reachable nodes, and minimum numbers of hops. */
  lemma {:induction false} LayeredIsHopDistance(g: Graph, sw: set<nat>, host: nat, dis: map<nat, nat>, v: nat)
    requires Layered(g, sw, host, dis)
    ensures v in dis <==> Reachable(g, sw, host, v)
    ensures v in dis ==> exists p: seq<nat> :: Route(g, sw, host, p) && Last(p) == v && |p| == dis[v] + 1
    ensures forall p: seq<nat> :: Route(g, sw, host, p) && Last(p) == v ==> v in dis && dis[v] + 1 <= |p|
  {
    if v in dis {
      var p := LayeredAttained(g, sw, host, dis, v);
    }
    forall p: seq<nat> | Route(g, sw, host, p) && Last(p) == v ensures v in dis && dis[v] + 1 <= |p| {
      LayeredBelow(g, sw, host, dis, p);
    }
  }

  lemma {:induction false} LayeredUnique(g: Graph, sw: set<nat>, host: nat, dis: map<nat, nat>, dis': map<nat, nat>)
    requires Layered(g, sw, host, dis) && Layered(g, sw, host, dis')
    ensures dis == dis'
  {
    forall v | v in dis ensures v in dis' && dis'[v] <= dis[v] {
      var p := LayeredAttained(g, sw, host, dis, v);
      LayeredBelow(g, sw, host, dis', p);
    }
    forall v | v in dis' ensures v in dis && dis[v] <= dis'[v] {
      var p := LayeredAttained(g, sw, host, dis', v);
      LayeredBelow(g, sw, host, dis, p);
    }
  }

  // ----- next hops -----

  // nextHop: node -> destination -> its equal-cost next hops
  type Table = map<nat, map<nat, seq<nat>>>

  ghost function Hops(t: Table, v: nat, dst: nat): seq<nat> {
    if v in t && dst in t[v] then t[v][dst] else []
  }

  ghost predicate IsNextHop(g: Graph, sw: set<nat>, host: nat, dis: map<nat, nat>, v: nat, u: nat) {
    u in dis && v in dis && Step(g, sw, host, u, v) && dis[u] + 1 == dis[v]
  }

  // The column of host holds exactly the neighbours one hop closer, each once.
  ghost predicate HopsMatch(g: Graph, sw: set<nat>, host: nat, dis: map<nat, nat>, t: Table) {
    forall v :: Distinct(Hops(t, v, host)) && forall u :: u in Hops(t, v, host) <==> IsNextHop(g, sw, host, dis, v, u)
  }

  ghost predicate Routed(g: Graph, sw: set<nat>, host: nat, t: Table) {
    exists dis :: Layered(g, sw, host, dis) && HopsMatch(g, sw, host, dis, t)
  }

  /** The graph determines every column up to the order inside one equal-cost list. */
  lemma {:induction false} RoutedUnique(g: Graph, sw: set<nat>, host: nat, t: Table, t': Table, v: nat)
    requires Routed(g, sw, host, t) && Routed(g, sw, host, t')
    ensures multiset(Hops(t, v, host)) == multiset(Hops(t', v, host))
  {
    var dis :| Layered(g, sw, host, dis) && HopsMatch(g, sw, host, dis, t);
    var dis' :| Layered(g, sw, host, dis') && HopsMatch(g, sw, host, dis', t');
    LayeredUnique(g, sw, host, dis, dis');
    SameElements(Hops(t, v, host), Hops(t', v, host));
  }

  // ----- forwarding -----

  // Some sequence of choices among the installed next hops towards host.
  ghost predicate Forwarded(t: Table, host: nat, p: seq<nat>) {
    |p| > 0 && forall k :: 1 <= k < |p| ==> p[k] in Hops(t, p[k - 1], host)
  }

  /** Forwarding is loop-free: it comes one hop closer with every choice, until it is at host. */
  lemma {:induction false} ForwardingIsLoopFree(g: Graph, sw: set<nat>, host: nat, dis: map<nat, nat>, t: Table,
                                                p: seq<nat>)
    requires Layered(g, sw, host, dis) && HopsMatch(g, sw, host, dis, t)
    requires Forwarded(t, host, p) && p[0] in dis
    ensures Last(p) in dis && dis[Last(p)] + (|p| - 1) == dis[p[0]]
    ensures Last(p) == host <==> |p| - 1 == dis[p[0]]
    ensures Last(p) != host ==> |Hops(t, Last(p), host)| > 0
    ensures forall k :: 1 <= k < |p| && p[k] != host ==> p[k] in sw
  {
    if |p| > 1 {
      var q := p[..|p| - 1];
      ForwardingIsLoopFree(g, sw, host, dis, t, q);
      assert p[|p| - 1] in Hops(t, p[|p| - 2], host);
      assert IsNextHop(g, sw, host, dis, Last(q), Last(p));
      forall k | 1 <= k < |p| && p[k] != host ensures p[k] in sw {
        if k < |p| - 1 {
          assert q[k] == p[k];
        }
      }
    }
    if Last(p) != host {
      assert HasParent(g, sw, host, dis, Last(p));
      var u :| u in dis && Step(g, sw, host, u, Last(p)) && dis[u] + 1 == dis[Last(p)];
      assert IsNextHop(g, sw, host, dis, Last(p), u);
    }
  }

  // ----- the hop-shortest delay against the delay matrix -----

  // Floyd's input agrees with the interface delays of the up links.
  ghost predicate SameDelays(g: Graph, M: Floyd.Matrix) {
    Floyd.Weights(M) && forall u: nat, v: nat :: Up(g, u, v) ==> u < |M| && v < |M| && g[u][v].delay == M[u][v]
  }

  /** No route is faster than Floyd's delay between its ends. */
  lemma {:induction false} RouteDelayAtLeastFloyd(g: Graph, M: Floyd.Matrix, p: seq<nat>)
    requires SameDelays(g, M) && Walk(g, p) && p[0] < |M|
    ensures Last(p) < |M| && DelayOf(g, p) >= Floyd.Dist(M, |M|, p[0], Last(p))
  {
    if |p| == 1 {
      assert Floyd.Dist(M, |M|, p[0], p[0]) <= M[p[0]][p[0]];
    } else {
      var q := p[..|p| - 1];
      RouteDelayAtLeastFloyd(g, M, q);
      assert Up(g, p[|p| - 2], p[|p| - 1]);
      Floyd.Triangle(M, p[0], Last(q), Last(p));
      assert Floyd.Dist(M, |M|, Last(q), Last(p)) <= M[Last(q)][Last(p)];
    }
  }

  // ----- taking links down -----

  function Down(g: Graph, a: nat, b: nat): Graph
    requires a in g && b in g[a] && b in g && a in g[b] && a != b
  {
    g[a := g[a][b := g[a][b].(up := false)]][b := g[b][a := g[b][a].(up := false)]]
  }

  ghost predicate Joins(l: (nat, nat), u: nat, v: nat) {
    (l.0 == u && l.1 == v) || (l.0 == v && l.1 == u)
  }

  // The graph after calls for the links ls, first to last; a call on a link that is not up does nothing.
  ghost function DownAll(g: Graph, ls: seq<(nat, nat)>): Graph
    requires Symmetric(g) && forall u :: !Up(g, u, u)
    ensures Symmetric(DownAll(g, ls)) && forall u :: !Up(DownAll(g, ls), u, u)
    decreases |ls|
  {
    if |ls| == 0 then g
    else
      var g' := DownAll(g, ls[..|ls| - 1]);
      var l := ls[|ls| - 1];
      if Up(g', l.0, l.1) then DownStep(g', l.0, l.1); Down(g', l.0, l.1) else g'
  }

  lemma {:induction false} DownStep(g: Graph, a: nat, b: nat)
    requires Symmetric(g) && (forall u :: !Up(g, u, u)) && Up(g, a, b)
    ensures var g' := Down(g, a, b);
            && (forall u, v :: Up(g', u, v) <==> Up(g, u, v) && !Joins((a, b), u, v))
            && (forall u, v :: Up(g', u, v) ==> g'[u][v] == g[u][v])
            && Symmetric(g')
  {
  }

  lemma {:induction false} DownOne(g: Graph, a: nat, b: nat, u: nat, v: nat)
    requires Symmetric(g) && forall w :: !Up(g, w, w)
    ensures var g' := if Up(g, a, b) then DownStep(g, a, b); Down(g, a, b) else g;
            && (Up(g', u, v) <==> Up(g, u, v) && !Joins((a, b), u, v))
            && (Up(g', u, v) ==> g'[u][v] == g[u][v])
  {
    if Up(g, a, b) {
      DownStep(g, a, b);
    }
  }

  /** Any sequence of calls leaves exactly the links none of them named, in any order and however often. */
  lemma {:induction false} DownAllRemoves(g: Graph, ls: seq<(nat, nat)>, u: nat, v: nat)
    requires Symmetric(g) && forall u :: !Up(g, u, u)
    ensures Up(DownAll(g, ls), u, v) <==> Up(g, u, v) && forall k :: 0 <= k < |ls| ==> !Joins(ls[k], u, v)
    ensures Up(DownAll(g, ls), u, v) ==> DownAll(g, ls)[u][v] == g[u][v]
  {
    hide Joins;
    if |ls| > 0 {
      var rest := ls[..|ls| - 1];
      DownAllRemoves(g, rest, u, v);
      DownOne(DownAll(g, rest), ls[|ls| - 1].0, ls[|ls| - 1].1, u, v);
      hide Down, Symmetric;
      assert forall k :: 0 <= k < |rest| ==> rest[k] == ls[k];
    }
  }
}
