/** The breadth-first route calculation, table installation and link failure of scratch/third.cc. */
module Routing {
  import opened Common
  import opened RouteSpec
  import Floyd

  // node -> host -> a quantity recorded for the pair
  type PairMap = map<nat, map<nat, nat>>

  function Get(m: PairMap, v: nat, host: nat): Option<nat> {
    if v in m && host in m[v] then Some(m[v][host]) else None
  }

  function Put(m: PairMap, v: nat, host: nat, x: nat): (m': PairMap)
    ensures forall w, h :: Get(m', w, h) == if w == v && h == host then Some(x) else Get(m, w, h)
  {
    m[v := (if v in m then m[v] else map[])[host := x]]
  }

  // t[v][dst].push_back(x)
  function Push(t: Table, v: nat, dst: nat, x: nat): (t': Table)
    ensures forall w, d :: Hops(t', w, d) == Hops(t, w, d) + if w == v && d == dst then [x] else []
    ensures t'.Keys == t.Keys + {v}
    ensures forall w :: w in t' ==> t'[w].Keys == (if w in t then t[w].Keys else {}) + if w == v then {dst} else {}
  {
    var row: map<nat, seq<nat>> := if v in t then t[v] else map[];
    t[v := row[dst := (if dst in row then row[dst] else []) + [x]]]
  }

  // ----- the state of one search -----

  // The search has looked along u -> v: u is an earlier queue element, or the current one with v among the seen.
  ghost predicate Looked(q: seq<nat>, i: nat, seen: set<nat>, u: nat, v: nat)
    requires i <= |q|
  {
    u in q[..i] || (i < |q| && u == q[i] && v in seen)
  }

  ghost predicate Queue(g: Graph, sw: set<nat>, host: nat, q: seq<nat>, dis: map<nat, nat>) {
    && |q| > 0 && q[0] == host && Distinct(q)
    && (forall t :: 0 <= t < |q| ==> q[t] in dis && (t > 0 ==> q[t] in sw))
    && (forall s, t :: 0 <= s < t < |q| ==> dis[q[s]] <= dis[q[t]])
    && host in dis && dis[host] == 0
    && (forall v :: v in dis && (v == host || v in sw) ==> v in q)
    && (forall v {:trigger HasParent(g, sw, host, dis, v)} :: v in dis && v != host ==> HasParent(g, sw, host, dis, v))
  }

  ghost predicate Frontier(g: Graph, q: seq<nat>, i: nat, seen: set<nat>, dis: map<nat, nat>)
    requires i <= |q| && forall t :: 0 <= t < |q| ==> q[t] in dis
  {
    && (i < |q| ==> forall v :: v in dis ==> dis[v] <= dis[q[i]] + 1)
    && forall u, v {:trigger Looked(q, i, seen, u, v)} ::
         Looked(q, i, seen, u, v) && Up(g, u, v) ==> v in dis && dis[v] <= dis[u] + 1
  }

  ghost predicate HopsSoFar(g: Graph, q: seq<nat>, i: nat, seen: set<nat>, dis: map<nat, nat>, t: Table, host: nat)
    requires i <= |q| && forall t :: 0 <= t < |q| ==> q[t] in dis
  {
    forall v {:trigger Hops(t, v, host)} ::
      && Distinct(Hops(t, v, host))
      && forall u {:trigger u in Hops(t, v, host)} :: u in Hops(t, v, host) <==>
           Looked(q, i, seen, u, v) && Up(g, u, v) && v in dis && dis[u] + 1 == dis[v]
  }

  // d, delay, txDelay and bw are those of one and the same hop-shortest route.
  ghost predicate Labelled(g: Graph, sw: set<nat>, payload: nat, host: nat, v: nat, d: nat, delay: nat, tx: nat,
                           bw: nat)
    requires Symmetric(g)
  {
    exists p: seq<nat> :: Route(g, sw, host, p) && Last(p) == v && |p| == d + 1
           && delay == DelayOf(g, p) && tx == TxDelayOf(g, payload, p) && bw == BottleneckOf(g, p)
  }

  ghost predicate LabelAt(g: Graph, sw: set<nat>, payload: nat, host: nat, dis: map<nat, nat>,
                          delay: map<nat, nat>, txDelay: map<nat, nat>, bw: map<nat, nat>, v: nat)
    requires Symmetric(g)
  {
    && v in dis && v in delay && v in txDelay && v in bw
    && Labelled(g, sw, payload, host, v, dis[v], delay[v], txDelay[v], bw[v])
  }

  ghost predicate Labels(g: Graph, sw: set<nat>, payload: nat, host: nat, dis: map<nat, nat>,
                         delay: map<nat, nat>, txDelay: map<nat, nat>, bw: map<nat, nat>)
    requires Symmetric(g)
  {
    && delay.Keys == txDelay.Keys == bw.Keys == dis.Keys
    && forall v {:trigger LabelAt(g, sw, payload, host, dis, delay, txDelay, bw, v)} :: v in dis ==>
         LabelAt(g, sw, payload, host, dis, delay, txDelay, bw, v)
  }

  // ----- one neighbour -----

  lemma {:induction false} ParentKept(g: Graph, sw: set<nat>, host: nat, dis: map<nat, nat>, dis': map<nat, nat>,
                                      w: nat)
    requires w in dis && HasParent(g, sw, host, dis, w) && dis.Keys <= dis'.Keys
             && forall u :: u in dis ==> dis'[u] == dis[u]
    ensures HasParent(g, sw, host, dis', w)
  {
  }

  lemma {:induction false} Queued(g: Graph, sw: set<nat>, host: nat, q: seq<nat>, dis: map<nat, nat>, i: nat)
    requires Queue(g, sw, host, q, dis) && i < |q|
    ensures (q[i] == host || q[i] in sw) && (q[i] == host ==> dis[host] == 0)
    ensures forall k :: 0 <= k < |q| ==> q[k] in dis
  {
  }

  // The first link found to v, which is queued if it is a switch.
  lemma {:induction false} QueueGrows(g: Graph, sw: set<nat>, host: nat, q: seq<nat>, q': seq<nat>, i: nat,
                   seen: set<nat>, dis: map<nat, nat>, dis': map<nat, nat>, v: nat)
    requires Queue(g, sw, host, q, dis) && i < |q| && Frontier(g, q, i, seen, dis)
    requires Up(g, q[i], v) && v !in dis
    requires q' == (if v in sw then q + [v] else q) && dis' == dis[v := dis[q[i]] + 1]
    ensures Queue(g, sw, host, q', dis')
  {
    assert v !in q;
    forall w | w in dis' && w != host ensures HasParent(g, sw, host, dis', w) {
      if w == v {
        assert Step(g, sw, host, q[i], v) && dis'[q[i]] + 1 == dis'[v];
      } else {
        assert HasParent(g, sw, host, dis, w);
        ParentKept(g, sw, host, dis, dis', w);
      }
    }
    forall w | w in dis' && (w == host || w in sw) ensures w in q' {
      if w == v {
        assert q'[|q|] == v;
      }
    }
  }

  lemma {:induction false} FrontierGrows(g: Graph, sw: set<nat>, host: nat, q: seq<nat>, q': seq<nat>, i: nat,
                                         seen: set<nat>, dis: map<nat, nat>, dis': map<nat, nat>, v: nat)
    requires i < |q| && q <= q' && Queue(g, sw, host, q, dis) && Queue(g, sw, host, q', dis')
    requires Frontier(g, q, i, seen, dis) && v !in dis && dis' == dis[v := dis[q[i]] + 1]
    ensures Frontier(g, q', i, seen + {v}, dis')
  {
    assert q'[..i] == q[..i] && q'[i] == q[i];
    forall u, w | Looked(q', i, seen + {v}, u, w) && Up(g, u, w) ensures w in dis' && dis'[w] <= dis'[u] + 1 {
      assert Looked(q, i, seen, u, w) || (w == v && u == q[i]) ;
    }
  }

  lemma {:induction false} RevisitKeeps(g: Graph, sw: set<nat>, host: nat, q: seq<nat>, i: nat, seen: set<nat>,
                                        dis: map<nat, nat>, v: nat)
    requires Queue(g, sw, host, q, dis) && i < |q| && Frontier(g, q, i, seen, dis)
    requires Up(g, q[i], v) ==> v in dis
    ensures Frontier(g, q, i, seen + {v}, dis)
  {
    forall u, w | Looked(q, i, seen + {v}, u, w) && Up(g, u, w) ensures w in dis && dis[w] <= dis[u] + 1 {
      assert Looked(q, i, seen, u, w) || w == v;
    }
  }

  lemma {:induction false} LabelExtends(g: Graph, sw: set<nat>, payload: nat, host: nat, u: nat, v: nat, d: nat,
                                        delay: nat, tx: nat, bw: nat)
    requires Symmetric(g) && Labelled(g, sw, payload, host, u, d, delay, tx, bw)
    requires Step(g, sw, host, u, v) && (u == host ==> d == 0)
    ensures var w := g[u][v].bw;
            && w > 0
            && Labelled(g, sw, payload, host, v, d + 1, delay + g[u][v].delay, tx + payload * PAYLOAD_NS / w,
                        if w < bw then w else bw)
  {
    var p: seq<nat> :| Route(g, sw, host, p) && Last(p) == u && |p| == d + 1
           && delay == DelayOf(g, p) && tx == TxDelayOf(g, payload, p) && bw == BottleneckOf(g, p);
    var p' := p + [v];
    assert p'[..|p'| - 1] == p;
    assert LastLink(g, p') == g[u][v];
  }

  // The step from one table to the next when v is looked at from q[i].
  ghost predicate Looking(g: Graph, sw: set<nat>, host: nat, q: seq<nat>, q': seq<nat>, i: nat, seen: set<nat>,
                          dis: map<nat, nat>, dis': map<nat, nat>, t: Table, t': Table, v: nat) {
    && Queue(g, sw, host, q, dis) && i < |q| && q <= q' && Queue(g, sw, host, q', dis')
    && Frontier(g, q, i, seen, dis) && HopsSoFar(g, q, i, seen, dis, t, host) && v !in seen
    && (dis' == dis || (v !in dis && dis' == dis[v := dis[q[i]] + 1]))
    && (Up(g, q[i], v) ==> v in dis')
    && t' == if Up(g, q[i], v) && dis'[q[i]] + 1 == dis'[v] then Push(t, v, host, q[i]) else t
  }

  // Nodes other than v keep their lists.
  lemma {:induction false} HopsElsewhere(g: Graph, sw: set<nat>, host: nat, q: seq<nat>, q': seq<nat>, i: nat,
                                         seen: set<nat>, dis: map<nat, nat>, dis': map<nat, nat>, t: Table, t': Table,
                                         v: nat, w: nat)
    requires Looking(g, sw, host, q, q', i, seen, dis, dis', t, t', v) && w != v
    ensures Distinct(Hops(t', w, host))
    ensures forall u :: u in Hops(t', w, host) <==>
              Looked(q', i, seen + {v}, u, w) && Up(g, u, w) && w in dis' && dis'[u] + 1 == dis'[w]
  {
    assert q'[..i] == q[..i] && q'[i] == q[i];
  }

  // v gains q[i] exactly when that is closer.
  lemma {:induction false} HopsHere(g: Graph, sw: set<nat>, host: nat, q: seq<nat>, q': seq<nat>, i: nat,
                                    seen: set<nat>, dis: map<nat, nat>, dis': map<nat, nat>, t: Table, t': Table,
                                    v: nat)
    requires Looking(g, sw, host, q, q', i, seen, dis, dis', t, t', v)
    ensures Distinct(Hops(t', v, host))
    ensures forall u :: u in Hops(t', v, host) <==>
              Looked(q', i, seen + {v}, u, v) && Up(g, u, v) && v in dis' && dis'[u] + 1 == dis'[v]
  {
    var now := q[i];
    assert q'[..i] == q[..i] && q'[i] == now && now !in q[..i];
    assert now !in Hops(t, v, host);
    if v !in dis {
      assert forall u :: u !in Hops(t, v, host);
      assert forall u :: Looked(q, i, seen, u, v) ==> !Up(g, u, v);
    }
  }

  lemma {:induction false} HopsStep(g: Graph, sw: set<nat>, host: nat, q: seq<nat>, q': seq<nat>, i: nat,
                                    seen: set<nat>, dis: map<nat, nat>, dis': map<nat, nat>, t: Table, t': Table,
                                    v: nat)
    requires Looking(g, sw, host, q, q', i, seen, dis, dis', t, t', v)
    ensures HopsSoFar(g, q', i, seen + {v}, dis', t', host)
  {
    forall w
      ensures Distinct(Hops(t', w, host))
      ensures forall u :: u in Hops(t', w, host) <==>
                Looked(q', i, seen + {v}, u, w) && Up(g, u, w) && w in dis' && dis'[u] + 1 == dis'[w]
    {
      if w == v {
        HopsHere(g, sw, host, q, q', i, seen, dis, dis', t, t', v);
      } else {
        HopsElsewhere(g, sw, host, q, q', i, seen, dis, dis', t, t', v, w);
      }
    }
    hide Looked, Hops, Up, Frontier;
  }

  // The four maps one search fills.
  datatype Found = Found(dis: map<nat, nat>, delay: map<nat, nat>, txDelay: map<nat, nat>, bw: map<nat, nat>)

  // Everything that holds while q[i] is expanded and its neighbours in seen have been looked at.
  ghost predicate Searching(g: Graph, sw: set<nat>, payload: nat, n: nat, host: nat, q: seq<nat>, i: nat,
                            seen: set<nat>, f: Found, t: Table)
  {
    && Symmetric(g) && InRange(g, n) && i <= |q|
    && Queue(g, sw, host, q, f.dis) && Frontier(g, q, i, seen, f.dis) && HopsSoFar(g, q, i, seen, f.dis, t, host)
    && Labels(g, sw, payload, host, f.dis, f.delay, f.txDelay, f.bw)
    && forall v :: v in f.dis ==> v < n
  }

  lemma {:induction false} SearchStarts(g: Graph, sw: set<nat>, payload: nat, n: nat, host: nat, f: Found, t: Table)
    requires Symmetric(g) && InRange(g, n) && host < n && forall v :: Hops(t, v, host) == []
    requires f == Found(map[host := 0], map[host := 0], map[host := 0], map[host := MAX_BW])
    ensures Searching(g, sw, payload, n, host, [host], 0, {}, f, t)
  {
    var p: seq<nat> := [host];
    assert Route(g, sw, host, p) && Last(p) == host && |p| == 0 + 1;
  }

  lemma {:induction false} LookSkip(g: Graph, sw: set<nat>, payload: nat, n: nat, host: nat, q: seq<nat>, i: nat,
                 seen: set<nat>, f: Found, t: Table, v: nat)
    requires Searching(g, sw, payload, n, host, q, i, seen, f, t) && i < |q| && v !in seen && !Up(g, q[i], v)
    ensures Searching(g, sw, payload, n, host, q, i, seen + {v}, f, t)
  {
    RevisitKeeps(g, sw, host, q, i, seen, f.dis, v);
    HopsStep(g, sw, host, q, q, i, seen, f.dis, f.dis, t, t, v);
  }

  lemma {:induction false} LookOld(g: Graph, sw: set<nat>, payload: nat, n: nat, host: nat, q: seq<nat>, i: nat,
                seen: set<nat>, f: Found, t: Table, v: nat)
    requires Searching(g, sw, payload, n, host, q, i, seen, f, t) && i < |q| && v !in seen
    requires Up(g, q[i], v) && v in f.dis
    ensures Searching(g, sw, payload, n, host, q, i, seen + {v}, f,
                      if f.dis[q[i]] + 1 == f.dis[v] then Push(t, v, host, q[i]) else t)
  {
    RevisitKeeps(g, sw, host, q, i, seen, f.dis, v);
    var t' := if f.dis[q[i]] + 1 == f.dis[v] then Push(t, v, host, q[i]) else t;
    HopsStep(g, sw, host, q, q, i, seen, f.dis, f.dis, t, t', v);
  }

  lemma {:induction false} LabelsExtend(g: Graph, sw: set<nat>, payload: nat, host: nat, f: Found, f': Found,
                                        now: nat, v: nat)
    requires Symmetric(g) && Labels(g, sw, payload, host, f.dis, f.delay, f.txDelay, f.bw)
    requires Step(g, sw, host, now, v) && now in f.dis && (now == host ==> f.dis[now] == 0) && v !in f.dis
    requires f' == Extended(g, payload, f, now, v)
    ensures Labels(g, sw, payload, host, f'.dis, f'.delay, f'.txDelay, f'.bw)
  {
    assert LabelAt(g, sw, payload, host, f.dis, f.delay, f.txDelay, f.bw, now);
    LabelExtends(g, sw, payload, host, now, v, f.dis[now], f.delay[now], f.txDelay[now], f.bw[now]);
    forall w | w in f'.dis ensures LabelAt(g, sw, payload, host, f'.dis, f'.delay, f'.txDelay, f'.bw, w) {
      if w != v {
        assert LabelAt(g, sw, payload, host, f.dis, f.delay, f.txDelay, f.bw, w);
      }
    }
  }

  // The labels of a node found from now.
  function Extended(g: Graph, payload: nat, f: Found, now: nat, v: nat): (f': Found)
    requires now in f.dis && now in f.delay && now in f.txDelay && now in f.bw
    requires now in g && v in g[now] && g[now][v].bw > 0
    ensures f'.dis == f.dis[v := f.dis[now] + 1]
  {
    var l := g[now][v];
    Found(f.dis[v := f.dis[now] + 1], f.delay[v := f.delay[now] + l.delay],
          f.txDelay[v := f.txDelay[now] + payload * PAYLOAD_NS / l.bw],
          f.bw[v := if l.bw < f.bw[now] then l.bw else f.bw[now]])
  }

  lemma {:induction false} LookNew(g: Graph, sw: set<nat>, payload: nat, n: nat, host: nat, q: seq<nat>, q': seq<nat>,
                                   i: nat, seen: set<nat>, f: Found, f': Found, t: Table, v: nat)
    requires Searching(g, sw, payload, n, host, q, i, seen, f, t) && i < |q| && v !in seen
    requires Up(g, q[i], v) && v !in f.dis
    requires q' == (if v in sw then q + [v] else q) && f' == Extended(g, payload, f, q[i], v)
    ensures Searching(g, sw, payload, n, host, q', i, seen + {v}, f', Push(t, v, host, q[i]))
    ensures q <= q'
  {
    hide Queue, Frontier, HopsSoFar, Labels, Extended, Hops, Symmetric;
    var now := q[i];
    Queued(g, sw, host, q, f.dis, i);
    LabelsExtend(g, sw, payload, host, f, f', now, v);
    QueueGrows(g, sw, host, q, q', i, seen, f.dis, f'.dis, v);
    Queued(g, sw, host, q', f'.dis, i);
    FrontierGrows(g, sw, host, q, q', i, seen, f.dis, f'.dis, v);
    var t' := Push(t, v, host, now);
    assert t' == if Up(g, q[i], v) && f'.dis[q[i]] + 1 == f'.dis[v] then Push(t, v, host, q[i]) else t;
    HopsStep(g, sw, host, q, q', i, seen, f.dis, f'.dis, t, t', v);
  }

  // When all neighbours of q[i] are seen the search moves on.
  lemma {:induction false} Advance(g: Graph, sw: set<nat>, payload: nat, n: nat, host: nat, q: seq<nat>, i: nat,
                seen: set<nat>, f: Found, t: Table)
    requires Searching(g, sw, payload, n, host, q, i, seen, f, t) && i < |q| && forall v: nat :: v < n ==> v in seen
    ensures Searching(g, sw, payload, n, host, q, i + 1, {}, f, t) && i < n
  {
    DistinctBound(q, Below(n));
    forall u: nat, v: nat | Up(g, u, v) ensures Looked(q, i, seen, u, v) <==> Looked(q, i + 1, {}, u, v) {
      assert q[..i + 1] == q[..i] + [q[i]];
    }
    AdvanceFrontier(g, q, i, seen, f.dis);
    assert HopsSoFar(g, q, i + 1, {}, f.dis, t, host);
  }

  lemma {:induction false} AdvanceFrontier(g: Graph, q: seq<nat>, i: nat, seen: set<nat>, dis: map<nat, nat>)
    requires i < |q| && (forall t :: 0 <= t < |q| ==> q[t] in dis) && Frontier(g, q, i, seen, dis)
    requires forall s, t :: 0 <= s < t < |q| ==> dis[q[s]] <= dis[q[t]]
    requires forall u: nat, v: nat :: Up(g, u, v) ==> (Looked(q, i, seen, u, v) <==> Looked(q, i + 1, {}, u, v))
    ensures Frontier(g, q, i + 1, {}, dis)
  {
  }

  lemma {:induction false} SearchDone(g: Graph, sw: set<nat>, payload: nat, n: nat, host: nat, q: seq<nat>, f: Found,
                                      t: Table)
    requires Searching(g, sw, payload, n, host, q, |q|, {}, f, t)
    ensures Layered(g, sw, host, f.dis) && HopsMatch(g, sw, host, f.dis, t)
    ensures Labels(g, sw, payload, host, f.dis, f.delay, f.txDelay, f.bw) && forall v :: v in f.dis ==> v < n
  {
    assert q[..|q|] == q;
    forall u, v | u in f.dis && Step(g, sw, host, u, v) ensures Looked(q, |q|, {}, u, v) {
    }
    forall v, u ensures u in Hops(t, v, host) <==> IsNextHop(g, sw, host, f.dis, v, u) {
      assert Looked(q, |q|, {}, u, v) <==> u in q;
    }
  }

  ghost function Prefix(order: seq<nat>, k: nat): set<nat>
    requires k <= |order|
  {
    set v | v in order[..k]
  }

  // What is recorded for the pairs (v, host) is that of a hop-shortest route, for every v that has one.
  ghost predicate Recorded(g: Graph, sw: set<nat>, payload: nat, host: nat, dis: map<nat, nat>,
                           pd: PairMap, ptx: PairMap, pbw: PairMap)
    requires Symmetric(g)
  {
    forall v :: v in dis ==>
      && Get(pd, v, host).Some? && Get(ptx, v, host).Some? && Get(pbw, v, host).Some?
      && Labelled(g, sw, payload, host, v, dis[v],
                  Get(pd, v, host).value, Get(ptx, v, host).value, Get(pbw, v, host).value)
  }

  // All that one route calculation promises for the destination host.
  ghost predicate ColumnOf(g: Graph, sw: set<nat>, payload: nat, host: nat, t: Table, pd: PairMap, ptx: PairMap,
                           pbw: PairMap)
    requires Symmetric(g)
  {
    exists dis ::
      Layered(g, sw, host, dis) && HopsMatch(g, sw, host, dis, t) && Recorded(g, sw, payload, host, dis, pd, ptx, pbw)
  }

  // Pair v of the host's column in terms of one hop-shortest route p alone.
  ghost predicate RecordedAlong(g: Graph, sw: set<nat>, payload: nat, host: nat, v: nat,
                                pair: (Option<nat>, Option<nat>, Option<nat>), p: seq<nat>)
    requires Symmetric(g)
  {
    && Route(g, sw, host, p) && Last(p) == v && HopDistance(g, sw, host, v, |p| - 1)
    && pair.0 == Some(DelayOf(g, p)) && pair.1 == Some(TxDelayOf(g, payload, p)) && pair.2.Some?
    && if v == host then pair.2.value == 0xffff_ffff_ffff_ffff else IsLeastRate(g, p, pair.2.value)
  }

  lemma {:induction false} RecordedBottleneck(g: Graph, sw: set<nat>, payload: nat, host: nat, t: Table, pd: PairMap,
                                              ptx: PairMap, pbw: PairMap, v: nat)
    requires Symmetric(g) && RatesFit(g) && ColumnOf(g, sw, payload, host, t, pd, ptx, pbw)
    requires Reachable(g, sw, host, v)
    ensures exists p: seq<nat> ::
              RecordedAlong(g, sw, payload, host, v, (Get(pd, v, host), Get(ptx, v, host), Get(pbw, v, host)), p)
  {
    hide IsLeastRate, BottleneckOf, TxDelayOf, DelayOf, Labelled, RecordedAlong, Symmetric;
    var dis :| Layered(g, sw, host, dis) && HopsMatch(g, sw, host, dis, t)
               && Recorded(g, sw, payload, host, dis, pd, ptx, pbw);
    LayeredIsHopDistance(g, sw, host, dis, v);
    assert HopDistance(g, sw, host, v, dis[v]);
    hide Layered, HopsMatch, Reachable, HopDistance;
    var p := LabelledAlong(g, sw, payload, host, v, dis[v], Get(pd, v, host).value, Get(ptx, v, host).value,
                           Get(pbw, v, host).value);
  }

  lemma {:induction false} LabelledAlong(g: Graph, sw: set<nat>, payload: nat, host: nat, v: nat, d: nat, delay: nat,
                                         tx: nat, bw: nat) returns (p: seq<nat>)
    requires Symmetric(g) && RatesFit(g) && HopDistance(g, sw, host, v, d)
    requires Labelled(g, sw, payload, host, v, d, delay, tx, bw)
    ensures RecordedAlong(g, sw, payload, host, v, (Some(delay), Some(tx), Some(bw)), p)
  {
    hide IsLeastRate, BottleneckOf, TxDelayOf, DelayOf, Symmetric, RatesFit;
    p :| Route(g, sw, host, p) && Last(p) == v && |p| == d + 1
         && delay == DelayOf(g, p) && tx == TxDelayOf(g, payload, p) && bw == BottleneckOf(g, p);
    BottleneckIsLeast(g, p);
    if v == host {
      var one: seq<nat> := [host];
      assert Route(g, sw, host, one) && Last(one) == v;
    }
    hide HopDistance;
  }

  lemma {:induction false} ColumnFrame(g: Graph, sw: set<nat>, payload: nat, host: nat, t: Table, pd: PairMap,
                                       ptx: PairMap, pbw: PairMap,
                    t': Table, pd': PairMap, ptx': PairMap, pbw': PairMap)
    requires Symmetric(g) && ColumnOf(g, sw, payload, host, t, pd, ptx, pbw)
    requires forall v :: Hops(t', v, host) == Hops(t, v, host) && Get(pd', v, host) == Get(pd, v, host)
                      && Get(ptx', v, host) == Get(ptx, v, host) && Get(pbw', v, host) == Get(pbw, v, host)
    ensures ColumnOf(g, sw, payload, host, t', pd', ptx', pbw')
  {
    hide Layered, Labelled;
    var dis :| Layered(g, sw, host, dis) && HopsMatch(g, sw, host, dis, t)
        && Recorded(g, sw, payload, host, dis, pd, ptx, pbw);
    assert HopsMatch(g, sw, host, dis, t');
    assert Recorded(g, sw, payload, host, dis, pd', ptx', pbw');
  }

  function IndexOf(g: Graph, v: nat, u: nat): nat {
    if v in g && u in g[v] then g[v][u].idx else 0
  }

  // The interfaces of v towards the nodes us.
  ghost function Interfaces(g: Graph, v: nat, us: seq<nat>): (r: seq<nat>)
    ensures |r| == |us| && forall k :: 0 <= k < |us| ==> r[k] == IndexOf(g, v, us[k])
  {
    seq(|us|, k requires 0 <= k < |us| => IndexOf(g, v, us[k]))
  }

  /** The delay recorded for a pair is never below Floyd's propagation delay between the two. */
  lemma {:induction false} RecordedDelayAtLeastFloyd(g: Graph, sw: set<nat>, payload: nat, host: nat, t: Table,
                                                     pd: PairMap, ptx: PairMap,
                                  pbw: PairMap, M: Floyd.Matrix, p: seq<nat>)
    requires Symmetric(g) && ColumnOf(g, sw, payload, host, t, pd, ptx, pbw)
    requires SameDelays(g, M) && host < |M| && Route(g, sw, host, p)
    ensures Last(p) < |M| && Get(pd, Last(p), host).Some?
    ensures Get(pd, Last(p), host).value >= Floyd.Dist(M, |M|, host, Last(p))
  {
    var dis :| Layered(g, sw, host, dis) && HopsMatch(g, sw, host, dis, t)
        && Recorded(g, sw, payload, host, dis, pd, ptx, pbw);
    LayeredBelow(g, sw, host, dis, p);
    var v := Last(p);
    var r: seq<nat> :| Route(g, sw, host, r) && Last(r) == v && Get(pd, v, host).value == DelayOf(g, r);
    RouteDelayAtLeastFloyd(g, M, r);
  }

  // A node's interfaces have different indices.
  ghost predicate DistinctInterfaces(g: Graph) {
    forall v, u, w :: v in g && u in g[v] && w in g[v] && g[v][u].idx == g[v][w].idx ==> u == w
  }

  /** An installed entry leaves over an up link, to a node one hop closer to the destination. */
  lemma {:induction false} EntryLeavesOverUpLink(g: Graph, sw: set<nat>, host: nat, dis: map<nat, nat>, t: Table,
                                                 v: nat, x: nat, w: nat)
    requires Symmetric(g) && DistinctInterfaces(g) && Layered(g, sw, host, dis) && HopsMatch(g, sw, host, dis, t)
    requires x in Interfaces(g, v, Hops(t, v, host)) && v in g && w in g[v] && g[v][w].idx == x
    ensures Up(g, v, w) && w in dis && v in dis && dis[w] + 1 == dis[v]
  {
    var us := Hops(t, v, host);
    var k :| 0 <= k < |us| && x == IndexOf(g, v, us[k]);
    assert us[k] in us && IsNextHop(g, sw, host, dis, v, us[k]);
  }

  lemma {:induction false} DownKeepsInterfaces(g: Graph, links: seq<(nat, nat)>)
    requires Symmetric(g) && (forall u :: !Up(g, u, u)) && DistinctInterfaces(g)
    ensures DistinctInterfaces(DownAll(g, links))
  {
    if |links| > 0 {
      DownKeepsInterfaces(g, links[..|links| - 1]);
    }
  }

  lemma {:induction false} InterfacesWithout(g: Graph, v: nat, s: seq<nat>, k: nat)
    requires k < |s|
    ensures multiset(Interfaces(g, v, s)) == multiset(Interfaces(g, v, Without(s, k))) + multiset{IndexOf(g, v, s[k])}
  {
    RemoveOne(Interfaces(g, v, s), k);
    assert Interfaces(g, v, Without(s, k)) == Without(Interfaces(g, v, s), k);
  }

  lemma {:induction false} InterfacesPermute(g: Graph, v: nat, s: seq<nat>, t: seq<nat>)
    requires multiset(s) == multiset(t)
    ensures multiset(Interfaces(g, v, s)) == multiset(Interfaces(g, v, t))
  {
    if |s| == 0 {
      assert |multiset(t)| == |t|;
    } else {
      assert s[0] in multiset(t);
      var k :| 0 <= k < |t| && t[k] == s[0];
      RemoveOne(s, 0);
      RemoveOne(t, k);
      InterfacesPermute(g, v, Without(s, 0), Without(t, k));
      InterfacesWithout(g, v, s, 0);
      InterfacesWithout(g, v, t, k);
    }
  }

  /** The graph determines the entries: a rebuilt table is that of a fresh calculation, up to ECMP list order. */
  lemma {:induction false} EntriesDetermined(g: Graph, sw: set<nat>, payload: nat, host: nat, t: Table, pd: PairMap,
                                             ptx: PairMap, pbw: PairMap,
                          t': Table, pd': PairMap, ptx': PairMap, pbw': PairMap, v: nat)
    requires Symmetric(g) && ColumnOf(g, sw, payload, host, t, pd, ptx, pbw)
             && ColumnOf(g, sw, payload, host, t', pd', ptx', pbw')
    ensures multiset(Interfaces(g, v, Hops(t, v, host))) == multiset(Interfaces(g, v, Hops(t', v, host)))
  {
    RoutedUnique(g, sw, host, t, t', v);
    InterfacesPermute(g, v, Hops(t, v, host), Hops(t', v, host));
  }

  // ----- the network -----

  class Network {
    const n: nat
    const payload: nat
    const isSwitch: seq<bool>
    // the order in which maps keyed by nodes are iterated
    const order: seq<nat>
    var nbr2if: Graph
    var nextHop: Table
    var pairDelay: PairMap
    var pairTxDelay: PairMap
    var pairBw: PairMap
    // per node: destination -> interface indices (m_rtTable)
    var tables: Table

    ghost function Switches(): set<nat> {
      set v | 0 <= v < |isSwitch| && isSwitch[v]
    }

    ghost predicate Valid()
      reads `nbr2if
    {
      && |isSwitch| == n && Distinct(order) && (forall v :: v in order <==> v < n)
      && Symmetric(nbr2if) && InRange(nbr2if, n) && forall u :: !Up(nbr2if, u, u)
    }

    ghost function Pair(v: nat, host: nat): (Option<nat>, Option<nat>, Option<nat>)
      reads `pairDelay, `pairTxDelay, `pairBw
    {
      (Get(pairDelay, v, host), Get(pairTxDelay, v, host), Get(pairBw, v, host))
    }

    ghost predicate Column(host: nat)
      requires Valid()
      reads `nbr2if, `nextHop, `pairDelay, `pairTxDelay, `pairBw
    {
      ColumnOf(nbr2if, Switches(), payload, host, nextHop, pairDelay, pairTxDelay, pairBw)
    }

    // Copies a column of labels: for (auto it : column) m[it.first][host] = it.second
    method SetColumn(m: PairMap, column: map<nat, nat>, host: nat) returns (m': PairMap)
      requires forall v :: v in column ==> v in order
      ensures forall v, h :: Get(m', v, h) == if h == host && v in column then Some(column[v]) else Get(m, v, h)
    {
      m' := m;
      for k := 0 to |order|
        invariant forall v, h :: Get(m', v, h) ==
                    if h == host && v in column && v in order[..k] then Some(column[v]) else Get(m, v, h)
      {
        if order[k] in column {
          m' := Put(m', order[k], host, column[order[k]]);
        }
      }
      assert order[..|order|] == order;
    }

    // The breadth-first search from host.
    method Search(host: nat) returns (f: Found)
      requires Valid() && host < n && forall v :: Hops(nextHop, v, host) == []
      modifies `nextHop
      ensures Layered(nbr2if, Switches(), host, f.dis) && HopsMatch(nbr2if, Switches(), host, f.dis, nextHop)
      ensures Labels(nbr2if, Switches(), payload, host, f.dis, f.delay, f.txDelay, f.bw)
      ensures forall v :: v in f.dis ==> v < n
      ensures forall v, d :: d != host ==> Hops(nextHop, v, d) == old(Hops(nextHop, v, d))
    {
      hide Searching, Layered, HopsMatch, Labels;
      ghost var sw := Switches();
      var q := [host];
      f := Found(map[host := 0], map[host := 0], map[host := 0], map[host := MAX_BW]);
      SearchStarts(nbr2if, sw, payload, n, host, f, nextHop);
      var i := 0;
      while i < |q|
        invariant i <= |q| && Searching(nbr2if, sw, payload, n, host, q, i, {}, f, nextHop)
        invariant forall v, d :: d != host ==> Hops(nextHop, v, d) == old(Hops(nextHop, v, d))
        decreases n - i
      {
        assert Prefix(order, 0) == {};
        for k := 0 to |order|
          invariant i < |q| && Searching(nbr2if, sw, payload, n, host, q, i, Prefix(order, k), f, nextHop)
          invariant forall v, d :: d != host ==> Hops(nextHop, v, d) == old(Hops(nextHop, v, d))
        {
          assert order[..k + 1] == order[..k] + [order[k]];
          assert order[k] in order && order[k] !in Prefix(order, k);
          assert Prefix(order, k + 1) == Prefix(order, k) + {order[k]};
          q, f := LookAt(host, q, i, order[k], f, Prefix(order, k));
        }
        assert order[..|order|] == order;
        Advance(nbr2if, sw, payload, n, host, q, i, Prefix(order, |order|), f, nextHop);
        i := i + 1;
      }
      SearchDone(nbr2if, sw, payload, n, host, q, f, nextHop);
    }

    method CalculateRoute(host: nat)
      requires Valid() && host < n && forall v :: Hops(nextHop, v, host) == []
      modifies `nextHop, `pairDelay, `pairTxDelay, `pairBw
      ensures Column(host)
      ensures forall v, d :: d != host ==> Hops(nextHop, v, d) == old(Hops(nextHop, v, d))
      ensures forall v, d :: d != host ==> Pair(v, d) == old(Pair(v, d))
      ensures forall v :: !Reachable(nbr2if, Switches(), host, v) ==> Pair(v, host) == old(Pair(v, host))
      ensures RatesFit(nbr2if) ==>
                forall v :: Reachable(nbr2if, Switches(), host, v) ==>
                  exists p: seq<nat> :: RecordedAlong(nbr2if, Switches(), payload, host, v, Pair(v, host), p)
    {
      hide Layered, HopsMatch, Recorded, Labels;
      var f := Search(host);
      forall v | v in f.dis ensures Reachable(nbr2if, Switches(), host, v) {
        LayeredIsHopDistance(nbr2if, Switches(), host, f.dis, v);
      }
      RecordLabels(host, f);
      if RatesFit(nbr2if) {
        forall v | Reachable(nbr2if, Switches(), host, v)
          ensures exists p: seq<nat> :: RecordedAlong(nbr2if, Switches(), payload, host, v, Pair(v, host), p)
        {
          RecordedBottleneck(nbr2if, Switches(), payload, host, nextHop, pairDelay, pairTxDelay, pairBw, v);
          assert Pair(v, host) == (Get(pairDelay, v, host), Get(pairTxDelay, v, host), Get(pairBw, v, host));
        }
      }
      hide RatesFit, Reachable, RecordedAlong;
    }

    // The three loops that copy the labels of one search into the pair maps.
    method RecordLabels(host: nat, f: Found)
      requires Valid() && Labels(nbr2if, Switches(), payload, host, f.dis, f.delay, f.txDelay, f.bw)
      requires forall v :: v in f.dis ==> v < n
      modifies `pairDelay, `pairTxDelay, `pairBw
      ensures Recorded(nbr2if, Switches(), payload, host, f.dis, pairDelay, pairTxDelay, pairBw)
      ensures forall v, d :: d != host || v !in f.dis ==> Pair(v, d) == old(Pair(v, d))
    {
      hide Labelled;
      pairDelay := SetColumn(pairDelay, f.delay, host);
      pairTxDelay := SetColumn(pairTxDelay, f.txDelay, host);
      pairBw := SetColumn(pairBw, f.bw, host);
      forall v | v in f.dis
        ensures Labelled(nbr2if, Switches(), payload, host, v, f.dis[v], f.delay[v], f.txDelay[v], f.bw[v])
      {
        assert LabelAt(nbr2if, Switches(), payload, host, f.dis, f.delay, f.txDelay, f.bw, v);
      }
    }

    // One neighbour slot of q[i].
    method LookAt(host: nat, q: seq<nat>, i: nat, next: nat, f: Found, ghost seen: set<nat>)
      returns (q': seq<nat>, f': Found)
      requires Valid() && next < n && next !in seen && i < |q|
      requires Searching(nbr2if, Switches(), payload, n, host, q, i, seen, f, nextHop)
      modifies `nextHop
      ensures Searching(nbr2if, Switches(), payload, n, host, q', i, seen + {next}, f', nextHop) && q <= q'
      ensures forall v, d :: d != host ==> Hops(nextHop, v, d) == old(Hops(nextHop, v, d))
    {
      q', f' := q, f;
      var now := q[i];
      var d := f.dis[now];
      // skip down link
      if !(now in nbr2if && next in nbr2if[now] && nbr2if[now][next].up) {
        LookSkip(nbr2if, Switches(), payload, n, host, q, i, seen, f, nextHop, next);
        return;
      }
      assert Up(nbr2if, now, next) && nbr2if[now][next].bw > 0;
      if next !in f.dis {
        f' := Extended(nbr2if, payload, f, now, next);
        if isSwitch[next] {
          q' := q + [next];
        }
        LookNew(nbr2if, Switches(), payload, n, host, q, q', i, seen, f, f', nextHop, next);
      } else {
        LookOld(nbr2if, Switches(), payload, n, host, q, i, seen, f, nextHop, next);
      }
      if d + 1 == f'.dis[next] {
        nextHop := Push(nextHop, next, host, now);
      }
    }

    ghost predicate NoRoutes()
      reads `nextHop
    {
      forall v, d :: Hops(nextHop, v, d) == []
    }

    // Every host below k has its column, and nothing else is in the table.
    ghost predicate ColumnsBelow(k: nat)
      requires Valid()
      reads `nbr2if, `nextHop, `pairDelay, `pairTxDelay, `pairBw
    {
      && (forall h: nat :: h < k && h < n && !isSwitch[h] ==> Column(h))
      && (forall v, d: nat :: d >= k || d >= n || isSwitch[d] ==> Hops(nextHop, v, d) == [])
    }

    method CalculateRoutes()
      requires Valid() && NoRoutes()
      modifies `nextHop, `pairDelay, `pairTxDelay, `pairBw
      ensures ColumnsBelow(n)
    {
      hide ColumnOf;
      for i := 0 to n
        invariant ColumnsBelow(i)
      {
        if !isSwitch[i] {
          ghost var t, pd, ptx, pbw := nextHop, pairDelay, pairTxDelay, pairBw;
          assert forall v :: Hops(nextHop, v, i) == [];
          label L:
          CalculateRoute(i);
          forall h: nat | h < i && !isSwitch[h] ensures Column(h) {
            forall v: nat
              ensures Hops(nextHop, v, h) == Hops(t, v, h)
              ensures (Get(pairDelay, v, h), Get(pairTxDelay, v, h), Get(pairBw, v, h))
                      == (Get(pd, v, h), Get(ptx, v, h), Get(pbw, v, h))
            {
              assert Pair(v, h) == old@L(Pair(v, h));
            }
            ColumnFrame(nbr2if, Switches(), payload, h, t, pd, ptx, pbw, nextHop, pairDelay, pairTxDelay, pairBw);
          }
        }
      }
    }

    // AddTableEntry for each next hop of one table cell.
    method AddEntries(node: nat, dst: nat)
      modifies `tables
      ensures forall v, d :: Hops(tables, v, d) ==
                old(Hops(tables, v, d))
                + if v == node && d == dst then Interfaces(nbr2if, v, Hops(nextHop, v, d)) else []
    {
      if node in nextHop && dst in nextHop[node] {
        var nexts := nextHop[node][dst];
        for k := 0 to |nexts|
          invariant forall v, d :: v != node || d != dst ==> Hops(tables, v, d) == old(Hops(tables, v, d))
          invariant Hops(tables, node, dst) == old(Hops(tables, node, dst)) + Interfaces(nbr2if, node, nexts[..k])
        {
          tables := Push(tables, node, dst, IndexOf(nbr2if, node, nexts[k]));
          assert Interfaces(nbr2if, node, nexts[..k + 1])
              == Interfaces(nbr2if, node, nexts[..k]) + [IndexOf(nbr2if, node, nexts[k])];
        }
        assert nexts[..|nexts|] == nexts;
      }
    }

    method SetRoutingEntries()
      requires Valid() && forall v: nat, d: nat :: Hops(nextHop, v, d) != [] ==> v < n && d < n
      modifies `tables
      ensures forall v, d :: Hops(tables, v, d) == old(Hops(tables, v, d)) + Interfaces(nbr2if, v, Hops(nextHop, v, d))
    {
      for i := 0 to |order|
        invariant forall v, d :: Hops(tables, v, d) ==
                    old(Hops(tables, v, d)) + if v in order[..i] then Interfaces(nbr2if, v, Hops(nextHop, v, d)) else []
      {
        assert order[i] !in order[..i];
        SetEntriesOf(order[i]);
      }
      assert order[..|order|] == order;
    }

    method SetEntriesOf(node: nat)
      requires Valid() && forall v: nat, d: nat :: Hops(nextHop, v, d) != [] ==> v < n && d < n
      modifies `tables
      ensures forall v, d :: Hops(tables, v, d) ==
                old(Hops(tables, v, d)) + if v == node then Interfaces(nbr2if, v, Hops(nextHop, v, d)) else []
    {
      for j := 0 to |order|
        invariant forall v, d :: Hops(tables, v, d) == old(Hops(tables, v, d)) +
                    if v == node && d in order[..j] then Interfaces(nbr2if, v, Hops(nextHop, v, d)) else []
      {
        assert order[j] !in order[..j];
        AddEntries(node, order[j]);
      }
      assert order[..|order|] == order;
    }

    // The tables are those of the current graph.
    ghost predicate Installed()
      reads this
    {
      && Valid() && ColumnsBelow(n)
      && forall v, d :: Hops(tables, v, d) == Interfaces(nbr2if, v, Hops(nextHop, v, d))
    }

    // main: set up routing
    method SetUpRouting()
      requires Valid() && NoRoutes() && tables == map[]
      modifies `nextHop, `pairDelay, `pairTxDelay, `pairBw, `tables
      ensures Installed()
    {
      CalculateRoutes();
      HopsInRange();
      SetRoutingEntries();
    }

    lemma {:induction false} HopsInRange()
      requires Valid() && ColumnsBelow(n)
      ensures forall v: nat, d: nat :: Hops(nextHop, v, d) != [] ==> v < n && d < n
    {
      forall v: nat, d: nat | Hops(nextHop, v, d) != [] ensures v < n && d < n {
        assert d < n && Column(d);
        var u := Hops(nextHop, v, d)[0];
        assert u in Hops(nextHop, v, d);
      }
    }

    /** Takes the link down and rebuilds everything for the remaining graph; a link that is not up is left alone. */
    method TakeDownLink(a: nat, b: nat)
      requires Installed()
      modifies this
      ensures Installed()
      ensures old(Up(nbr2if, a, b)) ==> nbr2if == Down(old(nbr2if), a, b)
      ensures !old(Up(nbr2if, a, b)) ==> nbr2if == old(nbr2if) && nextHop == old(nextHop) && tables == old(tables)
      ensures !old(Up(nbr2if, a, b)) ==> forall v, h :: Pair(v, h) == old(Pair(v, h))
    {
      if !(a in nbr2if && b in nbr2if[a] && nbr2if[a][b].up) {
        return;
      }
      assert Up(nbr2if, a, b);
      DownStep(nbr2if, a, b);
      nbr2if := Down(nbr2if, a, b);
      Rebuild();
    }

    // Routes and tables from scratch.
    method Rebuild()
      requires Valid()
      modifies `nextHop, `pairDelay, `pairTxDelay, `pairBw, `tables
      ensures Installed()
    {
      hide ColumnOf, Symmetric, InRange, Distinct;
      nextHop := map[];
      CalculateRoutes();
      // clear routing tables
      tables := map[];
      HopsInRange();
      SetRoutingEntries();
    }

    /** A run of failures: afterwards routes and tables are those of the graph without the links named. */
    method TakeDownLinks(links: seq<(nat, nat)>)
      requires Installed()
      modifies this
      ensures Installed() && nbr2if == DownAll(old(nbr2if), links)
      ensures old(DistinctInterfaces(nbr2if)) ==> DistinctInterfaces(nbr2if)
    {
      ghost var g := nbr2if;
      if DistinctInterfaces(g) {
        DownKeepsInterfaces(g, links);
      }
      for k := 0 to |links|
        invariant Installed() && Symmetric(g) && (forall u :: !Up(g, u, u)) && nbr2if == DownAll(g, links[..k])
      {
        assert links[..k + 1][..k] == links[..k];
        TakeDownLink(links[k].0, links[k].1);
      }
      assert links[..|links|] == links;
    }

    // Each node of p but the first is a neighbour of the one before it over an interface installed for host.
    ghost predicate SentOver(host: nat, p: seq<nat>)
      reads this
    {
      |p| > 0 && forall k :: 1 <= k < |p| ==> InstalledNext(host, p[k - 1], p[k])
    }

    ghost predicate InstalledNext(host: nat, v: nat, w: nat)
      reads this
    {
      v in nbr2if && w in nbr2if[v] && nbr2if[v][w].idx in Hops(tables, v, host)
    }

    lemma {:induction false} InstalledIsNextHop(host: nat, dis: map<nat, nat>, v: nat, w: nat)
      requires Installed() && DistinctInterfaces(nbr2if) && InstalledNext(host, v, w)
      requires Layered(nbr2if, Switches(), host, dis) && HopsMatch(nbr2if, Switches(), host, dis, nextHop)
      ensures w in Hops(nextHop, v, host) && Up(nbr2if, v, w)
    {
      hide Layered;
      var us, x := Hops(nextHop, v, host), nbr2if[v][w].idx;
      var k :| 0 <= k < |us| && x == IndexOf(nbr2if, v, us[k]);
      assert us[k] in us && IsNextHop(nbr2if, Switches(), host, dis, v, us[k]);
    }

    /** Forwarding over the installed interfaces is loop-free: whatever entries are chosen, every hop is over an up
        link and through switches only, the host is reached after exactly the hop distance d, and until then there is
        an entry. */
    lemma {:induction false} TablesAreLoopFree(host: nat, p: seq<nat>) returns (d: nat)
      requires Installed() && DistinctInterfaces(nbr2if) && host < n && !isSwitch[host]
      requires SentOver(host, p) && Reachable(nbr2if, Switches(), host, p[0])
      ensures HopDistance(nbr2if, Switches(), host, p[0], d)
      ensures |p| - 1 <= d && (Last(p) == host <==> |p| - 1 == d)
      ensures Last(p) != host ==> |Hops(tables, Last(p), host)| > 0
      ensures forall k :: 1 <= k < |p| ==> Up(nbr2if, p[k - 1], p[k]) && (p[k] == host || p[k] in Switches())
    {
      assert Column(host);
      var g, sw := nbr2if, Switches();
      var dis :| Layered(g, sw, host, dis) && HopsMatch(g, sw, host, dis, nextHop)
                 && Recorded(g, sw, payload, host, dis, pairDelay, pairTxDelay, pairBw);
      hide Layered, HopsMatch, Recorded, Reachable;
      LayeredIsHopDistance(g, sw, host, dis, p[0]);
      d := dis[p[0]];
      forall k | 1 <= k < |p| ensures p[k] in Hops(nextHop, p[k - 1], host) && Up(g, p[k - 1], p[k]) {
        assert InstalledNext(host, p[k - 1], p[k]);
        InstalledIsNextHop(host, dis, p[k - 1], p[k]);
      }
      ForwardingIsLoopFree(g, sw, host, dis, nextHop, p);
    }
  }
}
