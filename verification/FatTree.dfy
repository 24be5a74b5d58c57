/** The k-ary fat tree that scratch/fat-tree-generator.cc writes, for every even k, and its routes. */
module FatTree {
  import opened Common
  import opened RouteSpec
  import opened Topology

  // A node by its place in the tree; m is k/2, there are 2m pods.
  datatype Node =
    | Host(pod: nat, edge: nat, port: nat)
    | Edge(pod: nat, edge: nat)
    | Agg(pod: nat, agg: nat)
    | Core(agg: nat, port: nat)

  ghost predicate Is(m: nat, v: Node) {
    match v
    case Host(p, e, i) => p < 2 * m && e < m && i < m
    case Edge(p, e) => p < 2 * m && e < m
    case Agg(p, a) => p < 2 * m && a < m
    case Core(a, c) => a < m && c < m
  }

  // ----- index functions -----

  function Hosts(m: nat): nat { m * m * (2 * m) }

  function Edges(m: nat): nat { m * (2 * m) }

  function Nodes(m: nat): nat { Hosts(m) + m * m + Edges(m) + Edges(m) }

  function EdgeIndexFlat(m: nat, n: nat): nat { Hosts(m) + n }

  function EdgeIndex(m: nat, pod: nat, n: nat): nat { Hosts(m) + pod * m + n }

  function AggIndex(m: nat, pod: nat, n: nat): nat { Hosts(m) + Edges(m) + pod * m + n }

  function CoreIndex(m: nat, agg: nat, n: nat): nat { Hosts(m) + Edges(m) + Edges(m) + agg * (2 * m - m) + n }

  ghost function Id(m: nat, v: Node): nat {
    match v
    case Host(p, e, i) => (p * m + e) * m + i
    case Edge(p, e) => EdgeIndex(m, p, e)
    case Agg(p, a) => AggIndex(m, p, a)
    case Core(a, c) => CoreIndex(m, a, c)
  }

  ghost function NodeOf(m: nat, id: nat): Node
    requires m > 0
  {
    var h, e := Hosts(m), Edges(m);
    if id < h then Host(Quot(Quot(id, m), m), Rem(Quot(id, m), m), Rem(id, m))
    else if id < h + e then Edge(Quot(id - h, m), Rem(id - h, m))
    else if id < h + e + e then Agg(Quot(id - h - e, m), Rem(id - h - e, m))
    else Core(Quot(id - h - e - e, m), Rem(id - h - e - e, m))
  }

  lemma {:induction false} Sizes(m: nat)
    ensures Hosts(m) == (2 * m * m) * m && Edges(m) == (2 * m) * m && 2 * m * m == (2 * m) * m
  {
  }

  /** The sizes in terms of k: a quarter of k^3 hosts, k^2 / 2 edge and as many aggregation switches, k^2 / 4 cores. */
  lemma {:induction false} SizesInK(m: nat, k: nat)
    requires k == 2 * m
    ensures 4 * Hosts(m) == k * k * k && 2 * Edges(m) == k * k && 4 * (m * m) == k * k
    ensures 4 * Nodes(m) == k * k * k + 5 * k * k
  {
    assert k * k == 4 * (m * m) && k * k * k == 8 * (m * m * m);
    assert Hosts(m) == 2 * (m * m * m);
  }

  /** Ids and places determine each other: the four id ranges are disjoint and exhaust 0..nodes-1. */
  lemma {:induction false} IdIsBijection(m: nat, v: Node, id: nat)
    requires m > 0
    ensures Is(m, v) ==> Id(m, v) < Nodes(m) && NodeOf(m, Id(m, v)) == v
    ensures id < Nodes(m) ==> Is(m, NodeOf(m, id)) && Id(m, NodeOf(m, id)) == id
  {
    Sizes(m);
    if Is(m, v) {
      IdOfNode(m, v);
    }
    if id < Nodes(m) {
      NodeOfId(m, id);
    }
  }

  lemma {:induction false} IdOfNode(m: nat, v: Node)
    requires m > 0 && Is(m, v)
    ensures Id(m, v) < Nodes(m) && NodeOf(m, Id(m, v)) == v
  {
    match v {
      case Host(_, _, _) => IdOfHost(m, v);
      case Edge(p, e) => IdOfEdge(m, p, e);
      case Agg(p, a) => IdOfAgg(m, p, a);
      case Core(a, c) => IdOfCore(m, a, c);
    }
    hide Id, NodeOf, Nodes, Is;
  }

  // The node at offset x of an id range.
  lemma {:induction false} RangeNode(m: nat, level: nat, x: nat)
    requires m > 0 && level < 4 && x < (if level == 0 then Hosts(m) else if level == 3 then m * m else Edges(m))
    ensures var id := Start(m, level) + x;
            && id < Start(m, level + 1) && id < Nodes(m)
            && NodeOf(m, id) == if level == 0 then Host(Quot(Quot(x, m), m), Rem(Quot(x, m), m), Rem(x, m))
                                else if level == 1 then Edge(Quot(x, m), Rem(x, m))
                                else if level == 2 then Agg(Quot(x, m), Rem(x, m))
                                else Core(Quot(x, m), Rem(x, m))
  {
    hide Hosts, Edges, Quot, Rem;
  }

  lemma {:induction false} IdOfHost(m: nat, v: Node)
    requires m > 0 && Is(m, v) && v.Host?
    ensures Id(m, v) < Nodes(m) && NodeOf(m, Id(m, v)) == v
    ensures Id(m, v) < Start(m, 1)
  {
    hide NodeOf, Nodes, Hosts, Edges, Quot, Rem;
    Pack(m, 2 * m, v.pod, v.edge);
    HostOffset(m, v.pod * m + v.edge, v.port);
    RangeNode(m, 0, (v.pod * m + v.edge) * m + v.port);
  }

  lemma {:induction false} HostOffset(m: nat, edge: nat, port: nat)
    requires m > 0 && edge < 2 * m * m && port < m
    ensures edge * m + port < Hosts(m)
    ensures Quot(edge * m + port, m) == edge && Rem(edge * m + port, m) == port
  {
    Sizes(m);
    Pack(m, 2 * m * m, edge, port);
    hide Quot, Rem;
  }

  lemma {:induction false} IdOfEdge(m: nat, p: nat, e: nat)
    requires m > 0 && p < 2 * m && e < m
    ensures Id(m, Edge(p, e)) < Nodes(m) && NodeOf(m, Id(m, Edge(p, e))) == Edge(p, e)
    ensures Start(m, 1) <= Id(m, Edge(p, e)) < Start(m, 2)
  {
    hide NodeOf, Nodes, Hosts, Edges, Quot, Rem;
    Sizes(m);
    Pack(m, 2 * m, p, e);
    RangeNode(m, 1, p * m + e);
  }

  lemma {:induction false} IdOfAgg(m: nat, p: nat, a: nat)
    requires m > 0 && p < 2 * m && a < m
    ensures Id(m, Agg(p, a)) < Nodes(m) && NodeOf(m, Id(m, Agg(p, a))) == Agg(p, a)
    ensures Start(m, 2) <= Id(m, Agg(p, a)) < Start(m, 3)
  {
    hide NodeOf, Nodes, Hosts, Edges, Quot, Rem;
    Sizes(m);
    Pack(m, 2 * m, p, a);
    RangeNode(m, 2, p * m + a);
  }

  lemma {:induction false} IdOfCore(m: nat, a: nat, c: nat)
    requires m > 0 && a < m && c < m
    ensures Id(m, Core(a, c)) < Nodes(m) && NodeOf(m, Id(m, Core(a, c))) == Core(a, c)
    ensures Start(m, 3) <= Id(m, Core(a, c)) < Start(m, 4)
  {
    hide NodeOf, Nodes, Hosts, Edges, CoreIndex, Quot, Rem;
    Pack(m, m, a, c);
    CoreIndexIs(m, a, c);
    RangeNode(m, 3, a * m + c);
  }

  lemma {:induction false} CoreIndexIs(m: nat, a: nat, c: nat)
    ensures CoreIndex(m, a, c) == Hosts(m) + Edges(m) + Edges(m) + a * m + c
  {
    assert 2 * m - m == m;
    hide Hosts, Edges;
  }

  lemma {:induction false} NodeOfId(m: nat, id: nat)
    requires m > 0 && id < Nodes(m)
    ensures Is(m, NodeOf(m, id)) && Id(m, NodeOf(m, id)) == id
  {
    Sizes(m);
    var h, e := Hosts(m), Edges(m);
    if id < h {
      Unpack(m, 2 * m * m, id);
      Unpack(m, 2 * m, Quot(id, m));
    } else if id < h + e {
      Unpack(m, 2 * m, id - h);
    } else if id < h + e + e {
      Unpack(m, 2 * m, id - h - e);
    } else {
      Unpack(m, m, id - h - e - e);
    }
  }

  // ----- the links -----

  // x is the lower end of a link to y.
  ghost predicate Linked(x: Node, y: Node) {
    match (x, y)
    case (Host(p, e, _), Edge(q, f)) => p == q && e == f
    case (Edge(p, _), Agg(q, _)) => p == q
    case (Agg(_, a), Core(b, _)) => a == b
    case _ => false
  }

  ghost function Level(v: Node): nat {
    match v
    case Host(_, _, _) => 0
    case Edge(_, _) => 1
    case Agg(_, _) => 2
    case Core(_, _) => 3
  }

  ghost predicate Has(m: nat, ls: Links, x: Node, y: Node) {
    (Id(m, x), Id(m, y)) in ls
  }

  // The line l joins two linked nodes of the tree, the lower one at the given level.
  ghost predicate Good(m: nat, l: (nat, nat), level: nat)
    requires m > 0
  {
    && l.0 < Nodes(m) && l.1 < Nodes(m)
    && Linked(NodeOf(m, l.0), NodeOf(m, l.1)) && Level(NodeOf(m, l.0)) == level
  }

  lemma {:induction false} GoodLink(m: nat, x: Node, y: Node)
    requires m > 0 && Is(m, x) && Is(m, y) && Linked(x, y)
    ensures Good(m, (Id(m, x), Id(m, y)), Level(x)) && Id(m, x) < Id(m, y)
  {
    IdOfNode(m, x);
    IdOfNode(m, y);
    IdRange(m, x);
    IdRange(m, y);
  }

  // The first id of each level.
  function Start(m: nat, level: nat): nat {
    if level == 0 then 0
    else if level == 1 then Hosts(m)
    else if level == 2 then Hosts(m) + Edges(m)
    else if level == 3 then Hosts(m) + Edges(m) + Edges(m)
    else Nodes(m)
  }

  lemma {:induction false} IdRange(m: nat, x: Node)
    requires m > 0 && Is(m, x)
    ensures Start(m, Level(x)) <= Id(m, x) < Start(m, Level(x) + 1)
  {
    match x {
      case Host(_, _, _) => IdOfHost(m, x);
      case Edge(p, e) => IdOfEdge(m, p, e);
      case Agg(p, a) => IdOfAgg(m, p, a);
      case Core(a, c) => IdOfCore(m, a, c);
    }
    hide Id, Nodes;
  }

  // All links of one level, and nothing else.
  ghost predicate LevelLinks(m: nat, ls: Links, level: nat)
    requires m > 0
  {
    && (forall x, y :: Is(m, x) && Is(m, y) && Linked(x, y) && Level(x) == level ==> Has(m, ls, x, y))
    && (forall t :: 0 <= t < |ls| ==> Good(m, ls[t], level))
  }

  method HostEdgeLinks(m: nat) returns (ls: Links)
    requires m > 0
    ensures LevelLinks(m, ls, 0) && |ls| == Hosts(m)
  {
    ls := [];
    var host, edge := Hosts(m), Edges(m);
    HostPerEdge(m);
    var hostPerEdge := Quot(host, edge);
    for i := 0 to host
      invariant |ls| == i && forall t :: 0 <= t < |ls| ==> Good(m, ls[t], 0)
      invariant forall x, y :: Is(m, x) && Is(m, y) && Linked(x, y) && x.Host? && Id(m, x) < i ==> Has(m, ls, x, y)
    {
      var h := i;
      var e := EdgeIndexFlat(m, Quot(i, hostPerEdge));
      ghost var x := NodeOf(m, i);
      NodeOfId(m, i);
      ghost var y := Edge(x.pod, x.edge);
      assert Id(m, y) == e;
      GoodLink(m, x, y);
      ghost var before := ls;
      ls := ls + [(h, e)];
      forall a, b | Is(m, a) && Is(m, b) && Linked(a, b) && a.Host? && Id(m, a) < i + 1 ensures Has(m, ls, a, b) {
        IdOfNode(m, a);
        if Id(m, a) == i {
          assert ls[i] == (Id(m, a), Id(m, b));
        } else {
          assert Has(m, before, a, b);
        }
      }
    }
    forall x, y | Is(m, x) && Is(m, y) && Linked(x, y) && Level(x) == 0 ensures Has(m, ls, x, y) {
      IdRange(m, x);
    }
  }

  lemma {:induction false} HostPerEdge(m: nat)
    requires m > 0
    ensures Edges(m) > 0 && Quot(Hosts(m), Edges(m)) == m
  {
    var e := Edges(m);
    assert e > 0 by {
      MulMonotone(1, m, 2 * m);
    }
    assert Hosts(m) == m * e;
    Pack(e, m + 1, m, 0);
  }

  lemma {:induction false} HasGrows(m: nat, ls: Links, ls': Links)
    requires ls <= ls'
    ensures forall x, y :: Has(m, ls, x, y) ==> Has(m, ls', x, y)
  {
  }

  // The links from the switch j of pod i up.
  method EdgeAggUp(m: nat, i: nat, j: nat, ls: Links) returns (ls': Links)
    requires i < 2 * m && j < m && forall t :: 0 <= t < |ls| ==> Good(m, ls[t], 1)
    ensures ls <= ls' && |ls'| == |ls| + m && forall t :: 0 <= t < |ls'| ==> Good(m, ls'[t], 1)
    ensures forall c: nat :: c < m ==> Has(m, ls', Edge(i, j), Agg(i, c))
  {
    ls' := ls;
    for k := 0 to m
      invariant ls <= ls' && |ls'| == |ls| + k && forall t :: 0 <= t < |ls'| ==> Good(m, ls'[t], 1)
      invariant forall c: nat :: c < k ==> Has(m, ls', Edge(i, j), Agg(i, c))
    {
      ghost var y := Agg(i, k);
      GoodLink(m, Edge(i, j), y);
      ghost var before := ls';
      ls' := ls' + [(EdgeIndex(m, i, j), AggIndex(m, i, k))];
      HasGrows(m, before, ls');
      assert ls'[|before|] == (Id(m, Edge(i, j)), Id(m, y));
    }
  }

  method EdgeAggLinks(m: nat) returns (ls: Links)
    requires m > 0
    ensures LevelLinks(m, ls, 1) && |ls| == 2 * m * (m * m)
  {
    ls := [];
    for i := 0 to 2 * m
      invariant |ls| == i * (m * m) && forall t :: 0 <= t < |ls| ==> Good(m, ls[t], 1)
      invariant forall p: nat, s: nat, c: nat :: p < i && s < m && c < m ==> Has(m, ls, Edge(p, s), Agg(p, c))
    {
      for j := 0 to m
        invariant |ls| == i * (m * m) + j * m && forall t :: 0 <= t < |ls| ==> Good(m, ls[t], 1)
        invariant forall p: nat, s: nat, c: nat :: (p < i || (p == i && s < j)) && s < m && c < m ==>
                    Has(m, ls, Edge(p, s), Agg(p, c))
      {
        ghost var before := ls;
        ls := EdgeAggUp(m, i, j, ls);
        HasGrows(m, before, ls);
        assert (j + 1) * m == j * m + m;
      }
      assert (i + 1) * (m * m) == i * (m * m) + m * m;
    }
  }

  // The links from the switch j of pod i up.
  method AggCoreUp(m: nat, i: nat, j: nat, ls: Links) returns (ls': Links)
    requires i < 2 * m && j < m && forall t :: 0 <= t < |ls| ==> Good(m, ls[t], 2)
    ensures ls <= ls' && |ls'| == |ls| + m && forall t :: 0 <= t < |ls'| ==> Good(m, ls'[t], 2)
    ensures forall c: nat :: c < m ==> Has(m, ls', Agg(i, j), Core(j, c))
  {
    ls' := ls;
    for k := 0 to 2 * m - m
      invariant ls <= ls' && |ls'| == |ls| + k && forall t :: 0 <= t < |ls'| ==> Good(m, ls'[t], 2)
      invariant forall c: nat :: c < k ==> Has(m, ls', Agg(i, j), Core(j, c))
    {
      ghost var y := Core(j, k);
      GoodLink(m, Agg(i, j), y);
      ghost var before := ls';
      ls' := ls' + [(AggIndex(m, i, j), CoreIndex(m, j, k))];
      HasGrows(m, before, ls');
      assert ls'[|before|] == (Id(m, Agg(i, j)), Id(m, y));
    }
  }

  method AggCoreLinks(m: nat) returns (ls: Links)
    requires m > 0
    ensures LevelLinks(m, ls, 2) && |ls| == 2 * m * (m * m)
  {
    ls := [];
    for i := 0 to 2 * m
      invariant |ls| == i * (m * m) && forall t :: 0 <= t < |ls| ==> Good(m, ls[t], 2)
      invariant forall p: nat, s: nat, c: nat :: p < i && s < m && c < m ==> Has(m, ls, Agg(p, s), Core(s, c))
    {
      for j := 0 to m
        invariant |ls| == i * (m * m) + j * m && forall t :: 0 <= t < |ls| ==> Good(m, ls[t], 2)
        invariant forall p: nat, s: nat, c: nat :: (p < i || (p == i && s < j)) && s < m && c < m ==>
                    Has(m, ls, Agg(p, s), Core(s, c))
      {
        ghost var before := ls;
        ls := AggCoreUp(m, i, j, ls);
        HasGrows(m, before, ls);
        assert (j + 1) * m == j * m + m;
      }
      assert (i + 1) * (m * m) == i * (m * m) + m * m;
    }
  }

  // What the generator writes: the header numbers, the switch ids and the links.
  datatype Topo = Topo(nodes: nat, switches: nat, hostPerRack: nat, tors: nat, cores: nat, linkNum: nat,
                       switchIds: seq<nat>, links: Links)

  // Every link of the tree, only links of the tree, level by level.
  ghost predicate Generated(m: nat, ls: Links)
    requires m > 0
  {
    && (forall x, y :: Is(m, x) && Is(m, y) && Linked(x, y) ==> Has(m, ls, x, y))
    && (forall t :: 0 <= t < |ls| ==> Good(m, ls[t], Level(NodeOf(m, ls[t].0))))
    && (forall s, t :: 0 <= s <= t < |ls| ==> Level(NodeOf(m, ls[s].0)) <= Level(NodeOf(m, ls[t].0)))
  }

  lemma {:induction false} LevelsTogether(m: nat, a: Links, b: Links, c: Links)
    requires m > 0 && LevelLinks(m, a, 0) && LevelLinks(m, b, 1) && LevelLinks(m, c, 2)
    ensures Generated(m, a + b + c)
  {
    var ls := a + b + c;
    forall x, y | Is(m, x) && Is(m, y) && Linked(x, y) ensures Has(m, ls, x, y) {
      assert Has(m, a, x, y) || Has(m, b, x, y) || Has(m, c, x, y);
    }
    forall t | 0 <= t < |ls| ensures Good(m, ls[t], if t < |a| then 0 else if t < |a| + |b| then 1 else 2) {
    }
  }

  /** For even k the whole tree is written; for odd k nothing is. */
  method Generate(k: nat) returns (r: Option<Topo>)
    requires k > 0
    ensures r.None? <==> k % 2 != 0
    ensures r.Some? ==>
              var m, topo := k / 2, r.value;
              && m > 0 && Generated(m, topo.links) && |topo.links| == topo.linkNum
              && topo.nodes == Nodes(m) && topo.switches == Nodes(m) - Hosts(m)
              && topo.hostPerRack == m * m && topo.tors == Edges(m) && topo.cores == m * m
              && topo.switchIds == seq(topo.switches, i requires i >= 0 => Hosts(m) + i)
  {
    if k % 2 != 0 {
      return None;
    }
    var m := k / 2;
    var host, edge, agg, core := Hosts(m), Edges(m), Edges(m), m * m;
    var nodes := host + core + agg + edge;
    var ids: seq<nat> := [];
    for i := host to nodes
      invariant ids == seq(i - host, j requires j >= 0 => host + j)
    {
      ids := ids + [i];
    }
    var a := HostEdgeLinks(m);
    var b := EdgeAggLinks(m);
    var c := AggCoreLinks(m);
    LevelsTogether(m, a, b, c);
    assert agg * (k - m) == 2 * m * (m * m) && k * m * m == 2 * m * (m * m);
    r := Some(Topo(nodes, core + agg + edge, m * m, edge, core, host + k * m * m + agg * (k - m), ids, a + b + c));
  }

  // ----- the graph of the tree -----

  ghost function Switches(m: nat): set<nat> {
    Below(Nodes(m)) - Below(Hosts(m))
  }

  ghost predicate Adjacent(x: Node, y: Node) {
    Linked(x, y) || Linked(y, x)
  }

  lemma {:induction false} UpIsAdjacent(m: nat, ls: Links, g: Graph, u: nat, v: nat)
    requires m > 0 && Generated(m, ls) && GraphOf(g, ls)
    ensures Up(g, u, v) <==> u < Nodes(m) && v < Nodes(m) && Adjacent(NodeOf(m, u), NodeOf(m, v))
  {
    if u < Nodes(m) && v < Nodes(m) && Adjacent(NodeOf(m, u), NodeOf(m, v)) {
      NodeOfId(m, u);
      NodeOfId(m, v);
      assert Has(m, ls, NodeOf(m, u), NodeOf(m, v)) || Has(m, ls, NodeOf(m, v), NodeOf(m, u));
    }
  }

  lemma {:induction false} SwitchIsNoHost(m: nat, u: nat)
    requires m > 0 && u < Nodes(m)
    ensures u in Switches(m) <==> !NodeOf(m, u).Host?
  {
  }

  // ----- distances from a host h -----

  // Hops from h to v when they are connected: by same edge switch, same pod, or different pod.
  ghost function Far(h: Node, v: Node): nat
    requires h.Host?
  {
    match v
    case Host(p, e, _) => if v == h then 0 else if p == h.pod && e == h.edge then 2 else if p == h.pod then 4 else 6
    case Edge(p, e) => if p == h.pod && e == h.edge then 1 else if p == h.pod then 3 else 5
    case Agg(p, _) => if p == h.pod then 2 else 4
    case Core(_, _) => 3
  }

  // x is one hop closer to h than v, and may forward.
  ghost predicate Closer(h: Node, x: Node, v: Node)
    requires h.Host?
  {
    Adjacent(x, v) && (x == h || !x.Host?) && Far(h, x) + 1 == Far(h, v)
  }

  ghost function CloserNode(h: Node, v: Node): Node
    requires h.Host?
  {
    match v
    case Host(p, e, _) => Edge(p, e)
    case Edge(p, e) => if p == h.pod && e == h.edge then h else Agg(p, 0)
    case Agg(p, a) => if p == h.pod then Edge(p, h.edge) else Core(a, 0)
    case Core(a, _) => Agg(h.pod, a)
  }

  ghost function Distances(m: nat, h: Node): map<nat, nat>
    requires m > 0 && h.Host?
  {
    map id | id in Below(Nodes(m)) :: Far(h, NodeOf(m, id))
  }

  /** On the graph of the tree the hop distance is the closed form: 2, 4 or 6 between distinct hosts. */
  lemma {:induction false} TreeDistances(m: nat, ls: Links, g: Graph, h: Node)
    requires m > 0 && Generated(m, ls) && GraphOf(g, ls) && h.Host? && Is(m, h)
    ensures Layered(g, Switches(m), Id(m, h), Distances(m, h))
  {
    hide Generated, GraphOf, Distances, HasParent, Step, Switches, Id;
    var dis, host := Distances(m, h), Id(m, h);
    DistanceAt(m, h, host);
    IdOfNode(m, h);
    forall u, v | u in dis && Step(g, Switches(m), host, u, v) ensures v in dis && dis[v] <= dis[u] + 1 {
      StepFar(m, ls, g, h, u, v);
      DistanceAt(m, h, u);
      DistanceAt(m, h, v);
    }
    forall v | v in dis && v != host ensures HasParent(g, Switches(m), host, dis, v) {
      DistanceAt(m, h, v);
      CloserExists(m, ls, g, h, v);
    }
  }

  lemma {:induction false} DistanceAt(m: nat, h: Node, id: nat)
    requires m > 0 && h.Host?
    ensures id in Distances(m, h) <==> id < Nodes(m)
    ensures id < Nodes(m) ==> Distances(m, h)[id] == Far(h, NodeOf(m, id))
  {
    hide Far, NodeOf;
  }

  lemma {:induction false} StepFar(m: nat, ls: Links, g: Graph, h: Node, u: nat, v: nat)
    requires m > 0 && Generated(m, ls) && GraphOf(g, ls) && h.Host? && Is(m, h)
    requires Step(g, Switches(m), Id(m, h), u, v)
    ensures u < Nodes(m) && v < Nodes(m) && Far(h, NodeOf(m, v)) <= Far(h, NodeOf(m, u)) + 1
  {
    hide Generated, GraphOf;
    IdOfNode(m, h);
    UpIsAdjacent(m, ls, g, u, v);
    SwitchIsNoHost(m, u);
  }

  lemma {:induction false} CloserExists(m: nat, ls: Links, g: Graph, h: Node, v: nat)
    requires m > 0 && Generated(m, ls) && GraphOf(g, ls) && h.Host? && Is(m, h) && v < Nodes(m) && v != Id(m, h)
    ensures HasParent(g, Switches(m), Id(m, h), Distances(m, h), v)
  {
    hide Generated, GraphOf;
    NodeOfId(m, v);
    var x := CloserNode(h, NodeOf(m, v));
    var u := Id(m, x);
    assert Is(m, x) && Closer(h, x, NodeOf(m, v));
    IdOfNode(m, x);
    UpIsAdjacent(m, ls, g, u, v);
    SwitchIsNoHost(m, u);
    assert u in Distances(m, h) && Step(g, Switches(m), Id(m, h), u, v);
  }

  // ----- next hops towards h -----

  // The closer neighbours of v: all m upper switches on the way up, one node on the way down.
  ghost function Nexts(m: nat, h: Node, v: Node): seq<Node>
    requires h.Host?
  {
    if v == h then []
    else if v.Edge? && !(v.pod == h.pod && v.edge == h.edge) then seq(m, a requires a >= 0 => Agg(v.pod, a))
    else if v.Agg? && v.pod != h.pod then seq(m, c requires c >= 0 => Core(v.agg, c))
    else [CloserNode(h, v)]
  }

  ghost function Ids(m: nat, vs: seq<Node>): (r: seq<nat>)
    ensures |r| == |vs| && forall k :: 0 <= k < |vs| ==> r[k] == Id(m, vs[k])
  {
    seq(|vs|, k requires 0 <= k < |vs| => Id(m, vs[k]))
  }

  lemma {:induction false} IdsAre(m: nat, vs: seq<Node>, u: nat)
    requires m > 0 && Distinct(vs) && forall k :: 0 <= k < |vs| ==> Is(m, vs[k])
    ensures Distinct(Ids(m, vs)) && (u in Ids(m, vs) <==> u < Nodes(m) && NodeOf(m, u) in vs)
  {
    forall k | 0 <= k < |vs| ensures Id(m, vs[k]) < Nodes(m) && NodeOf(m, Id(m, vs[k])) == vs[k] {
      IdOfNode(m, vs[k]);
    }
    if u < Nodes(m) && NodeOf(m, u) in vs {
      NodeOfId(m, u);
      var k :| 0 <= k < |vs| && vs[k] == NodeOf(m, u);
      assert Ids(m, vs)[k] == u;
    }
  }

  lemma {:induction false} NextsAreCloser(m: nat, h: Node, v: Node, x: Node)
    requires h.Host? && Is(m, h) && Is(m, v) && Is(m, x)
    ensures Distinct(Nexts(m, h, v)) && forall k :: 0 <= k < |Nexts(m, h, v)| ==> Is(m, Nexts(m, h, v)[k])
    ensures x in Nexts(m, h, v) <==> Closer(h, x, v)
  {
    var ns := Nexts(m, h, v);
    if Closer(h, x, v) {
      match x
      case Agg(_, a) => assert if v.Edge? then ns[a] == x else ns[0] == x;
      case Core(_, c) => assert ns[c] == x;
      case _ => assert ns[0] == x;
    }
  }

  lemma {:induction false} NextHopIs(m: nat, ls: Links, g: Graph, h: Node, v: Node, u: nat)
    requires m > 0 && Generated(m, ls) && GraphOf(g, ls) && h.Host? && Is(m, h) && Is(m, v)
    ensures u in Ids(m, Nexts(m, h, v)) <==> IsNextHop(g, Switches(m), Id(m, h), Distances(m, h), Id(m, v), u)
  {
    hide Generated, GraphOf, Nexts, Adjacent;
    IdOfNode(m, h);
    IdOfNode(m, v);
    NextsAreCloser(m, h, v, v);
    UpIsAdjacent(m, ls, g, u, Id(m, v));
    IdsAre(m, Nexts(m, h, v), u);
    if u < Nodes(m) {
      NodeOfId(m, u);
      NextsAreCloser(m, h, v, NodeOf(m, u));
      SwitchIsNoHost(m, u);
    }
  }

  /** Every table calculated for the tree lists exactly those: k/2 on each up-going choice, one on the way down. */
  lemma {:induction false} TreeNextHops(m: nat, ls: Links, g: Graph, h: Node, t: Table, v: Node)
    requires m > 0 && Generated(m, ls) && GraphOf(g, ls) && h.Host? && Is(m, h) && Is(m, v)
    requires Routed(g, Switches(m), Id(m, h), t)
    ensures multiset(Hops(t, Id(m, v), Id(m, h))) == multiset(Ids(m, Nexts(m, h, v)))
    ensures |Hops(t, Id(m, v), Id(m, h))| ==
              if v == h then 0
              else if (v.Edge? && !(v.pod == h.pod && v.edge == h.edge)) || (v.Agg? && v.pod != h.pod) then m
              else 1
  {
    hide Generated, GraphOf, Layered, Routed, IsNextHop, Is;
    var ns := Nexts(m, h, v);
    TreeDistances(m, ls, g, h);
    NextsAreCloser(m, h, v, v);
    IdsAre(m, ns, 0);
    forall u: nat ensures u in Ids(m, ns) <==> IsNextHop(g, Switches(m), Id(m, h), Distances(m, h), Id(m, v), u) {
      NextHopIs(m, ls, g, h, v, u);
    }
    HopList(g, Switches(m), Id(m, h), Distances(m, h), t, Id(m, v), Ids(m, ns));
  }

  // ----- degrees -----

  ghost function Neighbours(m: nat, v: Node): seq<Node> {
    match v
    case Host(p, e, _) => [Edge(p, e)]
    case Edge(p, e) => seq(m, i requires i >= 0 => Host(p, e, i)) + seq(m, a requires a >= 0 => Agg(p, a))
    case Agg(p, a) => seq(m, e requires e >= 0 => Edge(p, e)) + seq(m, c requires c >= 0 => Core(a, c))
    case Core(a, _) => seq(2 * m, p requires p >= 0 => Agg(p, a))
  }

  lemma {:induction false} NeighboursAreAdjacent(m: nat, v: Node, x: Node)
    requires Is(m, v) && Is(m, x)
    ensures Distinct(Neighbours(m, v)) && forall k :: 0 <= k < |Neighbours(m, v)| ==> Is(m, Neighbours(m, v)[k])
    ensures x in Neighbours(m, v) <==> Adjacent(v, x)
  {
    var ns := Neighbours(m, v);
    if Adjacent(v, x) {
      match x
      case Host(_, _, i) => assert ns[i] == x;
      case Edge(_, e) => assert if v.Host? then ns[0] == x else ns[e] == x;
      case Agg(p, a) => assert if v.Edge? then ns[m + a] == x else ns[p] == x;
      case Core(_, c) => assert ns[m + c] == x;
    }
  }

  /** Every switch uses exactly its k ports. */
  lemma {:induction false} SwitchDegree(m: nat, ls: Links, g: Graph, v: Node)
    requires m > 0 && Generated(m, ls) && GraphOf(g, ls) && Is(m, v)
    ensures var ns := Ids(m, Neighbours(m, v));
            && |ns| == (if v.Host? then 1 else 2 * m) && Distinct(ns)
            && forall u :: u in ns <==> Up(g, Id(m, v), u)
  {
    hide Generated, GraphOf, Adjacent;
    NeighboursAreAdjacent(m, v, v);
    IdOfNode(m, v);
    forall u: nat ensures u in Ids(m, Neighbours(m, v)) <==> Up(g, Id(m, v), u) {
      UpIsAdjacent(m, ls, g, Id(m, v), u);
      IdsAre(m, Neighbours(m, v), u);
      if u < Nodes(m) {
        NodeOfId(m, u);
        NeighboursAreAdjacent(m, v, NodeOf(m, u));
      }
    }
    IdsAre(m, Neighbours(m, v), 0);
  }

  // ----- hosts below a switch, and the switch tags -----

  // The host x is below v in the tree.
  ghost predicate Under(x: Node, v: Node) {
    match v
    case Host(_, _, _) => false
    case Edge(p, e) => x.Host? && x.pod == p && x.edge == e
    case Agg(p, _) => x.Host? && x.pod == p
    case Core(_, _) => x.Host?
  }

  lemma {:induction false} TreeIsBottomUp(m: nat, ls: Links)
    requires m > 0 && Generated(m, ls)
    ensures BottomUp(ls)
  {
  }

  /** One pass in file order finds below an edge switch its own hosts, below an aggregation switch its pod's, below a
      core switch all. */
  lemma {:induction false} HostsBelow(m: nat, ls: Links, v: Node, h: nat)
    requires m > 0 && Generated(m, ls) && Is(m, v)
    ensures h in DownOf(ls, Switches(m), Id(m, v)) <==> h < Nodes(m) && Under(NodeOf(m, h), v)
    decreases Level(v)
  {
    var sw, x := Switches(m), Id(m, v);
    TreeIsBottomUp(m, ls);
    OnePassIsEnough(ls, sw, x, h);
    IdOfNode(m, v);
    // links into v come from the level below
    forall t | 0 <= t < |ls| && ls[t].1 == x
      ensures Contributes(ls, sw, ls[t], h) ==> h < Nodes(m) && Under(NodeOf(m, h), v)
    {
      assert Good(m, ls[t], Level(NodeOf(m, ls[t].0)));
      NodeOfId(m, ls[t].0);
      SwitchIsNoHost(m, ls[t].0);
      HostsBelow(m, ls, NodeOf(m, ls[t].0), h);
    }
    if h < Nodes(m) && Under(NodeOf(m, h), v) {
      NodeOfId(m, h);
      var w := NodeOf(m, h);
      var y := if v.Edge? then w else if v.Agg? then Edge(v.pod, w.edge) else Agg(w.pod, v.agg);
      assert Is(m, y) && Linked(y, v) && Has(m, ls, y, v);
      var t :| 0 <= t < |ls| && ls[t] == (Id(m, y), x);
      IdOfNode(m, y);
      SwitchIsNoHost(m, Id(m, y));
      HostsBelow(m, ls, y, h);
      assert Contributes(ls, sw, ls[t], h);
    }
  }

  /** With the header's counts, the ids tagged as core are the core switches and those tagged as ToR the edge
      switches. */
  lemma {:induction false} TagsMatch(m: nat, id: nat)
    requires m > 0 && Hosts(m) <= id < Nodes(m)
    ensures var hostNum, switchNum, torNum, coreNum := Hosts(m), Nodes(m) - Hosts(m), Edges(m), m * m;
            && (id >= hostNum + switchNum - coreNum <==> NodeOf(m, id).Core?)
            && (id < hostNum + switchNum - coreNum && id < hostNum + torNum <==> NodeOf(m, id).Edge?)
  {
  }

  /** Every link passes the reader's assertions: src < dst, and a host is only linked to a switch. */
  lemma {:induction false} LinksAscend(m: nat, ls: Links, t: nat)
    requires m > 0 && Generated(m, ls) && t < |ls|
    ensures ls[t].0 < ls[t].1 < Nodes(m) && ls[t].1 >= Hosts(m)
  {
  }
}
