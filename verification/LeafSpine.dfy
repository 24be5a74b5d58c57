/** The leaf-spine topology that scratch/leaf-spine-generator.cc writes, for all sizes, and its routes. */
module LeafSpine {
  import opened Common
  import opened RouteSpec
  import opened Topology

  // spine switches, leaf switches, and hosts under each leaf
  datatype Size = Size(spine: nat, leaf: nat, host: nat)

  datatype Node = Host(leaf: nat, port: nat) | Leaf(leaf: nat) | Spine(spine: nat)

  ghost predicate Is(z: Size, v: Node) {
    match v
    case Host(l, i) => l < z.leaf && i < z.host
    case Leaf(l) => l < z.leaf
    case Spine(s) => s < z.spine
  }

  function Hosts(z: Size): nat { z.host * z.leaf }

  function Nodes(z: Size): nat { Hosts(z) + z.leaf + z.spine }

  function LeafIndex(z: Size, n: nat): nat { z.host * z.leaf + n }

  function SpineIndex(z: Size, n: nat): nat { z.host * z.leaf + z.leaf + n }

  ghost function Id(z: Size, v: Node): nat {
    match v
    case Host(l, i) => l * z.host + i
    case Leaf(l) => LeafIndex(z, l)
    case Spine(s) => SpineIndex(z, s)
  }

  ghost function NodeOf(z: Size, id: nat): Node {
    if z.host > 0 && id < Hosts(z) then Host(Quot(id, z.host), Rem(id, z.host))
    else if id < Hosts(z) + z.leaf then Leaf(if id < Hosts(z) then 0 else id - Hosts(z))
    else Spine(id - Hosts(z) - z.leaf)
  }

  lemma {:induction false} IdOfNode(z: Size, v: Node)
    requires Is(z, v)
    ensures Id(z, v) < Nodes(z) && NodeOf(z, Id(z, v)) == v && (Id(z, v) < Hosts(z) <==> v.Host?)
  {
    assert z.host * z.leaf == z.leaf * z.host;
    if v.Host? {
      Pack(z.host, z.leaf, v.leaf, v.port);
    }
  }

  lemma {:induction false} NodeOfId(z: Size, id: nat)
    requires id < Nodes(z)
    ensures Is(z, NodeOf(z, id)) && Id(z, NodeOf(z, id)) == id
  {
    assert z.host * z.leaf == z.leaf * z.host;
    if id < Hosts(z) {
      Unpack(z.host, z.leaf, id);
    }
  }

  // ----- the links -----

  // x is the lower end of a link to y.
  ghost predicate Linked(x: Node, y: Node) {
    match (x, y)
    case (Host(l, _), Leaf(k)) => l == k
    case (Leaf(_), Spine(_)) => true
    case _ => false
  }

  ghost predicate Has(z: Size, ls: Links, x: Node, y: Node) {
    (Id(z, x), Id(z, y)) in ls
  }

  ghost predicate Good(z: Size, l: (nat, nat)) {
    l.0 < Nodes(z) && l.1 < Nodes(z) && Linked(NodeOf(z, l.0), NodeOf(z, l.1))
  }

  // Every link of the topology, only links of the topology, host links first.
  ghost predicate Generated(z: Size, ls: Links) {
    && (forall x, y :: Is(z, x) && Is(z, y) && Linked(x, y) ==> Has(z, ls, x, y))
    && (forall t :: 0 <= t < |ls| ==> Good(z, ls[t]))
    && (forall s, t :: 0 <= s <= t < |ls| && NodeOf(z, ls[t].0).Host? ==> NodeOf(z, ls[s].0).Host?)
  }

  method HostLinks(z: Size) returns (ls: Links)
    ensures |ls| == Hosts(z) && forall t :: 0 <= t < |ls| ==> Good(z, ls[t]) && NodeOf(z, ls[t].0).Host?
    ensures forall x, y :: Is(z, x) && Is(z, y) && Linked(x, y) && x.Host? ==> Has(z, ls, x, y)
  {
    ls := [];
    for i := 0 to Hosts(z)
      invariant |ls| == i && forall t :: 0 <= t < |ls| ==> Good(z, ls[t]) && NodeOf(z, ls[t].0).Host?
      invariant forall t :: 0 <= t < |ls| ==> ls[t] == (t, LeafIndex(z, NodeOf(z, t).leaf))
    {
      assert z.host > 0;
      NodeOfId(z, i);
      IdOfNode(z, Leaf(Quot(i, z.host)));
      ls := ls + [(i, LeafIndex(z, Quot(i, z.host)))];
    }
    forall x, y | Is(z, x) && Is(z, y) && Linked(x, y) && x.Host? ensures Has(z, ls, x, y) {
      IdOfNode(z, x);
      assert ls[Id(z, x)] == (Id(z, x), Id(z, y));
    }
  }

  // The links from one leaf up.
  method LeafUp(z: Size, i: nat, ls: Links) returns (ls': Links)
    requires i < z.leaf && forall t :: 0 <= t < |ls| ==> Good(z, ls[t]) && NodeOf(z, ls[t].0).Leaf?
    ensures ls <= ls' && |ls'| == |ls| + z.spine
    ensures forall t :: 0 <= t < |ls'| ==> Good(z, ls'[t]) && NodeOf(z, ls'[t].0).Leaf?
    ensures forall s: nat :: s < z.spine ==> Has(z, ls', Leaf(i), Spine(s))
  {
    ls' := ls;
    for j := 0 to z.spine
      invariant ls <= ls' && |ls'| == |ls| + j
      invariant forall t :: 0 <= t < |ls'| ==> Good(z, ls'[t]) && NodeOf(z, ls'[t].0).Leaf?
      invariant forall s: nat :: s < j ==> Has(z, ls', Leaf(i), Spine(s))
    {
      IdOfNode(z, Leaf(i));
      IdOfNode(z, Spine(j));
      ghost var before := ls';
      ls' := ls' + [(LeafIndex(z, i), SpineIndex(z, j))];
      assert ls'[|before|] == (Id(z, Leaf(i)), Id(z, Spine(j)));
      HasGrows(z, before, ls');
    }
  }

  lemma {:induction false} HasGrows(z: Size, ls: Links, ls': Links)
    requires ls <= ls'
    ensures forall x, y :: Has(z, ls, x, y) ==> Has(z, ls', x, y)
  {
  }

  method SpineLinks(z: Size) returns (ls: Links)
    ensures |ls| == z.leaf * z.spine && forall t :: 0 <= t < |ls| ==> Good(z, ls[t]) && NodeOf(z, ls[t].0).Leaf?
    ensures forall l: nat, s: nat :: l < z.leaf && s < z.spine ==> Has(z, ls, Leaf(l), Spine(s))
  {
    ls := [];
    for i := 0 to z.leaf
      invariant |ls| == i * z.spine && forall t :: 0 <= t < |ls| ==> Good(z, ls[t]) && NodeOf(z, ls[t].0).Leaf?
      invariant forall l: nat, s: nat :: l < i && s < z.spine ==> Has(z, ls, Leaf(l), Spine(s))
    {
      ghost var before := ls;
      ls := LeafUp(z, i, ls);
      HasGrows(z, before, ls);
      assert (i + 1) * z.spine == i * z.spine + z.spine;
    }
  }

  // What the generator writes: the header numbers, the switch ids and the links.
  datatype Topo = Topo(nodes: nat, switches: nat, hostPerRack: nat, tors: nat, cores: nat, linkNum: nat,
                       switchIds: seq<nat>, links: Links)

  /** The whole topology is written, host links first, and the header counts its links. */
  method Generate(z: Size) returns (topo: Topo)
    ensures Generated(z, topo.links) && |topo.links| == topo.linkNum
    ensures topo.nodes == Nodes(z) && topo.switches == Nodes(z) - Hosts(z)
    ensures topo.hostPerRack == z.host && topo.tors == z.leaf && topo.cores == z.spine
    ensures topo.switchIds == seq(topo.switches, i requires i >= 0 => Hosts(z) + i)
  {
    var hosts := z.host * z.leaf;
    var nodes := hosts + z.leaf + z.spine;
    var ids: seq<nat> := [];
    for i := hosts to nodes
      invariant ids == seq(i - hosts, j requires j >= 0 => hosts + j)
    {
      ids := ids + [i];
    }
    var a := HostLinks(z);
    var b := SpineLinks(z);
    LinksTogether(z, a, b);
    topo := Topo(nodes, z.leaf + z.spine, z.host, z.leaf, z.spine, hosts + z.leaf * z.spine, ids, a + b);
  }

  lemma {:induction false} LinksTogether(z: Size, a: Links, b: Links)
    requires forall t :: 0 <= t < |a| ==> Good(z, a[t]) && NodeOf(z, a[t].0).Host?
    requires forall t :: 0 <= t < |b| ==> Good(z, b[t]) && NodeOf(z, b[t].0).Leaf?
    requires forall x, y :: Is(z, x) && Is(z, y) && Linked(x, y) && x.Host? ==> Has(z, a, x, y)
    requires forall l: nat, s: nat :: l < z.leaf && s < z.spine ==> Has(z, b, Leaf(l), Spine(s))
    ensures Generated(z, a + b)
  {
    hide NodeOf, Id, Good;
    forall x, y | Is(z, x) && Is(z, y) && Linked(x, y) ensures Has(z, a + b, x, y) {
      assert Has(z, a, x, y) || Has(z, b, x, y);
    }
  }

  // ----- the graph -----

  ghost function Switches(z: Size): set<nat> {
    Below(Nodes(z)) - Below(Hosts(z))
  }

  ghost predicate Adjacent(x: Node, y: Node) {
    Linked(x, y) || Linked(y, x)
  }

  lemma {:induction false} UpIsAdjacent(z: Size, ls: Links, g: Graph, u: nat, v: nat)
    requires Generated(z, ls) && GraphOf(g, ls)
    ensures Up(g, u, v) <==> u < Nodes(z) && v < Nodes(z) && Adjacent(NodeOf(z, u), NodeOf(z, v))
  {
    if u < Nodes(z) && v < Nodes(z) && Adjacent(NodeOf(z, u), NodeOf(z, v)) {
      NodeOfId(z, u);
      NodeOfId(z, v);
      assert Has(z, ls, NodeOf(z, u), NodeOf(z, v)) || Has(z, ls, NodeOf(z, v), NodeOf(z, u));
    }
  }

  // Without spines a host only reaches its own leaf.
  ghost predicate Connected(z: Size, h: Node, v: Node)
    requires h.Host?
  {
    z.spine > 0 || (v.Host? && v.leaf == h.leaf) || v == Leaf(h.leaf)
  }

  // Hops from the host h to v: hosts are 2 or 4 hops apart.
  ghost function Far(h: Node, v: Node): nat
    requires h.Host?
  {
    match v
    case Host(l, _) => if v == h then 0 else if l == h.leaf then 2 else 4
    case Leaf(l) => if l == h.leaf then 1 else 3
    case Spine(_) => 2
  }

  ghost function Distances(z: Size, h: Node): map<nat, nat>
    requires h.Host?
  {
    map id | id in Below(Nodes(z)) && Connected(z, h, NodeOf(z, id)) :: Far(h, NodeOf(z, id))
  }

  ghost function CloserNode(h: Node, v: Node): Node
    requires h.Host?
  {
    match v
    case Host(l, _) => Leaf(l)
    case Leaf(l) => if l == h.leaf then h else Spine(0)
    case Spine(_) => Leaf(h.leaf)
  }

  lemma {:induction false} StepFar(z: Size, ls: Links, g: Graph, h: Node, u: nat, v: nat)
    requires Generated(z, ls) && GraphOf(g, ls) && h.Host? && Is(z, h)
    requires Step(g, Switches(z), Id(z, h), u, v) && Connected(z, h, NodeOf(z, u))
    ensures u < Nodes(z) && v < Nodes(z) && Connected(z, h, NodeOf(z, v))
    ensures Far(h, NodeOf(z, v)) <= Far(h, NodeOf(z, u)) + 1
  {
    hide Generated, GraphOf;
    IdOfNode(z, h);
    UpIsAdjacent(z, ls, g, u, v);
    NodeOfId(z, u);
    NodeOfId(z, v);
    IdOfNode(z, NodeOf(z, u));
  }

  lemma {:induction false} CloserExists(z: Size, ls: Links, g: Graph, h: Node, v: nat)
    requires Generated(z, ls) && GraphOf(g, ls) && h.Host? && Is(z, h)
    requires v in Distances(z, h) && v != Id(z, h)
    ensures HasParent(g, Switches(z), Id(z, h), Distances(z, h), v)
  {
    hide Generated, GraphOf;
    NodeOfId(z, v);
    var x := CloserNode(h, NodeOf(z, v));
    var u := Id(z, x);
    IdOfNode(z, x);
    UpIsAdjacent(z, ls, g, u, v);
    assert u in Distances(z, h) && Step(g, Switches(z), Id(z, h), u, v);
  }

  /** On the generated graph the hop distance is the closed form. */
  lemma {:induction false} LeafSpineDistances(z: Size, ls: Links, g: Graph, h: Node)
    requires Generated(z, ls) && GraphOf(g, ls) && h.Host? && Is(z, h)
    ensures Layered(g, Switches(z), Id(z, h), Distances(z, h))
  {
    assert Far(h, h) == 0 && Connected(z, h, h);
    hide Generated, GraphOf, Far, NodeOf, Step, Connected, HasParent, Id, Hosts, Nodes, Switches;
    var dis, host := Distances(z, h), Id(z, h);
    IdOfNode(z, h);
    forall u, v | u in dis && Step(g, Switches(z), host, u, v) ensures v in dis && dis[v] <= dis[u] + 1 {
      StepFar(z, ls, g, h, u, v);
    }
    forall v | v in dis && v != host ensures HasParent(g, Switches(z), host, dis, v) {
      CloserExists(z, ls, g, h, v);
    }
  }

  ghost function SpineIds(z: Size): (r: seq<nat>)
    ensures |r| == z.spine && forall k :: 0 <= k < z.spine ==> r[k] == SpineIndex(z, k)
  {
    seq(z.spine, k requires k >= 0 => SpineIndex(z, k))
  }

  /** A leaf's next hops to a host under another leaf are exactly all spines. */
  lemma {:induction false} RemoteNextHops(z: Size, ls: Links, g: Graph, h: Node, t: Table, l: nat)
    requires Generated(z, ls) && GraphOf(g, ls) && h.Host? && Is(z, h) && l < z.leaf && l != h.leaf
    requires Routed(g, Switches(z), Id(z, h), t)
    ensures multiset(Hops(t, LeafIndex(z, l), Id(z, h))) == multiset(SpineIds(z))
    ensures |Hops(t, LeafIndex(z, l), Id(z, h))| == z.spine
  {
    hide Generated, GraphOf, Layered, Routed;
    var dis, host, v := Distances(z, h), Id(z, h), LeafIndex(z, l);
    LeafSpineDistances(z, ls, g, h);
    IdOfNode(z, h);
    IdOfNode(z, Leaf(l));
    forall u: nat ensures u in SpineIds(z) <==> IsNextHop(g, Switches(z), host, dis, v, u) {
      UpIsAdjacent(z, ls, g, u, v);
      if u < Nodes(z) {
        NodeOfId(z, u);
        var x := NodeOf(z, u);
        if x.Spine? {
          assert SpineIds(z)[x.spine] == u;
        }
      }
    }
    HopList(g, Switches(z), host, dis, t, v, SpineIds(z));
  }

  lemma {:induction false} TopologyIsBottomUp(z: Size, ls: Links)
    requires Generated(z, ls)
    ensures BottomUp(ls)
  {
    hide Quot, Rem;
    forall s, t | 0 <= s <= t < |ls| ensures ls[t].1 != ls[s].0 {
      assert Good(z, ls[t]) && Good(z, ls[s]);
    }
  }

  lemma {:induction false} IntoLeaf(z: Size, ls: Links, l: nat, t: nat)
    requires Generated(z, ls) && l < z.leaf && t < |ls| && ls[t].1 == LeafIndex(z, l)
    ensures ls[t].0 < Hosts(z) && Under(z, Leaf(l), ls[t].0)
  {
    hide Quot, Rem;
    assert Good(z, ls[t]);
    IdOfNode(z, Leaf(l));
  }

  lemma {:induction false} IntoSpine(z: Size, ls: Links, s: nat, t: nat) returns (l: nat)
    requires Generated(z, ls) && s < z.spine && t < |ls| && ls[t].1 == SpineIndex(z, s)
    ensures l < z.leaf && ls[t].0 == LeafIndex(z, l)
  {
    hide Quot, Rem;
    assert Good(z, ls[t]);
    IdOfNode(z, Spine(s));
    NodeOfId(z, ls[t].0);
    l := NodeOf(z, ls[t].0).leaf;
  }

  // The link from a node up to the next level.
  lemma {:induction false} LinkUp(z: Size, ls: Links, x: Node, y: Node) returns (t: nat)
    requires Generated(z, ls) && Is(z, x) && Is(z, y) && Linked(x, y)
    ensures t < |ls| && ls[t] == (Id(z, x), Id(z, y))
  {
    hide Id;
    assert Has(z, ls, x, y);
    t :| t < |ls| && ls[t] == (Id(z, x), Id(z, y));
  }

  lemma {:induction false} HostsBelowLeaf(z: Size, ls: Links, l: nat, h: nat)
    requires Generated(z, ls) && l < z.leaf
    ensures h in DownOf(ls, Switches(z), LeafIndex(z, l)) <==> Under(z, Leaf(l), h)
  {
    var sw, x := Switches(z), LeafIndex(z, l);
    TopologyIsBottomUp(z, ls);
    OnePassIsEnough(ls, sw, x, h);
    forall t | 0 <= t < |ls| && ls[t].1 == x ensures Contributes(ls, sw, ls[t], h) ==> Under(z, Leaf(l), h) {
      IntoLeaf(z, ls, l, t);
    }
    if Under(z, Leaf(l), h) {
      NodeOfId(z, h);
      var t := LinkUp(z, ls, NodeOf(z, h), Leaf(l));
      assert Contributes(ls, sw, ls[t], h);
    }
    hide Quot, Rem, DownOf, Generated;
  }

  lemma {:induction false} HostsBelowSpine(z: Size, ls: Links, s: nat, h: nat)
    requires Generated(z, ls) && s < z.spine
    ensures h in DownOf(ls, Switches(z), SpineIndex(z, s)) <==> Under(z, Spine(s), h)
  {
    var sw, x := Switches(z), SpineIndex(z, s);
    TopologyIsBottomUp(z, ls);
    OnePassIsEnough(ls, sw, x, h);
    forall t | 0 <= t < |ls| && ls[t].1 == x ensures Contributes(ls, sw, ls[t], h) ==> Under(z, Spine(s), h) {
      var l := IntoSpine(z, ls, s, t);
      IdOfNode(z, Leaf(l));
      HostsBelowLeaf(z, ls, l, h);
    }
    if Under(z, Spine(s), h) {
      NodeOfId(z, h);
      var l := NodeOf(z, h).leaf;
      IdOfNode(z, Leaf(l));
      var t := LinkUp(z, ls, Leaf(l), Spine(s));
      HostsBelowLeaf(z, ls, l, h);
      assert Contributes(ls, sw, ls[t], h);
    }
    hide Quot, Rem, DownOf, Generated;
  }

  /** Below a leaf are its own hosts, below a spine all hosts. */
  lemma {:induction false} HostsBelow(z: Size, ls: Links, v: Node, h: nat)
    requires Generated(z, ls) && Is(z, v) && !v.Host?
    ensures h in DownOf(ls, Switches(z), Id(z, v)) <==> Under(z, v, h)
  {
    if v.Leaf? {
      HostsBelowLeaf(z, ls, v.leaf, h);
    } else {
      HostsBelowSpine(z, ls, v.spine, h);
    }
    hide DownOf, Under, Switches, Generated;
  }

  // h is a host, of the leaf v unless v is a spine.
  ghost predicate Under(z: Size, v: Node, h: nat) {
    h < Hosts(z) && NodeOf(z, h).Host? && (v.Leaf? ==> NodeOf(z, h).leaf == v.leaf)
  }

  /** Every link passes the reader's assertions: src < dst, and a host is only linked to a switch. */
  lemma {:induction false} LinksAscend(z: Size, ls: Links, t: nat)
    requires Generated(z, ls) && t < |ls|
    ensures ls[t].0 < ls[t].1 < Nodes(z) && ls[t].1 >= Hosts(z)
  {
  }

  /** The ids tagged as core are the spines and those tagged as ToR the leaves; a rack is a leaf's hosts. */
  lemma {:induction false} TagsMatch(z: Size, id: nat)
    requires id < Nodes(z)
    ensures var hostNum, switchNum, torNum, coreNum := Hosts(z), Nodes(z) - Hosts(z), z.leaf, z.spine;
            && (id >= hostNum + switchNum - coreNum <==> NodeOf(z, id).Spine?)
            && (id >= hostNum && id < hostNum + torNum <==> NodeOf(z, id).Leaf?)
    ensures id < Hosts(z) ==> z.host > 0 && NodeOf(z, id).Host? && NodeOf(z, id).leaf == id / z.host
  {
  }
}
