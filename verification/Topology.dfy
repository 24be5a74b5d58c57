/** Graphs given by a list of links, and the hosts scratch/third.cc finds below each switch in one pass over it. */
module Topology {
  import opened Common
  import opened RouteSpec

  type Links = seq<(nat, nat)>

  // g has an up link exactly where the list has one.
  ghost predicate GraphOf(g: Graph, ls: Links) {
    forall u: nat, v: nat :: Up(g, u, v) <==> (u, v) in ls || (v, u) in ls
  }

  // ----- next-hop lists -----

  /** In any correctly calculated table, an equal-cost list is a permutation of the closer neighbours. */
  lemma {:induction false} HopList(g: Graph, sw: set<nat>, host: nat, dis: map<nat, nat>, t: Table, v: nat,
                                   nexts: seq<nat>)
    requires Layered(g, sw, host, dis) && Routed(g, sw, host, t)
    requires Distinct(nexts) && forall u :: u in nexts <==> IsNextHop(g, sw, host, dis, v, u)
    ensures multiset(Hops(t, v, host)) == multiset(nexts) && |Hops(t, v, host)| == |nexts|
  {
    var d :| Layered(g, sw, host, d) && HopsMatch(g, sw, host, d, t);
    LayeredUnique(g, sw, host, dis, d);
    SameElements(Hops(t, v, host), nexts);
    assert |multiset(Hops(t, v, host))| == |multiset(nexts)|;
  }

  // ----- switch_down_hosts -----

  // What the pass over ls has put below x, sw being the switches.
  ghost function DownOf(ls: Links, sw: set<nat>, x: nat): set<nat> {
    if |ls| == 0 then {}
    else
      var rest := ls[..|ls| - 1];
      var (src, dst) := Last(ls);
      DownOf(rest, sw, x) + if dst != x then {} else if src in sw then DownOf(rest, sw, src) else {src}
  }

  method SwitchDownHosts(ls: Links, sw: set<nat>) returns (down: map<nat, set<nat>>)
    requires forall l :: l in ls ==> l.1 in sw
    ensures down.Keys == sw && forall x :: x in sw ==> down[x] == DownOf(ls, sw, x)
  {
    down := map x | x in sw :: {};
    assert ls[..0] == [];
    for t := 0 to |ls|
      invariant down.Keys == sw && forall x :: x in sw ==> down[x] == DownOf(ls[..t], sw, x)
    {
      var (src, dst) := ls[t];
      assert ls[t] in ls && ls[..t + 1][..t] == ls[..t] && Last(ls[..t + 1]) == ls[t];
      if src !in sw {
        down := down[dst := down[dst] + {src}];
      } else {
        down := down[dst := down[dst] + down[src]];
      }
    }
    assert ls[..|ls|] == ls;
  }

  // No later link enters the lower end of an earlier one.
  ghost predicate BottomUp(ls: Links) {
    forall s, t :: 0 <= s <= t < |ls| ==> ls[t].1 != ls[s].0
  }

  lemma {:induction false} SourceFinal(ls: Links, sw: set<nat>, t: nat)
    requires BottomUp(ls) && t < |ls|
    ensures DownOf(ls[..t], sw, ls[t].0) == DownOf(ls, sw, ls[t].0)
  {
    if t < |ls| - 1 {
      var rest := ls[..|ls| - 1];
      SourceFinal(rest, sw, t);
      assert rest[..t] == ls[..t] && rest[t] == ls[t];
    }
    assert Last(ls).1 != ls[t].0;
  }

  // h is put below the upper end of the link l.
  ghost predicate Contributes(ls: Links, sw: set<nat>, l: (nat, nat), h: nat) {
    if l.0 in sw then h in DownOf(ls, sw, l.0) else h == l.0
  }

  /** On a bottom-up list one pass is enough: a host is below x iff it is below the lower end of a link into x. */
  lemma {:induction false} OnePassIsEnough(ls: Links, sw: set<nat>, x: nat, h: nat)
    requires BottomUp(ls)
    ensures h in DownOf(ls, sw, x) <==> exists t :: 0 <= t < |ls| && ls[t].1 == x && Contributes(ls, sw, ls[t], h)
  {
    if |ls| > 0 {
      var rest := ls[..|ls| - 1];
      OnePassIsEnough(rest, sw, x, h);
      forall t | 0 <= t < |rest| ensures Contributes(rest, sw, rest[t], h) <==> Contributes(ls, sw, ls[t], h) {
        SourceFinal(rest, sw, t);
        SourceFinal(ls, sw, t);
        assert rest[..t] == ls[..t];
      }
      SourceFinal(ls, sw, |ls| - 1);
      assert Contributes(ls, sw, Last(ls), h) <==>
             if Last(ls).0 in sw then h in DownOf(rest, sw, Last(ls).0) else h == Last(ls).0;
      if exists t :: 0 <= t < |ls| && ls[t].1 == x && Contributes(ls, sw, ls[t], h) {
        var t :| 0 <= t < |ls| && ls[t].1 == x && Contributes(ls, sw, ls[t], h);
        if t < |rest| {
          assert rest[t].1 == x && Contributes(rest, sw, rest[t], h);
        }
      }
    }
  }
}
