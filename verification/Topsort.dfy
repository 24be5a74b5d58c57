/** topsort, topsort_levels and topsort_levels_core of bindings/python/topsort.py. */
module Topsort {
  import opened Common
  import opened TopsortSpec

  datatype Result<T> =
    | Sorted(answer: seq<T>)
    | CycleError(answer: seq<T>, numParents: map<T, nat>, children: map<T, seq<T>>)

  ghost function Elems<T>(s: seq<T>): set<T> {
    set x | x in s
  }

  // children still holds the lists of the parents outside p, and only those.
  ghost predicate ChildrenLeft<T(!new)>(ps: Pairs<T>, children: map<T, seq<T>>, p: set<T>) {
    forall u {:trigger u in children} ::
      (u in children <==> u !in p && ChildrenOf(ps, u) != []) && (u in children ==> children[u] == ChildrenOf(ps, u))
  }

  // num counts the parents outside p for the elements of ns outside p.
  ghost predicate CountsOf<T(!new)>(ns: set<T>, ps: Pairs<T>, num: map<T, nat>, p: set<T>) {
    num.Keys == ns - p && forall v :: v in num ==> num[v] == Remaining(ps, v, p)
  }

  ghost predicate Counts<T(!new)>(ps: Pairs<T>, num: map<T, nat>, p: set<T>) {
    CountsOf(Nodes(ps), ps, num, p)
  }

  // Counts parents and lists children, pair by pair.
  method Tabulate<T(!new, ==)>(ps: Pairs<T>) returns (numParents: map<T, nat>, children: map<T, seq<T>>)
    ensures Counts(ps, numParents, {}) && ChildrenLeft(ps, children, {})
  {
    numParents, children := map[], map[];
    for i := 0 to |ps|
      invariant Counts(ps[..i], numParents, {}) && ChildrenLeft(ps[..i], children, {})
    {
      var (parent, child) := ps[i];
      ghost var num0, children0 := numParents, children;
      if parent !in numParents {
        numParents := numParents[parent := 0];
      }
      if child !in numParents {
        numParents := numParents[child := 0];
      }
      numParents := numParents[child := numParents[child] + 1];
      children := children[parent := (if parent in children then children[parent] else []) + [child]];
      CountsStep(ps, i, num0, numParents);
      ChildrenStep(ps, i, children0, children);
      hide Counts, ChildrenLeft;
    }
    assert ps[..|ps|] == ps;
  }

  lemma {:induction false} CountsStep<T(!new)>(ps: Pairs<T>, i: nat, num: map<T, nat>, num': map<T, nat>)
    requires i < |ps| && Counts(ps[..i], num, {}) && num'.Keys == num.Keys + {ps[i].0, ps[i].1}
    requires forall v :: v in num' ==> num'[v] == (if v in num then num[v] else 0) + if v == ps[i].1 then 1 else 0
    ensures Counts(ps[..i + 1], num', {})
  {
    assert ps[..i + 1][..i] == ps[..i] && Last(ps[..i + 1]) == ps[i];
    NodesStep(ps, i);
    forall v | v !in Nodes(ps[..i]) ensures Remaining(ps[..i], v, {}) == 0 {
      Stranger(ps[..i], v);
    }
    hide Nodes;
  }

  lemma {:induction false} ChildrenStep<T(!new)>(ps: Pairs<T>, i: nat, children: map<T, seq<T>>,
                                                 children': map<T, seq<T>>)
    requires i < |ps| && ChildrenLeft(ps[..i], children, {})
    requires var u := ps[i].0; children' == children[u := (if u in children then children[u] else []) + [ps[i].1]]
    ensures ChildrenLeft(ps[..i + 1], children', {})
  {
    assert ps[..i + 1][..i] == ps[..i] && Last(ps[..i + 1]) == ps[i];
  }

  lemma {:induction false} NodesStep<T>(ps: Pairs<T>, i: nat)
    requires i < |ps|
    ensures Nodes(ps[..i + 1]) == Nodes(ps[..i]) + {ps[i].0, ps[i].1}
  {
  }

  lemma {:induction false} Stranger<T>(ps: Pairs<T>, v: T)
    requires v !in Nodes(ps)
    ensures Remaining(ps, v, {}) == 0
  {
    if |ps| > 0 {
      assert Last(ps) in ps && ps == ps[..|ps| - 1] + [Last(ps)];
      NodesStep(ps, |ps| - 1);
      assert ps[..|ps| - 1 + 1] == ps;
      Stranger(ps[..|ps| - 1], v);
    }
  }

  // ----- topsort -----

  // The first i elements of answer are placed; the counts are those of the rest.
  ghost predicate Placing<T(!new)>(ps: Pairs<T>, num: map<T, nat>, answer: seq<T>, i: nat) {
    && i <= |answer| && Distinct(answer) && ParentsFirst(ps, answer)
    && Counts(ps, num, Elems(answer[..i]))
    && Ready(ps, num, answer)
  }

  // What is listed is what is placed already or has no parent left.
  ghost predicate Ready<T(!new)>(ps: Pairs<T>, num: map<T, nat>, answer: seq<T>) {
    forall v :: v in answer <==> v in Nodes(ps) && (v !in num || num[v] == 0)
  }

  // In the middle of one parent's children cs, with the children from cs[c] on still to be counted down.
  ghost predicate Knocking<T(!new)>(ps: Pairs<T>, num: map<T, nat>, answer: seq<T>, i: nat, cs: seq<T>, c: nat) {
    && i < |answer| && c <= |cs| && Distinct(answer) && ParentsFirst(ps, answer) && Ready(ps, num, answer)
    && num.Keys == Nodes(ps) - Elems(answer[..i + 1])
    && forall v :: v in num ==> num[v] == Remaining(ps, v, Elems(answer[..i + 1])) + Occurrences(cs[c..], v)
  }

  lemma {:induction false} StartKnocking<T(!new)>(ps: Pairs<T>, num: map<T, nat>, answer: seq<T>, i: nat)
    requires Placing(ps, num, answer, i) && i < |answer|
    ensures answer[i] in num && num[answer[i]] == 0
    ensures Knocking(ps, num - {answer[i]}, answer, i, ChildrenOf(ps, answer[i]), 0)
  {
    var u := answer[i];
    assert u in answer && u !in answer[..i];
    assert Elems(answer[..i + 1]) == Elems(answer[..i]) + {u};
    assert ChildrenOf(ps, u)[0..] == ChildrenOf(ps, u);
    forall v | v in num - {u}
      ensures num[v] == Remaining(ps, v, Elems(answer[..i + 1])) + Occurrences(ChildrenOf(ps, u)[0..], v)
    {
      PlaceParent(ps, u, v, Elems(answer[..i]));
    }
  }

  // A child of the parent in hand is not placed: its parents come first, and that parent is the last placed.
  lemma {:induction false} ChildUnplaced<T(!new)>(ps: Pairs<T>, num: map<T, nat>, answer: seq<T>, i: nat, cs: seq<T>,
                                                  c: nat)
    requires i < |answer| && cs == ChildrenOf(ps, answer[i]) && c < |cs| && Knocking(ps, num, answer, i, cs, c)
    ensures cs[c] in num && num[cs[c]] > 0
  {
    var child := cs[c];
    ChildrenAre(ps, answer[i], child);
    assert Parent(ps, answer[i], child) && (answer[i], child) in ps && child in Nodes(ps);
    assert cs[c..] == [child] + cs[c + 1..];
    forall k | 0 <= k <= i ensures answer[k] != child {
      assert answer[i] !in answer[..k];
    }
  }

  lemma {:induction false} Append<T(!new)>(ps: Pairs<T>, answer: seq<T>, x: T)
    requires ParentsFirst(ps, answer) && forall u :: Parent(ps, u, x) ==> u in answer
    ensures ParentsFirst(ps, answer + [x])
  {
    var answer' := answer + [x];
    forall j, u | 0 <= j < |answer'| && Parent(ps, u, answer'[j]) ensures u in answer'[..j] {
      if j < |answer| {
        assert answer'[..j] == answer[..j];
      } else {
        assert answer'[..j] == answer;
      }
    }
  }

  lemma {:induction false} KnockOne<T(!new)>(ps: Pairs<T>, num: map<T, nat>, num': map<T, nat>, answer: seq<T>,
                                             answer': seq<T>, i: nat, cs: seq<T>, c: nat)
    requires i < |answer| && cs == ChildrenOf(ps, answer[i]) && c < |cs| && Knocking(ps, num, answer, i, cs, c)
    requires cs[c] in num && num[cs[c]] > 0 && num' == num[cs[c] := num[cs[c]] - 1]
    requires answer' == if num'[cs[c]] == 0 then answer + [cs[c]] else answer
    ensures Knocking(ps, num', answer', i, cs, c + 1)
  {
    var child := cs[c];
    var p := Elems(answer[..i + 1]);
    assert cs[c..] == [child] + cs[c + 1..];
    assert answer'[..i + 1] == answer[..i + 1];
    RemainingZero(ps, child, p);
    if num'[child] == 0 {
      Append(ps, answer, child);
    }
    assert ParentsFirst(ps, answer');
    hide ParentsFirst;
  }

  lemma {:induction false} EndKnocking<T(!new)>(ps: Pairs<T>, num: map<T, nat>, answer: seq<T>, i: nat, cs: seq<T>)
    requires Knocking(ps, num, answer, i, cs, |cs|)
    ensures Placing(ps, num, answer, i + 1)
  {
  }

  // Counts down the children of answer[i], listing those that have no parent left.
  method KnockDown<T(!new, ==)>(ghost ps: Pairs<T>, num: map<T, nat>, answer: seq<T>, ghost i: nat, cs: seq<T>)
    returns (num': map<T, nat>, answer': seq<T>)
    requires i < |answer| && cs == ChildrenOf(ps, answer[i]) && Knocking(ps, num, answer, i, cs, 0)
    ensures Knocking(ps, num', answer', i, cs, |cs|) && answer <= answer'
  {
    hide Knocking;
    num', answer' := num, answer;
    for c := 0 to |cs|
      invariant i < |answer| && answer <= answer' && Knocking(ps, num', answer', i, cs, c)
    {
      var child := cs[c];
      ghost var n0, a0 := num', answer';
      ChildUnplaced(ps, num', answer', i, cs, c);
      num' := num'[child := num'[child] - 1];
      if num'[child] == 0 {
        answer' := answer' + [child];
      }
      KnockOne(ps, n0, num', a0, answer', i, cs, c);
    }
  }

  // Places answer[i]: takes it out of the tables, after counting down its children.
  method Place<T(!new, ==)>(ghost ps: Pairs<T>, num: map<T, nat>, ch: map<T, seq<T>>, answer: seq<T>, i: nat)
    returns (num': map<T, nat>, ch': map<T, seq<T>>, answer': seq<T>)
    requires i < |answer| && Placing(ps, num, answer, i) && ChildrenLeft(ps, ch, Elems(answer[..i]))
    ensures i < |Nodes(ps)| && answer <= answer'
    ensures Placing(ps, num', answer', i + 1) && ChildrenLeft(ps, ch', Elems(answer'[..i + 1]))
  {
    var parent := answer[i];
    DistinctBound(answer, Nodes(ps));
    StartKnocking(ps, num, answer, i);
    hide Knocking, Ready, ParentsFirst, Remaining, ChildrenOf;
    assert Elems(answer[..i + 1]) == Elems(answer[..i]) + {parent} && parent !in answer[..i];
    num', ch', answer' := num - {parent}, ch, answer;
    if parent in ch {
      num', answer' := KnockDown(ps, num', answer, i, ch[parent]);
      ch' := ch - {parent};
    }
    EndKnocking(ps, num', answer', i, ChildrenOf(ps, parent));
    assert answer'[..i + 1] == answer[..i + 1];
  }

  // The initial list: [x for x in num_parents.keys() if num_parents[x] == 0], order being that of the keys.
  method Roots<T(!new, ==)>(num: map<T, nat>, order: seq<T>) returns (roots: seq<T>)
    requires Distinct(order)
    ensures Distinct(roots) && forall v :: v in roots <==> v in order && v in num && num[v] == 0
  {
    roots := [];
    for k := 0 to |order|
      invariant Distinct(roots) && forall v :: v in roots <==> v in order[..k] && v in num && num[v] == 0
    {
      assert order[k] !in order[..k] && order[..k + 1] == order[..k] + [order[k]];
      if order[k] in num && num[order[k]] == 0 {
        roots := roots + [order[k]];
      }
    }
    assert order[..|order|] == order;
  }

  /** Elements in parent-to-child order, or the elements clear of every cycle and the tables of the rest. */
  method Topsort<T(!new, ==)>(ps: Pairs<T>, order: seq<T>) returns (r: Result<T>)
    requires Distinct(order) && forall v :: v in order <==> v in Nodes(ps)
    ensures Distinct(r.answer) && ParentsFirst(ps, r.answer)
    ensures forall v :: v in r.answer <==> v in Nodes(ps) && !OnOrBelowCycle(ps, v)
    ensures r.Sorted? <==> Acyclic(ps)
    ensures r.CycleError? ==> Counts(ps, r.numParents, Elems(r.answer)) && ChildrenLeft(ps, r.children, Elems(r.answer))
  {
    hide Placing, ChildrenLeft, OnOrBelowCycle, Acyclic, ParentsFirst;
    var numParents, children := Tabulate(ps);
    var answer := Roots(numParents, order);
    StartPlacing(ps, numParents, answer);
    var i := 0;
    assert Elems(answer[..0]) == {};
    while i < |answer|
      invariant i <= |answer| && Placing(ps, numParents, answer, i) && ChildrenLeft(ps, children, Elems(answer[..i]))
      decreases |Nodes(ps)| - i
    {
      numParents, children, answer := Place(ps, numParents, children, answer, i);
      i := i + 1;
    }
    assert answer[..i] == answer;
    Placed(ps, numParents, answer);
    if numParents != map[] {
      r := CycleError(answer, numParents, children);
    } else {
      r := Sorted(answer);
    }
  }

  lemma {:induction false} StartPlacing<T(!new)>(ps: Pairs<T>, num: map<T, nat>, answer: seq<T>)
    requires Counts(ps, num, {}) && Distinct(answer)
    requires forall v :: v in answer <==> v in Nodes(ps) && v in num && num[v] == 0
    ensures Placing(ps, num, answer, 0)
  {
    forall j | 0 <= j < |answer| ensures forall u :: !Parent(ps, u, answer[j]) {
      assert answer[j] in answer;
      RemainingZero(ps, answer[j], {});
    }
    assert Elems(answer[..0]) == {};
  }

  lemma {:induction false} Placed<T(!new)>(ps: Pairs<T>, num: map<T, nat>, answer: seq<T>)
    requires Placing(ps, num, answer, |answer|)
    ensures Distinct(answer) && ParentsFirst(ps, answer)
    ensures Counts(ps, num, Elems(answer))
    ensures forall v :: v in answer <==> v in Nodes(ps) && !OnOrBelowCycle(ps, v)
    ensures num == map[] <==> Acyclic(ps)
  {
    assert answer[..|answer|] == answer;
    StuckIsCyclic(Nodes(ps), ps, num, Elems(answer));
    forall v | v in answer ensures !OnOrBelowCycle(ps, v) {
      NotBelowCycle(ps, answer, v);
    }
    CyclesAreNodes(ps);
  }

  // When every unplaced node still has an unplaced parent, the unplaced nodes are on or below cycles.
  lemma {:induction false} StuckIsCyclic<T(!new)>(ns: set<T>, ps: Pairs<T>, num: map<T, nat>, p: set<T>)
    requires Nodes(ps) <= ns && CountsOf(ns, ps, num, p) && forall v :: v in num ==> num[v] > 0
    ensures forall v :: v in num ==> OnOrBelowCycle(ps, v)
  {
    var r := num.Keys;
    forall v | v in r ensures HasParentIn(ps, r, v) {
      RemainingZero(ps, v, p);
      var u :| Parent(ps, u, v) && u !in p;
      assert (u, v) in ps && u in Nodes(ps);
    }
    forall v | v in r ensures OnOrBelowCycle(ps, v) {
      CycleAbove(ps, r, [v], v);
    }
  }

  lemma {:induction false} CyclesAreNodes<T(!new)>(ps: Pairs<T>)
    ensures forall x :: OnCycle(ps, x) ==> x in Nodes(ps) && OnOrBelowCycle(ps, x)
    ensures Acyclic(ps) <==> forall x :: x in Nodes(ps) ==> !OnOrBelowCycle(ps, x)
  {
    forall x | OnCycle(ps, x) ensures x in Nodes(ps) && OnOrBelowCycle(ps, x) {
      var w :| Walk(ps, w) && |w| > 1 && w[0] == x && Last(w) == x;
      assert Parent(ps, w[0], w[1]) && (x, w[1]) in ps;
      assert Walk(ps, [x]) && [x][0] == x && Last([x]) == x;
      assert Reaches(ps, x, x);
    }
  }

  // ----- topsort_levels -----

  datatype LevelsResult<T> =
    | StopIteration
    | LevelsCycleError(numParents: map<T, nat>, children: map<T, seq<T>>)

  // The child lists of the elements outside p; an element without children may have an empty list or none.
  ghost predicate ListsOf<T(!new)>(ps: Pairs<T>, children: map<T, seq<T>>, p: set<T>) {
    && (forall u :: u in children ==> u !in p && children[u] == ChildrenOf(ps, u))
    && (forall u {:trigger u in children} :: u !in p && ChildrenOf(ps, u) != [] ==> u in children)
  }

  // p is what the first n levels yielded: the elements whose ancestor chains have at most n members.
  ghost predicate Yielded<T(!new)>(ns: set<T>, ps: Pairs<T>, p: set<T>, n: nat) {
    forall x :: x in p <==> x in ns && Shallow(ps, x, n)
  }

  ghost predicate IsLevel<T(!new)>(ns: set<T>, ps: Pairs<T>, level: seq<T>, n: nat) {
    Distinct(level) && forall x :: x in level <==> x in ns && Depth(ps, x, n)
  }

  method CountDown<T(!new, ==)>(num: map<T, nat>, cs: seq<T>) returns (num': map<T, nat>)
    requires forall v :: v in cs ==> v in num && Occurrences(cs, v) <= num[v]
    ensures num'.Keys == num.Keys && forall v :: v in num ==> num'[v] == num[v] - Occurrences(cs, v)
  {
    num' := num;
    assert cs[0..] == cs;
    for c := 0 to |cs|
      invariant num'.Keys == num.Keys
      invariant forall v :: v in num ==> num'[v] - Occurrences(cs[c..], v) == num[v] - Occurrences(cs, v)
    {
      assert cs[c..] == [cs[c]] + cs[c + 1..] && cs[c] in cs;
      num' := num'[cs[c] := num'[cs[c]] - 1];
    }
  }

  // The children of a node without unplaced parents are neither placed nor of its own level.
  lemma {:induction false} LevelChildren<T(!new)>(ns: set<T>, ps: Pairs<T>, num: map<T, nat>, p: set<T>, u: T, v: T)
    requires Nodes(ps) <= ns && CountsOf(ns, ps, num, p) && u in num && num[u] == 0 && Parent(ps, u, v)
    requires forall x, y :: y in p && Parent(ps, x, y) ==> x in p
    ensures v in num && v != u && num[v] >= Occurrences(ChildrenOf(ps, u), v) > 0
    ensures forall x :: Parent(ps, x, u) ==> x in p
  {
    assert (u, v) in ps && v in Nodes(ps);
    RemainingZero(ps, u, p);
    PlaceParent(ps, u, v, p);
    ChildrenAre(ps, u, v);
    OccurrencesIn(ChildrenOf(ps, u), v);
  }

  // Takes one element of the level out of the tables.
  method PlaceInLevel<T(!new, ==)>(ghost ns: set<T>, ghost ps: Pairs<T>, num: map<T, nat>, ch: map<T, seq<T>>,
                                   u: T, ghost p: set<T>)
    returns (num': map<T, nat>, ch': map<T, seq<T>>)
    requires Nodes(ps) <= ns && CountsOf(ns, ps, num, p) && ListsOf(ps, ch, p) && u in num && num[u] == 0
    requires forall x, y :: y in p && Parent(ps, x, y) ==> x in p
    ensures CountsOf(ns, ps, num', p + {u}) && ListsOf(ps, ch', p + {u}) && ch' == ch - {u}
    ensures forall x, y :: y in p + {u} && Parent(ps, x, y) ==> x in p + {u}
    ensures forall v :: v in num && v != u && num[v] == 0 ==> v in num' && num'[v] == 0
  {
    RemainingZero(ps, u, p);
    num', ch' := num - {u}, ch;
    forall v | v in num ensures Remaining(ps, v, p) == Remaining(ps, v, p + {u}) + Occurrences(ChildrenOf(ps, u), v) {
      PlaceParent(ps, u, v, p);
    }
    if u in ch {
      forall v | v in ch[u] ensures v in num' && Occurrences(ch[u], v) <= num'[v] {
        ChildrenAre(ps, u, v);
        LevelChildren(ns, ps, num, p, u, v);
      }
      num' := CountDown(num', ch[u]);
      ch' := ch - {u};
    }
  }

  lemma {:induction false} LevelIsDepth<T(!new)>(ns: set<T>, ps: Pairs<T>, num: map<T, nat>, p: set<T>,
                                                 level: seq<T>, n: nat)
    requires Nodes(ps) <= ns && Yielded(ns, ps, p, n) && CountsOf(ns, ps, num, p) && Distinct(level)
    requires forall v :: v in level <==> v in num && num[v] == 0
    ensures IsLevel(ns, ps, level, n) && Yielded(ns, ps, p + Elems(level), n + 1)
  {
    forall x | x in ns
      ensures (x in num && num[x] == 0) <==> Depth(ps, x, n)
      ensures x in p + Elems(level) <==> Shallow(ps, x, n + 1)
    {
      RemainingZero(ps, x, p);
      ShallowStep(ps, x, n);
      DepthBetween(ps, x, n);
      forall u | Parent(ps, u, x) ensures u in Nodes(ps) {
        assert (u, x) in ps;
      }
      if Shallow(ps, x, n) {
        assert Shallow(ps, x, n + 1);
      }
    }
  }

  lemma {:induction false} YieldedClosed<T(!new)>(ns: set<T>, ps: Pairs<T>, p: set<T>, n: nat)
    requires Nodes(ps) <= ns && Yielded(ns, ps, p, n)
    ensures forall x, y :: y in p && Parent(ps, x, y) ==> x in p
  {
    forall x, y | y in p && Parent(ps, x, y) ensures x in p {
      assert (x, y) in ps && x in Nodes(ps);
      forall w | Walk(ps, w) && Last(w) == x ensures |w| <= n {
        assert Walk(ps, w + [y]) && Last(w + [y]) == y;
      }
    }
  }

  // The elements of one level, one after the other.
  method PlaceLevel<T(!new, ==)>(ghost ns: set<T>, ghost ps: Pairs<T>, num: map<T, nat>, ch: map<T, seq<T>>,
                                 level: seq<T>, ghost p: set<T>)
    returns (num': map<T, nat>, ch': map<T, seq<T>>)
    requires Nodes(ps) <= ns && CountsOf(ns, ps, num, p) && ListsOf(ps, ch, p) && Distinct(level)
    requires forall v :: v in level ==> v in num && num[v] == 0
    requires forall x, y :: y in p && Parent(ps, x, y) ==> x in p
    ensures CountsOf(ns, ps, num', p + Elems(level)) && ListsOf(ps, ch', p + Elems(level)) && ch' == ch - Elems(level)
  {
    hide ListsOf, Nodes;
    num', ch' := num, ch;
    ghost var q := p;
    for k := 0 to |level|
      invariant q == p + Elems(level[..k]) && CountsOf(ns, ps, num', q) && ListsOf(ps, ch', q)
      invariant ch' == ch - Elems(level[..k])
      invariant forall x, y :: y in q && Parent(ps, x, y) ==> x in q
      invariant forall j :: k <= j < |level| ==> level[j] in num' && num'[level[j]] == 0
    {
      assert level[k] in level && Elems(level[..k + 1]) == Elems(level[..k]) + {level[k]};
      num', ch' := PlaceInLevel(ns, ps, num', ch', level[k], q);
      q := q + {level[k]};
    }
    assert level[..|level|] == level;
  }

  ghost predicate InSome<T>(levels: seq<seq<T>>, x: T) {
    exists n :: 0 <= n < |levels| && x in levels[n]
  }

  // All elements of all levels.
  ghost function Listed<T>(levels: seq<seq<T>>): set<T> {
    if |levels| == 0 then {} else Listed(levels[..|levels| - 1]) + Elems(Last(levels))
  }

  lemma {:induction false} ListedIn<T(!new)>(levels: seq<seq<T>>, x: T)
    ensures x in Listed(levels) <==> InSome(levels, x)
  {
    if |levels| > 0 {
      var rest := levels[..|levels| - 1];
      ListedIn(rest, x);
      if InSome(levels, x) {
        var n :| 0 <= n < |levels| && x in levels[n];
        assert n < |rest| ==> x in rest[n];
      }
    }
  }

  // What holds between two levels; ch is the child table the generator was given.
  ghost predicate Leveling<T(!new)>(ns: set<T>, ps: Pairs<T>, levels: seq<seq<T>>, num: map<T, nat>,
                                    ch: map<T, seq<T>>, children: map<T, seq<T>>) {
    var p := Listed(levels);
    && Nodes(ps) <= ns && Yielded(ns, ps, p, |levels|) && CountsOf(ns, ps, num, p)
    && ListsOf(ps, children, p) && children == ch - p
    && forall n :: 0 <= n < |levels| ==> levels[n] != [] && IsLevel(ns, ps, levels[n], n)
  }

  // Yields one level and places it.
  method NextLevel<T(!new, ==)>(ghost ns: set<T>, ghost ps: Pairs<T>, levels: seq<seq<T>>, num: map<T, nat>,
                                ghost ch: map<T, seq<T>>, children: map<T, seq<T>>, level: seq<T>)
    returns (levels': seq<seq<T>>, num': map<T, nat>, children': map<T, seq<T>>)
    requires Leveling(ns, ps, levels, num, ch, children) && level != [] && Distinct(level)
    requires forall v :: v in level <==> v in num && num[v] == 0
    ensures Leveling(ns, ps, levels', num', ch, children')
    ensures num'.Keys < num.Keys
  {
    hide ListsOf, Shallow, Depth, Remaining, Nodes, Yielded, IsLevel;
    ghost var p := Listed(levels);
    LevelIsDepth(ns, ps, num, p, level, |levels|);
    YieldedClosed(ns, ps, p, |levels|);
    num', children' := PlaceLevel(ns, ps, num, children, level, p);
    levels' := levels + [level];
    assert levels'[..|levels|] == levels && level[0] in level;
  }

  // What the levels and the final tables say about all elements.
  ghost predicate Leveled<T(!new)>(ns: set<T>, ps: Pairs<T>, levels: seq<seq<T>>, ch: map<T, seq<T>>,
                                   r: LevelsResult<T>) {
    && (forall n :: 0 <= n < |levels| ==> levels[n] != [] && IsLevel(ns, ps, levels[n], n))
    && (forall x :: x in ns ==> (OnOrBelowCycle(ps, x) <==> forall n :: 0 <= n < |levels| ==> x !in levels[n]))
    && (r.StopIteration? <==> Acyclic(ps))
    && (r.LevelsCycleError? ==> CountsOf(ns, ps, r.numParents, Listed(levels)) && r.children == ch - Listed(levels))
  }

  /** Level n holds exactly the elements of ns whose longest ancestor chain has n links; an error carries the counts of
      the elements on or below a cycle and the child table without the yielded elements. */
  method TopsortLevelsCore<T(!new, ==)>(ghost ns: set<T>, ghost ps: Pairs<T>, num: map<T, nat>, ch: map<T, seq<T>>,
                                        order: seq<T>)
    returns (levels: seq<seq<T>>, r: LevelsResult<T>)
    requires Nodes(ps) <= ns && CountsOf(ns, ps, num, {}) && ListsOf(ps, ch, {})
    requires Distinct(order) && forall v :: v in order <==> v in num
    ensures Leveled(ns, ps, levels, ch, r)
    ensures r.LevelsCycleError? ==> forall x :: x in r.numParents <==> x in ns && OnOrBelowCycle(ps, x)
  {
    levels := [];
    var numParents, children := num, ch;
    NothingYielded(ns, ps);
    assert Leveling(ns, ps, levels, numParents, ch, children);
    hide Leveling, ListsOf, CountsOf, OnOrBelowCycle, Acyclic, Nodes;
    while true
      invariant numParents.Keys <= num.Keys && Leveling(ns, ps, levels, numParents, ch, children)
      decreases |numParents.Keys|
    {
      var levelParents := Roots(numParents, order);
      if levelParents == [] {
        break;
      }
      ghost var before := numParents.Keys;
      levels, numParents, children := NextLevel(ns, ps, levels, numParents, ch, children, levelParents);
      SmallerSet(numParents.Keys, before);
    }
    if numParents != map[] {
      r := LevelsCycleError(numParents, children);
    } else {
      r := StopIteration;
    }
    LevelsDone(ns, ps, levels, numParents, ch, children);
  }

  lemma {:induction false} LevelsDone<T(!new)>(ns: set<T>, ps: Pairs<T>, levels: seq<seq<T>>, num: map<T, nat>,
                                               ch: map<T, seq<T>>, children: map<T, seq<T>>)
    requires Leveling(ns, ps, levels, num, ch, children) && forall v :: v in num ==> num[v] > 0
    ensures Leveled(ns, ps, levels, ch, if num != map[] then LevelsCycleError(num, children) else StopIteration)
    ensures forall x :: x in num <==> x in ns && OnOrBelowCycle(ps, x)
  {
    hide ListsOf, OnOrBelowCycle, Shallow, Depth, Remaining, IsLevel, Yielded, Acyclic, Nodes, Listed;
    AllYielded(ns, ps, num, Listed(levels), |levels|);
    forall x ensures x in Listed(levels) <==> InSome(levels, x) {
      ListedIn(levels, x);
    }
  }

  lemma {:induction false} SmallerSet<T>(a: set<T>, b: set<T>)
    requires a < b
    ensures |a| < |b|
  {
    assert b == a + (b - a);
  }

  lemma {:induction false} NothingYielded<T(!new)>(ns: set<T>, ps: Pairs<T>)
    ensures Yielded(ns, ps, {}, 0)
  {
    forall x ensures !Shallow(ps, x, 0) {
      assert Walk(ps, [x]) && Last([x]) == x;
    }
  }

  lemma {:induction false} AllYielded<T(!new)>(ns: set<T>, ps: Pairs<T>, num: map<T, nat>, p: set<T>, n: nat)
    requires Nodes(ps) <= ns && Yielded(ns, ps, p, n) && CountsOf(ns, ps, num, p)
    requires forall v :: v in num ==> num[v] > 0
    ensures forall x :: x in num <==> x in ns && OnOrBelowCycle(ps, x)
    ensures forall x :: x in p <==> x in ns && !OnOrBelowCycle(ps, x)
    ensures num == map[] <==> Acyclic(ps)
  {
    hide OnOrBelowCycle, OnCycle, Acyclic, Shallow, Remaining, Nodes;
    StuckIsCyclic(ns, ps, num, p);
    forall x | x in p ensures !OnOrBelowCycle(ps, x) {
      if OnOrBelowCycle(ps, x) {
        NoDepthBelowCycle(ps, x, n);
      }
    }
    CyclesAreNodes(ps);
    forall x | x in ns && x !in Nodes(ps) ensures !OnOrBelowCycle(ps, x) {
      OutsideIsClear(ps, x);
    }
  }

  // An element of no pair is below nothing.
  lemma {:induction false} OutsideIsClear<T(!new)>(ps: Pairs<T>, x: T)
    requires x !in Nodes(ps)
    ensures !OnOrBelowCycle(ps, x)
  {
    forall u ensures !Parent(ps, u, x) {
    }
    ShallowStep(ps, x, 0);
    hide Shallow;
    if OnOrBelowCycle(ps, x) {
      NoDepthBelowCycle(ps, x, 1);
    }
  }

  method TopsortLevels<T(!new, ==)>(ps: Pairs<T>, order: seq<T>) returns (levels: seq<seq<T>>, r: LevelsResult<T>)
    requires Distinct(order) && forall v :: v in order <==> v in Nodes(ps)
    ensures forall n :: 0 <= n < |levels| ==> levels[n] != [] && IsLevel(Nodes(ps), ps, levels[n], n)
    ensures forall x :: x in Nodes(ps) ==>
              (OnOrBelowCycle(ps, x) <==> forall n :: 0 <= n < |levels| ==> x !in levels[n])
    ensures r.StopIteration? <==> Acyclic(ps)
    ensures r.LevelsCycleError? ==> forall x :: x in r.numParents <==> x in Nodes(ps) && OnOrBelowCycle(ps, x)
    ensures r.LevelsCycleError? ==>
              Counts(ps, r.numParents, Listed(levels)) && ChildrenLeft(ps, r.children, Listed(levels))
  {
    var numParents, children := Tabulate(ps);
    levels, r := TopsortLevelsCore(Nodes(ps), ps, numParents, children, order);
  }
}
