/** Rotation test of bindings/python/rad_util.py and cycle enumeration of bindings/python/topsort.py. */
module FindCycles {
  import opened Common

  // parent -> its children, in the order they are listed (repetitions allowed)
  type Graph<T(==)> = map<T, seq<T>>

  ghost predicate Edge<T>(g: Graph<T>, u: T, v: T) {
    u in g && v in g[u]
  }

  ghost predicate Walk<T>(g: Graph<T>, p: seq<T>) {
    forall t :: 1 <= t < |p| ==> Edge(g, p[t - 1], p[t])
  }

  ghost predicate SimplePath<T>(g: Graph<T>, p: seq<T>, s: T) {
    |p| > 0 && p[0] == s && Walk(g, p) && Distinct(p)
  }

  // A cycle as the source lists it: its last node is a parent of its first.
  ghost predicate SimpleCycle<T>(g: Graph<T>, c: seq<T>) {
    |c| > 0 && Walk(g, c) && Distinct(c) && Edge(g, Last(c), c[0])
  }

  // ----- rotations -----

  ghost function Rotate<T>(a: seq<T>, k: nat): seq<T>
    requires k <= |a|
  {
    a[k..] + a[..k]
  }

  ghost predicate Rotation<T>(a: seq<T>, b: seq<T>) {
    exists k: nat :: k <= |a| && b == Rotate(a, k)
  }

  /** Rotations have the same length, and the elements of one follow those of the other around from some place on. */
  lemma {:induction false} RotationMeans<T>(a: seq<T>, b: seq<T>)
    ensures Rotation(a, b) <==>
              |a| == |b| && exists k {:trigger Shifted(a, b, k)} :: 0 <= k <= |a| && Shifted(a, b, k)
  {
    if Rotation(a, b) {
      var k: nat :| k <= |a| && b == Rotate(a, k);
      assert Shifted(a, b, k);
    }
    if |a| == |b| && exists k {:trigger Shifted(a, b, k)} :: 0 <= k <= |a| && Shifted(a, b, k) {
      var k :| 0 <= k <= |a| && Shifted(a, b, k);
      assert b == Rotate(a, k);
    }
  }

  ghost predicate Shifted<T>(a: seq<T>, b: seq<T>, k: int)
    requires |b| == |a| && 0 <= k <= |a|
  {
    forall i :: 0 <= i < |a| ==> b[i] == if i + k < |a| then a[i + k] else a[i + k - |a|]
  }

  lemma {:induction false} RotationSymmetric<T>(a: seq<T>, b: seq<T>)
    requires Rotation(a, b)
    ensures Rotation(b, a)
  {
    var k: nat :| k <= |a| && b == Rotate(a, k);
    assert a == Rotate(b, |a| - k);
  }

  lemma {:induction false} RotationTransitive<T>(a: seq<T>, b: seq<T>, c: seq<T>)
    requires Rotation(a, b) && Rotation(b, c)
    ensures Rotation(a, c)
  {
    var k: nat :| k <= |a| && b == Rotate(a, k);
    var m: nat :| m <= |b| && c == Rotate(b, m);
    RotateTwice(a, k, m);
  }

  lemma {:induction false} RotateTwice<T>(a: seq<T>, k: nat, m: nat)
    requires k <= |a| && m <= |a|
    ensures Rotate(Rotate(a, k), m) == Rotate(a, if k + m <= |a| then k + m else k + m - |a|)
  {
    var b := Rotate(a, k);
    if k + m <= |a| {
      assert b[m..] == a[k + m..] + a[..k] && b[..m] == a[k..k + m];
    } else {
      assert b[m..] == a[k + m - |a|..k] && b[..m] == a[k..] + a[..k + m - |a|];
    }
  }

  lemma {:induction false} RotationStart<T>(a: seq<T>, b: seq<T>)
    requires Rotation(a, b) && |a| > 0
    ensures exists k: nat :: k < |a| && b == Rotate(a, k) && a[k] == b[0]
  {
    var k: nat :| k <= |a| && b == Rotate(a, k);
    if k == |a| {
      assert Rotate(a, 0) == a == Rotate(a, k);
    }
  }

  method IsRotated<T(==)>(seq1: seq<T>, seq2: seq<T>) returns (r: bool)
    requires |seq1| == |seq2| ==> |seq2| > 0
    ensures r <==> Rotation(seq1, seq2)
  {
    if |seq1| != |seq2| {
      return false;
    }
    var startIndexes: seq<nat> := [];
    var headItem := seq2[0];
    for index1 := 0 to |seq1|
      invariant forall u :: 0 <= u < |startIndexes| ==> startIndexes[u] < |seq1|
      invariant forall k :: 0 <= k < index1 && seq1[k] == headItem ==> k in startIndexes
    {
      if seq1[index1] == headItem {
        startIndexes := startIndexes + [index1];
      }
    }
    var doubleSeq1 := seq1 + seq1;
    for t := 0 to |startIndexes|
      invariant forall u :: 0 <= u < t ==> Rotate(seq1, startIndexes[u]) != seq2
    {
      var index1 := startIndexes[t];
      assert doubleSeq1[index1..index1 + |seq1|] == Rotate(seq1, index1);
      if doubleSeq1[index1..index1 + |seq1|] == seq2 {
        return true;
      }
    }
    if Rotation(seq1, seq2) {
      RotationStart(seq1, seq2);
    }
    return false;
  }

  // ----- what has been found -----

  ghost predicate Covered<T>(cycles: seq<seq<T>>, c: seq<T>) {
    exists t :: 0 <= t < |cycles| && Rotation(cycles[t], c)
  }

  // Only simple cycles, and no two the same up to rotation.
  ghost predicate SoundAndUnique<T>(g: Graph<T>, cycles: seq<seq<T>>) {
    && (forall t :: 0 <= t < |cycles| ==> SimpleCycle(g, cycles[t]))
    && (forall s, t :: 0 <= s < t < |cycles| ==> !Rotation(cycles[s], cycles[t]))
  }

  function Index<T(==)>(p: seq<T>, x: T): (i: nat)
    requires x in p
    ensures i < |p| && p[i] == x && x !in p[..i]
  {
    if p[0] == x then 0 else
      assert p[1..][..Index(p[1..], x)] == p[1..Index(p[1..], x) + 1];
      1 + Index(p[1..], x)
  }

  // Every cycle closed by a child of the end of a simple path from s has been found.
  ghost predicate Explored<T(!new)>(g: Graph<T>, cycles: seq<seq<T>>, s: T) {
    forall p, c :: SimplePath(g, p, s) && Edge(g, Last(p), c) && c in p ==> Covered(cycles, p[Index(p, c)..])
  }

  ghost predicate Reached<T(!new)>(g: Graph<T>, starts: set<T>, v: T) {
    exists p, s :: s in starts && SimplePath(g, p, s) && Last(p) == v
  }

  // ----- a measure over simple paths -----

  ghost function Nodes<T>(g: Graph<T>): set<T> {
    g.Keys + set k, c | k in g && c in g[k] :: c
  }

  ghost predicate Within<T>(g: Graph<T>, p: seq<T>) {
    |p| > 0 && Distinct(p) && forall x :: x in p ==> x in Nodes(g)
  }

  // How many more simple extensions a path has, counted with the repetitions of children.
  ghost function TreeSize<T>(g: Graph<T>, p: seq<T>): (n: nat)
    requires Within(g, p)
    ensures n > 0
    decreases |Nodes(g)| - |p|, 1, 0
  {
    DistinctBound(p, Nodes(g));
    1 + if Last(p) in g then ForestSize(g, p, g[Last(p)]) else 0
  }

  ghost function ForestSize<T>(g: Graph<T>, p: seq<T>, cs: seq<T>): nat
    requires Within(g, p)
    requires forall c :: c in cs ==> c in Nodes(g)
    decreases |Nodes(g)| - |p|, 0, |cs|
  {
    if |cs| == 0 then 0
    else
      var c := Last(cs);
      var rest := ForestSize(g, p, cs[..|cs| - 1]);
      if c in p then rest
      else
        DistinctBound(p + [c], Nodes(g));
        rest + TreeSize(g, p + [c])
  }

  ghost predicate PathStack<T>(g: Graph<T>, paths: seq<seq<T>>, s: T) {
    forall t :: 0 <= t < |paths| ==> SimplePath(g, paths[t], s) && Within(g, paths[t])
  }

  ghost function StackSize<T>(g: Graph<T>, paths: seq<seq<T>>, s: T): nat
    requires PathStack(g, paths, s)
  {
    if |paths| == 0 then 0
    else StackSize(g, paths[..|paths| - 1], s) + TreeSize(g, Last(paths))
  }

  // ----- the exploration from one start -----

  // The child c of the end of p has been dealt with.
  ghost predicate Handled<T>(cycles: seq<seq<T>>, seen: set<seq<T>>, p: seq<T>, c: T) {
    if c in p then Covered(cycles, p[Index(p, c)..]) else p + [c] in seen
  }

  ghost predicate Closed<T(!new)>(g: Graph<T>, cycles: seq<seq<T>>, done: set<seq<T>>, seen: set<seq<T>>) {
    forall p, c :: p in done && |p| > 0 && Edge(g, Last(p), c) ==> Handled(cycles, seen, p, c)
  }

  lemma {:induction false} AllDone<T(!new)>(g: Graph<T>, cycles: seq<seq<T>>, done: set<seq<T>>, s: T, p: seq<T>)
    requires Closed(g, cycles, done, done) && [s] in done && SimplePath(g, p, s)
    ensures p in done
    decreases |p|
  {
    if |p| == 1 {
      assert p == [s];
    } else {
      var q := p[..|p| - 1];
      AllDone(g, cycles, done, s, q);
      assert Handled(cycles, done, q, Last(p));
      assert q + [Last(p)] == p;
    }
  }

  lemma {:induction false} FullyExplored<T(!new)>(g: Graph<T>, cycles: seq<seq<T>>, done: set<seq<T>>, s: T)
    requires Closed(g, cycles, done, done) && [s] in done
    ensures Explored(g, cycles, s)
  {
    forall p, c | SimplePath(g, p, s) && Edge(g, Last(p), c) && c in p
      ensures Covered(cycles, p[Index(p, c)..])
    {
      AllDone(g, cycles, done, s, p);
      assert Handled(cycles, done, p, c);
    }
  }

  // ----- every simple cycle is among the explored ones -----

  lemma {:induction false} CompleteFor<T(!new)>(g: Graph<T>, cycles: seq<seq<T>>, starts: set<T>, c: seq<T>)
    requires forall s :: s in starts ==> Explored(g, cycles, s)
    requires SimpleCycle(g, c) && Reached(g, starts, c[0])
    ensures Covered(cycles, c)
  {
    var p, s :| s in starts && SimplePath(g, p, s) && Last(p) == c[0];
    var t := 0;
    while p[t] !in c
      invariant t < |p| && forall u :: 0 <= u < t ==> p[u] !in c
      decreases |p| - t
    {
      t := t + 1;
    }
    var k := Index(c, p[t]);
    var c' := Rotate(c, k);
    var q := p[..t] + c';
    RotatedCycle(g, c, k);
    Lasso(g, s, p, t, c');
    assert Covered(cycles, q[Index(q, c'[0])..]);
    assert q[t] == c'[0] && q[t..] == c';
    var o :| 0 <= o < |cycles| && Rotation(cycles[o], c');
    RotationSymmetric(c, c');
    RotationTransitive(cycles[o], c', c);
  }

  // A simple path up to the cycle, and then once around the cycle.
  lemma {:induction false} Lasso<T>(g: Graph<T>, s: T, p: seq<T>, t: nat, c: seq<T>)
    requires SimplePath(g, p, s) && SimpleCycle(g, c) && t < |p| && p[t] == c[0]
    requires forall u :: 0 <= u < t ==> p[u] !in c
    ensures var q := p[..t] + c;
            SimplePath(g, q, s) && Edge(g, Last(q), c[0]) && c[0] in q && Index(q, c[0]) == t
  {
    var q := p[..t] + c;
    forall u | 1 <= u < |q| ensures Edge(g, q[u - 1], q[u]) {
      if u > t {
        assert Edge(g, c[u - t - 1], c[u - t]);
      } else {
        assert Edge(g, p[u - 1], p[u]);
      }
    }
    assert q[t] == c[0];
  }

  lemma {:induction false} RotatedCycle<T>(g: Graph<T>, c: seq<T>, k: nat)
    requires SimpleCycle(g, c) && k < |c|
    ensures SimpleCycle(g, Rotate(c, k)) && Rotate(c, k)[0] == c[k]
    ensures forall x :: x in Rotate(c, k) ==> x in c
    ensures Rotation(c, Rotate(c, k))
  {
    var r := Rotate(c, k);
    forall t | 1 <= t < |r| ensures Edge(g, r[t - 1], r[t]) {
      if t < |c| - k {
        assert Edge(g, c[k + t - 1], c[k + t]);
      } else if t > |c| - k {
        assert Edge(g, c[t - (|c| - k) - 1], c[t - (|c| - k)]);
      }
    }
    if k > 0 {
      assert Edge(g, c[k - 1], c[k]);
    }
  }

  // ----- the search -----

  // Looks for a rotation of the closed cycle among the ones found, and keeps it if there is none.
  method Record<T(==)>(ghost g: Graph<T>, cycles: seq<seq<T>>, cycle: seq<T>) returns (cycles': seq<seq<T>>)
    requires SoundAndUnique(g, cycles) && SimpleCycle(g, cycle)
    ensures SoundAndUnique(g, cycles') && Covered(cycles', cycle) && cycles <= cycles'
  {
    var isDup := false;
    var t := 0;
    while t < |cycles| && !isDup
      invariant 0 <= t <= |cycles|
      invariant isDup ==> Covered(cycles, cycle)
      invariant !isDup ==> forall u :: 0 <= u < t ==> !Rotation(cycles[u], cycle)
      decreases |cycles| - t, !isDup
    {
      isDup := IsRotated(cycles[t], cycle);
      t := t + 1;
    }
    cycles' := cycles;
    if !isDup {
      cycles' := cycles + [cycle];
      assert Rotate(cycle, 0) == cycle && cycles'[|cycles|] == cycle;
    }
  }

  lemma {:induction false} ClosesCycle<T>(g: Graph<T>, p: seq<T>, s: T, c: T)
    requires SimplePath(g, p, s) && Edge(g, Last(p), c) && c in p
    ensures SimpleCycle(g, p[Index(p, c)..])
  {
    var q := p[Index(p, c)..];
    forall t | 1 <= t < |q| ensures Edge(g, q[t - 1], q[t]) {
      assert Edge(g, p[Index(p, c) + t - 1], p[Index(p, c) + t]);
    }
  }

  ghost function Seen<T>(paths: seq<seq<T>>): set<seq<T>> {
    set q | q in paths
  }

  lemma {:induction false} CoveredMonotone<T>(cycles: seq<seq<T>>, cycles': seq<seq<T>>, seen: set<seq<T>>,
                                              seen': set<seq<T>>, p: seq<T>, c: T)
    requires cycles <= cycles' && seen <= seen' && Handled(cycles, seen, p, c)
    ensures Handled(cycles', seen', p, c)
  {
  }

  // What holds of cycles, paths and visited_nodes while the paths from s are explored.
  ghost predicate Searching<T(!new)>(g: Graph<T>, paths: seq<seq<T>>, cycles: seq<seq<T>>, visited: set<T>, s: T,
                                     starts: set<T>) {
    && SoundAndUnique(g, cycles) && PathStack(g, paths, s) && s in starts
    && forall v :: v in visited ==> Reached(g, starts, v)
  }

  // One child of the end of the popped path: a cycle to record, or a longer path to push.
  method Visit<T(!new, ==)>(g: Graph<T>, path: seq<T>, child: T, paths: seq<seq<T>>, cycles: seq<seq<T>>,
                            visited: set<T>, ghost s: T, ghost starts: set<T>)
    returns (paths': seq<seq<T>>, cycles': seq<seq<T>>, visited': set<T>)
    requires Searching(g, paths, cycles, visited, s, starts)
    requires SimplePath(g, path, s) && Within(g, path) && Edge(g, Last(path), child)
    ensures Searching(g, paths', cycles', visited', s, starts)
    ensures cycles <= cycles' && paths <= paths' && visited <= visited'
    ensures Handled(cycles', Seen(paths'), path, child)
    ensures StackSize(g, paths', s) == StackSize(g, paths, s) + ForestSize(g, path, [child])
  {
    paths', cycles', visited' := paths, cycles, visited;
    assert [child][..0] == [];
    if child in path {
      ClosesCycle(g, path, s, child);
      cycles' := Record(g, cycles', path[Index(path, child)..]);
    } else {
      ghost var longer := path + [child];
      assert SimplePath(g, longer, s) && Last(longer) == child;
      paths' := paths' + [path + [child]];
      assert paths'[|paths|] == longer && paths'[..|paths|] == paths;
      visited' := visited' + {child};
    }
  }

  // Expands one popped path over all the children of its end.
  method Expand<T(!new, ==)>(g: Graph<T>, path: seq<T>, paths: seq<seq<T>>, cycles: seq<seq<T>>, visited: set<T>,
                             ghost s: T, ghost starts: set<T>)
    returns (paths': seq<seq<T>>, cycles': seq<seq<T>>, visited': set<T>)
    requires Searching(g, paths, cycles, visited, s, starts) && SimplePath(g, path, s) && Within(g, path)
    ensures Searching(g, paths', cycles', visited', s, starts)
    ensures cycles <= cycles' && paths <= paths' && visited <= visited'
    ensures forall c :: Edge(g, Last(path), c) ==> Handled(cycles', Seen(paths'), path, c)
    ensures StackSize(g, paths', s) < StackSize(g, paths, s) + TreeSize(g, path)
  {
    hide SoundAndUnique, Reached, Handled, SimplePath;
    paths', cycles', visited' := paths, cycles, visited;
    var parent := path[|path| - 1];
    if parent !in g {
      return;
    }
    var children := g[parent];
    assert forall c :: c in children ==> c in Nodes(g);
    for i := 0 to |children|
      invariant Searching(g, paths', cycles', visited', s, starts)
      invariant cycles <= cycles' && paths <= paths' && visited <= visited'
      invariant forall k :: 0 <= k < i ==> Handled(cycles', Seen(paths'), path, children[k])
      invariant StackSize(g, paths', s) == StackSize(g, paths, s) + ForestSize(g, path, children[..i])
    {
      var child := children[i];
      ghost var before, stack := cycles', paths';
      paths', cycles', visited' := Visit(g, path, child, paths', cycles', visited', s, starts);
      forall k | 0 <= k < i ensures Handled(cycles', Seen(paths'), path, children[k]) {
        CoveredMonotone(before, cycles', Seen(stack), Seen(paths'), path, children[k]);
      }
      ForestStep(g, path, children, i);
    }
    assert children[..|children|] == children;
  }

  lemma {:induction false} ForestStep<T>(g: Graph<T>, p: seq<T>, cs: seq<T>, i: nat)
    requires Within(g, p) && i < |cs| && forall c :: c in cs ==> c in Nodes(g)
    ensures ForestSize(g, p, cs[..i + 1]) == ForestSize(g, p, cs[..i]) + ForestSize(g, p, [cs[i]])
  {
    assert cs[..i + 1][..i] == cs[..i] && [cs[i]][..0] == [];
  }

  // Empties the stack of paths that starts at one node.
  method Search<T(!new, ==)>(g: Graph<T>, s: T, cycles: seq<seq<T>>, visited: set<T>, ghost starts: set<T>)
    returns (cycles': seq<seq<T>>, visited': set<T>)
    requires SoundAndUnique(g, cycles) && s in starts && s in g
    requires forall v :: v in visited ==> Reached(g, starts, v)
    ensures SoundAndUnique(g, cycles') && cycles <= cycles' && Explored(g, cycles', s)
    ensures visited <= visited' && forall v :: v in visited' ==> Reached(g, starts, v)
  {
    cycles', visited' := cycles, visited;
    var paths := [[s]];
    ghost var done: set<seq<T>> := {};
    while paths != []
      invariant SoundAndUnique(g, cycles') && PathStack(g, paths, s) && cycles <= cycles'
      invariant visited <= visited' && forall v :: v in visited' ==> Reached(g, starts, v)
      invariant [s] in done + Seen(paths)
      invariant Closed(g, cycles', done, done + Seen(paths))
      decreases StackSize(g, paths, s)
    {
      ghost var seen, before := done + Seen(paths), cycles';
      var path := paths[|paths| - 1];
      var rest := paths[..|paths| - 1];
      assert forall q :: q in paths ==> q in rest || q == path;
      paths, cycles', visited' := Expand(g, path, rest, cycles', visited', s, starts);
      done := done + {path};
      ghost var now := done + Seen(paths);
      assert seen <= now;
      forall p, c | p in done && |p| > 0 && Edge(g, Last(p), c) ensures Handled(cycles', now, p, c) {
        if p == path {
          CoveredMonotone(cycles', cycles', Seen(paths), now, p, c);
        } else {
          CoveredMonotone(before, cycles', seen, now, p, c);
        }
      }
    }
    assert Seen(paths) == {} && done + Seen(paths) == done;
    FullyExplored(g, cycles', done, s);
  }

  /** Exactly the simple cycles of the graph, each once up to rotation; order is the dictionary's own. */
  method FindCycles<T(!new, ==)>(g: Graph<T>, order: seq<T>) returns (cycles: seq<seq<T>>)
    requires forall v :: v in order <==> v in g
    ensures forall t :: 0 <= t < |cycles| ==> SimpleCycle(g, cycles[t])
    ensures forall s, t :: 0 <= s < |cycles| && 0 <= t < |cycles| && s != t ==> !Rotation(cycles[s], cycles[t])
    ensures forall c :: SimpleCycle(g, c) ==> exists t :: 0 <= t < |cycles| && Rotation(cycles[t], c)
  {
    cycles := [];
    var visited: set<T> := {};
    ghost var starts: set<T> := {};
    for i := 0 to |order|
      invariant SoundAndUnique(g, cycles)
      invariant forall v :: v in visited ==> Reached(g, starts, v)
      invariant forall k :: 0 <= k < i ==> Reached(g, starts, order[k])
      invariant forall s :: s in starts ==> Explored(g, cycles, s)
    {
      var parent := order[i];
      if parent in visited {
        continue;
      }
      ghost var before, starts' := cycles, starts;
      starts := starts + {parent};
      forall v | Reached(g, starts', v) ensures Reached(g, starts, v) {
      }
      assert SimplePath(g, [parent], parent) && Last([parent]) == parent;
      cycles, visited := Search(g, parent, cycles, visited, starts);
      forall s | s in starts' ensures Explored(g, cycles, s) {
        ExploredMonotone(g, before, cycles, s);
      }
    }
    forall c | SimpleCycle(g, c) ensures Covered(cycles, c) {
      assert c[0] in g by {
        if |c| > 1 { assert Edge(g, c[0], c[1]); }
      }
      CompleteFor(g, cycles, starts, c);
    }
    forall s, t | 0 <= s < |cycles| && 0 <= t < |cycles| && s != t ensures !Rotation(cycles[s], cycles[t]) {
      if Rotation(cycles[s], cycles[t]) {
        RotationSymmetric(cycles[s], cycles[t]);
      }
    }
  }

  lemma {:induction false} ExploredMonotone<T(!new)>(g: Graph<T>, cycles: seq<seq<T>>, cycles': seq<seq<T>>, s: T)
    requires Explored(g, cycles, s) && cycles <= cycles'
    ensures Explored(g, cycles', s)
  {
    forall p, c | SimplePath(g, p, s) && Edge(g, Last(p), c) && c in p
      ensures Covered(cycles', p[Index(p, c)..])
    {
      CoveredMonotone(cycles, cycles', {}, {}, p, c);
    }
  }
}
