/** The parent relation that bindings/python/topsort.py sorts: walks, cycles and counts of unplaced parents. */
module TopsortSpec {
  import opened Common

  // The pairlist: (parent, child), repetitions and self-loops allowed.
  type Pairs<T> = seq<(T, T)>

  ghost predicate Parent<T>(ps: Pairs<T>, u: T, v: T) {
    (u, v) in ps
  }

  ghost function Nodes<T>(ps: Pairs<T>): set<T> {
    (set p | p in ps :: p.0) + (set p | p in ps :: p.1)
  }

  // An ancestor chain, oldest first.
  ghost predicate Walk<T>(ps: Pairs<T>, w: seq<T>) {
    |w| > 0 && forall t :: 1 <= t < |w| ==> Parent(ps, w[t - 1], w[t])
  }

  ghost predicate Reaches<T(!new)>(ps: Pairs<T>, u: T, v: T) {
    exists w :: Walk(ps, w) && w[0] == u && Last(w) == v
  }

  ghost predicate OnCycle<T(!new)>(ps: Pairs<T>, x: T) {
    exists w :: Walk(ps, w) && |w| > 1 && w[0] == x && Last(w) == x
  }

  ghost predicate OnOrBelowCycle<T(!new)>(ps: Pairs<T>, x: T) {
    exists y :: OnCycle(ps, y) && Reaches(ps, y, x)
  }

  ghost predicate Acyclic<T(!new)>(ps: Pairs<T>) {
    forall x :: !OnCycle(ps, x)
  }

  lemma {:induction false} WalkJoin<T>(ps: Pairs<T>, a: seq<T>, b: seq<T>)
    requires Walk(ps, a) && Walk(ps, b) && Last(a) == b[0]
    ensures Walk(ps, a + b[1..]) && Last(a + b[1..]) == Last(b)
  {
    var w := a + b[1..];
    forall t | 1 <= t < |w| ensures Parent(ps, w[t - 1], w[t]) {
      if t >= |a| {
        assert Parent(ps, b[t - |a|], b[t - |a| + 1]);
      }
    }
  }

  lemma {:induction false} WalkSlice<T>(ps: Pairs<T>, w: seq<T>, i: nat, j: nat)
    requires Walk(ps, w) && i < j <= |w|
    ensures Walk(ps, w[i..j])
  {
    var v := w[i..j];
    forall t | 1 <= t < |v| ensures Parent(ps, v[t - 1], v[t]) {
      assert Parent(ps, w[i + t - 1], w[i + t]);
    }
  }

  // ----- a set in which everything has a parent of its own holds a cycle above each of its members -----

  ghost predicate HasParentIn<T>(ps: Pairs<T>, r: set<T>, v: T) {
    exists u :: u in r && Parent(ps, u, v)
  }

  lemma {:induction false} CycleAbove<T(!new)>(ps: Pairs<T>, r: set<T>, w: seq<T>, x: T)
    requires forall v {:trigger HasParentIn(ps, r, v)} :: v in r ==> HasParentIn(ps, r, v)
    requires Walk(ps, w) && Distinct(w) && Last(w) == x && forall v :: v in w ==> v in r
    ensures OnOrBelowCycle(ps, x)
    decreases |r| - |w|
  {
    DistinctBound(w, r);
    assert w[0] in w && HasParentIn(ps, r, w[0]);
    var u :| u in r && Parent(ps, u, w[0]);
    var w' := [u] + w;
    assert Walk(ps, w');
    if t :| 0 <= t < |w| && w[t] == u {
      WalkSlice(ps, w', 0, t + 2);
      assert OnCycle(ps, u);
      assert w'[0] == u && Last(w') == x;
      assert Reaches(ps, u, x);
    } else {
      DistinctBound(w', r);
      CycleAbove(ps, r, w', x);
    }
  }

  // ----- an order in which every parent comes first -----

  ghost predicate ParentsFirst<T(!new)>(ps: Pairs<T>, a: seq<T>) {
    forall j, u :: 0 <= j < |a| && Parent(ps, u, a[j]) ==> u in a[..j]
  }

  lemma {:induction false} WalkRises<T(!new)>(ps: Pairs<T>, a: seq<T>, w: seq<T>, j: nat) returns (i: nat)
    requires Distinct(a) && ParentsFirst(ps, a) && Walk(ps, w) && j < |a| && a[j] == Last(w)
    ensures i + (|w| - 1) <= j && a[i] == w[0]
  {
    i := j;
    if |w| > 1 {
      var u := w[|w| - 2];
      assert Parent(ps, u, Last(w));
      var k :| 0 <= k < j && a[k] == u;
      WalkSlice(ps, w, 0, |w| - 1);
      i := WalkRises(ps, a, w[..|w| - 1], k);
    }
  }

  lemma {:induction false} NotBelowCycle<T(!new)>(ps: Pairs<T>, a: seq<T>, x: T)
    requires Distinct(a) && ParentsFirst(ps, a) && x in a
    ensures !OnOrBelowCycle(ps, x)
  {
    if OnOrBelowCycle(ps, x) {
      var y :| OnCycle(ps, y) && Reaches(ps, y, x);
      var j :| 0 <= j < |a| && a[j] == x;
      var r :| Walk(ps, r) && r[0] == y && Last(r) == x;
      var k := WalkRises(ps, a, r, j);
      var c :| Walk(ps, c) && |c| > 1 && c[0] == y && Last(c) == y;
      var i := WalkRises(ps, a, c, k);
    }
  }

  // ----- counting -----

  // Pairs (u, v) whose parent u is not in the set p.
  ghost function Remaining<T>(ps: Pairs<T>, v: T, p: set<T>): nat {
    if |ps| == 0 then 0
    else Remaining(ps[..|ps| - 1], v, p) + if Last(ps).1 == v && Last(ps).0 !in p then 1 else 0
  }

  // children[u], in the order of the pairs
  ghost function ChildrenOf<T>(ps: Pairs<T>, u: T): seq<T> {
    if |ps| == 0 then []
    else ChildrenOf(ps[..|ps| - 1], u) + if Last(ps).0 == u then [Last(ps).1] else []
  }

  ghost function Occurrences<T>(s: seq<T>, v: T): nat {
    if |s| == 0 then 0 else (if s[0] == v then 1 else 0) + Occurrences(s[1..], v)
  }

  /** Remaining counts the pairs of v with a parent outside p. */
  lemma {:induction false} RemainingIs<T>(ps: Pairs<T>, v: T, p: set<T>)
    ensures Remaining(ps, v, p) == |set i | 0 <= i < |ps| && ps[i].1 == v && ps[i].0 !in p|
  {
    if |ps| > 0 {
      var q, n := ps[..|ps| - 1], |ps| - 1;
      RemainingIs(q, v, p);
      var a := set i | 0 <= i < |q| && q[i].1 == v && q[i].0 !in p;
      var b := set i | 0 <= i < |ps| && ps[i].1 == v && ps[i].0 !in p;
      assert forall i :: 0 <= i < n ==> q[i] == ps[i];
      OneMoreIn(a, b, n, ps[n].1 == v && ps[n].0 !in p);
    }
  }

  // The child of the n-th pair of u, in the order of the pairs.
  lemma {:induction false} ChildrenInOrder<T>(ps: Pairs<T>, u: T, n: nat)
    requires n < |ps|
    ensures |ChildrenOf(ps, u)| == |set i | 0 <= i < |ps| && ps[i].0 == u|
    ensures ChildrenOf(ps[..n], u) <= ChildrenOf(ps, u)
    ensures ps[n].0 == u ==>
              |ChildrenOf(ps[..n], u)| < |ChildrenOf(ps, u)| && ChildrenOf(ps, u)[|ChildrenOf(ps[..n], u)|] == ps[n].1
  {
    ChildrenCount(ps, u);
    if n < |ps| - 1 {
      ChildrenInOrder(ps[..|ps| - 1], u, n);
      assert ps[..|ps| - 1][..n] == ps[..n];
    }
  }

  lemma {:induction false} ChildrenCount<T>(ps: Pairs<T>, u: T)
    ensures |ChildrenOf(ps, u)| == |set i | 0 <= i < |ps| && ps[i].0 == u|
  {
    if |ps| > 0 {
      var q, n := ps[..|ps| - 1], |ps| - 1;
      ChildrenCount(q, u);
      var a := set i | 0 <= i < |q| && q[i].0 == u;
      var b := set i | 0 <= i < |ps| && ps[i].0 == u;
      assert forall i :: 0 <= i < n ==> q[i] == ps[i];
      OneMoreIn(a, b, n, ps[n].0 == u);
    }
  }

  lemma {:induction false} OccurrencesAppend<T>(s: seq<T>, x: T, v: T)
    ensures Occurrences(s + [x], v) == Occurrences(s, v) + if x == v then 1 else 0
  {
    if |s| > 0 {
      OccurrencesAppend(s[1..], x, v);
      assert (s + [x])[1..] == s[1..] + [x];
    } else {
      assert s + [x] == [x];
    }
  }

  lemma {:induction false} OccurrencesIn<T>(s: seq<T>, v: T)
    ensures Occurrences(s, v) > 0 <==> v in s
  {
    if |s| > 0 {
      OccurrencesIn(s[1..], v);
    }
  }

  // Placing u takes away as many remaining parents of v as v has places among u's children.
  lemma {:induction false} PlaceParent<T>(ps: Pairs<T>, u: T, v: T, p: set<T>)
    requires u !in p
    ensures Remaining(ps, v, p) == Remaining(ps, v, p + {u}) + Occurrences(ChildrenOf(ps, u), v)
  {
    if |ps| > 0 {
      PlaceParent(ps[..|ps| - 1], u, v, p);
      OccurrencesAppend(ChildrenOf(ps[..|ps| - 1], u), Last(ps).1, v);
      assert ChildrenOf(ps[..|ps| - 1], u) + [] == ChildrenOf(ps[..|ps| - 1], u);
    }
  }

  lemma {:induction false} RemainingZero<T(!new)>(ps: Pairs<T>, v: T, p: set<T>)
    ensures Remaining(ps, v, p) == 0 <==> forall u :: Parent(ps, u, v) ==> u in p
  {
    if |ps| > 0 {
      RemainingZero(ps[..|ps| - 1], v, p);
      assert forall q :: q in ps <==> q in ps[..|ps| - 1] || q == Last(ps);
    }
  }

  lemma {:induction false} ChildrenAre<T>(ps: Pairs<T>, u: T, v: T)
    ensures v in ChildrenOf(ps, u) <==> Parent(ps, u, v)
  {
    if |ps| > 0 {
      ChildrenAre(ps[..|ps| - 1], u, v);
      assert forall q :: q in ps <==> q in ps[..|ps| - 1] || q == Last(ps);
    }
  }

  // ----- longest ancestor chains -----

  // Every ancestor chain that ends at x has at most n nodes.
  ghost predicate Shallow<T(!new)>(ps: Pairs<T>, x: T, n: nat) {
    forall w :: Walk(ps, w) && Last(w) == x ==> |w| <= n
  }

  // The longest ancestor chain above x has n links.
  ghost predicate Depth<T(!new)>(ps: Pairs<T>, x: T, n: nat) {
    Shallow(ps, x, n + 1) && exists w :: Walk(ps, w) && Last(w) == x && |w| == n + 1
  }

  lemma {:induction false} ShallowStep<T(!new)>(ps: Pairs<T>, x: T, n: nat)
    ensures Shallow(ps, x, n + 1) <==> forall u :: Parent(ps, u, x) ==> Shallow(ps, u, n)
  {
    if Shallow(ps, x, n + 1) {
      forall u, w | Parent(ps, u, x) && Walk(ps, w) && Last(w) == u ensures |w| <= n {
        assert Walk(ps, w + [x]) && Last(w + [x]) == x;
      }
    }
    if forall u :: Parent(ps, u, x) ==> Shallow(ps, u, n) {
      forall w | Walk(ps, w) && Last(w) == x ensures |w| <= n + 1 {
        if |w| > 1 {
          WalkSlice(ps, w, 0, |w| - 1);
          assert Parent(ps, w[|w| - 2], x) && Last(w[..|w| - 1]) == w[|w| - 2];
        }
      }
    }
  }

  lemma {:induction false} DepthBetween<T(!new)>(ps: Pairs<T>, x: T, n: nat)
    ensures Depth(ps, x, n) <==> Shallow(ps, x, n + 1) && !Shallow(ps, x, n)
  {
  }

  // Below a cycle there are ancestor chains of every length.
  lemma {:induction false} NoDepthBelowCycle<T(!new)>(ps: Pairs<T>, x: T, n: nat)
    requires OnOrBelowCycle(ps, x)
    ensures !Shallow(ps, x, n)
  {
    var y :| OnCycle(ps, y) && Reaches(ps, y, x);
    var c :| Walk(ps, c) && |c| > 1 && c[0] == y && Last(c) == y;
    var r :| Walk(ps, r) && r[0] == y && Last(r) == x;
    var k := 0;
    while k <= n
      invariant k <= n + 1 && Walk(ps, r) && r[0] == y && Last(r) == x && |r| > k
    {
      WalkJoin(ps, c, r);
      r := c + r[1..];
      k := k + 1;
    }
  }
}
