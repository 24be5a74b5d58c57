/** All-pairs shortest paths, next-hop recording and the next-hop chase of scratch/third.cc. */
module Floyd {
  import opened Common

  // The "no link" sentinel.
  const INF: nat := 0x3fffffff

  type Matrix = seq<seq<nat>>

  // The sum of two 32-bit cells.
  function Add32(a: nat, b: nat): nat {
    (a + b) % WORD
  }

  ghost predicate Square(M: Matrix) {
    forall i :: 0 <= i < |M| ==> |M[i]| == |M|
  }

  // Weights that the source feeds to Floyd: zero diagonal, no entry above the sentinel.
  ghost predicate Weights(M: Matrix) {
    && Square(M)
    && (forall i :: 0 <= i < |M| ==> M[i][i] == 0)
    && (forall i, j :: 0 <= i < |M| && 0 <= j < |M| ==> M[i][j] <= INF)
  }

  // ----- specification of the loop nest -----

  // The cell (i, j) once the phases 0..k-1 of the outer loop are over.
  ghost function Dist(M: Matrix, k: nat, i: nat, j: nat): (d: nat)
    requires Square(M) && k <= |M| && i < |M| && j < |M|
    ensures d <= M[i][j]
  {
    if k == 0 then M[i][j]
    else
      var via := Dist(M, k - 1, i, k - 1) + Dist(M, k - 1, k - 1, j);
      var d := Dist(M, k - 1, i, j);
      if via < d then via else d
  }

  // The last phase that lowered the cell (i, j), or -1.
  ghost function Last(M: Matrix, k: nat, i: nat, j: nat): (l: int)
    requires Square(M) && k <= |M| && i < |M| && j < |M|
    ensures -1 <= l < k
  {
    if k == 0 then -1
    else if Dist(M, k, i, j) < Dist(M, k - 1, i, j) then k - 1
    else Last(M, k - 1, i, j)
  }

  // The next-hop cell after those phases, when it held h before the first one.
  ghost function Hop(M: Matrix, h: nat, k: nat, i: nat, j: nat): nat
    requires Square(M) && k <= |M| && i < |M| && j < |M|
  {
    var l := Last(M, k, i, j);
    if l < 0 then h else l
  }

  // ----- the loop nest -----

  ghost predicate IsMatrix(G: array2<nat>, M: Matrix)
    reads G
  {
    && Square(M) && G.Length0 == |M| && G.Length1 == |M|
    && forall i, j :: 0 <= i < |M| && 0 <= j < |M| ==> G[i, j] == M[i][j]
  }

  // Row and column k do not change in phase k.
  lemma {:induction false} PhaseKeepsCross(M: Matrix, k: nat, i: nat)
    requires Weights(M) && k < |M| && i < |M|
    ensures Dist(M, k + 1, i, k) == Dist(M, k, i, k)
    ensures Dist(M, k + 1, k, i) == Dist(M, k, k, i)
  {
  }

  // The cell (i, j) of both matrices is as after k phases.
  ghost predicate CellAt(G: array2<nat>, H: array2<nat>, M: Matrix, N: Matrix, k: nat, i: nat, j: nat)
    requires Square(M) && Square(N) && |N| == |M| && k <= |M| && i < |M| && j < |M|
    requires G.Length0 == G.Length1 == H.Length0 == H.Length1 == |M|
    reads G, H
  {
    G[i, j] == Dist(M, k, i, j) && H[i, j] == Hop(M, N[i][j], k, i, j)
  }

  // How far the in-place pass has come: cells before (a, b) are done with the phase, the others not yet.
  ghost predicate Progress(G: array2<nat>, H: array2<nat>, M: Matrix, N: Matrix, k: nat, next: nat, a: nat, b: nat)
    reads G, H
  {
    && Square(M) && Square(N) && |N| == |M| && k <= |M|
    && G.Length0 == G.Length1 == H.Length0 == H.Length1 == |M|
    && (forall i: nat, j: nat :: i < |M| && j < |M| && (i < a || (i == a && j < b)) ==>
          next <= |M| && CellAt(G, H, M, N, next, i, j))
    && (forall i: nat, j: nat :: i < |M| && j < |M| && !(i < a || (i == a && j < b)) ==>
          CellAt(G, H, M, N, k, i, j))
  }

  // One phase of one cell; the sum is that of two cells below the sentinel.
  lemma {:induction false} PhaseStep(M: Matrix, h: nat, k: nat, i: nat, j: nat)
    requires Weights(M) && k < |M| && i < |M| && j < |M|
    ensures var via := Add32(Dist(M, k, i, k), Dist(M, k, k, j));
            && Dist(M, k + 1, i, j) == (if via < Dist(M, k, i, j) then via else Dist(M, k, i, j))
            && Hop(M, h, k + 1, i, j) == if via < Dist(M, k, i, j) then k else Hop(M, h, k, i, j)
  {
    assert Dist(M, k, i, k) <= M[i][k] && Dist(M, k, k, j) <= M[k][j];
  }

  // The innermost statement of the loop nest.
  method Relax(G: array2<nat>, nextHop: array2<nat>, k: nat, i: nat, j: nat, ghost M: Matrix, ghost N: Matrix)
    requires G != nextHop && Weights(M) && k < |M| && i < |M| && j < |M|
    requires Progress(G, nextHop, M, N, k, k + 1, i, j)
    modifies G, nextHop
    ensures Progress(G, nextHop, M, N, k, k + 1, i, j + 1)
  {
    PhaseKeepsCross(M, k, i);
    PhaseKeepsCross(M, k, j);
    PhaseStep(M, N[i][j], k, i, j);
    hide Dist, Last, Hop;
    assert G[i, k] == Dist(M, k, i, k) by {
      assert CellAt(G, nextHop, M, N, k + 1, i, k) || CellAt(G, nextHop, M, N, k, i, k);
    }
    assert G[k, j] == Dist(M, k, k, j) by {
      assert CellAt(G, nextHop, M, N, k + 1, k, j) || CellAt(G, nextHop, M, N, k, k, j);
    }
    assert CellAt(G, nextHop, M, N, k, i, j);
    if Add32(G[i, k], G[k, j]) < G[i, j] {
      G[i, j] := Add32(G[i, k], G[k, j]);
      nextHop[i, j] := k;
    }
    assert CellAt(G, nextHop, M, N, k + 1, i, j);
    forall a: nat, b: nat, m: nat | a < |M| && b < |M| && m <= |M| && !(a == i && b == j)
                             && old(CellAt(G, nextHop, M, N, m, a, b))
      ensures CellAt(G, nextHop, M, N, m, a, b)
    {
    }
  }

  method Floyd(G: array2<nat>, nextHop: array2<nat>, ghost M: Matrix, ghost N: Matrix)
    requires G != nextHop && Weights(M) && |N| == |M|
    requires IsMatrix(G, M) && IsMatrix(nextHop, N)
    modifies G, nextHop
    ensures forall i: nat, j: nat :: i < |M| && j < |M| ==> CellAt(G, nextHop, M, N, |M|, i, j)
    ensures IsMatrix(nextHop, AfterPass(M, N))
  {
    var n := G.Length0;
    for k := 0 to n
      invariant Progress(G, nextHop, M, N, k, k + 1, 0, 0)
    {
      for i := 0 to n
        invariant Progress(G, nextHop, M, N, k, k + 1, i, 0)
      {
        for j := 0 to n
          invariant Progress(G, nextHop, M, N, k, k + 1, i, j)
        {
          Relax(G, nextHop, k, i, j, M, N);
        }
      }
    }
    forall i: nat, j: nat | i < |M| && j < |M| ensures nextHop[i, j] == AfterPass(M, N)[i][j] {
      assert CellAt(G, nextHop, M, N, |M|, i, j);
    }
  }

  // ----- paths -----

  ghost predicate Path(M: Matrix, p: seq<nat>, i: nat, j: nat) {
    |p| > 0 && p[0] == i && p[|p| - 1] == j && forall t :: 0 <= t < |p| ==> p[t] < |M|
  }

  ghost function Weight(M: Matrix, p: seq<nat>): nat
    requires Square(M) && forall t :: 0 <= t < |p| ==> p[t] < |M|
  {
    if |p| <= 1 then 0 else M[p[0]][p[1]] + Weight(M, p[1..])
  }

  // Every step of the path is a link.
  ghost predicate Linked(M: Matrix, p: seq<nat>)
    requires Square(M) && forall t :: 0 <= t < |p| ==> p[t] < |M|
  {
    forall t :: 0 <= t < |p| - 1 ==> M[p[t]][p[t + 1]] < INF
  }

  lemma {:induction false} WeightSplit(M: Matrix, p: seq<nat>, t: nat)
    requires Square(M) && t < |p| && forall s :: 0 <= s < |p| ==> p[s] < |M|
    ensures Weight(M, p) == Weight(M, p[..t + 1]) + Weight(M, p[t..])
  {
    if t == 0 {
      assert p[..1] == [p[0]] && p[0..] == p;
    } else {
      WeightSplit(M, p[1..], t - 1);
      assert p[1..][..t] == p[..t + 1][1..];
      assert p[1..][t - 1..] == p[t..];
    }
  }

  lemma {:induction false} WeightBounds(M: Matrix, p: seq<nat>, t: nat)
    requires Square(M) && t + 1 < |p| && forall s :: 0 <= s < |p| ==> p[s] < |M|
    ensures M[p[t]][p[t + 1]] <= Weight(M, p)
  {
    WeightSplit(M, p, t);
  }

  // The paths without inner nodes.
  lemma {:induction false} ShortPath(M: Matrix, k: nat, p: seq<nat>, i: nat, j: nat)
    requires Weights(M) && k <= |M| && i < |M| && j < |M| && Path(M, p, i, j) && |p| <= 2
    ensures Dist(M, k, i, j) <= Weight(M, p)
  {
    assert Dist(M, k, i, j) <= M[i][j];
    if |p| == 2 {
      assert p[1..] == [j];
    }
  }

  // A cell never exceeds the weight of a path whose inner nodes are below k.
  lemma {:induction false} DistBounds(M: Matrix, k: nat, p: seq<nat>, i: nat, j: nat)
    requires Weights(M) && k <= |M| && i < |M| && j < |M| && Path(M, p, i, j)
    requires forall t :: 0 < t < |p| - 1 ==> p[t] < k
    ensures Dist(M, k, i, j) <= Weight(M, p)
    decreases k, |p|
  {
    if |p| <= 2 {
      ShortPath(M, k, p, i, j);
    } else if t :| 0 < t < |p| - 1 && p[t] == k - 1 {
      WeightSplit(M, p, t);
      DistBounds(M, k, p[..t + 1], i, k - 1);
      DistBounds(M, k, p[t..], k - 1, j);
      PhaseKeepsCross(M, k - 1, i);
      PhaseKeepsCross(M, k - 1, j);
    } else {
      assert p[1] < k;
      DistBounds(M, k - 1, p, i, j);
    }
  }

  // ... and some path has exactly that weight.
  lemma {:induction false} DistAttained(M: Matrix, k: nat, i: nat, j: nat) returns (p: seq<nat>)
    requires Weights(M) && k <= |M| && i < |M| && j < |M|
    ensures Path(M, p, i, j) && Weight(M, p) == Dist(M, k, i, j)
  {
    if k == 0 {
      p := [i, j];
      assert p[1..] == [j];
    } else if Dist(M, k, i, j) == Dist(M, k - 1, i, j) {
      p := DistAttained(M, k - 1, i, j);
    } else {
      var a := DistAttained(M, k - 1, i, k - 1);
      var b := DistAttained(M, k - 1, k - 1, j);
      p := Join(M, a, b, i, k - 1, j);
    }
  }

  lemma {:induction false} Join(M: Matrix, a: seq<nat>, b: seq<nat>, i: nat, m: nat, j: nat) returns (p: seq<nat>)
    requires Square(M) && Path(M, a, i, m) && Path(M, b, m, j)
    ensures Path(M, p, i, j) && Weight(M, p) == Weight(M, a) + Weight(M, b)
  {
    p := a + b[1..];
    WeightSplit(M, p, |a| - 1);
    assert p[..|a|] == a && p[|a| - 1..] == b;
  }

  /** Floyd's result is the all-pairs shortest path matrix, with the sentinel for "no path below it". */
  lemma {:induction false} FloydIsShortest(M: Matrix, i: nat, j: nat)
    requires Weights(M) && i < |M| && j < |M|
    ensures Dist(M, |M|, i, j) <= INF
    ensures forall p :: Path(M, p, i, j) && Linked(M, p) ==> Dist(M, |M|, i, j) <= Weight(M, p)
    ensures Dist(M, |M|, i, j) < INF <==>
              exists p :: Path(M, p, i, j) && Linked(M, p) && Weight(M, p) < INF
    ensures Dist(M, |M|, i, j) < INF ==>
              exists p :: Path(M, p, i, j) && Linked(M, p) && Weight(M, p) == Dist(M, |M|, i, j)
  {
    forall p | Path(M, p, i, j) ensures Dist(M, |M|, i, j) <= Weight(M, p) {
      DistBounds(M, |M|, p, i, j);
    }
    var p := DistAttained(M, |M|, i, j);
    if Dist(M, |M|, i, j) < INF {
      forall t | 0 <= t < |p| - 1 ensures M[p[t]][p[t + 1]] < INF {
        WeightBounds(M, p, t);
      }
      assert Linked(M, p);
    }
  }

  lemma {:induction false} Triangle(M: Matrix, i: nat, m: nat, j: nat)
    requires Weights(M) && i < |M| && m < |M| && j < |M|
    ensures Dist(M, |M|, i, j) <= Dist(M, |M|, i, m) + Dist(M, |M|, m, j)
  {
    var a := DistAttained(M, |M|, i, m);
    var b := DistAttained(M, |M|, m, j);
    var p := Join(M, a, b, i, m, j);
    DistBounds(M, |M|, p, i, j);
  }

  // ----- what a recorded hop means -----

  lemma {:induction false} DistMonotone(M: Matrix, k: nat, n: nat, i: nat, j: nat)
    requires Square(M) && k <= n <= |M| && i < |M| && j < |M|
    ensures Dist(M, n, i, j) <= Dist(M, k, i, j)
    ensures k <= Last(M, n, i, j) ==> Dist(M, n, i, j) < Dist(M, k, i, j)
  {
    if k < n {
      DistMonotone(M, k, n - 1, i, j);
    }
  }

  lemma {:induction false} LastSplits(M: Matrix, k: nat, i: nat, j: nat)
    requires Weights(M) && k <= |M| && i < |M| && j < |M|
    ensures var l := Last(M, k, i, j);
            if l < 0 then Dist(M, k, i, j) == M[i][j]
            else l != i && l != j && Dist(M, k, i, j) == Dist(M, l, i, l) + Dist(M, l, l, j)
  {
    if k > 0 {
      LastSplits(M, k - 1, i, j);
      PhaseKeepsCross(M, k - 1, i);
      PhaseKeepsCross(M, k - 1, j);
    }
  }

  /** A recorded hop lies on a shortest path, and the hop recorded towards it is a smaller index. */
  lemma {:induction false} HopDecreases(M: Matrix, i: nat, j: nat)
    requires Weights(M) && i < |M| && j < |M| && Last(M, |M|, i, j) >= 0
    ensures var l := Last(M, |M|, i, j);
            && l != i && l != j && Last(M, |M|, i, l) < l
            && Dist(M, |M|, i, j) == Dist(M, |M|, i, l) + Dist(M, |M|, l, j)
  {
    var l := Last(M, |M|, i, j);
    LastSplits(M, |M|, i, j);
    DistMonotone(M, l, |M|, i, l);
    DistMonotone(M, l, |M|, l, j);
    Triangle(M, i, l, j);
  }

  // ----- the matrices filled while the topology is read -----

  datatype Link = Link(src: nat, dst: nat, rate: nat, delay: nat)

  // One topology line: src < dst (asserted by the source), a rate to divide by, both below the sentinel.
  ghost predicate ValidLinks(ls: seq<Link>, n: nat) {
    forall t :: 0 <= t < |ls| ==>
      ls[t].src < ls[t].dst < n && 0 < ls[t].rate < INF && ls[t].delay < INF
  }

  // Line t joins i and j, in either direction, and no later line does.
  ghost predicate IsLine(ls: seq<Link>, t: nat, i: nat, j: nat) {
    && t < |ls| && ((ls[t].src == i && ls[t].dst == j) || (ls[t].src == j && ls[t].dst == i))
    && forall u :: t < u < |ls| ==> !((ls[u].src == i && ls[u].dst == j) || (ls[u].src == j && ls[u].dst == i))
  }

  ghost predicate NoLine(ls: seq<Link>, i: nat, j: nat) {
    forall u :: 0 <= u < |ls| ==> !((ls[u].src == i && ls[u].dst == j) || (ls[u].src == j && ls[u].dst == i))
  }

  // The last line that joins i and j; a later line overwrites an earlier one.
  ghost function LinkBetween(ls: seq<Link>, i: nat, j: nat): (r: Option<Link>)
    ensures r.Some? ==> r.value in ls
  {
    if |ls| == 0 then None
    else
      var l := ls[|ls| - 1];
      if (l.src == i && l.dst == j) || (l.src == j && l.dst == i) then Some(l)
      else LinkBetween(ls[..|ls| - 1], i, j)
  }

  ghost predicate Adjacent(ls: seq<Link>, i: nat, j: nat) {
    LinkBetween(ls, i, j).Some?
  }

  datatype Quantity = Rate | Delay | Transmission | NextHop

  // The initial cell of bws, pd, td (nanoseconds per 1000 bytes) and nextBDPHop.
  ghost function Cell(q: Quantity, ls: seq<Link>, i: nat, j: nat): nat {
    if i == j then 0
    else match LinkBetween(ls, i, j)
      case None => INF
      case Some(l) =>
        match q
        case Rate => l.rate
        case Delay => l.delay
        case Transmission => if l.rate == 0 then INF else 1000 * 8 / l.rate
        case NextHop => j
  }

  lemma {:induction false} LinkIsLine(ls: seq<Link>, i: nat, j: nat)
    ensures match LinkBetween(ls, i, j)
            case None => NoLine(ls, i, j)
            case Some(l) => exists t: nat :: IsLine(ls, t, i, j) && l == ls[t]
    ensures forall t: nat :: IsLine(ls, t, i, j) ==> LinkBetween(ls, i, j) == Some(ls[t])
  {
    if |ls| > 0 {
      var front := ls[..|ls| - 1];
      LinkIsLine(front, i, j);
      NextLine(ls, i, j);
      hide IsLine, NoLine;
    }
  }

  // What one more line changes.
  lemma {:induction false} NextLine(ls: seq<Link>, i: nat, j: nat)
    requires |ls| > 0
    ensures var front, l := ls[..|ls| - 1], ls[|ls| - 1];
            if (l.src == i && l.dst == j) || (l.src == j && l.dst == i) then
              IsLine(ls, |ls| - 1, i, j) && forall t: nat :: IsLine(ls, t, i, j) ==> t == |ls| - 1
            else
              && (NoLine(ls, i, j) <==> NoLine(front, i, j))
              && (forall t: nat :: IsLine(ls, t, i, j) <==> IsLine(front, t, i, j))
              && forall t: nat :: IsLine(front, t, i, j) ==> t < |front|
    ensures forall t: nat :: IsLine(ls, t, i, j) ==> t < |ls|
  {
  }

  /** What the reader fills in: rate, delay, the time of 1000 bytes and the other end of the last line that joins two
      nodes, nothing on the diagonal, and the sentinel where no line joins them. */
  lemma {:induction false} CellMeans(ls: seq<Link>, i: nat, j: nat)
    ensures i == j ==> forall q :: Cell(q, ls, i, j) == 0
    ensures i != j && NoLine(ls, i, j) ==> forall q :: Cell(q, ls, i, j) == 0x3fffffff
    ensures forall t: nat :: i != j && IsLine(ls, t, i, j) ==>
              && Cell(Rate, ls, i, j) == ls[t].rate && Cell(Delay, ls, i, j) == ls[t].delay
              && (ls[t].rate > 0 ==> Cell(Transmission, ls, i, j) == 8000 / ls[t].rate)
              && Cell(NextHop, ls, i, j) == j
    ensures Adjacent(ls, i, j) <==> !NoLine(ls, i, j)
    ensures Adjacent(ls, i, j) ==> exists t: nat :: IsLine(ls, t, i, j)
  {
    LinkIsLine(ls, i, j);
    hide LinkBetween;
  }

  ghost function Initial(q: Quantity, ls: seq<Link>, n: nat): (M: Matrix)
    ensures Square(M) && |M| == n
    ensures forall i, j :: 0 <= i < n && 0 <= j < n ==> M[i][j] == Cell(q, ls, i, j)
  {
    seq(n, i requires 0 <= i < n => seq(n, j requires 0 <= j < n => Cell(q, ls, i, j)))
  }

  lemma {:induction false} InitialWeights(q: Quantity, ls: seq<Link>, n: nat)
    requires ValidLinks(ls, n) && q != NextHop
    ensures Weights(Initial(q, ls, n))
    ensures forall i, j :: 0 <= i < n && 0 <= j < n && i != j ==> (Cell(q, ls, i, j) < INF <==> Adjacent(ls, i, j))
  {
  }

  ghost predicate Holds(G: array2<nat>, q: Quantity, ls: seq<Link>, n: nat)
    reads G
  {
    G.Length0 == G.Length1 == n && forall i: nat, j: nat :: i < n && j < n ==> G[i, j] == Cell(q, ls, i, j)
  }

  // The two cells a topology line overwrites in one matrix.
  method SetPair(G: array2<nat>, l: Link, forward: nat, backward: nat,
                 ghost q: Quantity, ghost ls: seq<Link>, ghost n: nat)
    requires l.src < l.dst < n && Holds(G, q, ls, n)
    requires forward == Cell(q, ls + [l], l.src, l.dst) && backward == Cell(q, ls + [l], l.dst, l.src)
    modifies G
    ensures Holds(G, q, ls + [l], n)
  {
    G[l.src, l.dst] := forward;
    G[l.dst, l.src] := backward;
    assert (ls + [l])[..|ls|] == ls;
  }

  method NewMatrix(n: nat) returns (G: array2<nat>)
    ensures fresh(G) && forall q :: Holds(G, q, [], n)
  {
    G := new nat[n, n]((i, j) => if i == j then 0 else INF);
  }

  method ReadLinks(n: nat, ls: seq<Link>)
    returns (bws: array2<nat>, pd: array2<nat>, td: array2<nat>, nextHop: array2<nat>)
    requires ValidLinks(ls, n)
    ensures fresh(bws) && fresh(pd) && fresh(td) && fresh(nextHop)
    ensures bws != pd && bws != td && bws != nextHop && pd != td && pd != nextHop && td != nextHop
    ensures Holds(bws, Rate, ls, n) && Holds(pd, Delay, ls, n)
    ensures Holds(td, Transmission, ls, n) && Holds(nextHop, NextHop, ls, n)
    ensures forall i: nat, j: nat, t: nat :: i < n && j < n && i != j && IsLine(ls, t, i, j) ==>
              && bws[i, j] == ls[t].rate && pd[i, j] == ls[t].delay && td[i, j] == 8000 / ls[t].rate
              && nextHop[i, j] == j
    ensures forall i: nat, j: nat :: i < n && j < n && i != j && NoLine(ls, i, j) ==>
              bws[i, j] == pd[i, j] == td[i, j] == nextHop[i, j] == 0x3fffffff
    ensures forall i: nat :: i < n ==> bws[i, i] == pd[i, i] == td[i, i] == nextHop[i, i] == 0
  {
    hide Holds;
    bws := NewMatrix(n);
    pd := NewMatrix(n);
    td := NewMatrix(n);
    nextHop := NewMatrix(n);
    assert ls[..0] == [];
    for t := 0 to |ls|
      invariant Holds(bws, Rate, ls[..t], n) && Holds(pd, Delay, ls[..t], n)
      invariant Holds(td, Transmission, ls[..t], n) && Holds(nextHop, NextHop, ls[..t], n)
    {
      var l := ls[t];
      assert ls[..t + 1] == ls[..t] + [l];
      SetPair(nextHop, l, l.dst, l.src, NextHop, ls[..t], n);
      SetPair(bws, l, l.rate, l.rate, Rate, ls[..t], n);
      SetPair(pd, l, l.delay, l.delay, Delay, ls[..t], n);
      SetPair(td, l, 1000 * 8 / l.rate, 1000 * 8 / l.rate, Transmission, ls[..t], n);
    }
    assert ls[..|ls|] == ls;
    CellsMean(bws, pd, td, nextHop, ls, n);
  }

  lemma {:induction false} CellsMean(bws: array2<nat>, pd: array2<nat>, td: array2<nat>, nextHop: array2<nat>,
                                     ls: seq<Link>, n: nat)
    requires ValidLinks(ls, n) && Holds(bws, Rate, ls, n) && Holds(pd, Delay, ls, n)
    requires Holds(td, Transmission, ls, n) && Holds(nextHop, NextHop, ls, n)
    ensures forall i: nat, j: nat, t: nat :: i < n && j < n && i != j && IsLine(ls, t, i, j) ==>
              && bws[i, j] == ls[t].rate && pd[i, j] == ls[t].delay && td[i, j] == 8000 / ls[t].rate
              && nextHop[i, j] == j
    ensures forall i: nat, j: nat :: i < n && j < n && i != j && NoLine(ls, i, j) ==>
              bws[i, j] == pd[i, j] == td[i, j] == nextHop[i, j] == 0x3fffffff
    ensures forall i: nat :: i < n ==> bws[i, i] == pd[i, i] == td[i, i] == nextHop[i, i] == 0
  {
    hide Cell;
    forall i: nat, j: nat, t: nat | i < n && j < n && i != j && IsLine(ls, t, i, j)
      ensures bws[i, j] == ls[t].rate && pd[i, j] == ls[t].delay && td[i, j] == 8000 / ls[t].rate
      ensures nextHop[i, j] == j
    {
      CellMeans(ls, i, j);
    }
    forall i: nat, j: nat | i < n && j < n && i != j && NoLine(ls, i, j)
      ensures bws[i, j] == pd[i, j] == td[i, j] == nextHop[i, j] == 0x3fffffff
    {
      CellMeans(ls, i, j);
    }
    forall i: nat | i < n ensures bws[i, i] == pd[i, i] == td[i, i] == nextHop[i, i] == 0 {
      CellMeans(ls, i, i);
    }
  }

  // ----- both passes over the one next-hop matrix -----

  ghost function PathDelay(q: Quantity, ls: seq<Link>, n: nat, i: nat, j: nat): nat
    requires i < n && j < n
  {
    Dist(Initial(q, ls, n), n, i, j)
  }

  // What pd's pass and then td's pass leave in nextBDPHop.
  ghost function SharedHop(ls: seq<Link>, n: nat, i: nat, j: nat): nat
    requires i < n && j < n
  {
    var h := Hop(Initial(Delay, ls, n), Cell(NextHop, ls, i, j), n, i, j);
    Hop(Initial(Transmission, ls, n), h, n, i, j)
  }

  ghost predicate BothPasses(pd: array2<nat>, td: array2<nat>, nextHop: array2<nat>, ls: seq<Link>, n: nat)
    reads pd, td, nextHop
  {
    && pd.Length0 == pd.Length1 == td.Length0 == td.Length1 == nextHop.Length0 == nextHop.Length1 == n
    && forall i: nat, j: nat :: i < n && j < n ==>
         && pd[i, j] == PathDelay(Delay, ls, n, i, j)
         && td[i, j] == PathDelay(Transmission, ls, n, i, j)
         && nextHop[i, j] == SharedHop(ls, n, i, j)
  }

  /** Reading the topology and running Floyd on pd and then on td, over the one next-hop matrix. */
  method PrepareHops(n: nat, ls: seq<Link>)
    returns (bws: array2<nat>, pd: array2<nat>, td: array2<nat>, nextHop: array2<nat>)
    requires ValidLinks(ls, n)
    ensures Holds(bws, Rate, ls, n) && BothPasses(pd, td, nextHop, ls, n)
  {
    bws, pd, td, nextHop := ReadLinks(n, ls);
    ghost var P, T := Initial(Delay, ls, n), Initial(Transmission, ls, n);
    InitialWeights(Delay, ls, n);
    InitialWeights(Transmission, ls, n);
    ghost var H := Initial(NextHop, ls, n);
    Floyd(pd, nextHop, P, H);
    ghost var H' := AfterPass(P, H);
    forall i: nat, j: nat | i < n && j < n ensures pd[i, j] == PathDelay(Delay, ls, n, i, j) {
      assert CellAt(pd, nextHop, P, H, n, i, j);
    }
    Floyd(td, nextHop, T, H');
    assert Holds(bws, Rate, ls, n);
    forall i: nat, j: nat | i < n && j < n
      ensures pd[i, j] == PathDelay(Delay, ls, n, i, j)
      ensures td[i, j] == PathDelay(Transmission, ls, n, i, j)
      ensures nextHop[i, j] == SharedHop(ls, n, i, j)
    {
      assert CellAt(td, nextHop, T, H', n, i, j);
    }
  }

  ghost function AfterPass(M: Matrix, N: Matrix): (N': Matrix)
    requires Square(M) && Square(N) && |N| == |M|
    ensures Square(N') && |N'| == |M|
    ensures forall i: nat, j: nat :: i < |M| && j < |M| ==> N'[i][j] == Hop(M, N[i][j], |M|, i, j)
  {
    seq(|M|, i requires 0 <= i < |M| => seq(|M|, j requires 0 <= j < |M| => Hop(M, N[i][j], |M|, i, j)))
  }

  // ----- the chase -----

  // One step of the chase: from any reachable h that is not i's neighbour, the next index is reachable
  // from i, is not i, is on a td-shortest path to h, and is followed by smaller indices.
  lemma {:induction false} ChaseStep(ls: seq<Link>, n: nat, i: nat, h: nat)
    requires ValidLinks(ls, n) && i < n && h < n && h != i && !Adjacent(ls, i, h)
    requires PathDelay(Transmission, ls, n, i, h) < INF
    ensures var m := SharedHop(ls, n, i, h);
            && m < n && m != i && m != h
            && PathDelay(Transmission, ls, n, i, m) < INF
            && PathDelay(Transmission, ls, n, i, h)
               == PathDelay(Transmission, ls, n, i, m) + PathDelay(Transmission, ls, n, m, h)
            && (!Adjacent(ls, i, m) ==> SharedHop(ls, n, i, m) < m)
  {
    var T := Initial(Transmission, ls, n);
    InitialWeights(Transmission, ls, n);
    LastSplits(T, n, i, h);
    HopDecreases(T, i, h);
    var m := Last(T, n, i, h);
    if !Adjacent(ls, i, m) {
      LastSplits(T, n, i, m);
    }
  }

  // Transmission times of whole paths stay below the sentinel wherever propagation delays do.
  ghost predicate SumsFit(ls: seq<Link>, n: nat, i: nat)
    requires i < n
  {
    forall m: nat :: m < n && PathDelay(Delay, ls, n, i, m) < INF ==> PathDelay(Transmission, ls, n, i, m) < INF
  }

  // The first index: it may come from pd's pass when j is adjacent to i.
  lemma {:induction false} ChaseStart(ls: seq<Link>, n: nat, i: nat, j: nat)
    requires ValidLinks(ls, n) && i < n && j < n && j != i && SumsFit(ls, n, i)
    requires PathDelay(Transmission, ls, n, i, j) < INF
    ensures var m := SharedHop(ls, n, i, j);
            && m < n && m != i && PathDelay(Transmission, ls, n, i, m) < INF
  {
    if Adjacent(ls, i, j) {
      var P, T := Initial(Delay, ls, n), Initial(Transmission, ls, n);
      InitialWeights(Delay, ls, n);
      InitialWeights(Transmission, ls, n);
      if Last(T, n, i, j) >= 0 {
        HopDecreases(T, i, j);
      } else if Last(P, n, i, j) >= 0 {
        HopDecreases(P, i, j);
      }
    } else {
      ChaseStep(ls, n, i, j);
    }
  }

  // Whether the link found at h is the answer for destination j.
  ghost predicate OnRoute(ls: seq<Link>, n: nat, i: nat, h: nat, j: nat)
    requires i < n && h < n && j < n
  {
    PathDelay(Transmission, ls, n, i, j)
    == PathDelay(Transmission, ls, n, i, h) + PathDelay(Transmission, ls, n, h, j)
  }

  // j is a neighbour, td's pass kept the direct link to it and pd's pass did not. Both sides can be read off pd and td.
  ghost predicate FirstFromDelay(ls: seq<Link>, n: nat, i: nat, j: nat)
    requires i < n && j < n
  {
    && Adjacent(ls, i, j)
    && PathDelay(Transmission, ls, n, i, j) == Cell(Transmission, ls, i, j)
    && PathDelay(Delay, ls, n, i, j) < Cell(Delay, ls, i, j)
  }

  lemma {:induction false} LoweredIff(M: Matrix, i: nat, j: nat)
    requires Weights(M) && i < |M| && j < |M|
    ensures Last(M, |M|, i, j) >= 0 <==> Dist(M, |M|, i, j) < M[i][j]
  {
    LastSplits(M, |M|, i, j);
    DistMonotone(M, 0, |M|, i, j);
  }

  /** In every other case the first index is on a td-shortest path to j and is followed by a smaller one. */
  lemma {:induction false} FirstIsOnRoute(ls: seq<Link>, n: nat, i: nat, j: nat)
    requires ValidLinks(ls, n) && i < n && j < n && j != i && SumsFit(ls, n, i)
    requires PathDelay(Transmission, ls, n, i, j) < INF && !FirstFromDelay(ls, n, i, j)
    ensures var m := SharedHop(ls, n, i, j);
            && m < n && OnRoute(ls, n, i, m, j)
            && (!Adjacent(ls, i, m) ==> SharedHop(ls, n, i, m) < m)
  {
    if Adjacent(ls, i, j) {
      var P, T := Initial(Delay, ls, n), Initial(Transmission, ls, n);
      InitialWeights(Delay, ls, n);
      InitialWeights(Transmission, ls, n);
      LoweredIff(T, i, j);
      LoweredIff(P, i, j);
      if Last(T, n, i, j) >= 0 {
        HopDecreases(T, i, j);
        LoweredIff(T, i, Last(T, n, i, j));
      } else {
        assert Dist(T, n, j, j) <= T[j][j];
      }
    } else {
      ChaseStep(ls, n, i, j);
    }
  }

  // The indices the chase goes through, the last of them a neighbour of i.
  ghost predicate Trail(ls: seq<Link>, n: nat, i: nat, j: nat, trail: seq<nat>)
    requires i < n && j < n
  {
    && |trail| > 0 && trail[0] == SharedHop(ls, n, i, j)
    && (forall k :: 0 <= k < |trail| ==> trail[k] < n)
    && forall k :: 1 <= k < |trail| ==> Follows(ls, n, i, trail[k - 1], trail[k])
  }

  ghost predicate Follows(ls: seq<Link>, n: nat, i: nat, h: nat, m: nat)
    requires i < n && h < n
  {
    !Adjacent(ls, i, h) && m == SharedHop(ls, n, i, h)
  }

  ghost predicate DescendsFrom(trail: seq<nat>, start: nat) {
    forall k :: start < k < |trail| ==> trail[k] < trail[k - 1]
  }

  /** The chase ends, at a direct neighbour of i. The indices decrease from the second on, and from the first on iff
      the first step does. The neighbour is on a td-shortest path to j whenever the first index is, and if the first
      index is a neighbour, only then. Both hold unless the first index of an adjacent j comes from pd's pass. */
  method Chase(bws: array2<nat>, nextHop: array2<nat>, i: nat, j: nat, ghost ls: seq<Link>, n: nat)
    returns (link: nat, hopBefore: nat, ghost trail: seq<nat>)
    requires ValidLinks(ls, n) && i < n && j < n && i != j && SumsFit(ls, n, i)
    requires Holds(bws, Rate, ls, n) && nextHop.Length0 == nextHop.Length1 == n
    requires forall a: nat, b: nat :: a < n && b < n ==> nextHop[a, b] == SharedHop(ls, n, a, b)
    requires PathDelay(Transmission, ls, n, i, j) < INF
    ensures hopBefore < n && hopBefore != i && link == bws[i, hopBefore]
    ensures exists t: nat :: IsLine(ls, t, i, hopBefore) && link == ls[t].rate
    ensures Adjacent(ls, i, hopBefore)
    ensures Trail(ls, n, i, j, trail) && trail[|trail| - 1] == hopBefore
    ensures DescendsFrom(trail, 1)
    ensures DescendsFrom(trail, 0) <==> Adjacent(ls, i, trail[0]) || SharedHop(ls, n, i, trail[0]) < trail[0]
    ensures OnRoute(ls, n, i, trail[0], j) ==> OnRoute(ls, n, i, hopBefore, j)
    ensures Adjacent(ls, i, trail[0]) ==> hopBefore == trail[0]
    ensures !FirstFromDelay(ls, n, i, j) ==> DescendsFrom(trail, 0) && OnRoute(ls, n, i, hopBefore, j)
  {
    ChaseBegins(ls, n, i, j);
    hide Chasing, Trail, SharedHop, PathDelay, Adjacent, Cell, OnRoute, FirstFromDelay, DescendsFrom;
    link := bws[i, nextHop[i, j]];
    hopBefore := nextHop[i, j];
    trail := [hopBefore];
    RateTells(ls, n, i, hopBefore);
    while link == INF
      invariant hopBefore < n && hopBefore != i && link == bws[i, hopBefore] == Cell(Rate, ls, i, hopBefore)
      invariant Adjacent(ls, i, hopBefore) <==> link != INF
      invariant Chasing(ls, n, i, j, trail) && |trail| > 0 && trail[|trail| - 1] == hopBefore
      decreases |trail| == 1, hopBefore
    {
      ChaseContinues(ls, n, i, j, trail);
      link := bws[i, nextHop[i, hopBefore]];
      hopBefore := nextHop[i, hopBefore];
      trail := trail + [hopBefore];
      RateTells(ls, n, i, hopBefore);
    }
    ChaseEnds(ls, n, i, j, trail);
    CellMeans(ls, i, hopBefore);
  }

  // What holds of the indices so far.
  ghost predicate Chasing(ls: seq<Link>, n: nat, i: nat, j: nat, trail: seq<nat>)
    requires i < n && j < n
  {
    && Trail(ls, n, i, j, trail) && DescendsFrom(trail, 1)
    && var h := trail[|trail| - 1];
    && h != i && PathDelay(Transmission, ls, n, i, h) < INF
    && (OnRoute(ls, n, i, trail[0], j) ==> OnRoute(ls, n, i, h, j))
    && (|trail| > 1 && !Adjacent(ls, i, h) ==> SharedHop(ls, n, i, h) < h)
  }

  lemma {:induction false} ChaseBegins(ls: seq<Link>, n: nat, i: nat, j: nat)
    requires ValidLinks(ls, n) && i < n && j < n && i != j && SumsFit(ls, n, i)
    requires PathDelay(Transmission, ls, n, i, j) < INF
    ensures SharedHop(ls, n, i, j) < n && SharedHop(ls, n, i, j) != i
    ensures Chasing(ls, n, i, j, [SharedHop(ls, n, i, j)])
  {
    ChaseStart(ls, n, i, j);
    hide SharedHop, PathDelay, Adjacent, OnRoute;
  }

  lemma {:induction false} ChaseContinues(ls: seq<Link>, n: nat, i: nat, j: nat, trail: seq<nat>)
    requires ValidLinks(ls, n) && i < n && j < n && Chasing(ls, n, i, j, trail)
    requires !Adjacent(ls, i, trail[|trail| - 1])
    ensures var h := trail[|trail| - 1];
            var m := SharedHop(ls, n, i, h);
            m < n && m != i && (|trail| > 1 ==> m < h) && Chasing(ls, n, i, j, trail + [m])
  {
    ChaseMoves(ls, n, i, trail[|trail| - 1], j);
    TrailGrows(ls, n, i, j, trail);
    hide SharedHop, PathDelay, Adjacent, OnRoute, Trail, DescendsFrom;
    assert Trail(ls, n, i, j, trail) && |trail| > 0 by {
      assert Chasing(ls, n, i, j, trail);
    }
  }

  lemma {:induction false} ChaseEnds(ls: seq<Link>, n: nat, i: nat, j: nat, trail: seq<nat>)
    requires ValidLinks(ls, n) && i < n && j < n && i != j && SumsFit(ls, n, i)
    requires PathDelay(Transmission, ls, n, i, j) < INF
    requires Chasing(ls, n, i, j, trail) && Adjacent(ls, i, trail[|trail| - 1])
    ensures Trail(ls, n, i, j, trail) && DescendsFrom(trail, 1)
    ensures DescendsFrom(trail, 0) <==> Adjacent(ls, i, trail[0]) || SharedHop(ls, n, i, trail[0]) < trail[0]
    ensures Adjacent(ls, i, trail[0]) ==> |trail| == 1
    ensures OnRoute(ls, n, i, trail[0], j) ==> OnRoute(ls, n, i, trail[|trail| - 1], j)
    ensures !FirstFromDelay(ls, n, i, j) ==> DescendsFrom(trail, 0) && OnRoute(ls, n, i, trail[|trail| - 1], j)
  {
    FirstStepDecides(ls, n, i, j, trail);
    if !FirstFromDelay(ls, n, i, j) {
      FirstIsOnRoute(ls, n, i, j);
    }
    hide SharedHop, PathDelay, Adjacent, OnRoute, DescendsFrom, FirstFromDelay;
  }

  lemma {:induction false} RateTells(ls: seq<Link>, n: nat, i: nat, h: nat)
    requires ValidLinks(ls, n) && i < n && h < n && h != i
    ensures Adjacent(ls, i, h) <==> Cell(Rate, ls, i, h) != INF
  {
    InitialWeights(Rate, ls, n);
  }

  lemma {:induction false} TrailGrows(ls: seq<Link>, n: nat, i: nat, j: nat, trail: seq<nat>)
    requires i < n && j < n && Trail(ls, n, i, j, trail) && DescendsFrom(trail, 1)
    requires var h := trail[|trail| - 1]; !Adjacent(ls, i, h) && SharedHop(ls, n, i, h) < n
    requires var h := trail[|trail| - 1]; |trail| > 1 ==> SharedHop(ls, n, i, h) < h
    ensures var trail' := trail + [SharedHop(ls, n, i, trail[|trail| - 1])];
            Trail(ls, n, i, j, trail') && DescendsFrom(trail', 1)
  {
    hide SharedHop, Adjacent;
  }

  lemma {:induction false} FirstStepDecides(ls: seq<Link>, n: nat, i: nat, j: nat, trail: seq<nat>)
    requires i < n && j < n && Trail(ls, n, i, j, trail) && DescendsFrom(trail, 1)
    requires Adjacent(ls, i, trail[|trail| - 1])
    ensures DescendsFrom(trail, 0) <==> Adjacent(ls, i, trail[0]) || SharedHop(ls, n, i, trail[0]) < trail[0]
    ensures Adjacent(ls, i, trail[0]) ==> |trail| == 1
  {
    hide SharedHop, Adjacent;
    if |trail| > 1 {
      assert Follows(ls, n, i, trail[0], trail[1]);
    }
  }

  lemma {:induction false} ChaseMoves(ls: seq<Link>, n: nat, i: nat, h: nat, j: nat)
    requires ValidLinks(ls, n) && i < n && h < n && h != i && !Adjacent(ls, i, h) && j < n
    requires PathDelay(Transmission, ls, n, i, h) < INF
    ensures var m := SharedHop(ls, n, i, h);
            && m < n && m != i && PathDelay(Transmission, ls, n, i, m) < INF
            && (OnRoute(ls, n, i, h, j) ==> OnRoute(ls, n, i, m, j))
            && (!Adjacent(ls, i, m) ==> SharedHop(ls, n, i, m) < m)
  {
    ChaseStep(ls, n, i, h);
    var m := SharedHop(ls, n, i, h);
    if OnRoute(ls, n, i, h, j) {
      TransmissionTriangle(ls, n, i, m, h, j);
    }
  }

  // A node on a shortest path to a node on a shortest path to j is on a shortest path to j.
  lemma {:induction false} TransmissionTriangle(ls: seq<Link>, n: nat, i: nat, m: nat, h: nat, j: nat)
    requires ValidLinks(ls, n) && i < n && m < n && h < n && j < n
    requires OnRoute(ls, n, i, m, h) && OnRoute(ls, n, i, h, j)
    ensures OnRoute(ls, n, i, m, j)
  {
    InitialWeights(Transmission, ls, n);
    Triangle(Initial(Transmission, ls, n), m, h, j);
    Triangle(Initial(Transmission, ls, n), i, m, j);
  }

  // ----- when path sums fit -----

  // Cutting out the loops of a linked path.
  lemma {:induction false} SimplePath(M: Matrix, p: seq<nat>, i: nat, j: nat) returns (q: seq<nat>)
    requires Square(M) && Path(M, p, i, j) && Linked(M, p)
    ensures Path(M, q, i, j) && Linked(M, q) && Distinct(q)
    decreases |p|
  {
    if s, t :| 0 <= s < t < |p| && p[s] == p[t] {
      var r := p[..s] + p[t..];
      forall u | 0 <= u < |r| - 1 ensures M[r[u]][r[u + 1]] < INF {
        if u >= s {
          assert r[u] == p[u + t - s] && r[u + 1] == p[u + 1 + t - s];
        } else {
          assert r[u] == p[u] && r[u + 1] == p[u + 1];
        }
      }
      q := SimplePath(M, r, i, j);
    } else {
      q := p;
    }
  }

  lemma {:induction false} LightPath(M: Matrix, p: seq<nat>)
    requires Square(M) && |p| > 0 && (forall t :: 0 <= t < |p| ==> p[t] < |M|) && Linked(M, p)
    requires forall a, b :: 0 <= a < |M| && 0 <= b < |M| && M[a][b] < INF ==> M[a][b] <= 8000
    ensures Weight(M, p) <= 8000 * (|p| - 1)
  {
    if |p| > 1 {
      var q, r := p[..|p| - 1], p[|p| - 2..];
      WeightSplit(M, p, |p| - 2);
      LightPath(M, q);
      assert r[1..] == [p[|p| - 1]];
    }
  }

  lemma {:induction false} TransmissionAtMost8000(ls: seq<Link>, n: nat, i: nat, j: nat)
    requires ValidLinks(ls, n) && i < n && j < n && Cell(Transmission, ls, i, j) < INF
    ensures Cell(Transmission, ls, i, j) <= 8000
  {
  }

  /** With at most 134217 nodes, "below the sentinel" is exactly "connected", in td and whenever pd is. */
  lemma {:induction false} ReachableIffConnected(ls: seq<Link>, n: nat, i: nat, j: nat)
    requires ValidLinks(ls, n) && i < n && j < n && n * 8000 <= INF
    ensures var T := Initial(Transmission, ls, n);
            PathDelay(Transmission, ls, n, i, j) < INF <==> exists p :: Path(T, p, i, j) && Linked(T, p)
    ensures PathDelay(Delay, ls, n, i, j) < INF ==> PathDelay(Transmission, ls, n, i, j) < INF
  {
    var P, T := Initial(Delay, ls, n), Initial(Transmission, ls, n);
    InitialWeights(Delay, ls, n);
    InitialWeights(Transmission, ls, n);
    FloydIsShortest(P, i, j);
    FloydIsShortest(T, i, j);
    if PathDelay(Delay, ls, n, i, j) < INF {
      var p :| Path(P, p, i, j) && Linked(P, p);
      forall t | 0 <= t < |p| - 1 ensures T[p[t]][p[t + 1]] < INF {
      }
      assert Path(T, p, i, j) && Linked(T, p);
    }
    if p :| Path(T, p, i, j) && Linked(T, p) {
      var q := SimplePath(T, p, i, j);
      DistinctBound(q, Below(n));
      forall a, b | 0 <= a < |T| && 0 <= b < |T| && T[a][b] < INF ensures T[a][b] <= 8000 {
        TransmissionAtMost8000(ls, n, a, b);
      }
      LightPath(T, q);
    }
  }

  lemma {:induction false} SmallNetworksFit(ls: seq<Link>, n: nat, i: nat)
    requires ValidLinks(ls, n) && i < n && n * 8000 <= INF
    ensures SumsFit(ls, n, i)
  {
    forall m: nat | m < n && PathDelay(Delay, ls, n, i, m) < INF
      ensures PathDelay(Transmission, ls, n, i, m) < INF
    {
      ReachableIffConnected(ls, n, i, m);
    }
  }
}
