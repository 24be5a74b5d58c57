/** Networks that the simulation accepts and chases where the first index, taken from the delay pass, misleads. */
module ChaseExamples {
  import Common
  import opened Floyd

  // The assertions of the topology reader: a host is only linked to switches, and every host is linked.
  ghost predicate ReaderAccepts(ls: seq<Link>, hosts: nat, n: nat) {
    && ValidLinks(ls, n)
    && (forall t :: 0 <= t < |ls| && ls[t].src < hosts ==> ls[t].dst >= hosts)
    && forall h: nat :: h < hosts ==> IsLinked(ls, h)
  }

  ghost predicate IsLinked(ls: seq<Link>, h: nat) {
    exists t :: 0 <= t < |ls| && ls[t].src == h
  }

  // The bounds of the two loops around the chase: i is a switch, j a host or a ToR switch.
  ghost predicate Chased(hosts: nat, perRack: nat, n: nat, i: nat, j: nat) {
    perRack > 0 && hosts <= i < n && j < hosts + hosts / perRack && i != j
  }

  lemma {:induction false} OneMoreLink(ls: seq<Link>, t: nat, i: nat, j: nat)
    requires t < |ls|
    ensures var l := ls[t];
            LinkBetween(ls[..t + 1], i, j)
            == if (l.src == i && l.dst == j) || (l.src == j && l.dst == i) then Common.Some(l)
               else LinkBetween(ls[..t], i, j)
  {
    assert ls[..t + 1][..t] == ls[..t];
  }

  // A phase through a far node changes nothing.
  lemma {:induction false} NoShortcut(M: Matrix, k: nat, i: nat, j: nat)
    requires Square(M) && k < |M| && i < |M| && j < |M|
    requires Dist(M, k, i, k) >= Dist(M, k, i, j) || Dist(M, k, k, j) >= Dist(M, k, i, j)
    ensures Dist(M, k + 1, i, j) == Dist(M, k, i, j) && Last(M, k + 1, i, j) == Last(M, k, i, j)
  {
  }

  // ----- hosts 0 and 1, ToRs 2 and 3, switch 4 -----

  const DetourLinks := [Link(0, 2, 100, 1), Link(1, 3, 100, 1), Link(2, 4, 100, 10), Link(2, 3, 100, 1),
                        Link(3, 4, 100, 1)]

  function DetourBetween(i: nat, j: nat): Common.Option<Link> {
    match (if i < j then (i, j) else (j, i))
    case (0, 2) => Common.Some(DetourLinks[0])
    case (1, 3) => Common.Some(DetourLinks[1])
    case (2, 4) => Common.Some(DetourLinks[2])
    case (2, 3) => Common.Some(DetourLinks[3])
    case (3, 4) => Common.Some(DetourLinks[4])
    case _ => Common.None
  }

  lemma {:induction false} DetourIs(i: nat, j: nat)
    ensures LinkBetween(DetourLinks, i, j) == DetourBetween(i, j)
  {
    var ls := DetourLinks;
    assert ls[..0] == [] && ls[..5] == ls;
    OneMoreLink(ls, 0, i, j);
    OneMoreLink(ls, 1, i, j);
    OneMoreLink(ls, 2, i, j);
    OneMoreLink(ls, 3, i, j);
    OneMoreLink(ls, 4, i, j);
    assert LinkBetween([], i, j) == Common.None;
    hide LinkBetween;
  }

  // Weights on those five links: 2-3 and 3-4 equal, 2-4 no shorter.
  ghost predicate DetourCells(M: Matrix, b: nat, a: nat) {
    && Weights(M) && |M| == 5 && M[4][0] == M[4][1] == M[3][0] == M[1][2] == M[1][0] == INF
    && M[4][3] == M[3][4] == M[3][2] == b <= a == M[4][2]
  }

  lemma {:induction false} DetourPasses(M: Matrix, b: nat, a: nat)
    requires DetourCells(M, b, a)
    ensures Last(M, 5, 4, 2) == (if 2 * b < a then 3 else -1)
    ensures Dist(M, 5, 4, 2) == (if 2 * b < a then 2 * b else a)
    ensures a <= 2 * b ==> Dist(M, 5, 4, 3) == Dist(M, 5, 3, 2) == b
  {
    NoShortcut(M, 0, 4, 1);
    NoShortcut(M, 0, 4, 2);
    NoShortcut(M, 0, 4, 3);
    NoShortcut(M, 0, 3, 2);
    NoShortcut(M, 0, 1, 2);
    NoShortcut(M, 1, 4, 2);
    NoShortcut(M, 1, 4, 3);
    NoShortcut(M, 1, 3, 2);
    NoShortcut(M, 2, 4, 2);
    NoShortcut(M, 2, 4, 3);
    NoShortcut(M, 2, 3, 2);
    NoShortcut(M, 3, 4, 3);
    NoShortcut(M, 3, 3, 2);
    NoShortcut(M, 4, 4, 2);
    NoShortcut(M, 4, 4, 3);
  }

  lemma {:induction false} DetourIsValid()
    ensures ValidLinks(DetourLinks, 5)
  {
  }

  lemma {:induction false} DetourWeights()
    ensures DetourCells(Initial(Delay, DetourLinks, 5), 1, 10)
    ensures DetourCells(Initial(Transmission, DetourLinks, 5), 80, 80)
    ensures LinkBetween(DetourLinks, 4, 2) == Common.Some(DetourLinks[2])
    ensures Adjacent(DetourLinks, 4, 3)
  {
    hide LinkBetween, Weights, ValidLinks;
    DetourIsValid();
    forall i: nat, j: nat ensures LinkBetween(DetourLinks, i, j) == DetourBetween(i, j) {
      DetourIs(i, j);
    }
    InitialWeights(Delay, DetourLinks, 5);
    InitialWeights(Transmission, DetourLinks, 5);
  }

  /** An accepted network and a chased pair: the neighbour found is not on a td-shortest path to the destination. */
  lemma {:induction false} AdjacentMayDetour()
    ensures var ls := DetourLinks;
            && ReaderAccepts(ls, 2, 5) && Chased(2, 1, 5, 4, 2) && SumsFit(ls, 5, 4)
            && FirstFromDelay(ls, 5, 4, 2) && SharedHop(ls, 5, 4, 2) == 3
            && Adjacent(ls, 4, 3) && !OnRoute(ls, 5, 4, 3, 2)
  {
    hide LinkBetween, Last, Dist, SumsFit, Initial, DetourCells, Weights;
    var ls := DetourLinks;
    assert ls[0].src == 0 && ls[1].src == 1;
    DetourWeights();
    SmallNetworksFit(ls, 5, 4);
    DetourPasses(Initial(Delay, ls, 5), 1, 10);
    DetourPasses(Initial(Transmission, ls, 5), 80, 80);
  }

  // ----- host 0, ToR 1, switches 2 to 5 -----

  const GrowingLinks := [Link(0, 1, 100, 1), Link(1, 5, 100, 100), Link(1, 3, 1, 1), Link(2, 5, 1, 1),
                         Link(2, 3, 100, 1), Link(4, 5, 100, 50), Link(3, 4, 100, 50)]

  function GrowingBetween(i: nat, j: nat): Common.Option<Link> {
    match (if i < j then (i, j) else (j, i))
    case (0, 1) => Common.Some(GrowingLinks[0])
    case (1, 5) => Common.Some(GrowingLinks[1])
    case (1, 3) => Common.Some(GrowingLinks[2])
    case (2, 5) => Common.Some(GrowingLinks[3])
    case (2, 3) => Common.Some(GrowingLinks[4])
    case (4, 5) => Common.Some(GrowingLinks[5])
    case (3, 4) => Common.Some(GrowingLinks[6])
    case _ => Common.None
  }

  lemma {:induction false} GrowingIs(i: nat, j: nat)
    ensures LinkBetween(GrowingLinks, i, j) == GrowingBetween(i, j)
  {
    var ls := GrowingLinks;
    assert ls[..0] == [] && ls[..7] == ls;
    OneMoreLink(ls, 0, i, j);
    OneMoreLink(ls, 1, i, j);
    OneMoreLink(ls, 2, i, j);
    OneMoreLink(ls, 3, i, j);
    OneMoreLink(ls, 4, i, j);
    OneMoreLink(ls, 5, i, j);
    OneMoreLink(ls, 6, i, j);
    assert LinkBetween([], i, j) == Common.None;
    hide LinkBetween;
  }

  // Node 0 is only joined to 1, and of the nodes 1 to 5 only those joined by the links above.
  ghost predicate Shape(M: Matrix) {
    && Weights(M) && |M| == 6
    && (forall x :: 2 <= x < 6 ==> M[x][0] == INF && M[0][x] == INF)
    && M[2][1] == M[1][2] == M[4][1] == M[1][4] == M[5][3] == M[2][4] == M[4][2] == INF
  }

  ghost predicate DelayCells(M: Matrix) {
    && Shape(M) && M[5][1] == 100 && M[1][3] == M[3][1] == M[5][2] == M[2][3] == 1 && M[5][4] == M[3][4] == 50
  }

  ghost predicate TransmissionCells(M: Matrix) {
    Shape(M) && M[5][1] == M[2][3] == M[5][4] == M[4][3] == 80 && M[1][3] == M[5][2] == 8000
  }

  // Phase 0 only leads through the host.
  lemma {:induction false} HostPhase(M: Matrix)
    requires Shape(M)
    ensures forall i, j :: 1 <= i < 6 && 1 <= j < 6 && (i > 1 || j > 1) ==>
              Dist(M, 1, i, j) == M[i][j] && Last(M, 1, i, j) == -1
  {
    forall i, j | 1 <= i < 6 && 1 <= j < 6 && (i > 1 || j > 1)
      ensures Dist(M, 1, i, j) == M[i][j] && Last(M, 1, i, j) == -1
    {
      NoShortcut(M, 0, i, j);
    }
  }

  lemma {:induction false} DelayFindsThree(M: Matrix)
    requires DelayCells(M)
    ensures Last(M, 6, 5, 1) == 3 && Dist(M, 6, 5, 1) < 100
  {
    HostPhase(M);
    NoShortcut(M, 1, 5, 1);
    NoShortcut(M, 1, 2, 1);
    NoShortcut(M, 1, 3, 1);
    assert Dist(M, 2, 5, 3) == 101 && Dist(M, 2, 5, 2) == 1 && Dist(M, 2, 2, 3) == 1;
    assert Dist(M, 3, 5, 3) == 2 && Dist(M, 3, 3, 1) == 1;
    assert Dist(M, 3, 5, 1) == 100 && Last(M, 3, 5, 1) == -1;
    assert Dist(M, 4, 5, 1) == 3 && Last(M, 4, 5, 1) == 3;
    assert Dist(M, 2, 5, 4) == 50 && Dist(M, 2, 2, 4) >= 50 && Dist(M, 3, 5, 4) >= 50;
    assert Dist(M, 2, 3, 4) >= 1 && Dist(M, 3, 3, 4) >= 1 && Dist(M, 4, 5, 4) >= 3;
    NoShortcut(M, 4, 5, 1);
    NoShortcut(M, 5, 5, 1);
  }

  lemma {:induction false} TransmissionFindsFour(M: Matrix)
    requires TransmissionCells(M)
    ensures Dist(M, 6, 5, 1) == 80 && Last(M, 6, 5, 1) == -1 && Last(M, 6, 5, 3) == 4
  {
    HostPhase(M);
    NoShortcut(M, 1, 5, 1);
    NoShortcut(M, 1, 2, 1);
    assert Dist(M, 2, 5, 3) == 8080 && Dist(M, 2, 2, 3) == 80;
    assert Dist(M, 2, 5, 2) == 8000 && Dist(M, 2, 4, 3) == 80 && Dist(M, 2, 5, 4) == 80;
    assert Dist(M, 2, 4, 2) >= 80;
    assert Dist(M, 3, 5, 3) == 8080;
    NoShortcut(M, 2, 5, 1);
    NoShortcut(M, 2, 4, 3);
    NoShortcut(M, 2, 5, 4);
    NoShortcut(M, 3, 5, 1);
    NoShortcut(M, 3, 5, 4);
    NoShortcut(M, 3, 5, 3);
    NoShortcut(M, 3, 4, 3);
    assert Dist(M, 5, 5, 3) == 160 && Last(M, 5, 5, 3) == 4;
    NoShortcut(M, 4, 5, 1);
    NoShortcut(M, 5, 5, 1);
    NoShortcut(M, 5, 5, 3);
  }

  lemma {:induction false} GrowingIsValid()
    ensures ValidLinks(GrowingLinks, 6)
  {
  }

  lemma {:induction false} GrowingDelays()
    ensures DelayCells(Initial(Delay, GrowingLinks, 6))
  {
    hide LinkBetween, Weights, ValidLinks;
    GrowingIsValid();
    forall i: nat, j: nat ensures LinkBetween(GrowingLinks, i, j) == GrowingBetween(i, j) {
      GrowingIs(i, j);
    }
    InitialWeights(Delay, GrowingLinks, 6);
  }

  lemma {:induction false} GrowingTransmissions()
    ensures TransmissionCells(Initial(Transmission, GrowingLinks, 6))
  {
    hide LinkBetween, Weights, ValidLinks;
    GrowingIsValid();
    forall i: nat, j: nat ensures LinkBetween(GrowingLinks, i, j) == GrowingBetween(i, j) {
      GrowingIs(i, j);
    }
    InitialWeights(Transmission, GrowingLinks, 6);
  }

  /** An accepted network and a chased pair: the index after the first one grows. */
  lemma {:induction false} FirstIndexMayGrow()
    ensures var ls := GrowingLinks;
            && ReaderAccepts(ls, 1, 6) && Chased(1, 1, 6, 5, 1) && SumsFit(ls, 6, 5)
            && FirstFromDelay(ls, 6, 5, 1) && SharedHop(ls, 6, 5, 1) == 3
            && !Adjacent(ls, 5, 3) && SharedHop(ls, 6, 5, 3) == 4
  {
    hide LinkBetween, Last, Dist, SumsFit, Initial, DelayCells, TransmissionCells, Weights;
    var ls := GrowingLinks;
    assert ls[0].src == 0;
    GrowingIs(5, 1);
    GrowingIs(5, 3);
    GrowingDelays();
    GrowingTransmissions();
    SmallNetworksFit(ls, 6, 5);
    DelayFindsThree(Initial(Delay, ls, 6));
    TransmissionFindsFour(Initial(Transmission, ls, 6));
  }
}
