# Algorithms of the Floodgate simulator, modelled and proved

The repository is an ns-3 tree with a data-centre simulation on top. This project models its self-contained
algorithms and proves what they promise:

- **Routing in `scratch/third.cc`.** `Floyd` runs twice over one shared next-hop matrix, which a later loop chases
  (`Floyd.dfy`, with two accepted networks in `ChaseExamples.dfy`). `CalculateRoute` is a breadth-first search that
  records every equal-cost next hop and never expands a host; the tables are rebuilt after each link failure
  (`RouteSpec.dfy`, `Routing.dfy`).
- **Topologies.** The fat-tree and leaf-spine generators for every size (`FatTree.dfy`, `LeafSpine.dfy`), and the pass
  that finds the hosts below each switch (`Topology.dfy`). Route lengths and next hops are proved in closed form.
- **`bindings/python/topsort.py`.** Topological sort, sort by levels (`TopsortSpec.dfy`, `Topsort.dfy`) and
  enumeration of simple cycles (`FindCycles.dfy`).
- **The worker pool of `test.py`** as interleaved steps of the main thread, the workers and the signal handler
  (`WorkerPool.dfy`).
- **Traffic and statistics of `scratch/third.cc`.** Queue-pair selection, the event-driven flow generator
  (`Traffic.dfy`), the ordered completion times (`CompletionTimes.dfy`) and the oracle and transmit times that go into
  them (`FlowTimes.dfy`).
- **AODV.** The route request queue, the duplicate cache, the neighbour table and the message headers of RFC 3561
  (`RequestQueue.dfy`, `IdCache.dfy`, `Neighbors.dfy`, `AodvPacket.dfy`).
- **The unified-diff parser and printer of `utils/check-style.py`** (`Patch.dfy`).

Loops are methods with invariants, tied to specification functions; the properties are proved about those functions.
Objects whose methods update fields are classes. Random draws are arbitrary values, clocks are parameters, the
iteration order of a hash map or pointer-keyed map is an arbitrary permutation passed as a parameter.

What the proofs found:

- The next-hop chase always ends at a neighbour (`Floyd.Chase`), but the index it begins with can come from the delay
  pass: exactly when the destination is adjacent, the transmission pass kept the direct link and the delay pass did not
  (`Floyd.FirstFromDelay`). In every other case the indices strictly decrease from the first one on and the neighbour is
  on a shortest path. In that case the indices still decrease from the second one on, and from the first one on iff the
  first step does; the neighbour is on a shortest path whenever the first index is, and only then if the first index is
  itself a neighbour. Two networks that the reader accepts, with pairs inside the loop bounds, show both failures
  (`ChaseExamples.AdjacentMayDetour`, `ChaseExamples.FirstIndexMayGrow`).
- `find_cycles` is complete although visited nodes are skipped as starts.
- A patch set reads back exactly when no removed line starts with `-- ` and no added one with `++ `; otherwise at least
  one line is lost.
- A RERR with more than 255 destinations writes its count modulo 256 and does not read back; operator== compares only
  that many destinations, so it calls the header read back equal for any number of destinations.
- The index the flow generator keeps per queue pair, 10000 times its number plus the next message number, is a 32-bit
  number. Up to 429496 queue pairs all 10000 entries of each decode back. Queue pair 429496 wraps around within its
  messages, so its assertion fails after 7295 of them instead of 9999. Queue pair 429497 starts at 2704: its first flow
  leaves with id 0 and message number 2704 and is filed with queue pair 0. So every queue pair keeps its hosts and
  numbers its messages 0, 1, 2, ... exactly up to 429497 queue pairs (`Traffic.OrderedIff`). By default there is about
  one queue pair a flow, and 700 hosts with a rack each have 489300 pairs, so long runs get there.
- Deserialize's closing size assertion fails for a RERR exactly when an address repeats (`AodvPacket.SizeAssertionIff`).
- With no processor the worker pool blocks for ever; with one it cannot.
- The pipelined oracle completion time never exceeds the sequential one, whatever the start times, exactly when no
  message but the last of its queue pair transmits longer than its oracle time. With the times the program computes that
  holds on every path no faster than the first host's interface, as long as the 32-bit byte count of a flow does not wrap
  around. It fails between hosts on faster links (the transmit time uses the first host's rate for all), and with
  `Settings::pktsmode` from some size on for every path; nothing in the repository sets that flag.

`dafny verify dfyconfig.toml` checks the project with Dafny 4.11.

## Model

| member | source | states |
|---|---|---|
| Floyd.Relax | scratch/third.cc:264-267 | the innermost statement, on 32-bit sums that never wrap, moves exactly one cell of both matrices from phase k to phase k+1 although row and column k are read in place |
| Floyd.PhaseStep | scratch/third.cc:264-267 | the 32-bit sum of one cell's update never wraps, and the update is the next phase of the shortest-distance recurrence with its last lowering phase |
| Floyd.Floyd | scratch/third.cc:259-270 | afterwards every cell holds the value, and every next-hop cell the last lowering phase, of the k-phase recurrence |
| Floyd.DistBounds | scratch/third.cc:259-270 | after k phases a cell is at most the weight of any path whose inner nodes are below k |
| Floyd.DistAttained | scratch/third.cc:259-270 | and some path has exactly that weight |
| Floyd.FloydIsShortest | scratch/third.cc:259-270 | the result is the minimum path weight, capped at 0x3fffffff; it is below the cap iff a linked path below the cap exists |
| Floyd.Triangle | scratch/third.cc:259-270 | the result satisfies the triangle inequality |
| Floyd.HopDecreases | scratch/third.cc:259-270 | a recorded hop l lies on a shortest path from i to j, is neither end, and the hop recorded from i towards l is below l |
| Floyd.ReadLinks | scratch/third.cc:2625-2633 | after all topology lines, where a line joins two nodes the four matrices hold the rate, the delay, 8000 / rate and the other end of the last such line (2702-2711); 0 on the diagonal, 0x3fffffff elsewhere |
| Floyd.CellMeans | scratch/third.cc:2706-2711 | the same cell by cell, from the lines alone: a line joins the pair, in either direction, and no later line does |
| Floyd.PrepareHops | scratch/third.cc:2823-2825 | pd and td become the two shortest-path matrices and the shared next-hop matrix what the td pass leaves of the pd pass |
| Floyd.ChaseStep | scratch/third.cc:2862-2868 | from a reachable non-neighbour h the next index is reachable, not i, splits a td-shortest path to h, and is followed by smaller indices |
| Floyd.ChaseStart | scratch/third.cc:2862-2863 | the first index is a reachable node other than i, whichever pass it comes from |
| Floyd.FirstIsOnRoute | scratch/third.cc:2862-2868 | unless the first index of an adjacent j comes from the delay pass, it is on a td-shortest path to j and is followed by a smaller index |
| Floyd.LoweredIff | scratch/third.cc:264-267 | a hop was recorded for a pair iff the result is below the initial weight, so that case can be read off pd and td |
| Floyd.Chase | scratch/third.cc:2862-2868 | the loop ends for every reachable j, at a direct neighbour of i, and returns the rate of the last line that joins the two; the indices decrease from the second on, and from the first on iff the first step does; the neighbour is on a td-shortest path to j if the first index is, and if the first index is a neighbour, only then; both hold unless the first index of an adjacent j comes from the delay pass |
| ChaseExamples.AdjacentMayDetour | scratch/third.cc:2858-2868 | a network that meets the reader's assertions (2718-2720, 2817-2818) and a pair inside the loop bounds whose neighbour found is not on a td-shortest path |
| ChaseExamples.FirstIndexMayGrow | scratch/third.cc:2858-2868 | a network that meets the reader's assertions and a pair inside the loop bounds where the index after the first one grows |
| Floyd.ReachableIffConnected | scratch/third.cc:2702-2711 | with n * 8000 at most 0x3fffffff, "below the sentinel" in td is exactly "connected", and holds whenever it holds in pd |
| Floyd.SmallNetworksFit | scratch/third.cc:2702-2711 | such networks meet the chase's condition on path sums |
| RouteSpec.LayeredIsHopDistance | scratch/third.cc:983-1006 | the labels of a finished search are the minimum hop counts over up links with only switches in between, and exist iff a route does |
| RouteSpec.LayeredUnique | scratch/third.cc:983-1006 | the graph determines the labels |
| RouteSpec.RoutedUnique | scratch/third.cc:996-1004 | the graph determines every next-hop list up to order |
| RouteSpec.ForwardingIsLoopFree | scratch/third.cc:1001-1004 | any sequence of choices among next hops gets one hop closer at each step, can always continue, reaches the host after exactly dis steps, and passes through switches only |
| RouteSpec.RouteDelayAtLeastFloyd | scratch/third.cc:994-994 | the delay along any route is at least Floyd's delay between its ends |
| RouteSpec.BottleneckIsLeast | scratch/third.cc:996-996 | with 64-bit rates the bottleneck of a route of at least one link is the rate of some link of it and at most the rate of every link; for the host itself it is 2^64 - 1 (981) |
| RouteSpec.DelaysAddUp | scratch/third.cc:994-995 | delay and transmission delay of two routes end to end are the sums |
| RouteSpec.OneLink | scratch/third.cc:994-995 | over one link they are its delay and payload * 8000000000 / rate, over none 0 |
| RouteSpec.DownAllRemoves | scratch/third.cc:1049-1053 | after any sequence of calls, with repetitions, exactly the links none of them named are up, unchanged |
| Routing.Network.LookAt | scratch/third.cc:986-1005 | one neighbour slot keeps the search invariant and touches no other destination's lists |
| Routing.Network.Search | scratch/third.cc:970-1006 | the search labels the hop distances and lists as next hops of v, each once, exactly the forwarding neighbours one hop closer |
| Routing.Network.RecordLabels | scratch/third.cc:1007-1012 | delay, transmission delay and bottleneck of one and the same hop-shortest route are recorded for every labelled node, nothing else changes |
| Routing.RecordedBottleneck | scratch/third.cc:1007-1012 | the same of any finished column, so also after any failures |
| Routing.Network.CalculateRoute | scratch/third.cc:968-1013 | all of that for one host; with 64-bit rates every reachable node has recorded, along some hop-shortest route, its delay, its transmission delay and its least rate, and 2^64 - 1 for the host itself; other destinations, and pairs without a route, keep what they had |
| Routing.Network.CalculateRoutes | scratch/third.cc:1015-1021 | every host has its column and no other destination has any next hop |
| Routing.Network.AddEntries | scratch/third.cc:1034-1043 | one table cell gains the interfaces of its next hops, in order |
| Routing.Network.SetRoutingEntries | scratch/third.cc:1023-1046 | every table gains exactly the interfaces of its next hops |
| Routing.Network.SetUpRouting | scratch/third.cc:3151-3153 | from empty tables, the tables are those of the current graph |
| Routing.Network.TakeDownLink | scratch/third.cc:1049-1073 | link state stays symmetric, the link is down in both directions, tables and routes are those of the remaining graph; a link that is not up changes nothing |
| Routing.Network.TakeDownLinks | scratch/third.cc:1048-1073 | after any sequence of failures routes and tables are those of the graph without the links named |
| Routing.RecordedDelayAtLeastFloyd | scratch/third.cc:1007-1008 | the recorded pair delay is never below Floyd's propagation delay |
| Routing.EntryLeavesOverUpLink | scratch/third.cc:1036-1041 | an installed interface belongs to an up link towards a node one hop closer |
| Routing.DownKeepsInterfaces | scratch/third.cc:1053-1053 | failures keep the interfaces of a node apart |
| Routing.Network.InstalledIsNextHop | scratch/third.cc:1036-1041 | a neighbour behind an installed interface is one of the calculated next hops, over an up link |
| Routing.Network.TablesAreLoopFree | scratch/third.cc:1023-1073 | over the installed tables, after any failures, any choice of entries uses up links and switches only, reaches the host after exactly the hop distance, and finds an entry until then |
| Routing.EntriesDetermined | scratch/third.cc:1054-1066 | two calculations on the same graph install the same interfaces, up to order within one equal-cost list |
| Topology.SwitchDownHosts | scratch/third.cc:2718-2731 | the pass leaves for each switch the set defined by recursion over the link list |
| Topology.OnePassIsEnough | scratch/third.cc:2718-2731 | on a bottom-up list, h is below x iff h is the lower end, or below the lower end, of some link into x |
| Topology.HopList | scratch/third.cc:1001-1004 | any calculated next-hop list is a permutation of the closer forwarding neighbours |
| FatTree.IdIsBijection | scratch/fat-tree-generator.cc:9-27 | ids and places in the tree determine each other: four disjoint ranges exhausting 0..nodes-1 |
| FatTree.SizesInK | scratch/fat-tree-generator.cc:39-45 | k^3 / 4 hosts, k^2 / 2 edge and as many aggregation switches, k^2 / 4 cores |
| FatTree.HostEdgeLinks | scratch/fat-tree-generator.cc:89-94 | every host-edge link of the tree and only those, one per host |
| FatTree.EdgeAggLinks | scratch/fat-tree-generator.cc:96-105 | every edge-aggregation link and only those, counted |
| FatTree.AggCoreLinks | scratch/fat-tree-generator.cc:107-116 | every aggregation-core link and only those, counted |
| FatTree.Generate | scratch/fat-tree-generator.cc:31-116 | odd k writes nothing; even k writes exactly the tree, level by level, with header counts that match, including the number of links |
| FatTree.LinksAscend | scratch/third.cc:2718-2720 | every written link has src < dst and a switch as dst |
| FatTree.TreeDistances | scratch/fat-tree-generator.cc:89-116 | hop distances are the closed form: 2, 4 or 6 between distinct hosts by same edge, same pod, different pod |
| FatTree.TreeNextHops | scratch/third.cc:983-1006 | any calculated table lists exactly k/2 switches on an up-going choice and one node otherwise |
| FatTree.SwitchDegree | scratch/fat-tree-generator.cc:89-116 | every switch has exactly k neighbours, every host one |
| FatTree.HostsBelow | scratch/third.cc:2718-2731 | one pass in file order gives an edge switch its hosts, an aggregation switch its pod's, a core switch all |
| FatTree.TagsMatch | scratch/third.cc:2953-2959 | with the header's counts the ids tagged core and ToR are the core and edge switches |
| LeafSpine.Generate | scratch/leaf-spine-generator.cc:36-57 | exactly the leaf-spine links, host links first, with matching header counts and switch ids, also for empty sizes |
| LeafSpine.LinksAscend | scratch/third.cc:2718-2720 | every written link has src < dst and a switch as dst |
| LeafSpine.LeafSpineDistances | scratch/leaf-spine-generator.cc:45-57 | hop distances are the closed form: hosts are 2 or 4 hops apart; without spines only the own leaf is reached |
| LeafSpine.RemoteNextHops | scratch/third.cc:983-1006 | a leaf's next hops to a host under another leaf are exactly all spines |
| LeafSpine.HostsBelow | scratch/third.cc:2718-2731 | below a leaf are its own hosts, below a spine all hosts |
| LeafSpine.TagsMatch | scratch/third.cc:2953-2959 | core tags are the spines, ToR tags the leaves, and a host's rack number is its leaf |
| Topsort.Tabulate | bindings/python/topsort.py:77-90 | the two dictionaries hold, for repeated pairs and self-loops too, the parent counts and the child lists |
| TopsortSpec.RemainingIs | bindings/python/topsort.py:80-83 | a count is the number of pairs of the element whose parent is not placed |
| TopsortSpec.ChildrenInOrder | bindings/python/topsort.py:84-90 | a child list holds one child per pair of the parent, in the order of the pairs |
| Topsort.KnockDown | bindings/python/topsort.py:100-103 | counting down one parent's children keeps the counts those of the unplaced parents and appends exactly the children that reach zero |
| Topsort.Place | bindings/python/topsort.py:97-106 | one turn of the loop over the growing list places one element, which happens at most once per node |
| Topsort.Topsort | bindings/python/topsort.py:77-112 | each element once, parents before children, iff the relation is acyclic; otherwise the error's answer is exactly the nodes neither on nor below a cycle, with the counts and lists of the rest |
| Topsort.PlaceLevel | bindings/python/topsort.py:217-224 | removing a level leaves the counts of the remaining elements and the child table without that level |
| Topsort.LevelIsDepth | bindings/python/topsort.py:205-205 | the elements without a remaining parent in round n are those whose longest ancestor chain has length n |
| Topsort.TopsortLevelsCore | bindings/python/topsort.py:203-232 | for all tables that agree with some pair list, empty child lists and elements of no pair included: level n holds exactly the elements of depth n; the elements in no level are those on or below a cycle; it ends without error iff acyclic; the error carries their counts and the child table without the yielded elements |
| Topsort.TopsortLevels | bindings/python/topsort.py:157-172 | the same from the pair list, with exactly the remaining counts and child lists in the error |
| TopsortSpec.PlaceParent | bindings/python/topsort.py:97-103 | placing a parent lowers a child's count by the number of its occurrences in the parent's list |
| TopsortSpec.CycleAbove | bindings/python/topsort.py:108-111 | a set in which every element has a parent of its own lies on or below a cycle |
| TopsortSpec.NotBelowCycle | bindings/python/topsort.py:97-106 | nothing in a parents-first list is on or below a cycle |
| TopsortSpec.ShallowStep | bindings/python/topsort.py:203-224 | all ancestor chains of x are bounded by n+1 iff those of its parents are bounded by n |
| TopsortSpec.NoDepthBelowCycle | bindings/python/topsort.py:226-229 | on or below a cycle chains have no bound |
| FindCycles.IsRotated | bindings/python/rad_util.py:761-775 | true iff the second sequence is a rotation of the first |
| FindCycles.RotationMeans | bindings/python/rad_util.py:761-775 | a rotation has the same length and the same elements, shifted around by some offset |
| FindCycles.RotationTransitive | bindings/python/rad_util.py:761-775 | rotation is transitive |
| FindCycles.Record | bindings/python/topsort.py:368-378 | a found cycle is added unless a rotation is there; the list stays sound and free of duplicates and covers it |
| FindCycles.Visit | bindings/python/topsort.py:362-385 | one child is either a recorded cycle or a pushed path, and the stack's remaining work changes by exactly that child's subtree |
| FindCycles.Expand | bindings/python/topsort.py:353-385 | one popped path: all its edges are handled and the remaining work shrinks |
| FindCycles.Search | bindings/python/topsort.py:351-385 | the stack loop ends and has explored every simple path from its start |
| FindCycles.AllDone | bindings/python/topsort.py:352-385 | every simple path from the start has been popped |
| FindCycles.CompleteFor | bindings/python/topsort.py:346-349 | a simple cycle reachable from an explored start is covered, though its own nodes are skipped as starts |
| FindCycles.FindCycles | bindings/python/topsort.py:343-385 | every result is a simple cycle, every simple cycle is a rotation of a result, no two results are rotations of each other |
| WorkerPool.InvInit | test.py:1313-1316 | the invariant holds initially |
| WorkerPool.InvStep | test.py:921-989 | every step of main, a worker or the interrupt handler keeps FIFO order, one place per taken job, one exited worker per taken break, and honest outcomes |
| WorkerPool.StepDescends | test.py:921-989 | every step lowers a natural measure |
| WorkerPool.RunKeepsInvariant | test.py:1575-1619 | every run, interrupted at any moment, keeps the invariant and has at most 6 jobs + 7 processors + 2 steps |
| WorkerPool.NoDeadlock | test.py:1575-1595 | with a worker, or without jobs, some thread other than the interrupt can move until run_tests returns |
| WorkerPool.NoWorkersBlocks | test.py:1594-1595 | with jobs but no worker main reaches a state in which only the interrupt can happen |
| WorkerPool.NoEarlyBreak | test.py:928-929 | a break is taken only when every job has been taken |
| WorkerPool.InterruptTakesEffect | test.py:935-938 | if step k of a run is the interrupt, every job then undispatched, queued or taken but not looked at comes back with is_break and nothing else, and the status is 1 |
| WorkerPool.NoLaunchAfter | test.py:935-938 | no worker launches a job after the interrupt |
| WorkerPool.CheckDecides | test.py:935-959 | a worker that looks at a job after the interrupt reports is_break, else is_skip if the job is to be skipped, and that is what main sees of the job; else it launches the job |
| WorkerPool.FinishDecides | test.py:963-989 | of a launched job main sees the return code it finished with |
| WorkerPool.ResultsInOrder | test.py:1594-1595 | main takes the results in the order in which they were put |
| WorkerPool.TallyMeans | test.py:1604-1619 | the counters are the numbers of results with return code 0, 1, 2, any other, and of skips |
| WorkerPool.ResultsAre | test.py:1594-1598 | the number of results about a job, and of interrupted ones, counted in what main has taken |
| WorkerPool.Accounting | test.py:1594-1619 | on return (1736-1737, 1800-1803) each job has one result, each worker took one break, the counters plus the interrupted jobs sum to the jobs, and the status is 0 iff every job passed or was skipped |
| Traffic.ListPairs | scratch/third.cc:1159-1165 | all inter-rack pairs, each once; with one host a rack hosts * (hosts - 1) of them |
| Traffic.GenerateQp | scratch/third.cc:1155-1197 | by either branch distinct pairs out of all inter-rack ones: flowNum / avg of them, but at least one and at most all; the final assertion fails iff there is no such pair and fewer flows than one pair's average; with an average of 0 there is none |
| Traffic.CodesDecodeIff | scratch/third.cc:1248-1249 | the codes decode back for all pairs of hosts (1265-1266) iff there are at most 1000 hosts |
| Traffic.LimitIs | scratch/third.cc:1259-1260 | incremented in 32 bits, a queue pair's entry fails the assertion at exactly its limit, and does not wrap around before |
| Traffic.NumbersDecodeIff | scratch/third.cc:1250-1259 | all 10000 numbers of the first m queue pairs decode back iff m is at most 429496 |
| Traffic.RoomIff | scratch/third.cc:1259-1260 | the first m queue pairs all have room for 9999 messages iff m is at most 429496 |
| Traffic.Misfiled | scratch/third.cc:1250-1272 | the first flow of queue pair 429497 carries id 0 and number 2704 |
| Traffic.NumberedIsOrdered | scratch/third.cc:1256-1272 | with up to 429497 queue pairs all that is emitted keeps each queue pair's hosts and numbers its messages 0, 1, 2, ... |
| Traffic.OrderedMeans | scratch/third.cc:1256-1272 | a flow of an ordered list is between the hosts of its queue pair, and its message number is the number of earlier flows of that queue pair |
| Traffic.SentByIs | scratch/third.cc:1256-1272 | the count that indexes an entry is the number of flows between the two hosts |
| Traffic.OrderedIff | scratch/third.cc:1256-1272 | and that holds of all that can be emitted only with so few |
| Traffic.FirstEvents | scratch/third.cc:1246-1250 | one pending event per queue pair, and for each its 32-bit entry |
| Traffic.NextFlow | scratch/third.cc:1256-1272 | the next flow of a queue pair keeps start order and carries what its entry decodes to, and the updated index is that of the longer list |
| Traffic.Step | scratch/third.cc:1257-1272 | one turn emits the pending event of least time and then least code, two seconds after its time, as the next message of its queue pair, and fails its assertion iff that queue pair has sent as many as its limit |
| Traffic.GenerateFlows | scratch/third.cc:1244-1276 | for any number of queue pairs, flows in non-decreasing start time that carry what the 32-bit entries decode to; up to 429497 queue pairs each keeps its hosts and numbers its messages 0, 1, 2, ...; what stays pending, one event per pair, is no earlier; it fails only with more flows than some pair's limit, so not below 10000 up to 429496 pairs, and always above the sum of the limits |
| CompletionTimes.Arrange | scratch/third.cc:315-327 | exactly the selected flows, all of them or those with the test flag (449-462), are filed under their queue pair, by rising message number and, where two are equal, by rising index (228) |
| CompletionTimes.CountedOnce | scratch/third.cc:449-462 | every selected flow stands at exactly one place and no other flow anywhere |
| CompletionTimes.OrderedMct | scratch/third.cc:336-367 | the three printed times of every message are those of the recurrences |
| CompletionTimes.OrderedMctForQpMode | scratch/third.cc:472-518 | both times of every message are those of the recurrences |
| CompletionTimes.PrintOrderedMct | scratch/third.cc:309-367 | the three times of every flow, by rising message number within its queue pair |
| CompletionTimes.PrintOrderedMctForQpMode | scratch/third.cc:443-520 | both times of every flow with the test flag and of no other, by rising message number within its queue pair |
| CompletionTimes.FinishedIsMaximum | scratch/third.cc:346-367 | the ordered finish is the running maximum of the finish times, from 0 |
| CompletionTimes.OracleIsLatestBurst | scratch/third.cc:354-364 | the oracle finish of message k is the maximum over j of start_j plus the oracle times of j..k |
| CompletionTimes.SenderFreeAfterBursts | scratch/third.cc:503-516 | the sender is free at the maximum over j of start_j plus the transmit times from j on |
| CompletionTimes.SumsAddUp | scratch/third.cc:354-364 | the sums of oracle and transmit times add up over consecutive ranges and are the time itself over one message |
| CompletionTimes.TimesMean | scratch/third.cc:336-367 | what both reports (503-516) print, from the start, finish, oracle and transmit times alone: the largest finish so far, the end of the latest burst of oracle times, and the oracle time added to the later of the own start and that of the messages before |
| CompletionTimes.PipelinedNotLater | scratch/third.cc:503-516 | the pipelined oracle finish of a message does not exceed the sequential one when no earlier message transmits longer than its oracle time |
| CompletionTimes.LateStarts | scratch/third.cc:503-516 | whenever a message but the last transmits longer, some start times in rising order make a later message finish later |
| CompletionTimes.PipelinedNeverLaterIff | scratch/third.cc:503-516 | never later, for all start times or all in rising order, iff no message but the last transmits longer than its oracle time |
| FlowTimes.SlackIsExact | scratch/third.cc:275-290 | a flow's oracle time exceeds its transmit time (487-502) by an amount that from one packet on does not depend on the size, but for 32-bit wrap-arounds |
| FlowTimes.SampleTimes | scratch/third.cc:275-290 | the oracle and transmit times (487-502) of two flows on one path, in figures |
| FlowTimes.OracleForgets | scratch/third.cc:282-286 | two flows with the same remainder whose full packets differ by a multiple of 2^32 bytes have the same oracle time |
| FlowTimes.QueuePairNeverLater | scratch/third.cc:487-516 | without a negative slack before the last flow pipelining never finishes later |
| FlowTimes.LongTransmitLater | scratch/third.cc:487-516 | a flow that transmits a nanosecond longer makes the next message later for some start times in rising order |
| FlowTimes.SlowPathSlack | scratch/third.cc:275-290 | on a path no faster than the first host's interface (1075-1079, 2813-2814) no flow whose byte count does not wrap has a negative slack |
| FlowTimes.FasterHostsLater | scratch/third.cc:1075-1079 | with a first host at 10 Gbps, flows of a packet or more between two hosts at 100 Gbps make the next message later |
| FlowTimes.PacketsLater | scratch/third.cc:490-495 | with sizes in packets every path is too fast from some size on |
| RequestQueue.Queue.Purge | src/aodv/model/aodv-rqueue.cc:125-138 | exactly the expired entries leave, in order, each with one error callback |
| RequestQueue.Queue.Enqueue | src/aodv/model/aodv-rqueue.cc:49-68 | accepted iff no live entry has the same packet id and destination; then it is appended and a full queue evicts its oldest entry with one callback |
| RequestQueue.Queue.DropPacketWithDst | src/aodv/model/aodv-rqueue.cc:71-85 | exactly the entries for dst leave, each with one callback, the others keep their order |
| RequestQueue.Queue.Dequeue | src/aodv/model/aodv-rqueue.cc:88-101 | takes exactly the first live entry for dst, without a callback; order per destination is kept; false iff there is none |
| RequestQueue.Queue.Find | src/aodv/model/aodv-rqueue.cc:104-113 | true iff an entry for dst is queued, expired or not |
| RequestQueue.Queue.GetSize | src/aodv/model/aodv-rqueue.cc:42-46 | purges, then counts |
| RequestQueue.LiveConserves | src/aodv/model/aodv-rqueue.cc:125-138 | purged and kept entries together are the queue |
| RequestQueue.PurgeRemovesPrefix | src/aodv/model/aodv-rqueue.cc:125-138 | with expiries in order a purge removes a prefix |
| RequestQueue.TimelyPurge | src/aodv/model/aodv-rqueue.cc:125-138 | bound, expiry order and the latest expiry survive a purge at a later time |
| RequestQueue.TimelyEnqueue | src/aodv/model/aodv-rqueue.cc:60-66 | and an accepted entry, with maxLen at least 1 |
| RequestQueue.TimelyDequeue | src/aodv/model/aodv-rqueue.cc:88-101 | and a dequeue |
| RequestQueue.TimelyDrop | src/aodv/model/aodv-rqueue.cc:83-84 | and a drop by destination |
| RequestQueue.BoundKeptIff | src/aodv/model/aodv-rqueue.cc:61-66 | an accepted entry leaves the size within maxLen iff it was within it before |
| RequestQueue.TakeAt | src/aodv/model/aodv-rqueue.cc:93-97 | erasing the first entry for dst keeps every other destination's entries and loses exactly that one |
| RequestQueue.NextBalanced | src/aodv/model/aodv-rqueue.cc:41-147 | every call keeps keys unique and every accepted entry queued, handed out or dropped with one callback |
| RequestQueue.NextTimely | src/aodv/model/aodv-rqueue.cc:41-138 | every call at a later time keeps the bound and the order of the expiries |
| RequestQueue.RunIsSafe | src/aodv/model/aodv-rqueue.cc:41-147 | after any number of calls at non-decreasing times, with maxLen and timeout fixed: the accepted entries are those queued, handed out and dropped with a callback, no two queued ones share id and destination, the size is within maxLen, expiries are in queue order, none later than timeout from the last call, and the next purge removes a prefix |
| RequestQueue.StaysUntilExpiry | src/aodv/model/aodv-rqueue.cc:115-138 | over any run, an entry accepted by call k that no call has handed out, dropped by destination or evicted is queued after call m iff call m comes no more than timeout after call k (aodv-rqueue.h:74-75) |
| RequestQueue.NothingLasts | src/aodv/model/aodv-rqueue.cc:115-138 | with a negative timeout nothing is queued after a call but what that call accepted |
| RequestQueue.Fate | src/aodv/model/aodv-rqueue.cc:49-138 | a queued entry stays over a call iff it has not expired before it, is not handed out or dropped by destination, and is not the oldest of a full queue that accepts another |
| RequestQueue.HandedInTime | src/aodv/model/aodv-rqueue.cc:88-101 | from an empty queue, Dequeue only hands out what an earlier call accepted, no more than timeout before |
| RequestQueue.HandsOutFirst | src/aodv/model/aodv-rqueue.cc:88-101 | it hands out the first queued entry for dst that has not expired, and nothing iff there is none |
| RequestQueue.AcceptsIff | src/aodv/model/aodv-rqueue.cc:49-60 | a packet is accepted iff no queued entry that has not expired has its id and destination |
| RequestQueue.LeavesWithCallback | src/aodv/model/aodv-rqueue.cc:140-147 | what leaves in a call and is not handed out has its error callback called in that call |
| RequestQueue.Queue.Perform | src/aodv/model/aodv-rqueue.cc:41-138 | one call leaves exactly the state, and returns exactly the answer, of the step function the runs are made of |
| RequestQueue.Queue.Run | src/aodv/model/aodv-rqueue.cc:41-138 | any sequence of calls ends in the fold of that step, with the answers along it |
| IdCache.Cache.IsDuplicate | src/aodv/model/aodv-id-cache.cc:36-47 | with a monotone clock, across any SetLifetime calls, the answer is that of a log that is never purged |
| IdCache.Cache.Purge | src/aodv/model/aodv-id-cache.cc:49-53 | the cache is the live part of that log |
| IdCache.LiveAgain | src/aodv/model/aodv-id-cache.cc:49-53 | an earlier purge does not show in a later one |
| Neighbors.Table.Update | src/aodv/model/aodv-neighbor.cc:74-90 | a known neighbour's expiry becomes now + expire unless it is later already, its missing hardware address is looked up, and nothing else changes; a new one opens one link and purges |
| Neighbors.Table.Purge | src/aodv/model/aodv-neighbor.cc:101-121 | exactly the expired or closed entries leave, each reported once |
| Neighbors.Table.ProcessTxError | src/aodv/model/aodv-neighbor.cc:160-170 | the entries with that hardware address, and the expired ones, leave and are reported; none stays closed |
| Neighbors.Table.IsNeighbor | src/aodv/model/aodv-neighbor.cc:48-58 | purges, then tells whether the address is present |
| Neighbors.KeptOrFailed | src/aodv/model/aodv-neighbor.cc:101-121 | a present address is either kept or reported, once |
| Neighbors.StayIff | src/aodv/model/aodv-neighbor.cc:92-98 | exactly the neighbours that have not expired before now and are not closed stay |
| Neighbors.PurgeBalanced | src/aodv/model/aodv-neighbor.cc:101-121 | for each address, links opened less failures reported stays 1 if present and 0 otherwise |
| Neighbors.TxErrorRemoves | src/aodv/model/aodv-neighbor.cc:160-170 | every neighbour with the failed hardware address is gone and reported exactly once |
| AodvPacket.RreqRoundTrip | src/aodv/model/aodv-packet.cc:173-202 | a RREQ reads back whatever follows, and any 23 bytes are those of the RREQ they read as |
| AodvPacket.RreqLayout | src/aodv/model/aodv-packet.cc:173-184 | where each field stands, words most significant byte first |
| AodvPacket.RreqHeader.Serialize | src/aodv/model/aodv-packet.cc:173-184 | writes exactly those bytes in place and nothing else |
| AodvPacket.RreqHeader.Deserialize | src/aodv/model/aodv-packet.cc:186-202 | reads that header and consumes 23 bytes |
| AodvPacket.RrepRoundTrip | src/aodv/model/aodv-packet.cc:312-340 | the same for a RREP and 19 bytes |
| AodvPacket.RrepLayout | src/aodv/model/aodv-packet.cc:312-322 | where each field stands, words most significant byte first |
| AodvPacket.RrepHeader.Serialize | src/aodv/model/aodv-packet.cc:312-322 | writes exactly those bytes in place and nothing else |
| AodvPacket.RrepHeader.Deserialize | src/aodv/model/aodv-packet.cc:324-340 | reads that header and consumes 19 bytes |
| AodvPacket.RerrRoundTrip | src/aodv/model/aodv-packet.cc:513-553 | a RERR reads back with all its destinations, and has its serialized size, iff it has at most 255 destinations |
| AodvPacket.RerrLayout | src/aodv/model/aodv-packet.cc:519-531 | where flag, count modulo 256, and address and sequence number of each destination stand |
| AodvPacket.RerrReadsBackSame | src/aodv/model/aodv-packet.cc:612-629 | for any number of destinations what is read back is equal under operator==, and the bytes read are the serialized size |
| AodvPacket.SameRerrIff | src/aodv/model/aodv-packet.cc:612-629 | operator== is equality iff the destinations beyond the count modulo 256 agree, so always up to 255 destinations |
| AodvPacket.RerrHeader.Equals | src/aodv/model/aodv-packet.cc:612-629 | the loop decides that relation |
| AodvPacket.RerrReverseRoundTrip | src/aodv/model/aodv-packet.cc:533-553 | received bytes are written back unchanged iff their addresses strictly increase |
| AodvPacket.RerrHeader.Serialize | src/aodv/model/aodv-packet.cc:519-531 | writes exactly the count byte and all destinations in address order |
| AodvPacket.SizeAssertionIff | src/aodv/model/aodv-packet.cc:550-551 | the closing size assertion holds iff no address repeats |
| AodvPacket.FirstRecordWins | src/aodv/model/aodv-packet.cc:543-548 | a record is listed iff it is the first with its address |
| AodvPacket.RerrHeader.Deserialize | src/aodv/model/aodv-packet.cc:533-553 | inserts the counted records; a repeated address keeps its first sequence number, and the closing assertion holds iff none repeats |
| AodvPacket.RerrHeader.AddUnDestination | src/aodv/model/aodv-packet.cc:582-591 | inserts in address order; a listed address keeps its sequence number |
| AodvPacket.RerrHeader.RemoveUnDestination | src/aodv/model/aodv-packet.cc:593-602 | takes the destination with the smallest address, or nothing from an empty header |
| Patch.ParsePatchset | utils/check-style.py:221-265 | the loop computes the line-by-line parse, failing where the original raises |
| Patch.HeaderPrinted | utils/check-style.py:193-195 | a chunk header reads back as the positions and the lengths of the source and destination sides |
| Patch.CountsAreSides | utils/check-style.py:177-192 | the counts printed are the numbers of removed and common lines, and of added and common lines |
| Patch.PrintedForm | utils/check-style.py:157-163 | a removed line is printed with -, an added one with +, a common one with a space; a patch starts with its --- and +++ lines (215-219) |
| Patch.PatchesReadBack | utils/check-style.py:215-219 | clean patch sets read back |
| Patch.ParseTotal | utils/check-style.py:221-265 | the parser keeps one line for each body line and none for any other |
| Patch.RoundTripIff | utils/check-style.py:221-265 | parsing undoes writing iff no removed line starts with "-- " and no added one with "++ " |
| Patch.LinesOfText | utils/check-style.py:157-163 | newline-free lines survive being written as text and split again |
| Patch.TextRoundTripIff | utils/check-style.py:215-265 | the same equivalence for the written text of newline-free patches |

## Left out

- Floating-point rounding, percentiles, printing and logging: rates and weights are integers, oracle and transmit times exact reals that are truncated once, as the original truncates its doubles.
- Between a slack of minus one and zero nanoseconds that truncation decides; PipelinedNeverLaterIff is the exact condition then.
- Random draws, the exponential distribution and the event engine: arbitrary values with the stated bounds; flow sizes are arbitrary.
- Integer widths are modelled where the values get there: Floyd's sums, the queue-pair index and the byte count of a flow in 32 bits, the RERR count in 8. The 64-bit sums of CalculateRoute and of times are unbounded.
- FatTree.Generate: counts are unbounded, while the generator's are int and the link count 3k^3/4 leaves its range from k = 1422 on; likewise LeafSpine.Generate beyond 2147483647 nodes or links.
- The chase for an unreachable destination, which indexes a row with the sentinel in the original.
- Floyd.Chase: assumes that transmission times of whole paths stay below the sentinel wherever delays do, which SmallNetworksFit proves for all networks of up to 134217 nodes.
- Reading an absent interface with the map's index operator, which inserts a down one: it has no observable effect on routes.
- Order of the interfaces within one equal-cost list after a failure: it depends on map order, so tables are compared as multisets per destination.
- Pair delays of nodes that a failure disconnects keep their old values, as in the original (the maps are not cleared).
- Device TakeDown, RedistributeQp and the switch's own AddTableEntry and ClearTable beyond a list per destination; IP addresses stand for node ids.
- A fat tree of k = 0 divides by zero in the original; negative sizes are not modelled.
- find_cycles and topsort_levels are generators: the model returns the whole list, so a consumer that stops early or changes a yielded list is not covered.
- Topsort.TopsortLevelsCore: takes tables that agree with some pair list; tables whose counts and child lists contradict each other are not modelled.
- Elapsed times, result files, shell commands and the process of a job in the worker pool: a run yields an arbitrary return code.
- RequestQueue.StaysUntilExpiry: takes a timeout that is not negative; NothingLasts is the other case.
- Routing.Network.CalculateRoute: what it states of the recorded pairs takes rates below 2^64, which the original's are by type.
- RequestQueue.Queue.Enqueue: needs maxLen at least 1; with 0 the original reads the front of an empty vector.
- Null callbacks and callbacks that call back into the queue or the neighbour table; Neighbors::Clear and its timer; LookupMacAddress is a parameter.
- RERR flag placement, the type header, RREP-ACK and the printing of headers.
- Patch positions are natural numbers and file names are set before writing; the parser's regular expressions are modelled for newline-free lines.
- The other traffic modes, configuration parsing, pybindgen and waf tools, and Floodgate's switch logic, which is not part of this model.
