# Locality graphs, ring trees and collective signing, verified

A Dafny model of the algorithms behind the blockchain simulation: the locality graph with its
distance oracle and link pruning (`gentree`), the fault-tolerant ring trees (`gentree`), the BFTCoSi
rounds on a general graph (`nyle/cosi_service`) and the counting flood (`tree_experiment`).
`dafny verify dfyconfig.toml` checks everything.

| file | what it holds |
|---|---|
| `Sets`, `Walks`, `Group` | node sets, walks in a graph, abelian groups given by their laws |
| `Locality` | pivots, bunches, the oracle's climb and its stretch |
| `ShortestWalks` | shortest walks over a distance matrix, the facts behind the Dijkstra loop |
| `Discovery`, `Bridges` | depth-first discovery as a function of the child order, the low-link search |
| `BridgeOrders` | for which graphs every order, or some order, of the children returns all bridges |
| `Pruning` | what link removal keeps, and what the pruned graph is still good for |
| `LocalityNodes` | the mutable graph: building, querying, updating distances, pruning |
| `RingTrees`, `Rings`, `Rosters` | the constrained tree builder, the rings with their second trees, roster order |
| `Echo`, `EchoNode`, `EchoTheorems`, `EchoCounts` | the prepare phase: steps, handlers, theorems over runs, message counts |
| `Aggregation`, `Rounds`, `Signing`, `Protocol` | sums over the dynamic tree, the later passes, `Verify`, and whole runs |
| `Flood` | the flood with dead nodes |

Main results, each for all inputs or all runs:

- Bunches, in terms of levels and distances alone: `Locality.BunchIff`.
- Oracle stretch: `Locality.Stretch`, for every pseudo-metric and any number of levels from two on; and
  which answer is given, by which end's pivot: `Locality.AnswerExists`, `Locality.AnsweredAtOnce`.
- Dijkstra exactness, and exactly which distances an update leaves open: `LocalityNodes.UpdateDistance`.
- Bridges: the marked edges are exactly those that separate the root from the node discovered last,
  and each is a bridge: `Bridges.GetBridges`. All bridges are returned for every map order exactly if
  each lies at the end of a corridor from the root (a root with one neighbour, then nodes with two), and
  for some order exactly if one node lies behind all of them: `BridgeOrders.EveryOrderIff`, `BridgeOrders.SomeOrderIff`.
- Pruning takes no pivot link and no link marked as a bridge at the time, no more than needed, and goes on
  until every node is down to max or stuck with links that have to stay; never more components than
  top-level nodes, never an underestimate: `Pruning.ComponentsBounded`, `Pruning.AnswersNeverUnder`,
  `LocalityNodes.RemoveLinks`.
- The tree builder leaves out only what found no place: `RingTrees.Builder.Dijkstra`.
- Every ring that has a second tree survives the loss of any one node: `Rings.RingSurvives`.
- Echo: spanning tree, exact child lists, exact message counts, bounded runs, no deadlock:
  `EchoTheorems.EchoCorrect`, `EchoCounts.MessageCounts`, `EchoCounts.StopsOnlyWhenDone`.
- Every later pass over the tree takes exactly two deliveries per node but the root and cannot get
  stuck: `Rounds.PassLength`, `Rounds.StopsOnlyWhenDone`.
- A whole signing run, echo, prepare responses, commit commitments and commit responses: the prepare
  signature verifies, its challenge makes nobody refuse, and the final signature verifies if nobody has
  refused, otherwise exactly if the responses left out cancel: `Protocol.RunYieldsSignature`. It can be
  relied on, whatever the nonces, exactly if nobody refuses: `Signing.ValidForAllNoncesIff`. It is bound
  to its message: `Signing.MessageBinds`. The exception threshold is the largest with which quorums
  intersect: `Signing.ThresholdExact`.
- A flood whose root has children ends, and has emitted its total exactly if every node is reachable
  over live nodes: `Flood.EmitsOnce`, `Flood.RunsAreShort`.

## Conventions

Names are indices, map iteration is an arbitrary choice of the next key, distances are reals with an
extra infinity for `math.MaxFloat64`. Random choices and loops that need not end are followed for an
arbitrary number of iterations given by the caller (`passes`, `attempts`, `picks`), so a promise made
whatever the outcome holds at every stage of the loop. Handlers are atomic; a message in flight may be
delivered at any time. Points are elements of an abstract abelian group whose laws are hypotheses;
`hash` is any function.

Where the code differs from what is said about it:

- `GetBridges` is described as returning all bridges. It clears the map in every recursive call, so it
  returns only those on the way to the node discovered last, which depends on the map order.
  `BridgeOrders.ForkMissesABridge` is a graph of three nodes on which no order returns both bridges;
  `BridgeOrders.EveryOrderIff` and `BridgeOrders.SomeOrderIff` state for which graphs and roots every
  order and some order returns all.
- `UpdateDistance` compares the known distances, including that of the node to itself, with the number of
  bunch and cluster nodes. After the first removal at a freshly built graph both ends therefore skip the
  update and the pair keeps no distance: `Pruning.FirstRemovalSkipped`, and `Pruning.SkipsIff` for when
  it happens at all.
- The bunch loop runs over `levels - 1` levels, so a one-level graph has no bunches and every query
  indexes past `PDist`: `Locality.AnswersIffTwoLevels`.
- A root without neighbours waits for an answer that never comes: `EchoCounts.StopsOnlyWhenDone`.
- Exceptions are meant to account for nodes that refuse. In the prepare round a node that does not accept
  the message panics, so the round completes only if everyone accepts (`Rounds.NobodyCrashed`) and its
  signature has no exceptions. In the commit round the exceptions are dropped on the way up, so a refuser
  makes the root's signature invalid unless the missing responses cancel: `Signing.DroppedRefusals`,
  `Signing.RefusalBreaksIt` for an input, `Signing.ValidForAllNoncesIff` for the condition a caller can
  check. `signRefusal` is set nowhere else than where the two signatures are checked (bftcosi.go:851, 858,
  959), so after a completed prepare round nobody refuses.

## Model

| member | source | states |
|---|---|---|
| LocalityGraph.LocalityNodes.constructor | tree_experiment/service/localityservice.go:119-136 | the fresh state: empty sets, zero diagonal, no other distance |
| LocalityGraph.LocalityNodes.NearestOfLevel | gentree/gentree.go:147-162 | the first of the nearest nodes of level i or more, or none with an infinite distance |
| LocalityGraph.LocalityNodes.Pivots | gentree/gentree.go:143-167 | PDist and ADist hold a nearest node and its distance for every node and level |
| LocalityGraph.LocalityNodes.CheckDistance | gentree/gentree.go:262-273 | true exactly when the distance is at most ADist on every higher level |
| LocalityGraph.LocalityNodes.BunchOf | gentree/gentree.go:171-200 | the bunch of a node is exactly what some pass admits; every recorded pair has its metric distance |
| LocalityGraph.LocalityNodes.Clusters | gentree/gentree.go:203-215 | clusters are the inverse of bunches |
| LocalityGraph.LocalityNodes.CreateLocalityGraph | gentree/gentree.go:117-215 | the built graph: pivots, bunches, clusters, distances recorded for exactly the bunch pairs |
| LocalityGraph.LocalityNodes.ApproxDistance | gentree/Save.go:580-626 | the swapping loop computes the climb that the stretch theorem is about |
| LocalityGraph.LocalityNodes.ApproximateDistanceOracle | gentree/Save.go:703-725 | the full matrix of answers, or failure exactly when some query fails |
| LocalityGraph.LocalityNodes.GenDistances | nyle/cosi_service/service.go:250-271 | build, prune, query: answers for all pairs exactly if the pruning finishes, and then every node is down to max; why it does not finish otherwise; no finite answer is below the distance, and without pruning all are within the stretch |
| Locality.Climb | gentree/Save.go:585-614 | where the climb stops the meeting node lies in the bunch of one of the two ends |
| Locality.PivotExists | gentree/gentree.go:143-167 | with a top-level node every level has a nearest node |
| Locality.PivotIff | gentree/gentree.go:147-162 | the pivot is the first of the nearest nodes of the level or above |
| Locality.NearInBunch | gentree/gentree.go:173-199 | a node of level i no farther than the next pivot is in the bunch |
| Locality.BunchIff | gentree/gentree.go:171-200 | in the bunch exactly if of the top level or no farther than every node of a higher level |
| Locality.PivotInBunch | gentree/gentree.go:181-198 | a node's pivots are in its bunch |
| Locality.NeverTheFarEnd | gentree/Save.go:590-612 | the climbing node is never the far end itself, which is in no bunch of its own |
| Locality.NextPivotClose | gentree/Save.go:590-612 | missing a bunch bounds the distance of the next pivot |
| Locality.ClimbMeets | gentree/Save.go:585-614 | the climb stops below the top level at a node recorded for both ends, not too far from either |
| Locality.Stretch | gentree/Save.go:580-626 | every answer is finite and between d and (2 levels - 1) d, which is 5 d for three levels |
| Locality.AnswersIffTwoLevels | gentree/gentree.go:171 | a query is answered exactly when there are at least two levels |
| Locality.AnswerIs | gentree/Save.go:585-625 | the answer is the sum of the distances of the first candidate found; the ends take turns |
| Locality.AnswerExists | gentree/Save.go:580-626 | every query is answered that way |
| Locality.AnsweredAtOnce | gentree/Save.go:582-590 | with the first end in the bunch of the second the answer is the distance itself |
| Locality.AnsweredOneUp | gentree/Save.go:590-612 | otherwise over the level-1 pivot of the second end, if it is in the bunch of the first |
| LocalityGraph.LocalityNodes.Counts | gentree/Save.go:28-43 | the number of nodes to visit and of known distances |
| LocalityGraph.LocalityNodes.RelaxFrom | gentree/Save.go:55-66 | all links of the current node are relaxed, only the start's row and column change |
| LocalityGraph.LocalityNodes.NextNode | gentree/Save.go:68-80 | an unvisited node with the smallest finite entry, in any map order; none only if none is finite |
| LocalityGraph.LocalityNodes.Advance | gentree/Save.go:55-91 | one iteration settles a fresh node exactly, or finds every other node without a distance |
| LocalityGraph.LocalityNodes.VisitTargets | gentree/Save.go:51-93 | shortest distances for bunch and cluster, and completion exactly when all are reachable |
| LocalityGraph.LocalityNodes.UpdateDistance | gentree/Save.go:22-95 | symmetry, frame, entries that are walk lengths, exactness unless skipped, exactly when it completes, is skipped or hits nil, and exactly which nodes are left without a distance |
| ShortestWalks.Frontier | gentree/Save.go:51-93 | along any walk the row keeps up or an unvisited node lies in front |
| ShortestWalks.Settle | gentree/Save.go:71-85 | the nearest unvisited node is exact |
| ShortestWalks.Stuck | gentree/Save.go:78-87 | without a finite candidate every unvisited node is unreachable |
| ShortestWalks.RelaxOnce | gentree/Save.go:56-65 | one relaxation keeps the row achievable and exact on visited nodes |
| ShortestWalks.RelaxNothing | gentree/Save.go:58 | links of the start itself never change its row |
| ShortestWalks.WalkNotShorter | gentree/Save.go:58-60 | no walk over entries that do not underestimate is shorter than the metric distance |
| ShortestWalks.PatchedNeverUnder | gentree/Save.go:58-60 | an update never brings an entry below the metric distance |
| LocalityGraph.LocalityNodes.Drop | gentree/Save.go:311-320 | one removal: bunch, cluster and both matrix entries, keeping the pruning invariant |
| LocalityGraph.LocalityNodes.CurrentBridges | gentree/Save.go:238-239 | the map the loops consult is that of a search of the current graph: exactly the edges between the root and the node found last |
| LocalityGraph.LocalityNodes.CountsPerLevel | gentree/Save.go:145-158 | the bunch nodes of each level |
| LocalityGraph.LocalityNodes.PruneCluster | gentree/Save.go:167-266 | removes exactly what it counts, nothing marked as a bridge at the time, not below max, and stops above max only if all remaining cluster links are pivot links or bridges |
| LocalityGraph.LocalityNodes.CutCluster | gentree/Save.go:231-243 | one removal from a cluster: both sides of the link, both distances, the bridges found again |
| LocalityGraph.LocalityNodes.PruneClusterPass | gentree/Save.go:181-252 | the same for one priority level, of which all removed links are |
| LocalityGraph.LocalityNodes.PruneBunchPass | gentree/Save.go:273-329 | removes at most one link, of the priority level, no pivot and not marked as a bridge, and counts it; without a removal only links that can go stay listed, below the starting level, and the level sinks unless something there was struck off |
| LocalityGraph.LocalityNodes.CutBunch | gentree/Save.go:307-326 | one removal from a bunch, from the list and from the matrix, the bridges found again |
| LocalityGraph.LocalityNodes.PruneBunch | gentree/Save.go:270-331 | followed for enough passes the loop ends unless every remaining bunch link is a pivot link or a bridge; never below max |
| LocalityGraph.LocalityNodes.PruneNode | gentree/Save.go:120-333 | done exactly if at most max links are left by the count of its mode, never fewer than needed go, cluster links first in cluster mode, and followed for enough passes it is done or stuck |
| LocalityGraph.LocalityNodes.PruneAt | gentree/Save.go:116-339 | the same with the distance update, which changes no link and whose outcome is stated |
| LocalityGraph.LocalityNodes.UpdatePruned | gentree/Save.go:335-337 | the distance update and its outcome; it keeps the pruning invariant |
| LocalityGraph.LocalityNodes.RemoveLinks | gentree/Save.go:98-341 | at every stage the pruning invariant holds and what is gone went in permitted steps; when finished every node is down to max in either mode; followed for enough passes it finishes, panics over a node without distance, or a node is stuck |
| Pruning.BuiltIsPrunable | gentree/gentree.go:169-215 | the built graph satisfies the pruning invariant |
| Pruning.DropKeeps | gentree/Save.go:226-243 | a removal keeps bunch and cluster dual, every pivot in place, the matrix symmetric and never under the metric |
| Pruning.LinksUndirected | gentree/Save.go:361-381 | the children of GetChildren form an undirected graph |
| Pruning.LinkedToTop | gentree/Save.go:280-296 | every node keeps a link to its nearest top-level node |
| Pruning.ComponentsBounded | gentree/Save.go:191-236 | the pruned graph never has more components than top-level nodes |
| Pruning.AnswersNeverUnder | gentree/Save.go:618-625 | every finite oracle answer on a pruned graph is at least the distance |
| Pruning.ClimbUnchanged | gentree/Save.go:590-612 | pruning does not change where a query meets |
| Pruning.BlockedStays | gentree/Save.go:226-239 | a pivot link or bridge stays one while other links go |
| Pruning.ScanEnds | gentree/Save.go:273-329 | what a pass without a removal leaves listed, and that the priority sinks |
| Pruning.IdlePass | gentree/Save.go:270-331 | passes without a removal use up the levels the priority has to sink |
| Pruning.NothingListed | gentree/Save.go:291-296 | with no removable link listed every link has to stay |
| Pruning.PrunedTrans | gentree/Save.go:116-339 | permitted removals compose, distance updates in between do not matter |
| Pruning.RemovalKeepsLast | gentree/Save.go:226-239 | removing an unmarked link leaves the root joined to the node its search found last |
| Pruning.SkipsIff | gentree/Save.go:36-49 | a node that knows only its bunch and cluster skips the update exactly if one of them has lost its distance |
| Pruning.FirstRemovalSkipped | gentree/Save.go:47-49 | after the first removal at a built graph both ends skip the update and the pair keeps no distance |
| Bridges.Dfs.constructor | gentree/Save.go:386-392 | the empty search state |
| Bridges.Dfs.Recursive | gentree/Save.go:400-437 | on return: nodes discovered in the given order, the subtree closed and connected, fup the exact low-link, the marks exactly the edges between the start and the last node found |
| Bridges.Dfs.Child | gentree/Save.go:411-434 | one child: skipped, a back edge, or searched and marked |
| Bridges.SubtreeCut | gentree/Save.go:428-432 | fup[c] > tin[A] makes (A, c) the only edge out of c's subtree: there are no cross edges |
| Bridges.Detour | gentree/Save.go:419-432 | fup[c] <= tin[A] gives a way around (A, c) |
| Bridges.TreeEdge | gentree/Save.go:424-432 | what the loop knows after a recursive call |
| Bridges.BackEdge | gentree/Save.go:413-421 | what the loop knows after a skipped parent or a node seen before |
| Bridges.GetBridges | gentree/Save.go:384-397 | for every order of the children: marked exactly if the edge separates the root from the last node, and every mark is a bridge |
| Bridges.MapOrder | gentree/Save.go:411 | some order of the children of every node, each once |
| Discovery.DiscoverAdds | gentree/Save.go:400-437 | a call discovers each node once, through unseen nodes, and with it all its neighbours |
| Discovery.WhitePath | gentree/Save.go:411-424 | a call discovers exactly what it reaches through unseen nodes |
| Discovery.FoundFacts | gentree/Save.go:384-397 | the whole search finds exactly what the root reaches, every node next to an earlier one |
| BridgeOrders.CorridorMarked | gentree/Save.go:406-432 | a bridge at the end of a corridor from the root is returned for every order |
| BridgeOrders.LastOnSide | gentree/Save.go:411-424 | an order that runs to a bridge and crosses it ends on the root's side if a node there was passed by |
| BridgeOrders.SomeOrderMisses | gentree/Save.go:406-409 | a bridge not at the end of a corridor is missed for some order |
| BridgeOrders.EveryOrderIff | gentree/Save.go:383-437 | all bridges are returned for every order exactly if each is at the end of a corridor |
| BridgeOrders.LastJoined | gentree/Save.go:411-424 | an order that puts off a path ends with a node joined to the end of the path |
| BridgeOrders.SomeOrderIff | gentree/Save.go:383-437 | all bridges are returned for some order exactly if one reachable node lies behind them all |
| BridgeOrders.ForkMissesABridge | gentree/Save.go:406-409 | a graph on which no order returns all bridges |
| RingTrees.Builder.constructor | gentree/gentree.go:1538-1546 | the fresh tree state |
| RingTrees.Without | gentree/gentree.go:1063-1072 | the first occurrence is cut out of a child list |
| RingTrees.Builder.HangBelow | gentree/gentree.go:1051-1076 | the new tree state: distance, depth, parent, both child lists |
| RingTrees.Builder.Relax | gentree/gentree.go:1041-1080 | a neighbour is rehung exactly under the fan-out, depth, distance and leaf conditions, keeping the tree invariant |
| RingTrees.WantsIff | gentree/gentree.go:1041-1047 | the test: unvisited, allowed, a free place, above the depth limit, and nearer or within the radius and entitled |
| RingTrees.Builder.RelaxNeighbours | gentree/gentree.go:1038-1081 | each allowed unvisited neighbour hangs below the node, or the node is full or too deep, or it would be farther without a claim; nothing else moves |
| RingTrees.Builder.Pick | gentree/gentree.go:1003-1024 | the nearest allowed node not handled yet, forced leaves set aside; the root when there is none |
| RingTrees.Builder.Dijkstra | gentree/gentree.go:991-1108 | terminates, keeps the tree on graph edges, freezes visited nodes, makes no forced leaf inner, succeeds exactly when every allowed node is reached within the depth, and leaves out only what found no place |
| RingTrees.Builder.OnePass | gentree/gentree.go:1001-1082 | one pick and its neighbours; the passes go through every reached node that may be inner |
| RingTrees.FromScratch | gentree/gentree.go:1001-1082 | with at most ten nodes and short edges everything next to a node above the depth limit is in the tree |
| RingTrees.LastAddsNothing | gentree/gentree.go:1005 | the last pass, over the root again, adds nothing to a small tree |
| RingTrees.BuildChain | gentree/gentree.go:1045-1047 | a chain of three nodes is built with depths 0, 1 and 2 |
| RingTrees.Builder.Checks | gentree/gentree.go:1084-1106 | the final test; the fan-out part never fails |
| RingTrees.AttachLists | gentree/gentree.go:1059-1075 | each attached node is in its own parent's list exactly once; lists stay within ten |
| RingTrees.AttachKeeps | gentree/gentree.go:1049-1076 | rehanging keeps the rooted tree and changes no visited node |
| RingTrees.VisitKeeps | gentree/gentree.go:1028-1036 | marking the picked node keeps the rooted tree |
| RingTrees.ReachedIsAttached | gentree/gentree.go:1084-1089 | a node with a distance below the mark hangs in the tree |
| RingTrees.GrowsTrans | gentree/gentree.go:1439-1469 | freezing carries over from ring to ring |
| Rings.AddChildren | gentree/gentree.go:1397-1400 | copying one child list sets those parents and no others |
| Rings.Rebuild | gentree/gentree.go:1385-1402 | the tree rebuilt from the child lists is the original one |
| Rings.DeepCopy | gentree/gentree.go:1369-1406 | the copy equals the original state |
| Rings.AllowedGrows | gentree/gentree.go:1345-1355 | each ring allows all nodes of the one before |
| Rings.RingHolds | gentree/gentree.go:1345-1355 | a ring holds only nodes within its radius by the distance, and all within the stretch of it |
| Rings.FirstTree | gentree/gentree.go:1359-1469 | a finished ring tree spans the allowed nodes and leaves the visited part of the previous tree as it was; given up only after that many attempts, each of which fell short in its mode |
| Rings.TryGrow | gentree/gentree.go:1368-1437 | one attempt on a copy, in both modes after twenty-one failures |
| Rings.SecondTree | gentree/gentree.go:1519-1574 | a second tree spans the same nodes, has no inner node in common with the first, and depth at most 2, or 3 in failed mode, entered after eleven draws; none only after draws that all fell short |
| Rings.TryDouble | gentree/gentree.go:1525-1571 | one call from scratch with a leaf as root |
| Rings.CreateOnetRings | gentree/gentree.go:1320-1582 | rings span exactly the nodes within their radius and nest strictly, on graph edges; no radius with two nodes or more is left out, no second tree without failed draws |
| Rings.JoinedToRoot | gentree/gentree.go:1059-1076 | every attached node is joined to the root by tree links that avoid a given leaf |
| Rings.LeafLoss | gentree/gentree.go:972-976 | losing a node without children leaves the rest connected |
| Rings.OneFailureTolerated | gentree/gentree.go:1008-1020 | two trees without a common inner node survive the loss of any one node |
| Rings.RingSurvives | gentree/gentree.go:1522-1563 | so does every ring with a second tree |
| Rosters.Sorted | gentree/gentree.go:1216 | a sorted permutation |
| Rosters.BuildRoster | gentree/gentree.go:1176-1227 | a permutation of the members, root first, the rest ascending |
| Rosters.AscendingUnique | gentree/gentree.go:750-752 | with distinct identities there is one ascending order |
| Rosters.RosterUnique | gentree/gentree.go:1178-1227 | the roster does not depend on the map order |
| EchoNode.ProtocolNode.IsLoopAndSet | nyle/cosi_service/bftcosi.go:430-452 | the first announcement sets the parent, later ones change nothing |
| EchoNode.ProtocolNode.NeighborsExcParent | nyle/cosi_service/bftcosi.go:1531-1550 | all neighbours but the parent |
| EchoNode.ProtocolNode.ReadAnnouncement | nyle/cosi_service/bftcosi.go:614-665 | loop break, leaf report or forwarding, as in the step function |
| EchoNode.ProtocolNode.UpdateCommitPrepAndCompare | nyle/cosi_service/bftcosi.go:1044-1072 | counts, stores, and is done exactly at the expected number |
| EchoNode.ProtocolNode.ReadCommit | nyle/cosi_service/bftcosi.go:1102-1145 | one answer handled, as in the step function |
| EchoNode.ProtocolNode.Complete | nyle/cosi_service/bftcosi.go:728-739 | the aggregate is kept and reported to the parent |
| Echo.BreakKeeps | nyle/cosi_service/bftcosi.go:639-646 | answering with LoopBreak keeps the invariant |
| Echo.JoinKeeps | nyle/cosi_service/bftcosi.go:648-664 | joining keeps the invariant: every announcement is in flight, awaited or answered, exactly one of these |
| Echo.AnswerKeeps | nyle/cosi_service/bftcosi.go:1102-1145 | handling an answer keeps the invariant |
| EchoTheorems.RunInv | nyle/cosi_service/bftcosi.go:614-665 | the conservation invariant holds in every state of every run |
| EchoTheorems.JoinedFinished | nyle/cosi_service/bftcosi.go:1071 | when the root is done so is every node that joined |
| EchoTheorems.EchoCorrect | nyle/cosi_service/bftcosi.go:1044-1072 | root done: everyone joined, parents form a spanning tree, dynamicChildren are exact, nothing is in flight |
| EchoCounts.RunBalance | nyle/cosi_service/bftcosi.go:639-664 | announcements sent are in flight, adopted or refused, in every state |
| EchoCounts.MessageCounts | nyle/cosi_service/bftcosi.go:1531-1550 | 2E - (n - 1) announcements, n - 1 commitments, 2E - 2(n - 1) loop breaks |
| EchoCounts.RunsAreShort | nyle/cosi_service/bftcosi.go:1075-1173 | no run is longer than two deliveries per directed edge |
| EchoCounts.StopsOnlyWhenDone | nyle/cosi_service/bftcosi.go:1075-1173 | a run that cannot go on is complete; a root without neighbours never is |
| Aggregation.SubtreeSum | nyle/cosi_service/bftcosi.go:728-739 | own part plus the children's parts, all the way down, is the sum over the subtree |
| Aggregation.RootSum | nyle/cosi_service/bftcosi.go:728-739 | at the root it is the sum over everyone, each counted once |
| Rounds.RoundNode.ReadDown | nyle/cosi_service/bftcosi.go:668-690 | passed on to the dynamic children, answered by a leaf |
| Rounds.RoundNode.ReadUp | nyle/cosi_service/bftcosi.go:1147-1162 | kept until as many answers have come as there are children |
| Rounds.RunInv | nyle/cosi_service/bftcosi.go:1176-1238 | every message to a child is on its way, being worked on or answered, in every run |
| Rounds.NobodyCrashed | nyle/cosi_service/bftcosi.go:1338-1345 | the root gets its value only if no node has panicked |
| Rounds.PassLength | nyle/cosi_service/bftcosi.go:1176-1238 | no run of a pass is longer than two deliveries per node but the root, and then the root has its value, unless it panics |
| Rounds.StopsOnlyWhenDone | nyle/cosi_service/bftcosi.go:1176-1238 | without a panic a pass can go on exactly while the root has no value |
| Rounds.CompletesFrom | nyle/cosi_service/bftcosi.go:1176-1238 | without a panic every run of a pass can be continued until the root has its value |
| Rounds.RespondIsShare | nyle/cosi_service/bftcosi.go:1004-1026 | a refuser passes on exactly what its children sent |
| Rounds.PassAggregates | nyle/cosi_service/bftcosi.go:986-1042 | every node passes up the sum over exactly the nodes of its subtree that did not refuse |
| Signing.Verify | nyle/cosi_service/packets.go:54-111 | accepts exactly well-formed signatures that satisfy the reduced-key equation; panics exactly on a bad exception index |
| Signing.AcceptsHonest | nyle/cosi_service/packets.go:63-110 | for all refusers and offline signers: accepted exactly if the response is the sum of the signers' responses modulo the order |
| Signing.MessageBinds | nyle/cosi_service/packets.go:82-99 | presented with another message the signature is accepted exactly if the hashes differ by what the secrets turn into a multiple of the order |
| Signing.OtherMessageRejected | nyle/cosi_service/packets.go:92-110 | otherwise it is rejected, and accepted for its own message |
| Signing.DroppedRefusals | nyle/cosi_service/bftcosi.go:378-386 | for the list that Signature keeps: valid exactly if the responses of the refusers missing from it cancel out |
| Signing.KeepsNull | nyle/cosi_service/bftcosi.go:380-386 | Signature keeps exactly the signers with a null commitment |
| Signing.RoundValidIff | nyle/cosi_service/bftcosi.go:1218-1228 | without exceptions: valid exactly if the root has not refused and the refusers' responses cancel out |
| Signing.NoRefuserIsValid | nyle/cosi_service/bftcosi.go:367-389 | valid if nobody refuses |
| Signing.OneRefuser | nyle/cosi_service/bftcosi.go:1019-1026 | one refuser is fatal unless its response is zero modulo the order |
| Signing.RefusalBreaksIt | nyle/cosi_service/bftcosi.go:1019-1026 | two signers, one of them refusing: invalid for every suite |
| Signing.ValidForAllNoncesIff | nyle/cosi_service/bftcosi.go:1019-1026 | valid whatever the nonces exactly if nobody refuses |
| Signing.QuorumsIntersect | nyle/cosi_service/bftcosi.go:185 | two signer sets within the threshold share more than (n - 1) / 3 nodes |
| Signing.ThresholdExact | nyle/cosi_service/bftcosi.go:185 | signer sets within a threshold always intersect so exactly if it is at most this one |
| Signing.CommitRound.constructor | nyle/cosi_service/bftcosi.go:171-199 | the threshold n - 2(n + 1) / 3 |
| Signing.CommitRound.HandleChallengeCommit | nyle/cosi_service/bftcosi.go:842-862 | a node goes on exactly if the prepare signature verifies for the digest and the exceptions are within the threshold |
| Signing.CommitRound.HandleResponseCommit | nyle/cosi_service/bftcosi.go:1004-1026 | the value of the response pass; a refuser leaves its response out and names itself |
| Signing.CommitRound.Signature | nyle/cosi_service/bftcosi.go:367-389 | no signature after a refusal, otherwise only the exceptions of offline nodes |
| Protocol.TreeIsOk | nyle/cosi_service/bftcosi.go:1047-1053 | Parent and dynamicChildren of a completed echo run are one tree |
| Protocol.PrepareAggregates | nyle/cosi_service/bftcosi.go:728-739 | the root's prepare commitment is the sum over all nodes, every other node's over its subtree |
| Protocol.ResponsesAggregate | nyle/cosi_service/bftcosi.go:1010-1026 | the root's response is that of exactly those who signed |
| Protocol.CommitmentsAggregate | nyle/cosi_service/bftcosi.go:769-779 | the root's commitment of the commit round is the sum over everyone |
| Protocol.PassCompletes | nyle/cosi_service/bftcosi.go:1176-1238 | when a pass is done, and that it gets there |
| Protocol.PrepareVerifies | nyle/cosi_service/bftcosi.go:903-962 | echo commitment and prepare responses form a signature without exceptions that verifies |
| Protocol.ChallengeKeepsEveryone | nyle/cosi_service/bftcosi.go:826-870 | the challenge with that signature changes no node's refusal |
| Protocol.CommitVerifies | nyle/cosi_service/bftcosi.go:986-1042 | the commit round's signature verifies exactly if the round is valid |
| Protocol.RunYieldsSignature | nyle/cosi_service/bftcosi.go:248-356 | any completed run: the prepare signature verifies, the challenge makes nobody refuse, and the final signature verifies exactly under the stated condition, always if nobody refuses |
| Flood.LocalityPresProtocol.StartFlood | tree_experiment/service/protocol.go:75-103 | the start, with the shortcut of a childless root |
| Flood.LocalityPresProtocol.HandleAnnounce | tree_experiment/service/protocol.go:107-146 | reply once, forward only if alive |
| Flood.LocalityPresProtocol.HandleReply | tree_experiment/service/protocol.go:150-163 | count, and emit at the roster size |
| Flood.RunInv | tree_experiment/service/protocol.go:107-146 | receivers are covered, announcements not lost, one reply per receiver, in every state |
| Flood.Coverage | tree_experiment/service/protocol.go:107-146 | at rest the receivers are exactly the nodes reachable over live nodes, each counted once |
| Flood.EmitsOnce | tree_experiment/service/protocol.go:150-163 | the total is emitted at most once, only when the whole roster has the message, and at rest exactly if every node is covered |
| Flood.StopsWhenQuiet | tree_experiment/service/protocol.go:107-163 | a run can go on exactly while something is in flight |
| Flood.RunsAreShort | tree_experiment/service/protocol.go:107-163 | no run is longer than one announcement per child entry and one reply per node |

## Left out

- LocalityGraph.LocalityNodes.RemoveLinks: that a stuck node stays stuck is not claimed: a bridge that the search has not marked may still go; every prefix of the run is covered.
- LocalityGraph.LocalityNodes.PruneBunchPass: which of several removable links of the priority level goes first is modelled but not specified.
- LocalityGraph.LocalityNodes.RelaxFrom: the via-node sets in `Links` are not recorded, nor is `Filter`, which alone reads them.
- Rings.FirstTree: that some attempt succeeds is not claimed, the source retries without a bound.
- Rings.SecondTree: that some leaf works as second root is not claimed, it depends on random draws.
- `dfsBuildGraph` and `CreateAndSetChildren`: the neighbour graph handed to the tree builder is arbitrary here.
- Random coordinates and levels, ring names, `CreateOnetLPTree`, `MinDist`, `dfss`, binary trees, hashes of rosters.
- File output, logging, metrics, services, clients, simulations, `nyle/simplechain`: glue without a hard property.
- Timeouts, closing, channels and mutexes of BFTCoSi: handlers are atomic and no message is lost.
- Exceptions of the prepare round: the code panics before it records them (bftcosi.go:1345, 1388); a panic stops that node, not the others.
- Floating-point rounding: distances are reals.
- Point encoding, hashing and scalar reduction: `Verify` works on decoded parts and scalars are integers taken modulo the order.
