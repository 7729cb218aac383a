# SafeTrail, verified

SafeTrail's promise is that its fast answers equal slow ones. This project models the algorithms behind that promise in
Dafny and proves each against its slow or mathematical reference. `dafny verify dfyconfig.toml` checks everything.

- **Evidence log** (`PowersOfTwo`, `MerkleLog`): the Merkle tree of RFC 6962. Proofs are generated by recursion on the
  split point and verified by unrelated walks over index bits; both directions of acceptance are proved for all sizes.
  The node hash is a parameter: completeness holds for every hash, and an accepted wrong claim gives away a collision.
- **Matching and dispatch** (`KuhnMatching`, `PotentialSearch`, `AlternatingTree`, `AssignmentRows`, `Hungarian`,
  `HungarianLimits`, `Assigner`, `PlanComparison`): maximality of Kuhn's matching through the columns that failed attempts
  leave behind; the Hungarian method as a run of functions, its optimality through dual potentials and the exact range of
  costs in which it can be trusted; the greedy and optimal dispatch plans on top, compared on the same input.
- **Shortest paths** (`RoadGraph`, `LabelSearch`, `Dijkstra`, `AStar`): one label-correcting core, shown to end for any
  heuristic because there are finitely many simple walks; exact distances, deterministic trees, agreement of A* and
  Dijkstra.
- **Spatial indexes** (`LinearScan`, `QuadNodes`, `PersistentTree`, `VersionedIndex`, `Envelopes`, `NodeSplit`,
  `RTreeNodes`, `StrPacking`, `RTree`, `QuadtreeNodes`, `RootGrowth`, `Quadtree`, `QuadtreeTraces`, `PastQueries`,
  `Geohash`): every index returns exactly what a linear scan returns, after any run of operations; the versioned index
  answers about the past exactly as a replay would.
- **Geofence** (`Hysteresis`, `FilterReports`, `Evaluator`, `FenceRuns`, `FenceGuarantees`, `FenceReports`,
  `IndexIndependence`): the filter machine and the evaluator over whole runs of fixes, first one zone at a time, then for
  all; when each event is raised, exactly; the events do not depend on the index.
- **Rollback union-find** (`Connectivity`, `RollbackDSU`, `RollbackRuns`, `FloodFill`): exact undo, logarithmic depth, and the same
  components as the flood-fill oracle.
- **Reconciliation** (`Lamport`): the merged timeline depends only on which events were offered.

`Counting`, `Sorting`, `Geometry` and `Wrappers` hold what several of these share.

## How the source is modelled

Objects whose methods change fields are classes with the same fields. Vectors are sequence fields or local sequences.
Tree nodes, which have a single owner in the source, are values; a method that changes a subtree in place returns the
changed subtree. A method with a loop is proved against a function or a predicate, and the promises are proved about
that. Coordinates, costs and distances are exact reals. Boxes are well formed where a caller supplies zones to the
quadtree or a query box to the geohash.

The frontier of a search is a multiset whose least entry, by key and then node, is popped. The interval tree of the
versioned index is a list, and hash tables are sets. Geometry reaches the evaluator as an oracle: for each fix and zone a
containment verdict, a signed distance, a box distance and whether the projected path leads inside.

## Where code and comments differ

- `src/evidence/merkle_log.cpp:117` accepts any root and any proof for an old size of zero: ConsistencyExact states this
  as the only exception.
- `src/graph/astar.cpp:31` tolerates a millimetre per edge, so a heuristic that passes can overestimate:
  ToleranceHidesUndercut gives a graph, ToleranceBoundsLoss the price, and AdmissibleEverywhere the exact condition, that
  no edge undercuts at all.
- `src/graph/bipartite_match.cpp:70` uses a finite sentinel INF for an unknown distance. Finite costs near it can be
  refused as not finite (HalfIsRefused), or answered Ok with an assignment that is not cheapest (StaleAnswerIsWrong): a
  column that was never reached is chosen with the parent an earlier row left it. The method ends on every input and
  what it answers is always an assignment (Hungarian). It is a cheapest one when row i, counting from 0, has more than i
  entries that are below INF and less than INF above the least of the row (AnswerIsRight). As a bound on the costs this
  is exact: for two rows or more, all matrices with costs in [lo, hi] are answered rightly if and only if hi < INF and
  hi - lo < INF (RightWithinBounds), so a bound on the size of the costs can be anything below INF / 2 and no more; a
  single row is answered rightly if and only if some cost is below INF (SingleRow).
- `src/index/quadtree.cpp:116-118` compares the shape after insertions and removals with that of a fresh tree. The shapes
  agree exactly when the tree is canonical (FreshShape), which it is until the root grows (HistoryIndependent). After an
  insertion that makes the root grow it is under the exact condition of GrowthIsCanonical: never when the old root was
  not full (SparseGrowthShows), sometimes when it was (FullGrowthMayNotShow).
- `src/index/quadtree.cpp:349-351` says that tiling is given up at the root only. Doubling neither breaks nor repairs
  tiling (DoublingTilesExactly) and widening a divided root breaks it (WideningTiles), so a root that was widened and
  then doubled leaves the gap below the new root (WidenedThenDoubled).
- `src/index/rtree.cpp:326-330` handles an inner root without children, which the invariant of two children rules out.
- `src/index/quadtree.cpp:209-220` handles a root without extent, which the invariant of positive extents rules out.
- The bound of confirm + 1 fixes for closing a missed zone needs a positive confirmation count: SettlesSoon is an
  equivalence.

## Model

| member | source | states |
|---|---|---|
| MerkleLog.FindSplit | src/evidence/merkle_log.cpp:29-30 | the doubling loop stops at the largest power of two strictly below n |
| MerkleLog.TreeHash | src/evidence/merkle_log.cpp:25-32 | computes the RFC 6962 section 2.1 tree hash |
| MerkleLog.PushPath | src/evidence/merkle_log.cpp:35-42 | appends exactly the audit path of RFC 6962 section 2.1.1 |
| MerkleLog.PushSubproof | src/evidence/merkle_log.cpp:45-52 | appends exactly the consistency subproof of RFC 6962 section 2.1.2 |
| MerkleLog.VerifyInclusion | src/evidence/merkle_log.cpp:83-100 | the bit walk over fn and sn accepts exactly when the recursive reconstruction of the root does |
| MerkleLog.InclusionComplete | src/evidence/merkle_log.cpp:66-100 | for every size and index the generated path reconstructs the root under the iterative walk |
| MerkleLog.InclusionSound | src/evidence/merkle_log.cpp:83-100 | with an injective node hash, an accepted path forces the presented leaf to be the leaf at that index, and the path to be the generated one |
| MerkleLog.InclusionOrCollision | src/evidence/merkle_log.cpp:83-100 | for every node hash: an accepted path forces the leaf at that index and the generated path, or yields two different argument pairs with the same node hash |
| MerkleLog.InclusionExact | src/evidence/merkle_log.cpp:83-100 | acceptance against a true root if and only if index, leaf and path are the right ones |
| MerkleLog.Rebase | src/evidence/merkle_log.cpp:120-121 | the loop over trailing one bits leaves the old size's highest rebased node and the matching last node |
| MerkleLog.ClimbProof | src/evidence/merkle_log.cpp:132-151 | the two climbing loops compute the reconstructed pair of roots and consume the proof exactly, or fail |
| MerkleLog.VerifyConsistency | src/evidence/merkle_log.cpp:112-152 | accepts exactly the proofs from which both presented roots are reconstructed |
| MerkleLog.ConsistencyComplete | src/evidence/merkle_log.cpp:45-52 | for every prefix size the recursively generated proof is accepted by the iterative verifier between the two true roots |
| MerkleLog.ConsistencySound | src/evidence/merkle_log.cpp:112-152 | with an injective node hash, acceptance against the root of a list forces the old root to be that of its prefix: history was only appended to |
| MerkleLog.ConsistencyOrCollision | src/evidence/merkle_log.cpp:112-152 | for every node hash: an accepted proof against the root of a list forces the prefix root and the generated proof, or yields a collision of the node hash |
| MerkleLog.ConsistencyExact | src/evidence/merkle_log.cpp:112-152 | for all old sizes: acceptance if and only if the old root is the prefix root with the generated proof, the one exception being old size 0 against a non-empty log, which accepts anything |
| MerkleLog.RootBindsLeaves | src/evidence/merkle_log.cpp:25-32 | equal roots of equally long lists mean equal lists |
| MerkleLog.Log.Append | src/evidence/merkle_log.cpp:55-59 | entries and leaf hashes grow by exactly the new one; returns its index |
| MerkleLog.Log.CurrentRoot | src/evidence/merkle_log.cpp:64 | the root of all leaves |
| MerkleLog.Log.Prove | src/evidence/merkle_log.cpp:66-72 | a proof for a stored entry is accepted for it under the current root; an index out of range yields an empty path |
| MerkleLog.Log.Get | src/evidence/merkle_log.cpp:74-78 | the entry at an index in range, nothing otherwise |
| MerkleLog.Log.ProveConsistency | src/evidence/merkle_log.cpp:102-107 | a proof accepted between the root of the given earlier size and the current root |
| KuhnMatching.TryAugment | src/graph/bipartite_match.cpp:11-24 | success moves exactly one free column to the new row and keeps all others served; failure changes nothing and leaves a set of columns from which no free column can be reached |
| KuhnMatching.TrapBound | src/graph/bipartite_match.cpp:27-38 | columns that failed attempts left behind can serve no more rows in any other matching |
| KuhnMatching.Kuhn | src/graph/bipartite_match.cpp:27-38 | the matching is valid, its count is its size, and no matching of the graph is larger, though failed vertices are never retried |
| Hungarian.Validate | src/graph/bipartite_match.cpp:59-68 | the diagnosis of a matrix, each status by its condition: Ragged when the first faulty row has another length, NonFiniteCost when it has the right length and an entry that is not finite |
| Hungarian.DiagnosisExact | src/graph/bipartite_match.cpp:59-68 | every status of the diagnosis holds exactly under its own condition on the matrix |
| Hungarian.Scan | src/graph/bipartite_match.cpp:87-94 | one pass over the unused columns: distances, predecessors and the first nearest column, as the specified scan gives them |
| Hungarian.Shift | src/graph/bipartite_match.cpp:95-98 | potentials of the used columns and distances of the rest shift by delta |
| Hungarian.GrowTree | src/graph/bipartite_match.cpp:80-101 | the first inner loop ends, at a free column or with none nearer than the sentinel value, in the specified state |
| AlternatingTree.VisitKeeps | src/graph/bipartite_match.cpp:83-94 | a visit keeps the alternating tree and the distance of every unused column, also when a column that was never reached was chosen; after that nothing more is reached |
| AlternatingTree.ShiftPhase | src/graph/bipartite_match.cpp:95-98 | the update keeps dual feasibility, non-positive prices, zero price on free columns, and tightness, on every input |
| AlternatingTree.ChosenDistance | src/graph/bipartite_match.cpp:91-91 | the chosen distance is not negative; a column never reached is chosen only when every unused one is at the sentinel value |
| AssignmentRows.CheapIsNear | src/graph/bipartite_match.cpp:86-100 | a free cheap column keeps the scan from choosing a column that was never reached, or none |
| AssignmentRows.StaysRooted | src/graph/bipartite_match.cpp:81-107 | on every input all paths along the parents end in the sentinel, stale parents included |
| Hungarian.Unwind | src/graph/bipartite_match.cpp:103-107 | the second inner loop ends on every input and moves every row on the path one column on |
| Hungarian.AugmentRow | src/graph/bipartite_match.cpp:79-108 | one pass of the outer loop is one step of the specified run |
| Hungarian.AssignRows | src/graph/bipartite_match.cpp:79-108 | the outer loop is the specified run over all rows, up to the row that is refused |
| AssignmentRows.RowsKeep | src/graph/bipartite_match.cpp:79-108 | after any number of rows: different columns under feasible potentials on every input; with enough cheap columns no row is refused and all pairs are tight |
| Hungarian.ReadAssignment | src/graph/bipartite_match.cpp:110-112 | the column of every row, read off the column table |
| Hungarian.SumAssignment | src/graph/bipartite_match.cpp:114-118 | the total is the sum of the assigned costs |
| Hungarian.DualBound | src/graph/bipartite_match.cpp:57-119 | any assignment costs at least the potentials of its rows plus the prices of its columns |
| Hungarian.Optimal | src/graph/bipartite_match.cpp:57-119 | complementary slackness: a tight assignment under feasible potentials with free columns at price zero costs no more than any other |
| Hungarian.Hungarian | src/graph/bipartite_match.cpp:57-119 | for all inputs: malformed ones are refused with their diagnosis; otherwise the method refuses the costs or gives every row its own column; where row i has i + 1 cheap entries (counting rows from 0) it answers and no assignment is cheaper |
| Hungarian.AnswerIsRight | src/graph/bipartite_match.cpp:57-119 | where row i has i + 1 entries below INF and less than INF above the least of the row, the answer is a cheapest assignment; no bound depends on the size |
| HungarianLimits.RightWithinBounds | src/graph/bipartite_match.cpp:70-100 | all n by m matrices with costs in [lo, hi] are answered rightly if and only if hi < INF and, for two rows or more, hi - lo < INF |
| HungarianLimits.SingleRow | src/graph/bipartite_match.cpp:70-100 | a matrix of one row is answered rightly if and only if some cost is below INF |
| HungarianLimits.StaleAnswerIsWrong | src/graph/bipartite_match.cpp:86-107 | finite costs answered with status Ok and an assignment that costs 0.5 INF although another costs 0.35 INF |
| HungarianLimits.HalfIsRefused | src/graph/bipartite_match.cpp:86-100 | finite costs of half of INF in size that are refused as not finite |
| Assigner.CostMatrix | src/dispatch/assigner.cpp:13-29 | entry (r, i) is the road distance from responder to incident, or the unreachable cost |
| Assigner.AvailableIndices | src/dispatch/assigner.cpp:48 | exactly the available responders, in order |
| Assigner.Finalize | src/dispatch/assigner.cpp:32-40 | total, makespan and unassigned count of the orders; the makespan is not below any trip, and is one of them or zero |
| Assigner.Cheapest | src/dispatch/assigner.cpp:56-71 | the scan finds the cheapest free reachable pair, the first among equals |
| Assigner.AssignGreedy | src/dispatch/assigner.cpp:43-80 | the plan realises the complete run that always takes the first cheapest pair, over the road costs of the available responders |
| Assigner.GreedyDeterministic | src/dispatch/assigner.cpp:51-76 | the greedy matching is determined by the cost matrix |
| Assigner.BuildView | src/dispatch/assigner.cpp:92-119 | the matrix handed to the assignment solver, direct or transposed |
| Assigner.Commit | src/dispatch/assigner.cpp:98-102 | the committed pairs are exactly the reachable part of the full-size matching the solver chose, in row order |
| Assigner.PlanIsOptimal | src/dispatch/assigner.cpp:109-126 | the pairs read back from an optimal assignment, in either orientation, travel no more than any matching of full size |
| Assigner.AssignOptimal | src/dispatch/assigner.cpp:82-130 | in both branches, for any number of responders and incidents: the plan realises the reachable part of a full-size matching than which none is cheaper |
| PlanComparison.CostMatrixUnique | src/dispatch/assigner.cpp:13-29 | the road network determines the cost matrix, so both planners work on the same one |
| PlanComparison.GreedyPlanUnique | src/dispatch/assigner.cpp:43-80 | an input has exactly one greedy plan |
| PlanComparison.PlansAreTotalled | src/dispatch/assigner.cpp:31-40 | either plan reports the longest of its trips as makespan (zero without trips), the sum of its trips as total, and all other incidents as unassigned |
| PlanComparison.OptimalNeverLoses | src/dispatch/assigner.cpp:43-130 | of the two plans for an input whose available pairs are all reachable: equally many orders, as many as the smaller side allows, and the optimal total is at most the greedy one |
| PlanComparison.LargestReachable | src/dispatch/assigner.cpp:92-126 | the reachable part of a cheapest full matching is a largest reachable matching while all trips together stay below one penalty |
| PlanComparison.OptimalServesMost | src/dispatch/assigner.cpp:43-130 | with some pairs unreachable the optimal plan still sends out at least as many orders as the greedy one, under that bound on the trips |
| LabelSearch.Pop | src/graph/dijkstra.cpp:29-57 | pops the least entry by key, then node |
| LabelSearch.Expand | src/graph/dijkstra.cpp:64-85 | relaxing one node's edges, with the deterministic equal-cost parent rule, keeps labels realised by walks, parents acyclic and every lowered label queued |
| LabelSearch.LowerShrinks | src/graph/dijkstra.cpp:70-73 | lowering a label leaves strictly fewer simple walks shorter than the labels, so the search ends whatever the heuristic |
| LabelSearch.LabelsAreDistances | src/graph/dijkstra.cpp:51-86 | when all settled nodes are relaxed no walk is shorter than a label |
| LabelSearch.PoppedTarget | src/graph/astar.cpp:65-71 | a popped target's label exceeds no walk by more than the heuristic's slack allows |
| LabelSearch.TracePath | src/graph/dijkstra.cpp:11-12 | following parents from a reached node ends at the source and spells a real walk of at most the label's length |
| Dijkstra.Run | src/graph/dijkstra.cpp:37-88 | exact distances; settles exactly the reached nodes, once each; lowest tight parents; early exit with the target's exact distance |
| Dijkstra.PathTo | src/graph/dijkstra.cpp:8-14 | empty for invalid or unreached targets, otherwise the nodes of a walk of exactly the target's distance |
| Dijkstra.TreeDetermined | src/graph/dijkstra.cpp:66-84 | with positive weights distances and parents depend on the graph only |
| AStar.HeuristicIsAdmissible | src/graph/astar.cpp:24-34 | true if and only if no edge undercuts the geometric distance by more than the tolerance |
| AStar.GeometricHeuristic | src/graph/astar.cpp:43-45 | straight-line distance to the goal never exceeds a remaining walk by more than the tolerance per edge |
| AStar.AdmissibleEverywhere | src/graph/astar.cpp:24-34 | for a metric: the heuristic is admissible for every target, up to a slack per edge, if and only if no edge undercuts by more than that slack |
| AStar.ToleranceHidesUndercut | src/graph/astar.cpp:27-31 | a graph that passes the check although its heuristic overestimates |
| AStar.AStar | src/graph/astar.cpp:40-93 | for any heuristic: terminates, finds the target if and only if it is reachable, with a real path whose excess over every other walk is bounded by the heuristic's slack |
| AStar.AgreesWithDijkstra | src/graph/astar.cpp:40-93 | with no undercutting edge and the triangle inequality: found exactly when reachable, at the exact distance, along a path of that length |
| AStar.ToleranceBoundsLoss | src/graph/astar.cpp:24-34 | a heuristic that merely passes the check costs at most the tolerance per step of the best path |
| PersistentTree.SplitLeaf | src/index/versioned_index.cpp:80-99 | the redistribution loop puts each entry into the first quadrant that contains it, in order |
| PersistentTree.InsertCopy | src/index/versioned_index.cpp:57-101 | path copying computes the inserted tree |
| PersistentTree.InsertKeeps | src/index/versioned_index.cpp:57-101 | an insertion adds exactly one entry, through splits and root widening, and every entry stays on the path its box selects |
| PersistentTree.InsertBounded | src/index/versioned_index.cpp:57-104 | leaves split when they must: above the maximum depth a leaf never holds more than the capacity and its depth |
| PersistentTree.InsertShares | src/index/versioned_index.cpp:57-80 | below a divided node an insertion replaces at most the child it goes into |
| PersistentTree.RemoveCopy | src/index/versioned_index.cpp:115-138 | guided removal computes the tree without the entry, or nothing |
| PersistentTree.RemoveFinds | src/index/versioned_index.cpp:103-138 | guided removal always finds a stored entry, however the tree was split and widened since, and removes it alone |
| QuadNodes.QueryNode | src/index/versioned_index.cpp:140-145 | appends the ids of the pruned traversal |
| QuadNodes.QueryExact | src/index/versioned_index.cpp:140-145 | a pruned traversal reports exactly the stored entries that meet the box, as often as stored |
| VersionedIndex.RecordAsOf | src/index/versioned_index.cpp:183-194 | the binary search finds the last record with a version at most v, or none |
| VersionedIndex.AppendRecord | src/index/versioned_index.cpp:172-179 | a new record leaves every zone's validity as of every older version unchanged |
| VersionedIndex.CommitVersion | src/index/versioned_index.cpp:151-155 | after a commit, the version selected for any time is still the replay up to that time |
| VersionedIndex.Index.ContainsZone | src/index/versioned_index.cpp:209-211 | present exactly when the calls so far left the zone present |
| VersionedIndex.Index.Monotone | src/index/versioned_index.cpp:213-215 | the commit time is not before the given time or the last commit, and is one of the two |
| VersionedIndex.Index.AddZone | src/index/versioned_index.cpp:217-235 | one new version; older roots and times untouched; the change is logged as added or replaced |
| VersionedIndex.Index.RemoveZone | src/index/versioned_index.cpp:237-249 | one new version without the zone; for an absent zone nothing at all |
| VersionedIndex.Index.UpdateValidity | src/index/versioned_index.cpp:251-262 | one new version sharing the whole tree; for an absent zone nothing at all |
| VersionedIndex.Index.VersionAt | src/index/versioned_index.cpp:264-269 | the latest version at or before t, whose world is the replay up to t |
| VersionedIndex.Index.QueryAt | src/index/versioned_index.cpp:271-280 | each zone once, exactly those that a replay of the calls up to t leaves present, active at t and meeting the box |
| VersionedIndex.Index.QueryNow | src/index/versioned_index.cpp:282-284 | each zone of the latest version that meets the box, once, whatever its validity |
| VersionedIndex.Index.ActiveZonesAt | src/index/versioned_index.cpp:286-299 | each zone in force at t under the rules of t, once, although every past interval is kept |
| VersionedIndex.Index.ValidityAt | src/index/versioned_index.cpp:202-207 | the validity the replay up to t gives the zone, or none |
| PastQueries.PastIsFixed | src/index/versioned_index.cpp:217-262 | a time before the last change shows the same zones after any further calls |
| PastQueries.AskTwice | src/index/versioned_index.cpp:183-280 | the three queries about a time before the last change give the same answers after any further calls |
| PastQueries.ClockIsLatest | src/index/versioned_index.cpp:213-215 | the clock is the latest time of a call that took effect, or zero |
| PastQueries.TakesEffect | src/index/versioned_index.cpp:213-215 | a call at or after the last commit takes effect at its own time, an earlier one at the time of the last commit, and neither before |
| PastQueries.AddThenAsk | src/index/versioned_index.cpp:217-280 | a zone added no earlier than the last commit is found from its own time on, exactly where it is in force and meets the box; earlier answers are unchanged |
| VersionedIndex.FinalApplies | src/index/versioned_index.cpp:217-262 | what each call leaves of its own zone, and that it leaves all others alone |
| LinearScan.PushMatches | src/index/brute_force.cpp:18-30 | the scan appends, in order, the ids of exactly the zones that share a point with the query, for boxes with their corners the right way round |
| Geometry.IntersectsExactly | include/safetrail/geo/bbox.hpp:24-27 | two boxes intersect if and only if they share a point, borders and single points included |
| Geometry.ContainsExactly | src/index/quadtree.cpp:40-43 | a box contains another if and only if it holds every point of it |
| Geometry.QuadrantsTile | src/index/quadtree.cpp:30-38 | the quadrants hold exactly the points of the box, each with its own corner |
| LinearScan.AgreesWithScan | src/index/brute_force.cpp:18-30 | a query exact entry by entry returns the ids the scan returns, as often |
| Envelopes.HullIsLeast | src/index/rtree.cpp:15-19 | refitting yields the least box covering all members |
| Envelopes.AreaAddsUp | include/safetrail/geo/bbox.hpp:38 | area one for the unit square, and cutting a box divides its area |
| Envelopes.EnlargementNotNegative | include/safetrail/geo/bbox.hpp:38 | no box is enlarged by less than nothing, nor at all by what it contains |
| Envelopes.WasteExact | src/index/rtree.cpp:43-50 | two halves of a box waste nothing; a box beside itself wastes less than nothing, by its area |
| NodeSplit.PickSeeds | src/index/rtree.cpp:43-50 | the first pair of greatest waste, or the first two items when no pair wastes more than -1 |
| NodeSplit.DealFair | src/index/rtree.cpp:56-74 | the division loses nothing and fills both groups to the minimum |
| NodeSplit.DealtWhereCheaper | src/index/rtree.cpp:66-73 | outside forced moves an item goes to the group whose area it enlarges least; on a tie to the smaller; then to the first |
| NodeSplit.QuadraticSplit | src/index/rtree.cpp:40-75 | the division that the worst pair of seeds and the dealing rule determine; nothing lost, both groups filled |
| NodeSplit.SplitDetermined | src/index/rtree.cpp:40-75 | an overfull node has only one division: the first worst pair is unique |
| RTreeNodes.ChooseSubtree | src/index/rtree.cpp:99-106 | the child enlarged least, then the smallest, then the first |
| RTreeNodes.DoInsert | src/index/rtree.cpp:81-123 | adds one entry; equal leaf depth, exact boxes, fan-out and fill kept; a split yields two filled nodes; every step goes into the chosen child and splits as prescribed |
| RTreeNodes.GrowthDetermined | src/index/rtree.cpp:81-123 | the node and sibling after an insertion are determined by the node before it |
| RTreeNodes.Collect | src/index/rtree.cpp:125-128 | every entry of a subtree |
| RTreeNodes.RemoveNode | src/index/rtree.cpp:160-181 | one entry with the id leaves the tree, or none has it; what was dropped with underfull nodes is exactly the orphans |
| RTreeNodes.QueryNode | src/index/rtree.cpp:130-137 | appends the ids of the pruned traversal |
| RTreeNodes.QueryExact | src/index/rtree.cpp:130-137 | a pruned traversal reports exactly the stored entries that meet the box, as often as stored |
| RTreeNodes.FillBounds | src/index/rtree.cpp:400-419 | a filled node of height h holds at least min^(h+1) entries, any node at most max^(h+1) |
| StrPacking.StrPartition | src/index/rtree.cpp:230-254 | the tiling loops compute the sort-tile-recursive partition |
| StrPacking.PartitionTiles | src/index/rtree.cpp:230-254 | groups of 1 to max items, nothing lost, and strictly fewer groups than items when there are two or more |
| StrPacking.PerSliceExact | src/index/rtree.cpp:235-237 | just enough tiles, slices and items per slice for a square of tiles |
| StrPacking.PartitionInOrder | src/index/rtree.cpp:239-252 | the tiles in order are slices along one axis, each sorted along the other |
| RTree.LeavesInTileOrder | src/index/rtree.cpp:239-252 | the leaves of a packed tree: slices from west to east, each from south to north |
| RTree.EntryOrders | src/index/rtree.cpp:207-216 | centres decide, in longitude or latitude, and ids settle ties |
| RTree.PackingForgetsOrder | src/index/rtree.cpp:204-216 | bulk loading builds the same tree in whatever order distinct zones are listed |
| RTree.Pack | src/index/rtree.cpp:276-300 | level over level ends, in the tree of the recursive packing: equal leaf depth, exact boxes, exactly the items |
| RTree.Index.Build | src/index/rtree.cpp:271-301 | bulk loading leaves a valid tree over exactly the items, the one the recursive packing gives |
| RTree.Index.BuildIncremental | src/index/rtree.cpp:265-269 | repeated insertion leaves a valid tree over exactly the items, all nodes below the root filled |
| RTree.Index.Insert | src/index/rtree.cpp:303-313 | adds exactly the entry and keeps every invariant; the root is the grown one, or a new root over its two halves |
| RTree.InsertionDetermined | src/index/rtree.cpp:303-313 | a tree has exactly one successor under an insertion |
| RTree.Index.Remove | src/index/rtree.cpp:315-337 | removes exactly one entry with the id, or reports that there is none; orphans are back and counted once |
| RTree.Index.CollapseRoot | src/index/rtree.cpp:320-330 | an inner root keeps at least two children |
| RTree.Index.Query | src/index/rtree.cpp:339-344 | over all runs: the same ids, as often, as a linear scan of the stored entries in any order |
| RTree.Index.DepthBound | src/index/rtree.cpp:400-419 | built by insertions, n >= 2 * min^depth once the depth is at least 1; always n <= max^(depth + 1) |
| QuadtreeNodes.InsertInto | src/index/quadtree.cpp:54-79 | adds one entry, through cascading splits; containment, tiling, leaf load and canonical form kept |
| QuadtreeNodes.SplitLeaf | src/index/quadtree.cpp:65-77 | a subdivided leaf holds exactly its former entries, each in the first quadrant that contains it |
| QuadtreeNodes.CountUpTo | src/index/quadtree.cpp:91-100 | exact up to the limit, above the limit otherwise |
| QuadtreeNodes.Gather | src/index/quadtree.cpp:102-105 | every entry of a subtree |
| QuadtreeNodes.TryCollapse | src/index/quadtree.cpp:121-129 | collapses exactly when the subtree fits one node, keeping its entries |
| QuadtreeNodes.CollapseKeeps | src/index/quadtree.cpp:107-129 | collapsing after a removal restores the canonical form: it undoes the split |
| QuadtreeNodes.RemoveNode | src/index/quadtree.cpp:131-145 | one entry with the id leaves the tree, or none has it; every invariant kept |
| QuadtreeNodes.CanonicalUnique | src/index/quadtree.cpp:107-129 | region and entries determine a canonical tree up to the order inside nodes |
| RootGrowth.DoubleRoot | src/index/quadtree.cpp:224-246 | the old root is exactly one quadrant of the doubled root, which holds nothing else |
| RootGrowth.ExpandRootToCover | src/index/quadtree.cpp:206-257 | covers any box, keeps all entries; k doublings, logarithmic in the distance, widening exactly when 64 do not cover the box |
| Quadtree.Index.Build | src/index/quadtree.cpp:162-186 | the root is the least box around the items with its padding, and nothing has to grow |
| Quadtree.PaddingExact | src/index/quadtree.cpp:180-183 | the padding moves every side out by two per cent of the extent and a millionth |
| Quadtree.Index.Insert | src/index/quadtree.cpp:259-263 | adds exactly the entry, wherever its box lies, and keeps every invariant; when the root grew, the tree is canonical exactly under the stated condition on the tree before |
| Quadtree.Index.Remove | src/index/quadtree.cpp:265-268 | removes exactly one entry with the id, or reports that there is none |
| Quadtree.Index.Query | src/index/quadtree.cpp:270-275 | across root growth and all runs: the same ids, as often, as a linear scan of the stored entries |
| Quadtree.HistoryIndependent | src/index/quadtree.cpp:107-129 | two histories with the same entries under the same ungrown root leave the same tree up to order inside nodes |
| RootGrowth.DoublingCanonical | src/index/quadtree.cpp:107-119 | a doubled root is canonical if and only if the old root holds more than cap entries, a level is left, it is canonical one level deeper, and no entry fits an earlier quadrant |
| RootGrowth.GrownCanonical | src/index/quadtree.cpp:222-246 | the same equivalence for any number of doublings, told from the tree before the first |
| RootGrowth.GrowthIsCanonical | src/index/quadtree.cpp:206-263 | the tree after an insertion that made the root grow is canonical if and only if the doublings covered the box, the old root was full, all new levels had to be divided, it is canonical that much deeper, and no entry fits an earlier quadrant |
| Quadtree.FreshShape | src/index/quadtree.cpp:107-119 | a tree has the shape of a canonical tree over the same region and entries if and only if it is canonical itself |
| QuadtreeTraces.SparseGrowthShows | src/index/quadtree.cpp:107-119 | growth of a root that was not full always shows |
| QuadtreeTraces.FullGrowthMayNotShow | src/index/quadtree.cpp:107-119 | a full root and a box for which growth does not show |
| QuadtreeTraces.DoublingTilesExactly | src/index/quadtree.cpp:349-351 | a doubled root tiles if and only if the old root did |
| QuadtreeTraces.WideningTiles | src/index/quadtree.cpp:249-256 | a widened root tiles if and only if it has no children or did not change |
| QuadtreeTraces.WidenedThenDoubled | src/index/quadtree.cpp:349-351 | a box that 64 doublings do not cover, after which a further doubling leaves the gap below the root |
| Hysteresis.Machine.Update | src/fence/hysteresis.cpp:9-103 | the five-phase machine, field by field, equals the transition function; with the filter off it reports what the geometry said; Inside is newly reported only on a deep fix that completes run and dwell, and given up only on a clear fix that completes the run |
| Hysteresis.EntryIsConfirmed | src/fence/hysteresis.cpp:73-83 | Inside is reported only after the confirmation count of consecutive deep observations and the minimum dwell, byte wrap-around of the counter included |
| Hysteresis.ExitIsConfirmed | src/fence/hysteresis.cpp:85-100 | leaving Inside takes at least two, and as many as the confirmation count, consecutive clearly outside observations |
| Hysteresis.SettleStep | src/fence/hysteresis.cpp:50-101 | each clearly outside observation settles the machine or brings it exactly one closer |
| Hysteresis.SettlesSoon | src/fence/hysteresis.cpp:50-101 | at most confirm + 1 such observations settle it if and only if the confirmation count is positive |
| FilterReports.ReportExact | src/fence/hysteresis.cpp:9-103 | every report told from the observations alone: entries, exits, cleared and kept reports, each if and only if |
| FilterReports.EntryExact | src/fence/hysteresis.cpp:72-82 | Inside is newly reported if and only if the last observation confirms the pending entry, whatever was reported before it began; byte counter included |
| FilterReports.DeepStayEnters | src/fence/hysteresis.cpp:72-82 | a run of max(2, confirm) to 255 deep observations that ends at least the minimum dwell after the pending entry began is reported as an entry |
| FilterReports.FlapExact | src/fence/hysteresis.cpp:81-98 | a flap is flagged if and only if a certain observation abandons a pending entry or exit |
| Evaluator.Engine.EmitTransition | src/fence/evaluator.cpp:183-205 | events exactly for the changes the source reports: an entry if and only if the zone becomes Inside, an exit if and only if it stops being so |
| Evaluator.Tourist.StateFor | src/track/tourist.cpp:5-10 | finds the zone's state or adds a fresh one |
| Evaluator.Engine.ExamineZone | src/fence/evaluator.cpp:115-171 | filter, transition, dwell limit and approach for one returned zone; entries and exits exactly at the crossings; DwellExceeded and ZoneApproaching if and only if they are due and not reported since the last change; times, depths and flags follow |
| Evaluator.Engine.Evaluate | src/fence/evaluator.cpp:37-179 | one fix: candidates in id order, then reconciliation; unusable fixes change nothing |
| Evaluator.Engine.Reconcile | src/fence/evaluator.cpp:209-255 | the in-place compaction keeps exactly the states that are not closed, in order |
| FenceRuns.EvaluatedZone | src/fence/evaluator.cpp:37-255 | what a fix does to one zone depends on that zone's state and sight only |
| FenceRuns.EvaluateRun | src/fence/evaluator.cpp:37-179 | repeated evaluation computes the run |
| FenceGuarantees.CrossingsAlternate | src/fence/evaluator.cpp:183-255 | per zone, entries and exits alternate starting with an entry, across candidate changes, closing, deletion and dropped states |
| FenceGuarantees.EntriesAreConfirmed | src/fence/evaluator.cpp:125-136 | with the filter on, an entry event follows the confirmation count of usable fixes in a row deep inside and a stay of the minimum dwell |
| FenceReports.CrossingsExact | src/fence/evaluator.cpp:183-255 | over every run: a fix raises ZoneEnter if and only if it confirms the pending entry, and ZoneExit if and only if it closes the zone or confirms the exit |
| FenceReports.DwellExact | src/fence/evaluator.cpp:138-147 | over every run, told from the events: DwellExceeded only inside, at most once between an entry and its exit, by the first usable fix that returns the zone past its limit |
| FenceReports.ZoneMarginDecides | src/fence/evaluator.cpp:128-130 | a positive margin of the zone is the one the filter uses |
| FenceReports.CandidatesInIdOrder | src/fence/evaluator.cpp:53-56 | events about returned zones come in the order of the ids, before all others of the fix |
| FenceGuarantees.MissedZonesClose | src/fence/evaluator.cpp:229-246 | a zone in force that is no longer returned, beyond its exit margin, is closed and dropped within confirm + 1 usable fixes (confirm >= 1) |
| FenceGuarantees.GoneZonesClose | src/fence/evaluator.cpp:217-228 | a zone out of force or deleted is closed by the next usable fix |
| FenceGuarantees.IndexIndependent | src/fence/evaluator.cpp:53-56 | the order in which the index returns candidates changes neither events nor states |
| IndexIndependence.SameCandidates | src/index/quadtree.cpp:355-362 | R-tree, quadtree and geohash over the same zones return the candidates of the linear scan |
| IndexIndependence.SameEvents | src/fence/evaluator.cpp:53-56 | any two indexes over the same zones lead to the same events |
| RollbackDSU.Sets.Find | src/ds/dynamic_connectivity.cpp:14-17 | the root, in at most log2(n) steps |
| RollbackDSU.Sets.Unite | src/ds/dynamic_connectivity.cpp:19-30 | joins exactly when the nodes were not connected, attaching the root of smaller rank and recording exactly the undo entry that reverses it |
| RollbackDSU.Sets.RollbackTo | src/ds/dynamic_connectivity.cpp:34-43 | undo stack and edges are those of the mark, and the forest is the one that stack records |
| RollbackRuns.RollbackRestores | src/ds/dynamic_connectivity.cpp:19-43 | after any run of unions and rollbacks above a snapshot, the rollback to it restores undo stack, edges and the forest |
| RollbackRuns.Execute | src/ds/dynamic_connectivity.cpp:19-43 | any run of unions and rollbacks on the structure is the specified run |
| RollbackRuns.ExecuteAndRollBack | src/ds/dynamic_connectivity.cpp:34-43 | snapshot, any run that stays above it, rollback: parents, ranks, sizes, count, undo stack and edges are what they were |
| RollbackDSU.LinkSound | src/ds/dynamic_connectivity.cpp:19-30 | a union keeps rank rising along parents, 2^rank <= size at roots, the count, and roots equal exactly for connected nodes |
| RollbackDSU.Sets.ComponentSize | src/ds/dynamic_connectivity.cpp:32 | how many nodes the surviving edges connect to x |
| RollbackDSU.Sets.Components | src/ds/dynamic_connectivity.cpp:45-55 | the partition of the nodes by the surviving edges |
| FloodFill.ComponentsBruteforce | src/ds/dynamic_connectivity.cpp:59-77 | the flood fill yields the partition by its edges |
| RollbackDSU.AgreesWithOracle | src/ds/dynamic_connectivity.cpp:57-77 | both list the same components in the same order |
| Lamport.OfflineQueue.Append | src/sync/lamport.cpp:16-24 | one event with the next counter of the device |
| Lamport.OfflineQueue.Drain | src/sync/lamport.cpp:28-32 | hands over exactly what is pending, and nothing twice |
| Lamport.Reconciler.Merge | src/sync/lamport.cpp:116-157 | admits exactly the first copies of new stamps in batch order; the timeline holds the old and the admitted events in strict stamp order, annotated; merged plus duplicates equals offered |
| Lamport.Reconciler.Annotate | src/sync/lamport.cpp:139-155 | the walk marks exactly the backward wall clocks, with reordered count and maximum skew |
| Lamport.ReportExact | src/sync/lamport.cpp:134-155 | the timeline goes by counter, then device; skews say how far each wall clock is behind the furthest event before it; count and maximum are those of the skews |
| Lamport.Confluent | src/sync/lamport.cpp:116-157 | when a stamp identifies its event, any batches covering the same events leave the same timeline, annotations and statistics |
| Lamport.AppendOrderKept | src/sync/lamport.cpp:134-137 | in the timeline a device's events stand in its own append order |
| Geohash.SpreadBits | src/index/geohash.cpp:15-20 | the loop spreads the bits |
| Geohash.InterleavedBits | src/index/geohash.cpp:15-36 | bit i of the longitude lands at 2i, bit i of the latitude at 2i + 1 |
| Geohash.InterleaveMonotone | src/index/geohash.cpp:15-36 | interleaving is monotone along both axes |
| Geohash.MortonKey | src/index/geohash.cpp:22-36 | the key of a point, clamped to the domain |
| Geohash.CellExact | src/index/geohash.cpp:25-34 | a coordinate within its span lies in its cell; outside it goes to the first or the last |
| Geohash.HalvesExact | src/index/geohash.cpp:43-46 | the corners are half an extent away from the centre |
| Geohash.KeyBracketed | src/index/geohash.cpp:89-97 | the key of every box that meets the query lies in the padded Morton range |
| Geohash.Index.Build | src/index/geohash.cpp:60-69 | sorted records of exactly the items, exact padding |
| Geohash.Index.Insert | src/index/geohash.cpp:71-77 | adds exactly the entry in key order, padding exact |
| Geohash.Index.Remove | src/index/geohash.cpp:79-87 | removes exactly one record with the id and recomputes the padding exactly |
| Geohash.Index.RecomputeExtents | src/index/geohash.cpp:52-58 | twice the padding is the largest extent of the stored boxes along each axis, or zero |
| Geohash.Index.Query | src/index/geohash.cpp:89-107 | over all runs: the same ids, as often, as a linear scan of the stored entries |

## Left out

- Hungarian.Hungarian: for a single matrix with costs near INF the condition for a cheapest answer is sufficient, not necessary: such a run may hit a cheapest assignment by accident. The exact statements are those about all matrices within given bounds, and about single rows.
- MerkleLog.FindSplit: does not model the 64-bit wrap-around of the doubling beyond 2^63 leaves.
- MerkleLog.Log.Append: SHA-256 and the domain separation byte of leaf hashes are an arbitrary leaf hash and node hash.
- Lamport.Reconciler.Annotate: skews are unbounded integers; the difference of two extreme 64-bit wall clocks is not wrapped.
- Lamport.OfflineQueue.Append: the 64-bit counter does not wrap.
- StrPacking.StrPartition: the square root is the exact ceiling, and the unstable sort is a stable one; ties are impossible for distinct ids at the entry level.
- RTreeNodes.DoInsert: node updates in place are modelled on values; aliasing between nodes, which unique ownership excludes, is not modelled. The same holds for the quadtree's nodes.
- VersionedIndex.Index.UpdateValidity: sharing of a tree between versions is equality of values; pointer identity and allocation counts are not modelled.
- VersionedIndex.Index.ActiveZonesAt: the balanced interval tree is a list with a linear stabbing query.
- Evaluator.Engine.Evaluate: the capped candidate policy, counters, sampler feed, and the payload fields of events that are only carried through (tourist, accuracy, time to boundary) are not modelled; query radius and projection are part of the oracle.
- Hysteresis.Machine.Update: time differences are unbounded integers.
- Geohash.Index.Build: the unstable sort is a stable one; the order of records with equal keys does not affect any answer as a multiset.
- RootGrowth.ExpandRootToCover: a root without extent is not modelled; every root the code makes from well-formed boxes has positive extents, which the invariant states.
- Quadtree.Index.Build: a box with swapped corners is excluded; fitting the root to one can leave a root without extent, whose later repair at lines 209-220 can shrink an axis.
- Geohash.Index.Query: a query box with swapped corners is excluded; its key range can run backwards, and the loop of the source would then not meet its end.
- AStar.AStar: the count of expanded nodes is a statistic without effect on the result, and is not stated.
- Serialised forms: saving and loading of the log, the offline queue and the geohash blob, GeoJSON and road files.
- Floating point: rounding, infinities and not-a-number beyond the finiteness test of the assignment solver.
- Geometry: polygons, distances on the sphere, bounding boxes of discs, the sweep line.
- Structural audits, statistics, traces and visualisation: they do not affect results, and the audits restate invariants proved here.
- Server, scenario scripts, simulator, alert correlation, escalation, cohesion and sampling: plumbing, counters and thresholds.
