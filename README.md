# Priority-queue A* on a 3D grid, modelled in Dafny

This project models the standard A* planner of `src/neural_astar/planner/pq_astar.py`: a
weighted A* search over a flat-indexed H x W x D grid with 26-connectivity, followed
by the extraction of a search-history map and a path map, once per problem of a batch.

- `topology.dfy` (module `Topology`) holds the flat-index codec and the neighbour
  enumeration. A cell decodes as `x = idx % W`, `y = idx // W % H`,
  `z = idx // (W * H)`. `get_neighbor_indices` becomes `Neighbors`: the 26 guarded
  appends, as a table of 26 offsets in the source's order with the source's own
  guards.
- `heuristic.dfy` (module `Heuristic`) holds `compute_chebyshev_distance` as
  `DistanceEstimate`. The function is named for the Chebyshev distance, but line 96
  computes the sum of the absolute coordinate differences minus their minimum, which
  is the largest difference plus the middle one. The model follows the code, and
  `SumMinusMinBounds` relates the result to the true Chebyshev length.
- `search.dfy` (module `Search`) holds the loop of `solve_single`.
  - Open and closed are maps from index to f-score, and the parent map is a map to
    `Option<int>` with `None` as the start's sentinel.
  - `Expand` is one pass of the loop body: `PopItem`, closing the popped cell, and
    `RelaxNeighbors`, which is the inner `for` loop.
  - `Search` is the `while` loop.
  - A ghost map `rank` records the order in which cells were closed, one position per
    cell. It makes parents-closed-earlier, the least-score closing order and the first-parent rule statable.
  - `SearchInv` is the loop invariant:
    - open and closed are disjoint grid cells;
    - parents exist exactly for the open and closed cells;
    - the start is the root;
    - parents are closed, earlier, and adjacent;
    - every score was computed by the f-update of lines 193-199 from the parent's
      closed score;
    - every closed cell has been expanded;
    - no open score exceeds the f-score that a closed neighbour offers it;
    - cells were closed in order of least score: when a cell was closed, every
      neighbour of an earlier closed cell was either closed already or open with a
      score no smaller than the closed cell's;
    - every parent is the first that offered its child its score: the strict `>` of
      line 206 means no cell closed before the parent offered the child as little.
  - The search is parametrised by the estimate `h: int -> real`.
- `trace.dfy` (module `Trace`) holds `get_history` (`GetHistory`) and `backtrack`
  (`Backtrack`). Both write 1s into a fresh zero `array3<int>` indexed `[y, x, z]`.
  `Chain` is the walk the backtracking loop takes. The lemmas show that:
  - the walk ends at the start, steps between neighbours and repeats no cell;
  - the goal's closed score is `g_ratio` times the predicted cost along it, plus the
    weighted rise of the estimate.
- `planner.dfy` (module `Planner`) holds `solve_single` (`SolveSingle`, run with the
  estimate towards the goal) and the batch driver `pq_astar` (`PqAstar`).
  - `Solved` says what a returned pair of maps is: `RunOf` describes the final search state (the loop invariant, and why the loop stopped) and `MapsOf` the maps built from it.
  - The lemmas beside `Solved` state what the maps mean: both mark the start and the
    goal, the path is a walk of neighbours inside the history, and a problem whose
    start is its goal marks that one cell.

Costs and scores are exact `real`s. The square root of line 97 is a parameter `sqrt`
of which only `SqrtLaws` is assumed: it is non-negative on non-negative arguments and
zero exactly at zero.

## Model

| member | source | states |
|---|---|---|
| `Topology.DecodeEncode` | src/neural_astar/planner/pq_astar.py:93 | decoding the index of (x, y, z) with x < W and y < H gives x, y and z back |
| `Topology.EncodeDecode` | src/neural_astar/planner/pq_astar.py:93 | every index is the encoding of its decoded coordinates, and x, y are in range |
| `Topology.InGridIff` | src/neural_astar/planner/pq_astar.py:93 | for in-range x and y, the index is inside the grid exactly when 0 <= z < D |
| `Topology.CoordinatesInRange` | src/neural_astar/planner/pq_astar.py:93 | an index inside the grid decodes to coordinates inside the grid |
| `Topology.DecodeInjective` | src/neural_astar/planner/pq_astar.py:93-94 | two indices with the same decoded coordinates are equal |
| `Topology.Neighbors` | src/neural_astar/planner/pq_astar.py:24-88 | for a grid cell, every returned neighbour is a grid cell other than the cell itself |
| `Topology.DirectionsAreTheUnitOffsets` | src/neural_astar/planner/pq_astar.py:28-87 | the 26 checked offsets are exactly the non-zero offsets with every component in {-1, 0, 1} |
| `Topology.DirectionsDistinct` | src/neural_astar/planner/pq_astar.py:28-87 | the 26 checked offsets are pairwise different |
| `Topology.GuardMeaning` | src/neural_astar/planner/pq_astar.py:28-87 | each guard holds exactly when the shifted coordinates stay inside the grid |
| `Topology.LayerGuards` | src/neural_astar/planner/pq_astar.py:46-49 | the layer guards `idx + W*H < H*W*D` and `idx - W*H >= 0` mean z + 1 < D and z - 1 >= 0 |
| `Topology.TargetCoordinates` | src/neural_astar/planner/pq_astar.py:28-87 | an allowed offset moves the decoded coordinates by exactly that offset and stays in the grid |
| `Topology.CollectMember` | src/neural_astar/planner/pq_astar.py:27-88 | the target of every allowed offset of the table is appended |
| `Topology.CollectLength` | src/neural_astar/planner/pq_astar.py:27-88 | at most one index is appended per offset, and exactly one when every offset is allowed |
| `Topology.CollectInGrid` | src/neural_astar/planner/pq_astar.py:27-88 | every appended index is a grid cell different from the cell |
| `Topology.TargetInjective` | src/neural_astar/planner/pq_astar.py:28-87 | two allowed offsets that lead to the same cell are the same offset |
| `Topology.CollectDistinct` | src/neural_astar/planner/pq_astar.py:27-88 | the appended indices are pairwise different |
| `Topology.NeighborsAreAdjacentCells` | src/neural_astar/planner/pq_astar.py:24-88 | j is returned for i exactly when i and j are distinct grid cells at most 1 apart in each of x, y and z |
| `Topology.NeighborIsAdjacent` | src/neural_astar/planner/pq_astar.py:24-88 | every returned neighbour is a distinct grid cell at most 1 apart in each coordinate |
| `Topology.NeighborOffset` | src/neural_astar/planner/pq_astar.py:28-87 | every returned neighbour is reached by one allowed unit offset |
| `Topology.AdjacentIsNeighbor` | src/neural_astar/planner/pq_astar.py:24-88 | every distinct grid cell at most 1 apart in each coordinate is returned |
| `Topology.AdjacentOffset` | src/neural_astar/planner/pq_astar.py:28-87 | an adjacent cell is the target of an allowed unit offset |
| `Topology.NeighborsDistinct` | src/neural_astar/planner/pq_astar.py:24-88 | the returned neighbours are pairwise different and at most 26 |
| `Topology.InteriorCellHas26Neighbors` | src/neural_astar/planner/pq_astar.py:24-88 | a cell with 1 <= x <= W-2, 1 <= y <= H-2 and 1 <= z <= D-2 gets exactly 26 neighbours |
| `Topology.NeighborsSymmetric` | src/neural_astar/planner/pq_astar.py:24-88 | j is a neighbour of i exactly when i is a neighbour of j |
| `Topology.StepTowards` | src/neural_astar/planner/pq_astar.py:24-88 | from any grid cell other than a target grid cell, some returned neighbour is strictly closer to the target |
| `Topology.ClosedSetCoversGrid` | src/neural_astar/planner/pq_astar.py:24-88 | a set of cells closed under taking neighbours that holds one grid cell holds every grid cell |
| `Heuristic.SquaredNormFacts` | src/neural_astar/planner/pq_astar.py:97 | the sum of squares is non-negative, zero exactly for the zero difference, and unchanged by negation |
| `Heuristic.HeuristicNonNegative` | src/neural_astar/planner/pq_astar.py:90-98 | the estimate is non-negative |
| `Heuristic.HeuristicSymmetric` | src/neural_astar/planner/pq_astar.py:90-98 | the estimate from idx to goal equals the estimate from goal to idx |
| `Heuristic.OffsetEstimateNegated` | src/neural_astar/planner/pq_astar.py:95-98 | the estimate of a difference vector equals that of its negation |
| `Heuristic.SumMinusMinFacts` | src/neural_astar/planner/pq_astar.py:96 | the integer part is 0 for the zero difference and at least 1 otherwise |
| `Heuristic.EstimateOfOffset` | src/neural_astar/planner/pq_astar.py:95-98 | the estimate of a difference vector is 0 for the zero vector and at least 1 otherwise |
| `Heuristic.DeltaZeroIff` | src/neural_astar/planner/pq_astar.py:93-95 | the coordinate difference is zero exactly when the two indices are equal |
| `Heuristic.HeuristicZeroIff` | src/neural_astar/planner/pq_astar.py:90-98 | the estimate is 0 exactly at the goal and at least 1 at every other cell |
| `Heuristic.SumMinusMinBounds` | src/neural_astar/planner/pq_astar.py:96 | the integer part lies between the Chebyshev length and twice it, and equals it exactly when at most one axis differs |
| `Heuristic.StepPartBounds` | src/neural_astar/planner/pq_astar.py:93-96 | the same bounds for two decoded cells |
| `Heuristic.StepPartWithOneAxisEqual` | src/neural_astar/planner/pq_astar.py:96 | when the cells agree on one axis the integer part is the Manhattan distance |
| `Heuristic.DiagonalStepPart` | src/neural_astar/planner/pq_astar.py:93-96 | two cells that differ by 1 on exactly two axes are at Chebyshev distance 1 but get integer part 2 |
| `Search.RelaxAllEffect` | src/neural_astar/planner/pq_astar.py:190-213 | after the neighbour loop, a neighbour for which cond held is in open with f_new and parent sel; every other key keeps its open entry and parent |
| `Search.RelaxLeavesClosedAlone` | src/neural_astar/planner/pq_astar.py:202-213 | a closed cell is never put back into open and never gets a new parent |
| `Search.RelaxNeighbors` | src/neural_astar/planner/pq_astar.py:190-213 | the for loop over the neighbours, with cond computed as in the source, yields the result of relaxing them one by one in order |
| `Search.InitialState` | src/neural_astar/planner/pq_astar.py:172-176 | the initial open, closed and parent maps satisfy the loop invariant |
| `Search.PopWellFormed` | src/neural_astar/planner/pq_astar.py:187-189 | moving the popped cell to closed keeps the maps disjoint and the parent keys exact |
| `Search.PopRooted` | src/neural_astar/planner/pq_astar.py:187-189 | the first cell closed is the start, with score 0 |
| `Search.PopParentsClosed` | src/neural_astar/planner/pq_astar.py:187-189 | closing a cell keeps every parent closed |
| `Search.PopRanked` | src/neural_astar/planner/pq_astar.py:187-189 | the cell closed now is ranked after every cell closed before, and no two closed cells share a rank |
| `Search.PopRankOrder` | src/neural_astar/planner/pq_astar.py:187-189 | after closing, every closed cell's parent was closed before it |
| `Search.PopScores` | src/neural_astar/planner/pq_astar.py:187-189 | the popped cell keeps its score when it is closed, so scores still follow the parents' closed scores |
| `Search.PopExpanded` | src/neural_astar/planner/pq_astar.py:187-189 | every closed cell except the popped one has been expanded |
| `Search.PopBestOpen` | src/neural_astar/planner/pq_astar.py:187-189 | removing the popped cell from open keeps every open score at most what each earlier closed neighbour offers it |
| `Search.PopInOrder` | src/neural_astar/planner/pq_astar.py:187 | the least open score is at most the f_new that any closed cell offers any neighbour not yet closed |
| `Search.PopLeastOrder` | src/neural_astar/planner/pq_astar.py:187-189 | closing a cell with such a score, at the next rank, keeps the least-score closing order |
| `Search.PopFirstParent` | src/neural_astar/planner/pq_astar.py:187-189 | closing a cell changes no parent and ranks it after every parent, so each parent is still the first that offered its child its score |
| `Search.PopKeepsInvariant` | src/neural_astar/planner/pq_astar.py:187-189 | popping a least-score cell and closing it keeps the invariant, closing order and first-parent rule included, except that the popped cell is not yet expanded |
| `Search.RelaxOpenKeys` | src/neural_astar/planner/pq_astar.py:202-213 | after relaxation, open holds grid cells only and none of them is closed |
| `Search.RelaxParentKeys` | src/neural_astar/planner/pq_astar.py:208-213 | after relaxation, the parent map has entries for exactly the open and closed cells |
| `Search.RelaxWellFormed` | src/neural_astar/planner/pq_astar.py:202-213 | relaxation keeps the maps disjoint and the parent keys exact |
| `Search.RelaxRooted` | src/neural_astar/planner/pq_astar.py:202-213 | relaxation keeps the start the root |
| `Search.RelaxParentsClosed` | src/neural_astar/planner/pq_astar.py:213 | relaxation keeps every parent closed: a new parent is the closed cell sel |
| `Search.RelaxParentsAdjacent` | src/neural_astar/planner/pq_astar.py:190-213 | every new parent is a neighbour of its child |
| `Search.RelaxRanked` | src/neural_astar/planner/pq_astar.py:202-213 | relaxation does not change the parent of a closed cell, so parents stay closed earlier |
| `Search.RelaxScores` | src/neural_astar/planner/pq_astar.py:193-213 | every score written is f_new from the parent's closed score |
| `Search.RelaxExpanded` | src/neural_astar/planner/pq_astar.py:190-213 | after relaxation, every neighbour of every closed cell is open or closed |
| `Search.RelaxBestOpen` | src/neural_astar/planner/pq_astar.py:190-213 | after relaxation no open score exceeds the f_new of any closed neighbour: cond keeps the smaller score |
| `Search.RelaxFirstParent` | src/neural_astar/planner/pq_astar.py:202-213 | a cell re-parented to sel had no other closed neighbour, or an open score that sel's offer strictly beats, so every cell closed before sel offers it strictly more: the first-parent rule is kept |
| `Search.RelaxKeepsInvariant` | src/neural_astar/planner/pq_astar.py:190-213 | relaxing the neighbours of the freshly closed cell restores the full invariant |
| `Search.MinimalKeyExists` | src/neural_astar/planner/pq_astar.py:187 | a non-empty score map has a key of least score |
| `Search.PopItem` | src/neural_astar/planner/pq_astar.py:187 | popitem removes and returns an entry of least score |
| `Search.BoundedSetSize` | src/neural_astar/planner/pq_astar.py:182 | a set of indices below n has at most n members, which bounds the number of iterations |
| `Search.Expand` | src/neural_astar/planner/pq_astar.py:186-213 | one iteration closes a least-score open cell, not closed before, with its own score and the next rank, so one more cell is closed and it is ranked last; its neighbours are relaxed; the invariant is kept |
| `Search.Search` | src/neural_astar/planner/pq_astar.py:172-185 | the loop ends with the invariant, which includes the least-score closing order and the first-parent rule of the strict `>`; the goal is closed exactly when found; when found, the goal is the last cell closed, so the loop stops at the expansion that closes it; otherwise open is empty and the closed cells are closed under neighbours; at most H*W*D cells are closed; when start is goal only the start is closed |
| `Search.GoalScoreIsLeast` | src/neural_astar/planner/pq_astar.py:182-189 | when the goal was closed last, its score is at most the f_new any other closed cell offers a neighbour that was never closed |
| `Search.ParentIsFirstLeast` | src/neural_astar/planner/pq_astar.py:187-213 | in a state of the loop, a closed cell's parent offers it no more than any neighbour closed before it, and strictly less than any such neighbour closed before the parent: the parent is the earliest-closed neighbour with the least offer |
| `Search.ExhaustedSearchFacts` | src/neural_astar/planner/pq_astar.py:183-185 | when open runs empty, the start is closed and every neighbour of a closed cell is closed |
| `Search.ExhaustedSearchClosedGoal` | src/neural_astar/planner/pq_astar.py:183-185 | when open runs empty the goal is already closed, so the zero-output return never happens |
| `Trace.MarkCells` | src/neural_astar/planner/pq_astar.py:105-106 | the fresh map holds 1 at [y, x, z] exactly for the cells of the set and 0 elsewhere |
| `Trace.GetHistory` | src/neural_astar/planner/pq_astar.py:101-108 | the history map marks exactly the closed cells |
| `Trace.SearchStateIsTraceable` | src/neural_astar/planner/pq_astar.py:175-176 | under the loop invariant, every closed cell's parent is closed and ranked before it |
| `Trace.Chain` | src/neural_astar/planner/pq_astar.py:114-118 | the visited cells start with the cell backtracking starts from |
| `Trace.Backtrack` | src/neural_astar/planner/pq_astar.py:111-123 | the while loop ends, and the path map marks exactly the cells of the chain from the goal |
| `Trace.ChainUnfold` | src/neural_astar/planner/pq_astar.py:116-118 | the chain from a cell is the cell followed by the chain from its parent |
| `Trace.ChainFollowsParents` | src/neural_astar/planner/pq_astar.py:114-118 | every chain cell is closed, each is followed by its parent, and the last has the sentinel |
| `Trace.RanksDecreaseAlong` | src/neural_astar/planner/pq_astar.py:116-118 | along a path whose steps go to earlier-closed cells, ranks strictly decrease |
| `Trace.ChainHasNoRepeats` | src/neural_astar/planner/pq_astar.py:114-118 | the chain visits no cell twice |
| `Trace.ChainStepsAreNeighbors` | src/neural_astar/planner/pq_astar.py:114-118 | the chain ends at the start, and consecutive cells are neighbours |
| `Trace.ChainIsWalkToStart` | src/neural_astar/planner/pq_astar.py:111-123 | the chain is a repetition-free walk of neighbours from the cell to the start along the parent links |
| `Trace.WeightedStepCostsScale` | src/neural_astar/planner/pq_astar.py:197 | the sum of g-weighted costs is g times the sum of costs |
| `Trace.WeightedStepCostsCons` | src/neural_astar/planner/pq_astar.py:197 | the weighted cost of a path is its first cell's weighted cost plus that of the rest |
| `Trace.ScoreRecurrence` | src/neural_astar/planner/pq_astar.py:193-199 | along a path whose scores follow f_new, the first score minus its weighted estimate is the weighted cost minus the last weighted estimate |
| `Trace.ScoredWalkCost` | src/neural_astar/planner/pq_astar.py:193-199 | such a path's first score is g times its cost plus (1 - g) times the rise of the estimate |
| `Trace.ClosedScoreIsPathCost` | src/neural_astar/planner/pq_astar.py:193-199 | a closed cell's score is g times the predicted cost along its chain (the start's cost excluded) plus (1 - g) times its estimate minus the start's |
| `Trace.ChainScoresLinked` | src/neural_astar/planner/pq_astar.py:193-213 | along the chain every score is f_new of the next cell's score, and the start's score is 0 |
| `Planner.EstimateToGoal` | src/neural_astar/planner/pq_astar.py:196-198 | that estimate is 0 exactly at the goal and at least 1 elsewhere |
| `Planner.SolveSingle` | src/neural_astar/planner/pq_astar.py:158-217 | the maps are fresh and `Solved` holds: they come from a final search state that satisfies the loop invariant (least-score closing order and first-parent rule included) for this cost vector, g_ratio and the estimate to the goal, in which the goal was closed last or open ran empty; with the goal closed they mark the closed cells and the backtracked cells; otherwise they are all zero |
| `Planner.SearchToGoal` | src/neural_astar/planner/pq_astar.py:172-185 | the search with the estimate to the goal ends in a state that satisfies the loop invariant, least-score closing order and first-parent rule included, with the goal closed last when found and open empty otherwise; its closed cells are grid cells with traceable, closed and adjacent parents |
| `Planner.FinalStateFacts` | src/neural_astar/planner/pq_astar.py:182-213 | the final search state has grid cells only, traceable parent links, closed parents and adjacent parents |
| `Planner.PqAstar` | src/neural_astar/planner/pq_astar.py:126-155 | storing intermediate results fails; otherwise one pair of maps per problem, in order, each what solve_single returns for it with the same g_ratio (`Solved`: the loop invariant on the cost vector and g_ratio, least-score closing order and first-parent rule included, the goal closed last or open empty, and the maps built from that state) |
| `Planner.SolvedFindsGoal` | src/neural_astar/planner/pq_astar.py:183-185 | for every solved problem the goal was found |
| `Planner.SolvedPathIsWalk` | src/neural_astar/planner/pq_astar.py:214-216 | the path map marks the cells of a repetition-free walk of neighbours from the goal to the start, all marked in the history map |
| `Planner.MarkedCell` | src/neural_astar/planner/pq_astar.py:106 | a map marking a set of grid cells marks a grid cell exactly when it is in the set |
| `Planner.SolvedMarksEndpoints` | src/neural_astar/planner/pq_astar.py:214-216 | the path map marks the start and the goal, and every cell it marks is marked in the history map |
| `Planner.GoalScoreIsPathCost` | src/neural_astar/planner/pq_astar.py:193-199 | the goal's closed score is g times the predicted path cost minus (1 - g) times the start's estimate |
| `Planner.SolvedTrivialProblem` | src/neural_astar/planner/pq_astar.py:174-189 | when start is goal, history and path each mark that cell alone |

## Left out

- Tensor and array marshalling is not modelled: `detach().numpy()`, `np.zeros_like`, `torch.tensor` and the `AstarOutput` record (lines 14-21, 140-145, 155). `PqAstar` returns sequences of `array3<int>` maps.
- Marker-to-index conversion is not modelled (lines 167-171). Start, goal and the cost vector come as flat indices and a flat sequence.
  - The source flattens in column-major order (`flatten('F')`). That puts y fastest, while every decoding in the file (lines 93, 104, 117) treats `idx % W` as the fastest axis.
  - So the maps the source writes are transposed in the x-y plane with respect to its inputs, and scrambled when H differs from W.
  - The model keeps the source's decoding and does not correct this.
- `map_design` is left out. It is read at line 170, but the obstacle check at line 192 is commented out, so it has no effect on the search.
- Floating point is left out. Costs and scores are exact reals, and numpy's square root is a parameter constrained only by `SqrtLaws`.
- pqdict's heap is left out. Popping takes any key of least score: the choice among equal scores is not visible in this file. `Solved` therefore leaves open only which of several least-score cells each pop takes: it says that the maps were built from a final state that satisfies the loop invariant (parents, ranks and scores computed by lines 193-199 from the cost vector and g_ratio, every closed cell expanded, cells closed in order of least score, every parent the first to offer its child's score), in which the goal was the last cell closed or open ran empty.
- Incidental code is left out: the `print` at line 184, the unused `num_steps` counter (lines 181, 186) and the commented-out debug prints.
- The history map's dtype is not modelled. The source returns the history as a float array and the path as an integer array; both are `array3<int>` here.
- Planner.SolveSingle: the zero-output branch of lines 183-185 is kept as written. `Planner.SolvedFindsGoal` and `Search.ExhaustedSearchClosedGoal` show that it is never taken for a start and a goal inside the grid.
