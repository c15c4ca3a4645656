/** solve_single (lines 158-217) and pq_astar (lines 126-155): the search of module
    Search run with compute_chebyshev_distance to the goal as its estimate, followed by
    get_history and backtrack, once per problem of a batch. */
module Planner {
  import opened Topology
  import opened Heuristic
  import opened Search
  import opened Trace

  datatype Result<T> = Ok(value: T) | Err(msg: string)

  /** compute_chebyshev_distance(., goal_idx, W, H): the estimate lines 193-199 use.
      What it promises is stated by EstimateToGoal. */
  function EstimateTo(goal: int, W: int, H: int, sqrt: real -> real): (h: int -> real)
    requires W > 0 && H > 0
  {
    i => DistanceEstimate(i, goal, W, H, sqrt)
  }

  /** The estimate to the goal vanishes exactly at the goal and is at least 1 elsewhere. */
  lemma EstimateToGoal(inst: Instance, sqrt: real -> real, i: int)
    requires inst.Valid() && SqrtLaws(sqrt)
    ensures EstimateTo(inst.goal, inst.W, inst.H, sqrt)(i) == 0.0 <==> i == inst.goal
    ensures i != inst.goal ==> EstimateTo(inst.goal, inst.W, inst.H, sqrt)(i) >= 1.0
  {
    HeuristicZeroIff(i, inst.goal, inst.W, inst.H, sqrt);
  }

  /** The final state of a run of the search with the estimate to the goal: the
      invariant of the loop of line 182 holds, and the loop stopped either at the
      expansion that closed the goal (the goal was the last cell closed) or because the
      open map ran empty. The invariant is stated for every e equal to the estimate,
      which is to say for the estimate itself. */
  ghost predicate RunOf(inst: Instance, gRatio: real, sqrt: real -> real, found: bool, open: Scores,
                        closed: Scores, parent: Parents, rank: map<int, nat>)
    requires inst.Valid()
  {
    && (found <==> inst.goal in closed)
    && (forall e | e == EstimateTo(inst.goal, inst.W, inst.H, sqrt) ::
          SearchInv(inst, gRatio, e, open, closed, parent, rank))
    && (found ==> inst.goal in rank && rank[inst.goal] == |closed| - 1)
    && (!found ==> open == map[] && inst.start in closed)
  }

  /** The maps solve_single builds from a final search state. If the goal was closed,
      the parent links lead every closed cell back to the start through neighbouring
      closed cells, the history map marks the closed cells and the path map the cells
      backtrack visits from the goal. Otherwise the closed cells include the start and
      every neighbour of each of them, and both maps are all zero (lines 183-185). */
  ghost predicate MapsOf(inst: Instance, historyMap: array3<int>, pathMap: array3<int>, found: bool,
                         closed: Scores, parent: Parents, rank: map<int, nat>)
    requires inst.Valid()
    reads historyMap, pathMap
  {
    && (found <==> inst.goal in closed)
    && (forall k :: k in closed ==> InGrid(k, inst.H, inst.W, inst.D))
    && (inst.start == inst.goal ==> closed.Keys == {inst.start})
    && (found ==>
          && ChainReady(closed, parent, rank)
          && ParentsClosed(inst, closed, parent)
          && ParentsAdjacent(inst, parent)
          && Marks(historyMap, closed.Keys, inst.H, inst.W, inst.D)
          && Marks(pathMap, CellsOf(Chain(closed, parent, rank, inst.goal)), inst.H, inst.W, inst.D))
    && (!found ==>
          && inst.start in closed
          && ClosedUnderNeighbors(closed.Keys, inst.H, inst.W, inst.D)
          && Marks(historyMap, {}, inst.H, inst.W, inst.D)
          && Marks(pathMap, {}, inst.H, inst.W, inst.D))
  }

  /** The pair of maps is what solve_single returns for the problem with this g_ratio,
      for some run of the search: which of several cells of equal least score the pop
      takes is left open, everything else follows the loop invariant. */
  ghost predicate Solved(inst: Instance, gRatio: real, sqrt: real -> real, historyMap: array3<int>,
                         pathMap: array3<int>)
    requires inst.Valid()
    reads historyMap, pathMap
  {
    exists found, open, closed, parent, rank ::
      && RunOf(inst, gRatio, sqrt, found, open, closed, parent, rank)
      && MapsOf(inst, historyMap, pathMap, found, closed, parent, rank)
  }

  /** solve_single(pred_cost, start_map, goal_map, map_design, g_ratio), on a problem
      whose costs are already flattened and whose start and goal are already indices. */
  method SolveSingle(inst: Instance, gRatio: real, sqrt: real -> real)
    returns (historyMap: array3<int>, pathMap: array3<int>)
    requires inst.Valid()
    ensures fresh(historyMap) && fresh(pathMap)
    ensures Solved(inst, gRatio, sqrt, historyMap, pathMap)
  {
    var found, open, closed, parent, rank := SearchToGoal(inst, gRatio, sqrt);
    if !found {
      historyMap := MarkCells({}, inst.H, inst.W, inst.D);
      pathMap := MarkCells({}, inst.H, inst.W, inst.D);
    } else {
      historyMap := GetHistory(closed, inst.H, inst.W, inst.D);
      pathMap := Backtrack(parent, inst.goal, inst.H, inst.W, inst.D, closed, rank);
    }
    assert MapsOf(inst, historyMap, pathMap, found, closed, parent, rank);
  }

  /** The search of lines 172-185 with the estimate to the goal, and the facts about its
      final state that the maps rest on. */
  method SearchToGoal(inst: Instance, gRatio: real, sqrt: real -> real)
    returns (found: bool, ghost open: Scores, closed: Scores, parent: Parents, ghost rank: map<int, nat>)
    requires inst.Valid()
    ensures RunOf(inst, gRatio, sqrt, found, open, closed, parent, rank)
    ensures forall k :: k in closed ==> InGrid(k, inst.H, inst.W, inst.D)
    ensures inst.start == inst.goal ==> closed.Keys == {inst.start}
    ensures found ==> ChainReady(closed, parent, rank) && ParentsClosed(inst, closed, parent)
                      && ParentsAdjacent(inst, parent)
    ensures !found ==> inst.start in closed && ClosedUnderNeighbors(closed.Keys, inst.H, inst.W, inst.D)
  {
    var h := EstimateTo(inst.goal, inst.W, inst.H, sqrt);
    found, open, closed, parent, rank := Search.Search(inst, gRatio, h);
    FinalStateFacts(inst, gRatio, h, open, closed, parent, rank);
  }

  /** The facts about the final search state that the outcome rests on. */
  lemma FinalStateFacts(inst: Instance, gRatio: real, h: int -> real, open: Scores, closed: Scores,
                        parent: Parents, rank: map<int, nat>)
    requires inst.Valid() && SearchInv(inst, gRatio, h, open, closed, parent, rank)
    ensures forall k :: k in closed ==> InGrid(k, inst.H, inst.W, inst.D)
    ensures ChainReady(closed, parent, rank)
    ensures ParentsClosed(inst, closed, parent) && ParentsAdjacent(inst, parent)
  {
    SearchStateIsTraceable(inst, gRatio, h, open, closed, parent, rank);
  }

  /** pq_astar(pred_costs, start_maps, goal_maps, map_designs, store_intermediate_results,
      g_ratio): the assertion of lines 136-138 refuses to store intermediate results;
      otherwise every problem of the batch is solved in turn (lines 146-153). */
  method PqAstar(problems: seq<Instance>, storeIntermediateResults: bool, gRatio: real, sqrt: real -> real)
    returns (r: Result<(seq<array3<int>>, seq<array3<int>>)>)
    requires forall n :: 0 <= n < |problems| ==> problems[n].Valid()
    ensures storeIntermediateResults <==> r.Err?
    ensures r.Ok? ==> |r.value.0| == |problems| && |r.value.1| == |problems|
    ensures r.Ok? ==> forall n :: 0 <= n < |problems| ==>
      Solved(problems[n], gRatio, sqrt, r.value.0[n], r.value.1[n])
  {
    if storeIntermediateResults {
      return Err("store_intermediate_results = True is currently supported only for differentiable A*");
    }
    var histories: seq<array3<int>> := [];
    var paths: seq<array3<int>> := [];
    for n := 0 to |problems|
      invariant |histories| == n && |paths| == n
      invariant forall m :: 0 <= m < n ==> Solved(problems[m], gRatio, sqrt, histories[m], paths[m])
    {
      var historyMap, pathMap := SolveSingle(problems[n], gRatio, sqrt);
      assert forall m :: 0 <= m < n ==> Solved(problems[m], gRatio, sqrt, histories[m], paths[m]);
      var histories', paths' := histories + [historyMap], paths + [pathMap];
      forall m | 0 <= m <= n ensures Solved(problems[m], gRatio, sqrt, histories'[m], paths'[m]) {
        if m < n {
          assert histories'[m] == histories[m] && paths'[m] == paths[m];
        } else {
          assert histories'[m] == historyMap && paths'[m] == pathMap;
        }
      }
      histories, paths := histories', paths';
    }
    r := Ok((histories, paths));
  }

  // ---------------------------------------------------------------------------
  // What the maps of a solved problem say

  /** The zero-output branch of lines 183-185 is never taken: the start and the goal are
      grid cells and every grid cell is reachable, so the search always closes the goal. */
  lemma SolvedFindsGoal(inst: Instance, historyMap: array3<int>, pathMap: array3<int>, found: bool,
                        closed: Scores, parent: Parents, rank: map<int, nat>)
    requires inst.Valid() && MapsOf(inst, historyMap, pathMap, found, closed, parent, rank)
    ensures found && inst.goal in closed
  {
    if !found {
      ClosedSetCoversGrid(closed.Keys, inst.start, inst.goal, inst.H, inst.W, inst.D);
    }
  }

  /** path leads from the goal back to the start through 26-neighbours, without
      repeating a cell. */
  ghost predicate WalkFromGoal(inst: Instance, path: seq<int>)
    requires inst.Valid()
  {
    && |path| >= 1 && path[0] == inst.goal && path[|path| - 1] == inst.start
    && (forall i :: 0 <= i < |path| - 1 ==> path[i] in Neighbors(path[i + 1], inst.H, inst.W, inst.D))
    && (forall i, j :: 0 <= i < j < |path| ==> path[i] != path[j])
  }

  /** The cells that the path map marks are those of a walk from the goal back to the
      start, and the history map marks each of them. */
  lemma SolvedPathIsWalk(inst: Instance, gRatio: real, sqrt: real -> real, historyMap: array3<int>, pathMap: array3<int>)
    requires inst.Valid() && Solved(inst, gRatio, sqrt, historyMap, pathMap)
    ensures exists path: seq<int> ::
      && WalkFromGoal(inst, path)
      && Marks(pathMap, CellsOf(path), inst.H, inst.W, inst.D)
      && CellsOf(path) <= Marked(historyMap, inst)
  {
    var found: bool, open: Scores, closed: Scores, parent: Parents, rank: map<int, nat> :|
      RunOf(inst, gRatio, sqrt, found, open, closed, parent, rank)
      && MapsOf(inst, historyMap, pathMap, found, closed, parent, rank);
    SolvedFindsGoal(inst, historyMap, pathMap, found, closed, parent, rank);
    var path := Chain(closed, parent, rank, inst.goal);
    ChainIsWalkToStart(inst, closed, parent, rank, inst.goal);
    assert WalkFromGoal(inst, path);
    forall c | c in CellsOf(path) ensures c in Marked(historyMap, inst) {
      MarkedCell(historyMap, closed.Keys, inst, c);
    }
    assert Marks(pathMap, CellsOf(path), inst.H, inst.W, inst.D);
  }

  /** The cells marked 1 in a map of shape (H, W, D). */
  ghost function Marked(m: array3<int>, inst: Instance): set<int>
    requires inst.Valid()
    reads m
  {
    set c | 0 <= c < inst.H * inst.W * inst.D && m.Length0 == inst.H && m.Length1 == inst.W && m.Length2 == inst.D
              && m[Y(c, inst.H, inst.W), X(c, inst.W), Z(c, inst.H, inst.W)] == 1
  }

  /** A map that marks a set of grid cells marks exactly those cells. */
  lemma MarkedCell(m: array3<int>, cells: set<int>, inst: Instance, c: int)
    requires inst.Valid() && Marks(m, cells, inst.H, inst.W, inst.D)
    requires forall k :: k in cells ==> InGrid(k, inst.H, inst.W, inst.D)
    ensures InGrid(c, inst.H, inst.W, inst.D) ==> (c in Marked(m, inst) <==> c in cells)
    ensures c in cells ==> c in Marked(m, inst)
  {
    if InGrid(c, inst.H, inst.W, inst.D) {
      CoordinatesInRange(c, inst.H, inst.W, inst.D);
      EncodeDecode(c, inst.H, inst.W);
    }
  }

  /** The history map marks the start and the goal, and so does the path map; every
      cell the path map marks is marked in the history map too. */
  lemma SolvedMarksEndpoints(inst: Instance, gRatio: real, sqrt: real -> real, historyMap: array3<int>, pathMap: array3<int>)
    requires inst.Valid() && Solved(inst, gRatio, sqrt, historyMap, pathMap)
    ensures inst.start in Marked(pathMap, inst) && inst.goal in Marked(pathMap, inst)
    ensures Marked(pathMap, inst) <= Marked(historyMap, inst)
  {
    var found: bool, open: Scores, closed: Scores, parent: Parents, rank: map<int, nat> :|
      RunOf(inst, gRatio, sqrt, found, open, closed, parent, rank)
      && MapsOf(inst, historyMap, pathMap, found, closed, parent, rank);
    SolvedFindsGoal(inst, historyMap, pathMap, found, closed, parent, rank);
    var path := Chain(closed, parent, rank, inst.goal);
    ChainIsWalkToStart(inst, closed, parent, rank, inst.goal);
    assert path[0] in CellsOf(path) && path[|path| - 1] in CellsOf(path);
    assert forall k :: k in CellsOf(path) ==> k in closed;
    MarkedCell(pathMap, CellsOf(path), inst, inst.start);
    MarkedCell(pathMap, CellsOf(path), inst, inst.goal);
    forall c | c in Marked(pathMap, inst) ensures c in Marked(historyMap, inst) {
      assert InGrid(c, inst.H, inst.W, inst.D);
      MarkedCell(pathMap, CellsOf(path), inst, c);
      assert c in closed;
      MarkedCell(historyMap, closed.Keys, inst, c);
    }
  }

  /** The score with which the goal was closed is gRatio times the predicted cost of
      the path (the start's own cost excluded) minus (1 - gRatio) times the estimate at
      the start: the estimate at the goal is 0. */
  lemma GoalScoreIsPathCost(inst: Instance, gRatio: real, sqrt: real -> real, open: Scores, closed: Scores,
                            parent: Parents, rank: map<int, nat>)
    requires inst.Valid() && SqrtLaws(sqrt) && inst.goal in closed
    requires SearchInv(inst, gRatio, EstimateTo(inst.goal, inst.W, inst.H, sqrt), open, closed, parent, rank)
    ensures ChainReady(closed, parent, rank)
    ensures forall i :: 0 <= i < |Chain(closed, parent, rank, inst.goal)| ==>
      0 <= Chain(closed, parent, rank, inst.goal)[i] < |inst.cost|
    ensures closed[inst.goal]
         == CostPlusEstimate(inst, gRatio, Chain(closed, parent, rank, inst.goal), 0.0,
                             DistanceEstimate(inst.start, inst.goal, inst.W, inst.H, sqrt))
  {
    var h := EstimateTo(inst.goal, inst.W, inst.H, sqrt);
    SearchStateIsTraceable(inst, gRatio, h, open, closed, parent, rank);
    ClosedScoreIsPathCost(inst, gRatio, h, open, closed, parent, rank, inst.goal);
    EstimateToGoal(inst, sqrt, inst.goal);
  }

  /** A problem whose start is its goal is solved at the first expansion: both maps
      mark the start cell alone. */
  lemma SolvedTrivialProblem(inst: Instance, gRatio: real, sqrt: real -> real, historyMap: array3<int>, pathMap: array3<int>)
    requires inst.Valid() && Solved(inst, gRatio, sqrt, historyMap, pathMap) && inst.start == inst.goal
    ensures Marks(historyMap, {inst.start}, inst.H, inst.W, inst.D)
    ensures Marks(pathMap, {inst.start}, inst.H, inst.W, inst.D)
  {
    var found: bool, open: Scores, closed: Scores, parent: Parents, rank: map<int, nat> :|
      RunOf(inst, gRatio, sqrt, found, open, closed, parent, rank)
      && MapsOf(inst, historyMap, pathMap, found, closed, parent, rank);
    SolvedFindsGoal(inst, historyMap, pathMap, found, closed, parent, rank);
    ChainUnfold(closed, parent, rank, inst.goal);
    assert parent[inst.start].None?;
    assert CellsOf(Chain(closed, parent, rank, inst.goal)) == {inst.start};
  }
}
