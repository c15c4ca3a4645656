/** What solve_single makes of the final search state: the history map of get_history
    (lines 101-108), the path map of backtrack (lines 111-123), and what the path is. */
module Trace {
  import opened Topology
  import opened Search

  /** A 0/1 map of shape (H, W, D) that holds 1 at [y, x, z] exactly when the cell with
      those decoded coordinates is in cells. */
  ghost predicate Marks(m: array3<int>, cells: set<int>, H: int, W: int, D: int)
    requires H > 0 && W > 0
    reads m
  {
    && m.Length0 == H && m.Length1 == W && m.Length2 == D
    && forall y, x, z :: 0 <= y < H && 0 <= x < W && 0 <= z < D ==>
         m[y, x, z] == (if Encode(x, y, z, H, W) in cells then 1 else 0)
  }

  /** np.zeros((H, W, D)) followed by setting [idx // W % H, idx % W, idx // (W * H)] to 1
      for every idx of cells. */
  method MarkCells(cells: set<int>, H: int, W: int, D: int) returns (m: array3<int>)
    requires H > 0 && W > 0 && D > 0
    requires forall c :: c in cells ==> InGrid(c, H, W, D)
    ensures fresh(m) && Marks(m, cells, H, W, D)
  {
    m := new int[H, W, D]((y, x, z) => 0);
    var todo := cells;
    while todo != {}
      invariant todo <= cells
      invariant m.Length0 == H && m.Length1 == W && m.Length2 == D
      invariant forall y, x, z :: 0 <= y < H && 0 <= x < W && 0 <= z < D ==>
          m[y, x, z] == (if Encode(x, y, z, H, W) in cells - todo then 1 else 0)
      decreases |todo|
    {
      if forall j :: j !in todo {
        assert false;
      }
      var c :| c in todo;
      CoordinatesInRange(c, H, W, D);
      EncodeDecode(c, H, W);
      forall y, x, z | 0 <= y < H && 0 <= x < W && 0 <= z < D && Encode(x, y, z, H, W) == c
        ensures y == Y(c, H, W) && x == X(c, W) && z == Z(c, H, W)
      {
        DecodeEncode(x, y, z, H, W);
      }
      m[Y(c, H, W), X(c, W), Z(c, H, W)] := 1;
      todo := todo - {c};
    }
  }

  /** get_history(close_list, H, W, D): every closed cell marked. */
  method GetHistory(closed: Scores, H: int, W: int, D: int) returns (historyMap: array3<int>)
    requires H > 0 && W > 0 && D > 0
    requires forall c :: c in closed ==> InGrid(c, H, W, D)
    ensures fresh(historyMap) && Marks(historyMap, closed.Keys, H, W, D)
  {
    historyMap := MarkCells(closed.Keys, H, W, D);
  }

  /** The parent links of closed cells stay among closed cells and go to a cell closed
      earlier, so following them from a closed cell ends. */
  ghost predicate ChainReady(closed: Scores, parent: Parents, rank: map<int, nat>)
  {
    && rank.Keys == closed.Keys
    && (forall k :: k in closed ==> k in parent)
    && (forall k :: k in closed && parent[k].Some? ==> parent[k].value in closed && rank[parent[k].value] < rank[k])
  }

  /** The search invariant provides what backtracking needs. */
  lemma SearchStateIsTraceable(inst: Instance, gRatio: real, h: int -> real, open: Scores, closed: Scores,
                               parent: Parents, rank: map<int, nat>)
    requires inst.Valid() && SearchInv(inst, gRatio, h, open, closed, parent, rank)
    ensures ChainReady(closed, parent, rank)
  {
    forall k | k in closed && parent[k].Some? ensures parent[k].value in closed && rank[parent[k].value] < rank[k] {
      assert parent[k] == Some(parent[k].value);
    }
  }

  /** The cells visited by the loop of backtrack from c: c, its parent, its parent's
      parent, and so on up to the cell whose parent is the sentinel. */
  ghost function Chain(closed: Scores, parent: Parents, rank: map<int, nat>, c: int): (path: seq<int>)
    requires ChainReady(closed, parent, rank) && c in closed
    ensures |path| >= 1 && path[0] == c
    decreases rank[c]
  {
    match parent[c]
    case None => [c]
    case Some(p) => [c] + Chain(closed, parent, rank, p)
  }

  /** backtrack(parent_list, goal_idx, H, W, D): follow the parent links from the goal to
      the sentinel, collecting the cells, and mark them. */
  method Backtrack(parent: Parents, goal: int, H: int, W: int, D: int,
                   ghost closed: Scores, ghost rank: map<int, nat>) returns (pathMap: array3<int>)
    requires H > 0 && W > 0 && D > 0
    requires ChainReady(closed, parent, rank) && goal in closed
    requires forall c :: c in closed ==> InGrid(c, H, W, D)
    ensures fresh(pathMap)
    ensures Marks(pathMap, CellsOf(Chain(closed, parent, rank, goal)), H, W, D)
  {
    var current: Option<int> := Some(goal);
    var path: seq<int> := [];
    while current.Some?
      invariant current.Some? ==> current.value in closed
      invariant forall c :: c in path ==> c in closed
      invariant path + (if current.Some? then Chain(closed, parent, rank, current.value) else [])
             == Chain(closed, parent, rank, goal)
      decreases if current.Some? then rank[current.value] + 1 else 0
    {
      var c := current.value;
      ChainUnfold(closed, parent, rank, c);
      path := path + [c];
      current := parent[c];
    }
    assert path == Chain(closed, parent, rank, goal);
    pathMap := MarkCells(CellsOf(path), H, W, D);
  }

  /** The set of cells on a path. */
  function CellsOf(path: seq<int>): set<int>
  {
    set c | c in path
  }

  /** One step of the walk: the chain from c is c followed by the chain from its parent. */
  lemma ChainUnfold(closed: Scores, parent: Parents, rank: map<int, nat>, c: int)
    requires ChainReady(closed, parent, rank) && c in closed
    ensures parent[c].Some? ==> parent[c].value in closed
    ensures Chain(closed, parent, rank, c)
         == [c] + (if parent[c].Some? then Chain(closed, parent, rank, parent[c].value) else [])
  {
  }

  /** Every cell of the chain from c is closed, each is followed by its parent, and the
      last has the sentinel as its parent. */
  lemma {:induction false} ChainFollowsParents(closed: Scores, parent: Parents, rank: map<int, nat>, c: int)
    requires ChainReady(closed, parent, rank) && c in closed
    ensures var path := Chain(closed, parent, rank, c);
      && (forall i :: 0 <= i < |path| ==> path[i] in closed && path[i] in parent)
      && (forall i :: 0 <= i < |path| - 1 ==> parent[path[i]] == Some(path[i + 1]))
      && parent[path[|path| - 1]] == None
    decreases rank[c]
  {
    match parent[c]
    case None =>
    case Some(p) =>
      ChainFollowsParents(closed, parent, rank, p);
      var tail := Chain(closed, parent, rank, p);
      var path := Chain(closed, parent, rank, c);
      assert path == [c] + tail;
      forall i | 0 <= i < |path| ensures path[i] in closed && path[i] in parent {
        if i > 0 {
          assert path[i] == tail[i - 1];
        }
      }
      forall i | 0 <= i < |path| - 1 ensures parent[path[i]] == Some(path[i + 1]) {
        if i > 0 {
          assert path[i] == tail[i - 1] && path[i + 1] == tail[i];
        }
      }
      assert path[|path| - 1] == tail[|tail| - 1];
  }

  /** Ranks that drop at every step of a path drop between any two of its positions. */
  lemma {:induction false} RanksDecreaseAlong(path: seq<int>, rank: map<int, nat>)
    requires forall i :: 0 <= i < |path| ==> path[i] in rank
    requires forall i :: 0 <= i < |path| - 1 ==> rank[path[i + 1]] < rank[path[i]]
    ensures forall i, j :: 0 <= i < j < |path| ==> rank[path[j]] < rank[path[i]]
    decreases |path|
  {
    if |path| > 1 {
      var tail := path[1..];
      RanksDecreaseAlong(tail, rank);
      forall i, j | 0 <= i < j < |path| ensures rank[path[j]] < rank[path[i]] {
        assert path[j] == tail[j - 1];
        if i == 0 {
          if j > 1 {
            assert rank[tail[j - 1]] < rank[tail[0]];
          }
        } else {
          assert path[i] == tail[i - 1];
        }
      }
    }
  }

  /** No cell repeats on the chain from c, as ranks strictly decrease along it. */
  lemma ChainHasNoRepeats(closed: Scores, parent: Parents, rank: map<int, nat>, c: int)
    requires ChainReady(closed, parent, rank) && c in closed
    ensures var path := Chain(closed, parent, rank, c);
      forall i, j :: 0 <= i < j < |path| ==> path[i] != path[j]
  {
    var path := Chain(closed, parent, rank, c);
    ChainFollowsParents(closed, parent, rank, c);
    forall i | 0 <= i < |path| ensures path[i] in rank {
      assert path[i] in closed;
    }
    forall i | 0 <= i < |path| - 1 ensures rank[path[i + 1]] < rank[path[i]] {
      var k := path[i];
      assert k in closed && parent[k] == Some(path[i + 1]);
      assert parent[k].value in closed && rank[parent[k].value] < rank[k];
    }
    RanksDecreaseAlong(path, rank);
    forall i, j | 0 <= i < j < |path| ensures path[i] != path[j] {
      assert rank[path[j]] < rank[path[i]];
    }
  }

  /** The chain from c ends at the start, and each of its cells is a 26-neighbour of the next. */
  lemma ChainStepsAreNeighbors(inst: Instance, closed: Scores, parent: Parents, rank: map<int, nat>, c: int)
    requires inst.Valid() && ChainReady(closed, parent, rank) && c in closed
    requires ParentsClosed(inst, closed, parent) && ParentsAdjacent(inst, parent)
    ensures var path := Chain(closed, parent, rank, c);
      && path[|path| - 1] == inst.start
      && forall i :: 0 <= i < |path| - 1 ==> path[i] in Neighbors(path[i + 1], inst.H, inst.W, inst.D)
  {
    var path := Chain(closed, parent, rank, c);
    ChainFollowsParents(closed, parent, rank, c);
    assert path[|path| - 1] in parent && parent[path[|path| - 1]].None?;
    forall i | 0 <= i < |path| - 1
      ensures path[i] in Neighbors(path[i + 1], inst.H, inst.W, inst.D)
    {
      var k := path[i];
      assert k in parent && parent[k] == Some(path[i + 1]);
      assert k != inst.start;
      assert k in Neighbors(parent[k].value, inst.H, inst.W, inst.D);
    }
  }

  /** The chain from a closed cell c is a walk of 26-neighbours through closed cells,
      each cell followed by its parent, that ends at the start and repeats no cell. */
  lemma ChainIsWalkToStart(inst: Instance, closed: Scores, parent: Parents, rank: map<int, nat>, c: int)
    requires inst.Valid() && ChainReady(closed, parent, rank) && c in closed
    requires ParentsClosed(inst, closed, parent) && ParentsAdjacent(inst, parent)
    ensures var path := Chain(closed, parent, rank, c);
      && path[0] == c && path[|path| - 1] == inst.start
      && (forall i :: 0 <= i < |path| ==> path[i] in closed && path[i] in parent)
      && (forall i :: 0 <= i < |path| - 1 ==>
            parent[path[i]] == Some(path[i + 1]) && path[i] in Neighbors(path[i + 1], inst.H, inst.W, inst.D))
      && (forall i, j :: 0 <= i < j < |path| ==> path[i] != path[j])
  {
    ChainFollowsParents(closed, parent, rank, c);
    ChainStepsAreNeighbors(inst, closed, parent, rank, c);
    ChainHasNoRepeats(closed, parent, rank, c);
  }

  /** The sum of the predicted costs of the cells of a path other than its last cell. */
  ghost function StepCosts(inst: Instance, path: seq<int>): real
    requires forall i :: 0 <= i < |path| ==> 0 <= path[i] < |inst.cost|
  {
    if |path| <= 1 then 0.0 else inst.cost[path[0]] + StepCosts(inst, path[1..])
  }

  /** The same sum with every cost weighted by g, as lines 193-199 add them up. */
  ghost function WeightedStepCosts(inst: Instance, g: real, path: seq<int>): real
    requires forall i :: 0 <= i < |path| ==> 0 <= path[i] < |inst.cost|
  {
    if |path| <= 1 then 0.0 else g * inst.cost[path[0]] + WeightedStepCosts(inst, g, path[1..])
  }

  lemma {:induction false} WeightedStepCostsScale(inst: Instance, g: real, path: seq<int>)
    requires forall i :: 0 <= i < |path| ==> 0 <= path[i] < |inst.cost|
    ensures WeightedStepCosts(inst, g, path) == g * StepCosts(inst, path)
  {
    if |path| > 1 {
      WeightedStepCostsScale(inst, g, path[1..]);
      Distribute(g, inst.cost[path[0]], StepCosts(inst, path[1..]));
    }
  }

  lemma WeightedStepCostsCons(inst: Instance, g: real, path: seq<int>)
    requires |path| >= 2 && forall i :: 0 <= i < |path| ==> 0 <= path[i] < |inst.cost|
    ensures WeightedStepCosts(inst, g, path) == g * inst.cost[path[0]] + WeightedStepCosts(inst, g, path[1..])
  {
  }

  lemma Distribute(g: real, a: real, b: real)
    ensures g * (a + b) == g * a + g * b
  {
  }

  /** Along a walk whose every cell's score was computed by lines 193-199 from the score
      of the next cell, ending at a cell of score 0, the score minus the weighted estimate
      grows by the weighted cost of each cell passed, so it adds up along the walk. */
  lemma {:induction false} ScoreRecurrence(inst: Instance, gRatio: real, h: int -> real, closed: Scores, path: seq<int>)
    requires inst.Valid() && |path| >= 1
    requires forall i :: 0 <= i < |path| ==> path[i] in closed && 0 <= path[i] < |inst.cost|
    requires closed[path[|path| - 1]] == 0.0
    requires forall i :: 0 <= i < |path| - 1 ==>
      closed[path[i]] == FNew(inst, gRatio, h, path[i + 1], closed[path[i + 1]], path[i])
    ensures closed[path[0]] - (1.0 - gRatio) * h(path[0])
         == WeightedStepCosts(inst, gRatio, path) - (1.0 - gRatio) * h(path[|path| - 1])
    decreases |path|
  {
    if |path| >= 2 {
      var tail := path[1..];
      forall i | 0 <= i < |tail| - 1
        ensures closed[tail[i]] == FNew(inst, gRatio, h, tail[i + 1], closed[tail[i + 1]], tail[i])
      {
        assert tail[i] == path[i + 1] && tail[i + 1] == path[i + 2];
      }
      ScoreRecurrence(inst, gRatio, h, closed, tail);
      WeightedStepCostsCons(inst, gRatio, path);
      assert closed[path[0]] == FNew(inst, gRatio, h, path[1], closed[path[1]], path[0]);
      RecurrenceStep(closed[path[0]], closed[path[1]], 1.0 - gRatio, h(path[1]), h(path[0]), h(path[|path| - 1]),
                     gRatio * inst.cost[path[0]], WeightedStepCosts(inst, gRatio, tail), WeightedStepCosts(inst, gRatio, path));
    }
  }

  /** The score at the head of such a walk in the g + h form. */
  lemma ScoredWalkCost(inst: Instance, gRatio: real, h: int -> real, closed: Scores, path: seq<int>)
    requires inst.Valid() && |path| >= 1
    requires forall i :: 0 <= i < |path| ==> path[i] in closed && 0 <= path[i] < |inst.cost|
    requires closed[path[|path| - 1]] == 0.0
    requires forall i :: 0 <= i < |path| - 1 ==>
      closed[path[i]] == FNew(inst, gRatio, h, path[i + 1], closed[path[i + 1]], path[i])
    ensures closed[path[0]] == CostPlusEstimate(inst, gRatio, path, h(path[0]), h(path[|path| - 1]))
  {
    ScoreRecurrence(inst, gRatio, h, closed, path);
    WeightedToPlain(inst, gRatio, path, closed[path[0]], h(path[0]), h(path[|path| - 1]));
  }

  /** One parent link of the recurrence, on the reals alone: fc is the score of lines
      193-199 computed from fp, a = 1 - gRatio and gc the weighted cost of the child. */
  lemma RecurrenceStep(fc: real, fp: real, a: real, hp: real, hc: real, hs: real, gc: real, wt: real, w: real)
    requires fc == fp - a * hp + gc + a * hc
    requires fp - a * hp == wt - a * hs
    requires w == gc + wt
    ensures fc - a * hc == w - a * hs
  {
  }

  /** The closed score of a cell is gRatio times the predicted cost of the chain from it
      (the start's own cost excluded) plus (1 - gRatio) times the difference of the
      estimates at the cell and at the start: the g + h decomposition of f. */
  lemma ClosedScoreIsPathCost(inst: Instance, gRatio: real, h: int -> real, open: Scores,
                              closed: Scores, parent: Parents, rank: map<int, nat>, c: int)
    requires inst.Valid() && ChainReady(closed, parent, rank) && c in closed
    requires forall k :: k in closed ==> InGrid(k, inst.H, inst.W, inst.D)
    requires Rooted(inst, open, closed, parent) && ParentsClosed(inst, closed, parent) && ParentsAdjacent(inst, parent)
    requires ScoresFromParents(inst, gRatio, h, open, closed, parent)
    ensures forall i :: 0 <= i < |Chain(closed, parent, rank, c)| ==>
      0 <= Chain(closed, parent, rank, c)[i] < |inst.cost|
    ensures closed[c] == CostPlusEstimate(inst, gRatio, Chain(closed, parent, rank, c), h(c), h(inst.start))
  {
    var path := Chain(closed, parent, rank, c);
    ChainScoresLinked(inst, gRatio, h, open, closed, parent, rank, c);
    ScoredWalkCost(inst, gRatio, h, closed, path);
  }

  /** Along the chain from c, each cell's closed score was computed from its successor's,
      and the chain ends at the start, whose score is 0. */
  lemma ChainScoresLinked(inst: Instance, gRatio: real, h: int -> real, open: Scores,
                          closed: Scores, parent: Parents, rank: map<int, nat>, c: int)
    requires inst.Valid() && ChainReady(closed, parent, rank) && c in closed
    requires forall k :: k in closed ==> InGrid(k, inst.H, inst.W, inst.D)
    requires Rooted(inst, open, closed, parent) && ParentsClosed(inst, closed, parent) && ParentsAdjacent(inst, parent)
    requires ScoresFromParents(inst, gRatio, h, open, closed, parent)
    ensures var path := Chain(closed, parent, rank, c);
      && path[0] == c && path[|path| - 1] == inst.start
      && (forall i :: 0 <= i < |path| ==> path[i] in closed && 0 <= path[i] < |inst.cost|)
      && closed[path[|path| - 1]] == 0.0
      && (forall i :: 0 <= i < |path| - 1 ==>
            closed[path[i]] == FNew(inst, gRatio, h, path[i + 1], closed[path[i + 1]], path[i]))
  {
    var path := Chain(closed, parent, rank, c);
    ChainIsWalkToStart(inst, closed, parent, rank, c);
    forall i | 0 <= i < |path| ensures 0 <= path[i] < |inst.cost| {
      assert InGrid(path[i], inst.H, inst.W, inst.D);
    }
    forall i | 0 <= i < |path| - 1
      ensures closed[path[i]] == FNew(inst, gRatio, h, path[i + 1], closed[path[i + 1]], path[i])
    {
      assert parent[path[i]] == Some(path[i + 1]) && path[i + 1] in closed;
    }
  }

  /** g times the predicted cost of a path plus (1 - g) times the rise of the estimate
      from its last cell to its first. */
  ghost function CostPlusEstimate(inst: Instance, g: real, path: seq<int>, hc: real, hs: real): real
    requires forall i :: 0 <= i < |path| ==> 0 <= path[i] < |inst.cost|
  {
    g * StepCosts(inst, path) + (1.0 - g) * (hc - hs)
  }

  /** A score that satisfies the weighted recurrence along a path has the g + h form. */
  lemma WeightedToPlain(inst: Instance, g: real, path: seq<int>, f: real, hc: real, hs: real)
    requires forall i :: 0 <= i < |path| ==> 0 <= path[i] < |inst.cost|
    requires f - (1.0 - g) * hc == WeightedStepCosts(inst, g, path) - (1.0 - g) * hs
    ensures f == CostPlusEstimate(inst, g, path, hc, hs)
  {
    WeightedStepCostsScale(inst, g, path);
    ScoreForm(f, g, WeightedStepCosts(inst, g, path), StepCosts(inst, path), hc, hs);
  }

  lemma ScoreForm(f: real, g: real, w: real, s: real, hc: real, hs: real)
    requires f - (1.0 - g) * hc == w - (1.0 - g) * hs && w == g * s
    ensures f == g * s + (1.0 - g) * (hc - hs)
  {
  }
}
