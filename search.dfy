/** The search loop of solve_single (lines 172-213): weighted A* over the 26-connected
    grid with an open priority map, a closed map and a parent map.

    The three structures are maps from flat index to value, as in the source; the
    priority queue's own heap is not modelled: popping takes some key of minimal score
    (pqdict's choice among equal scores is not visible in the source). A ghost map
    `rank` records the position at which every closed cell was closed. */
module Search {
  import opened Topology

  datatype Option<T> = None | Some(value: T)

  /** Scores of the open or the closed map: flat index to f. */
  type Scores = map<int, real>

  /** The parent map: None is the start's sentinel. */
  type Parents = map<int, Option<int>>

  /** One problem after marshalling: the grid shape, the per-cell cost vector (indexed by
      flat index) and the start and goal indices. */
  datatype Instance = Instance(H: int, W: int, D: int, cost: seq<real>, start: int, goal: int)
  {
    predicate Valid()
    {
      && H > 0 && W > 0 && D > 0 && |cost| == H * W * D
      && InGrid(start, H, W, D) && InGrid(goal, H, W, D)
    }
  }

  /** f_new of lines 193-199 for the neighbour nei of the selected cell sel, whose score
      is fSel; h is the distance estimate towards the goal. */
  function FNew(inst: Instance, gRatio: real, h: int -> real, sel: int, fSel: real, nei: int): real
    requires inst.Valid() && 0 <= nei < |inst.cost|
  {
    fSel - (1.0 - gRatio) * h(sel) + gRatio * inst.cost[nei] + (1.0 - gRatio) * h(nei)
  }

  /** cond of lines 202-206: in neither map, or open with a larger score. */
  predicate ShouldRelax(open: Scores, closed: Scores, nei: int, fNew: real)
  {
    (nei !in open && nei !in closed) || (nei in open && open[nei] > fNew)
  }

  /** The open and parent maps, the part of the state that relaxation changes. */
  datatype Frontier = Frontier(open: Scores, parent: Parents)

  /** Lines 208-213 for one neighbour: upsert into open and record the parent when cond holds. */
  function RelaxOne(fr: Frontier, closed: Scores, sel: int, nei: int, fNew: real): Frontier
  {
    if ShouldRelax(fr.open, closed, nei, fNew)
    then Frontier(fr.open[nei := fNew], fr.parent[nei := Some(sel)])
    else fr
  }

  /** The loop of lines 190-213 over the neighbours ns of sel, in order. */
  function RelaxAll(inst: Instance, gRatio: real, h: int -> real, fr: Frontier, closed: Scores,
                    sel: int, fSel: real, ns: seq<int>): Frontier
    requires inst.Valid() && forall n :: n in ns ==> 0 <= n < |inst.cost|
    decreases |ns|
  {
    if ns == [] then fr
    else
      assert ns[0] in ns && forall n :: n in ns[1..] ==> n in ns;
      RelaxAll(inst, gRatio, h,
                  RelaxOne(fr, closed, sel, ns[0], FNew(inst, gRatio, h, sel, fSel, ns[0])),
                  closed, sel, fSel, ns[1..])
  }

  /** What the relaxation loop does to one key k, when the neighbours are distinct: a
      neighbour for which cond holds in the state before the loop ends up in open with
      its f_new and with parent sel; every other key keeps its open entry and its parent. */
  lemma {:induction false} RelaxAllEffect(inst: Instance, gRatio: real, h: int -> real, fr: Frontier,
                                          closed: Scores, sel: int, fSel: real, ns: seq<int>, k: int)
    requires inst.Valid() && forall n :: n in ns ==> 0 <= n < |inst.cost|
    requires forall a, b | 0 <= a < b < |ns| :: ns[a] != ns[b]
    decreases |ns|
    ensures var r := RelaxAll(inst, gRatio, h, fr, closed, sel, fSel, ns);
      if k in ns && ShouldRelax(fr.open, closed, k, FNew(inst, gRatio, h, sel, fSel, k)) then
        && k in r.open && r.open[k] == FNew(inst, gRatio, h, sel, fSel, k)
        && k in r.parent && r.parent[k] == Some(sel)
      else
        && (k in r.open <==> k in fr.open) && (k in fr.open ==> r.open[k] == fr.open[k])
        && (k in r.parent <==> k in fr.parent) && (k in fr.parent ==> r.parent[k] == fr.parent[k])
  {
    if ns != [] {
      var n := ns[0];
      assert n in ns && forall m :: m in ns[1..] ==> m in ns;
      var fr1 := RelaxOne(fr, closed, sel, n, FNew(inst, gRatio, h, sel, fSel, n));
      var tail := ns[1..];
      assert forall a, b | 0 <= a < b < |tail| :: tail[a] == ns[a + 1] && tail[b] == ns[b + 1];
      RelaxAllEffect(inst, gRatio, h, fr1, closed, sel, fSel, tail, k);
      if k == n {
        assert k !in tail;
      } else {
        assert k in ns <==> k in tail;
      }
    }
  }

  /** cond is false for a closed cell that is not open, so relaxation never puts a
      closed cell back into open and never gives it a new parent. */
  lemma RelaxLeavesClosedAlone(inst: Instance, gRatio: real, h: int -> real, fr: Frontier, closed: Scores,
                               sel: int, fSel: real, ns: seq<int>, k: int)
    requires inst.Valid() && forall n :: n in ns ==> 0 <= n < |inst.cost|
    requires forall a, b | 0 <= a < b < |ns| :: ns[a] != ns[b]
    requires k in closed && k !in fr.open
    ensures var r := RelaxAll(inst, gRatio, h, fr, closed, sel, fSel, ns);
      && k !in r.open
      && (k in r.parent <==> k in fr.parent) && (k in fr.parent ==> r.parent[k] == fr.parent[k])
  {
    RelaxAllEffect(inst, gRatio, h, fr, closed, sel, fSel, ns, k);
  }

  /** Lines 190-213 as a loop: relax every neighbour of sel in the order
      get_neighbor_indices returns them, with cond computed as the source does. */
  method RelaxNeighbors(inst: Instance, gRatio: real, h: int -> real, open: Scores, closed: Scores,
                        parent: Parents, sel: int, fSel: real) returns (open': Scores, parent': Parents)
    requires inst.Valid() && InGrid(sel, inst.H, inst.W, inst.D)
    ensures Frontier(open', parent')
         == RelaxAll(inst, gRatio, h, Frontier(open, parent), closed, sel, fSel, Neighbors(sel, inst.H, inst.W, inst.D))
  {
    var ns := Neighbors(sel, inst.H, inst.W, inst.D);
    open', parent' := open, parent;
    for i := 0 to |ns|
      invariant forall n :: n in ns[i..] ==> n in ns
      invariant RelaxAll(inst, gRatio, h, Frontier(open', parent'), closed, sel, fSel, ns[i..])
             == RelaxAll(inst, gRatio, h, Frontier(open, parent), closed, sel, fSel, ns)
    {
      var nei := ns[i];
      assert nei in ns;
      assert ns[i..][1..] == ns[i + 1..];
      var fNew := FNew(inst, gRatio, h, sel, fSel, nei);
      var cond := nei !in open' && nei !in closed;
      if nei in open' {
        cond := cond || open'[nei] > fNew;
      }
      if cond {
        open' := open'[nei := fNew];
        parent' := parent'[nei := Some(sel)];
      }
    }
    assert ns[|ns|..] == [];
    assert Frontier(open', parent') == RelaxAll(inst, gRatio, h, Frontier(open, parent), closed, sel, fSel, ns);
  }

  // ---------------------------------------------------------------------------
  // The invariant of the search loop

  /** Keys are grid cells, no cell is both open and closed, and the parent map has an
      entry for exactly the open and closed cells. */
  ghost predicate WellFormed(inst: Instance, open: Scores, closed: Scores, parent: Parents)
    requires inst.Valid()
  {
    && (forall k :: k in open ==> InGrid(k, inst.H, inst.W, inst.D))
    && (forall k :: k in closed ==> InGrid(k, inst.H, inst.W, inst.D))
    && open.Keys !! closed.Keys
    && parent.Keys == open.Keys + closed.Keys
  }

  /** The start is the root: its parent is the sentinel; before the first expansion it
      is the only open cell, and afterwards it is closed with score 0. */
  ghost predicate Rooted(inst: Instance, open: Scores, closed: Scores, parent: Parents)
  {
    && inst.start in parent
    && (closed == map[] ==> open == map[inst.start := 0.0])
    && (closed != map[] ==> inst.start in closed && closed[inst.start] == 0.0)
  }

  /** Every cell with a parent entry other than the start has a parent, and that parent is closed. */
  ghost predicate ParentsClosed(inst: Instance, closed: Scores, parent: Parents)
  {
    forall k {:trigger parent[k]} :: k in parent ==>
      (parent[k].Some? <==> k != inst.start) && (parent[k].Some? ==> parent[k].value in closed)
  }

  /** ... and is a neighbour of that parent. */
  ghost predicate ParentsAdjacent(inst: Instance, parent: Parents)
    requires inst.Valid()
  {
    forall k :: k in parent && k != inst.start && parent[k].Some? ==>
      k in Neighbors(parent[k].value, inst.H, inst.W, inst.D)
  }

  /** rank is the closing order: each closed cell has its own position below the number
      of closed cells, and was closed after its parent. */
  ghost predicate Ranked(inst: Instance, closed: Scores, parent: Parents, rank: map<int, nat>)
  {
    && rank.Keys == closed.Keys
    && (forall k :: k in rank ==> rank[k] < |closed|)
    && (forall a, b :: a in rank && b in rank && rank[a] == rank[b] ==> a == b)
    && (forall k, p :: k in rank && p in rank && k in parent && parent[k] == Some(p) ==> rank[p] < rank[k])
  }

  /** Every score other than the start's was computed by lines 193-199 from the closed
      score of the cell's parent. */
  ghost predicate ScoresFromParents(inst: Instance, gRatio: real, h: int -> real,
                                    open: Scores, closed: Scores, parent: Parents)
    requires inst.Valid()
  {
    && (forall k, p :: k in open && k in parent && p in closed && parent[k] == Some(p) && 0 <= k < |inst.cost| ==>
          open[k] == FNew(inst, gRatio, h, p, closed[p], k))
    && (forall k, p :: k in closed && k in parent && p in closed && parent[k] == Some(p) && 0 <= k < |inst.cost| ==>
          closed[k] == FNew(inst, gRatio, h, p, closed[p], k))
  }

  ghost predicate StateInv(inst: Instance, gRatio: real, h: int -> real,
                           open: Scores, closed: Scores, parent: Parents, rank: map<int, nat>)
    requires inst.Valid()
  {
    && WellFormed(inst, open, closed, parent)
    && Rooted(inst, open, closed, parent)
    && ParentsClosed(inst, closed, parent)
    && ParentsAdjacent(inst, parent)
    && Ranked(inst, closed, parent, rank)
    && ScoresFromParents(inst, gRatio, h, open, closed, parent)
  }

  /** Every closed cell outside skip has had its neighbours put in open or closed. */
  ghost predicate ExpandedExcept(inst: Instance, open: Scores, closed: Scores, skip: set<int>)
    requires inst.Valid()
  {
    forall c, n :: c in closed && c !in skip && n in Neighbors(c, inst.H, inst.W, inst.D) ==> n in open || n in closed
  }

  /** No open score exceeds the f_new that a closed neighbour outside skip offers it:
      cond of lines 202-206 only ever replaces a score by a smaller one. */
  ghost predicate BestOpenExcept(inst: Instance, gRatio: real, h: int -> real, open: Scores, closed: Scores,
                                 skip: set<int>)
    requires inst.Valid()
  {
    forall b, p :: b in open && p in closed && p !in skip && b in Neighbors(p, inst.H, inst.W, inst.D)
                   && 0 <= b < |inst.cost| ==>
      open[b] <= FNew(inst, gRatio, h, p, closed[p], b)
  }

  /** Cells were closed in order of least score (line 187): when a was closed, each
      neighbour b of a cell p closed before a was either closed before a, or open with
      a score no larger than p's f_new for it, and a had the least open score. */
  ghost predicate LeastOrder(inst: Instance, gRatio: real, h: int -> real, closed: Scores, rank: map<int, nat>)
    requires inst.Valid()
  {
    forall a, p, b {:trigger closed[a], FNew(inst, gRatio, h, p, closed[p], b)} ::
      a in closed && p in closed && a in rank && p in rank && rank[p] < rank[a]
                      && b in Neighbors(p, inst.H, inst.W, inst.D) && 0 <= b < |inst.cost|
                      && !(b in closed && b in rank && rank[b] < rank[a]) ==>
      closed[a] <= FNew(inst, gRatio, h, p, closed[p], b)
  }

  /** The strict `>` of line 206: a cell keeps the first parent that offered it its
      score, so no cell closed before that parent offered it as little. */
  ghost predicate FirstParent(inst: Instance, gRatio: real, h: int -> real, closed: Scores, parent: Parents,
                              rank: map<int, nat>)
    requires inst.Valid()
  {
    forall k, p, q {:trigger parent[k], FNew(inst, gRatio, h, q, closed[q], k), rank[p]} ::
      k in parent && parent[k] == Some(p) && p in closed && p in rank && q in closed && q in rank
                  && rank[q] < rank[p] && k in Neighbors(q, inst.H, inst.W, inst.D) && 0 <= k < |inst.cost| ==>
      FNew(inst, gRatio, h, p, closed[p], k) < FNew(inst, gRatio, h, q, closed[q], k)
  }

  /** The invariant of the while loop of line 182. */
  ghost predicate SearchInv(inst: Instance, gRatio: real, h: int -> real,
                            open: Scores, closed: Scores, parent: Parents, rank: map<int, nat>)
    requires inst.Valid()
  {
    && StateInv(inst, gRatio, h, open, closed, parent, rank)
    && ExpandedExcept(inst, open, closed, {})
    && BestOpenExcept(inst, gRatio, h, open, closed, {})
    && LeastOrder(inst, gRatio, h, closed, rank)
    && FirstParent(inst, gRatio, h, closed, parent, rank)
  }

  /** The state set up by lines 172-176 satisfies the invariant. */
  lemma InitialState(inst: Instance, gRatio: real, h: int -> real)
    requires inst.Valid()
    ensures SearchInv(inst, gRatio, h, map[inst.start := 0.0], map[], map[inst.start := None], map[])
  {
  }

  lemma PopWellFormed(inst: Instance, open: Scores, closed: Scores, parent: Parents, sel: int)
    requires inst.Valid() && WellFormed(inst, open, closed, parent) && sel in open
    ensures WellFormed(inst, open - {sel}, closed[sel := open[sel]], parent)
  {
  }

  lemma PopRooted(inst: Instance, open: Scores, closed: Scores, parent: Parents, sel: int)
    requires inst.Valid() && WellFormed(inst, open, closed, parent) && Rooted(inst, open, closed, parent) && sel in open
    ensures Rooted(inst, open - {sel}, closed[sel := open[sel]], parent)
  {
    if closed == map[] {
      assert sel == inst.start;
    } else {
      assert sel != inst.start;
    }
  }

  lemma PopParentsClosed(inst: Instance, closed: Scores, parent: Parents, sel: int, f: real)
    requires ParentsClosed(inst, closed, parent)
    ensures ParentsClosed(inst, closed[sel := f], parent)
  {
  }

  lemma PopRanked(inst: Instance, closed: Scores, parent: Parents, rank: map<int, nat>, sel: int, f: real)
    requires ParentsClosed(inst, closed, parent) && Ranked(inst, closed, parent, rank) && sel !in closed
    ensures Ranked(inst, closed[sel := f], parent, rank[sel := |closed|])
  {
    var closed1, rank1 := closed[sel := f], rank[sel := |closed|];
    assert |closed1| == |closed| + 1;
    assert rank1.Keys == rank.Keys + {sel} == closed1.Keys;
    forall k | k in rank1 ensures rank1[k] < |closed1| {
      if k != sel {
        assert k in rank;
      }
    }
    forall a, b | a in rank1 && b in rank1 && a != b ensures rank1[a] != rank1[b] {
      if a != sel && b != sel {
        assert a in rank && b in rank;
      } else if a != sel {
        assert a in rank && rank1[a] == rank[a] < |closed|;
      } else {
        assert b in rank && rank1[b] == rank[b] < |closed|;
      }
    }
    PopRankOrder(inst, closed, parent, rank, sel);
  }

  /** The cell closed now gets a rank above every earlier one, its parent's included. */
  lemma PopRankOrder(inst: Instance, closed: Scores, parent: Parents, rank: map<int, nat>, sel: int)
    requires ParentsClosed(inst, closed, parent) && Ranked(inst, closed, parent, rank) && sel !in closed
    ensures var rank1 := rank[sel := |closed|];
      forall k, p :: k in rank1 && p in rank1 && k in parent && parent[k] == Some(p) ==> rank1[p] < rank1[k]
  {
    var rank1 := rank[sel := |closed|];
    forall k, p | k in rank1 && p in rank1 && k in parent && parent[k] == Some(p)
      ensures rank1[p] < rank1[k]
    {
      assert p in closed && p != sel && rank1[p] == rank[p] && rank[p] < |closed|;
      if k != sel {
        assert k in rank && rank1[k] == rank[k];
      }
    }
  }

  lemma PopScores(inst: Instance, gRatio: real, h: int -> real, open: Scores, closed: Scores,
                  parent: Parents, sel: int)
    requires inst.Valid() && WellFormed(inst, open, closed, parent) && ParentsClosed(inst, closed, parent)
    requires ScoresFromParents(inst, gRatio, h, open, closed, parent) && sel in open
    ensures ScoresFromParents(inst, gRatio, h, open - {sel}, closed[sel := open[sel]], parent)
  {
    var open1, closed1 := open - {sel}, closed[sel := open[sel]];
    forall k, p | k in open1 && k in parent && p in closed1 && parent[k] == Some(p) && 0 <= k < |inst.cost|
      ensures open1[k] == FNew(inst, gRatio, h, p, closed1[p], k)
    {
      assert p in closed && p != sel;
    }
    forall k, p | k in closed1 && k in parent && p in closed1 && parent[k] == Some(p) && 0 <= k < |inst.cost|
      ensures closed1[k] == FNew(inst, gRatio, h, p, closed1[p], k)
    {
      assert p in closed && p != sel;
    }
  }

  lemma PopExpanded(inst: Instance, open: Scores, closed: Scores, sel: int)
    requires inst.Valid() && ExpandedExcept(inst, open, closed, {}) && sel in open
    ensures ExpandedExcept(inst, open - {sel}, closed[sel := open[sel]], {sel})
  {
  }

  lemma PopBestOpen(inst: Instance, gRatio: real, h: int -> real, open: Scores, closed: Scores, sel: int)
    requires inst.Valid() && BestOpenExcept(inst, gRatio, h, open, closed, {}) && sel in open && sel !in closed
    ensures BestOpenExcept(inst, gRatio, h, open - {sel}, closed[sel := open[sel]], {sel})
  {
    var open1, closed1 := open - {sel}, closed[sel := open[sel]];
    forall b, p | b in open1 && p in closed1 && p !in {sel} && b in Neighbors(p, inst.H, inst.W, inst.D)
                  && 0 <= b < |inst.cost|
      ensures open1[b] <= FNew(inst, gRatio, h, p, closed1[p], b)
    {
      assert p in closed && closed1[p] == closed[p] && b in open;
    }
  }

  /** The popped cell has the least open score, and every neighbour of a closed cell
      that is not closed yet is open with a score no larger than that cell's f_new for
      it: so the popped cell is closed in order. */
  lemma PopInOrder(inst: Instance, gRatio: real, h: int -> real, open: Scores, closed: Scores, sel: int)
    requires inst.Valid() && ExpandedExcept(inst, open, closed, {}) && BestOpenExcept(inst, gRatio, h, open, closed, {})
    requires sel in open && sel !in closed && forall k :: k in open ==> open[sel] <= open[k]
    ensures forall p, b :: p in closed && b in Neighbors(p, inst.H, inst.W, inst.D) && 0 <= b < |inst.cost|
                           && b !in closed ==>
      open[sel] <= FNew(inst, gRatio, h, p, closed[p], b)
  {
    forall p, b | p in closed && b in Neighbors(p, inst.H, inst.W, inst.D) && 0 <= b < |inst.cost| && b !in closed
      ensures open[sel] <= FNew(inst, gRatio, h, p, closed[p], b)
    {
      assert b in open;
    }
  }

  /** Closing sel with a score f no larger than any f_new that a closed cell offers a
      cell not yet closed keeps the closing order. */
  lemma PopLeastOrder(inst: Instance, gRatio: real, h: int -> real, closed: Scores, rank: map<int, nat>,
                      sel: int, f: real)
    requires inst.Valid() && rank.Keys == closed.Keys && (forall k :: k in rank ==> rank[k] < |closed|)
    requires LeastOrder(inst, gRatio, h, closed, rank) && sel !in closed
    requires forall p, b {:trigger FNew(inst, gRatio, h, p, closed[p], b)} ::
      p in closed && b in Neighbors(p, inst.H, inst.W, inst.D) && 0 <= b < |inst.cost| && b !in closed ==>
      f <= FNew(inst, gRatio, h, p, closed[p], b)
    ensures LeastOrder(inst, gRatio, h, closed[sel := f], rank[sel := |closed|])
  {
    var closed1, rank1 := closed[sel := f], rank[sel := |closed|];
    forall a, p, b | a in closed1 && p in closed1 && a in rank1 && p in rank1 && rank1[p] < rank1[a]
                     && b in Neighbors(p, inst.H, inst.W, inst.D) && 0 <= b < |inst.cost|
                     && !(b in closed1 && b in rank1 && rank1[b] < rank1[a])
      ensures closed1[a] <= FNew(inst, gRatio, h, p, closed1[p], b)
    {
      if a == sel {
        assert p in closed && closed1[p] == closed[p];
        assert b !in closed by {
          if b in closed {
            assert false;
          }
        }
      } else {
        assert a in closed && rank1[a] == rank[a] < |closed|;
        assert p in closed && closed1[p] == closed[p] && rank1[p] == rank[p];
        if b != sel {
          assert b in closed1 <==> b in closed;
          assert b in rank ==> rank1[b] == rank[b];
        }
        assert !(b in closed && b in rank && rank[b] < rank[a]);
      }
    }
  }

  /** Closing sel changes no parent, and sel comes after every parent in the closing
      order, so the first-parent rule is kept. */
  lemma PopFirstParent(inst: Instance, gRatio: real, h: int -> real, closed: Scores, parent: Parents,
                       rank: map<int, nat>, sel: int, f: real)
    requires inst.Valid() && ParentsClosed(inst, closed, parent) && (forall k :: k in rank ==> rank[k] < |closed|)
    requires FirstParent(inst, gRatio, h, closed, parent, rank) && sel !in closed
    ensures FirstParent(inst, gRatio, h, closed[sel := f], parent, rank[sel := |closed|])
  {
    var closed1, rank1 := closed[sel := f], rank[sel := |closed|];
    forall k, p, q | k in parent && parent[k] == Some(p) && p in closed1 && p in rank1 && q in closed1 && q in rank1
                     && rank1[q] < rank1[p] && k in Neighbors(q, inst.H, inst.W, inst.D) && 0 <= k < |inst.cost|
      ensures FNew(inst, gRatio, h, p, closed1[p], k) < FNew(inst, gRatio, h, q, closed1[q], k)
    {
      assert p in closed && p != sel && rank1[p] == rank[p] < |closed|;
      assert q != sel && q in closed && rank1[q] == rank[q];
    }
  }

  /** Moving the popped cell from open to closed (lines 187-189) keeps the invariant,
      except that the popped cell is not yet expanded. */
  lemma PopKeepsInvariant(inst: Instance, gRatio: real, h: int -> real, open: Scores, closed: Scores,
                          parent: Parents, rank: map<int, nat>, sel: int)
    requires inst.Valid() && SearchInv(inst, gRatio, h, open, closed, parent, rank)
    requires sel in open && forall k :: k in open ==> open[sel] <= open[k]
    ensures StateInv(inst, gRatio, h, open - {sel}, closed[sel := open[sel]], parent, rank[sel := |closed|])
    ensures ExpandedExcept(inst, open - {sel}, closed[sel := open[sel]], {sel})
    ensures BestOpenExcept(inst, gRatio, h, open - {sel}, closed[sel := open[sel]], {sel})
    ensures LeastOrder(inst, gRatio, h, closed[sel := open[sel]], rank[sel := |closed|])
    ensures FirstParent(inst, gRatio, h, closed[sel := open[sel]], parent, rank[sel := |closed|])
  {
    PopWellFormed(inst, open, closed, parent, sel);
    PopRooted(inst, open, closed, parent, sel);
    PopParentsClosed(inst, closed, parent, sel, open[sel]);
    PopRanked(inst, closed, parent, rank, sel, open[sel]);
    PopScores(inst, gRatio, h, open, closed, parent, sel);
    PopExpanded(inst, open, closed, sel);
    PopBestOpen(inst, gRatio, h, open, closed, sel);
    PopInOrder(inst, gRatio, h, open, closed, sel);
    PopLeastOrder(inst, gRatio, h, closed, rank, sel, open[sel]);
    PopFirstParent(inst, gRatio, h, closed, parent, rank, sel, open[sel]);
  }

  /** The pointwise outcome of relaxing the neighbours ns of the closed cell sel, as
      RelaxAllEffect describes it. */
  ghost predicate RelaxedFrom(inst: Instance, gRatio: real, h: int -> real, open: Scores, closed: Scores,
                              parent: Parents, sel: int, ns: seq<int>, open': Scores, parent': Parents)
    requires inst.Valid() && sel in closed && InGrid(sel, inst.H, inst.W, inst.D) && forall n :: n in ns ==> 0 <= n < |inst.cost|
  {
    forall k ::
      if k in ns && ShouldRelax(open, closed, k, FNew(inst, gRatio, h, sel, closed[sel], k)) then
        && k in open' && open'[k] == FNew(inst, gRatio, h, sel, closed[sel], k)
        && k in parent' && parent'[k] == Some(sel)
      else
        && (k in open' <==> k in open) && (k in open ==> open'[k] == open[k])
        && (k in parent' <==> k in parent) && (k in parent ==> parent'[k] == parent[k])
  }

  lemma RelaxOpenKeys(inst: Instance, gRatio: real, h: int -> real, open: Scores, closed: Scores,
                      parent: Parents, sel: int, open': Scores, parent': Parents)
    requires inst.Valid() && sel in closed && InGrid(sel, inst.H, inst.W, inst.D) && WellFormed(inst, open, closed, parent)
    requires RelaxedFrom(inst, gRatio, h, open, closed, parent, sel, Neighbors(sel, inst.H, inst.W, inst.D), open', parent')
    ensures forall k :: k in open' ==> InGrid(k, inst.H, inst.W, inst.D)
    ensures open'.Keys !! closed.Keys
  {
    forall k | k in open' ensures InGrid(k, inst.H, inst.W, inst.D) && k !in closed {
    }
    forall k | k in closed ensures k !in open' {
    }
  }

  lemma RelaxParentKeys(inst: Instance, gRatio: real, h: int -> real, open: Scores, closed: Scores,
                        parent: Parents, sel: int, open': Scores, parent': Parents)
    requires inst.Valid() && sel in closed && InGrid(sel, inst.H, inst.W, inst.D) && WellFormed(inst, open, closed, parent)
    requires RelaxedFrom(inst, gRatio, h, open, closed, parent, sel, Neighbors(sel, inst.H, inst.W, inst.D), open', parent')
    ensures parent'.Keys == open'.Keys + closed.Keys
  {
    forall k ensures k in parent' <==> k in open' || k in closed {
    }
  }

  lemma RelaxWellFormed(inst: Instance, gRatio: real, h: int -> real, open: Scores, closed: Scores,
                        parent: Parents, sel: int, open': Scores, parent': Parents)
    requires inst.Valid() && sel in closed && InGrid(sel, inst.H, inst.W, inst.D) && WellFormed(inst, open, closed, parent)
    requires RelaxedFrom(inst, gRatio, h, open, closed, parent, sel, Neighbors(sel, inst.H, inst.W, inst.D), open', parent')
    ensures WellFormed(inst, open', closed, parent')
  {
    RelaxOpenKeys(inst, gRatio, h, open, closed, parent, sel, open', parent');
    RelaxParentKeys(inst, gRatio, h, open, closed, parent, sel, open', parent');
  }

  lemma RelaxRooted(inst: Instance, gRatio: real, h: int -> real, open: Scores, closed: Scores,
                    parent: Parents, sel: int, open': Scores, parent': Parents)
    requires inst.Valid() && sel in closed && InGrid(sel, inst.H, inst.W, inst.D) && WellFormed(inst, open, closed, parent) && Rooted(inst, open, closed, parent)
    requires RelaxedFrom(inst, gRatio, h, open, closed, parent, sel, Neighbors(sel, inst.H, inst.W, inst.D), open', parent')
    ensures Rooted(inst, open', closed, parent')
  {
    assert inst.start in closed;
    assert inst.start !in open;
  }

  lemma RelaxParentsClosed(inst: Instance, gRatio: real, h: int -> real, open: Scores, closed: Scores,
                           parent: Parents, sel: int, open': Scores, parent': Parents)
    requires inst.Valid() && sel in closed && InGrid(sel, inst.H, inst.W, inst.D) && WellFormed(inst, open, closed, parent)
    requires Rooted(inst, open, closed, parent) && ParentsClosed(inst, closed, parent)
    requires RelaxedFrom(inst, gRatio, h, open, closed, parent, sel, Neighbors(sel, inst.H, inst.W, inst.D), open', parent')
    ensures ParentsClosed(inst, closed, parent')
  {
    assert inst.start in closed;
  }

  lemma RelaxParentsAdjacent(inst: Instance, gRatio: real, h: int -> real, open: Scores, closed: Scores,
                             parent: Parents, sel: int, open': Scores, parent': Parents)
    requires inst.Valid() && sel in closed && InGrid(sel, inst.H, inst.W, inst.D) && ParentsAdjacent(inst, parent)
    requires RelaxedFrom(inst, gRatio, h, open, closed, parent, sel, Neighbors(sel, inst.H, inst.W, inst.D), open', parent')
    ensures ParentsAdjacent(inst, parent')
  {
  }

  lemma RelaxRanked(inst: Instance, gRatio: real, h: int -> real, open: Scores, closed: Scores,
                    parent: Parents, rank: map<int, nat>, sel: int, open': Scores, parent': Parents)
    requires inst.Valid() && sel in closed && InGrid(sel, inst.H, inst.W, inst.D) && WellFormed(inst, open, closed, parent) && Ranked(inst, closed, parent, rank)
    requires RelaxedFrom(inst, gRatio, h, open, closed, parent, sel, Neighbors(sel, inst.H, inst.W, inst.D), open', parent')
    ensures Ranked(inst, closed, parent', rank)
  {
    forall k, p | k in rank && p in rank && k in parent' && parent'[k] == Some(p)
      ensures rank[p] < rank[k]
    {
      assert k in closed && k !in open;
    }
  }

  lemma RelaxScores(inst: Instance, gRatio: real, h: int -> real, open: Scores, closed: Scores,
                    parent: Parents, sel: int, open': Scores, parent': Parents)
    requires inst.Valid() && sel in closed && InGrid(sel, inst.H, inst.W, inst.D) && WellFormed(inst, open, closed, parent)
    requires ScoresFromParents(inst, gRatio, h, open, closed, parent)
    requires RelaxedFrom(inst, gRatio, h, open, closed, parent, sel, Neighbors(sel, inst.H, inst.W, inst.D), open', parent')
    ensures ScoresFromParents(inst, gRatio, h, open', closed, parent')
  {
    forall k, p | k in closed && k in parent' && p in closed && parent'[k] == Some(p) && 0 <= k < |inst.cost|
      ensures closed[k] == FNew(inst, gRatio, h, p, closed[p], k)
    {
      assert k !in open;
    }
  }

  lemma RelaxExpanded(inst: Instance, gRatio: real, h: int -> real, open: Scores, closed: Scores,
                      parent: Parents, sel: int, open': Scores, parent': Parents)
    requires inst.Valid() && sel in closed && InGrid(sel, inst.H, inst.W, inst.D) && ExpandedExcept(inst, open, closed, {sel})
    requires RelaxedFrom(inst, gRatio, h, open, closed, parent, sel, Neighbors(sel, inst.H, inst.W, inst.D), open', parent')
    ensures ExpandedExcept(inst, open', closed, {})
  {
    forall c, n | c in closed && n in Neighbors(c, inst.H, inst.W, inst.D) ensures n in open' || n in closed {
      if n !in closed {
        assert n in open' || n in open;
      }
    }
  }

  /** After relaxation no open score exceeds the f_new of any closed neighbour: for sel
      because cond keeps the smaller of the two, and for the others because scores only
      go down. */
  lemma RelaxBestOpen(inst: Instance, gRatio: real, h: int -> real, open: Scores, closed: Scores,
                      parent: Parents, sel: int, open': Scores, parent': Parents)
    requires inst.Valid() && sel in closed && InGrid(sel, inst.H, inst.W, inst.D) && WellFormed(inst, open, closed, parent)
    requires ExpandedExcept(inst, open, closed, {sel}) && BestOpenExcept(inst, gRatio, h, open, closed, {sel})
    requires RelaxedFrom(inst, gRatio, h, open, closed, parent, sel, Neighbors(sel, inst.H, inst.W, inst.D), open', parent')
    ensures BestOpenExcept(inst, gRatio, h, open', closed, {})
  {
    forall b, p | b in open' && p in closed && b in Neighbors(p, inst.H, inst.W, inst.D) && 0 <= b < |inst.cost|
      ensures open'[b] <= FNew(inst, gRatio, h, p, closed[p], b)
    {
      var fs := FNew(inst, gRatio, h, sel, closed[sel], b);
      var ns := Neighbors(sel, inst.H, inst.W, inst.D);
      if p == sel {
        if !(b in ns && ShouldRelax(open, closed, b, fs)) {
          assert b in open && open'[b] == open[b];
        }
      } else {
        assert b !in closed;
        assert b in open;
        if b in ns && ShouldRelax(open, closed, b, fs) {
          assert open'[b] == fs < open[b];
        }
      }
    }
  }

  /** A cell re-parented to sel either was in neither map, so no other closed cell
      neighbours it, or had an open score, no larger than any other closed neighbour's
      offer, that sel's offer strictly beats (line 206): so sel is its first parent. */
  lemma RelaxFirstParent(inst: Instance, gRatio: real, h: int -> real, open: Scores, closed: Scores,
                         parent: Parents, rank: map<int, nat>, sel: int, open': Scores, parent': Parents)
    requires inst.Valid() && sel in closed && InGrid(sel, inst.H, inst.W, inst.D)
    requires ExpandedExcept(inst, open, closed, {sel}) && BestOpenExcept(inst, gRatio, h, open, closed, {sel})
    requires FirstParent(inst, gRatio, h, closed, parent, rank)
    requires RelaxedFrom(inst, gRatio, h, open, closed, parent, sel, Neighbors(sel, inst.H, inst.W, inst.D), open', parent')
    ensures FirstParent(inst, gRatio, h, closed, parent', rank)
  {
    var ns := Neighbors(sel, inst.H, inst.W, inst.D);
    forall k, p, q | k in parent' && parent'[k] == Some(p) && p in closed && p in rank && q in closed && q in rank
                     && rank[q] < rank[p] && k in Neighbors(q, inst.H, inst.W, inst.D) && 0 <= k < |inst.cost|
      ensures FNew(inst, gRatio, h, p, closed[p], k) < FNew(inst, gRatio, h, q, closed[q], k)
    {
      var fs := FNew(inst, gRatio, h, sel, closed[sel], k);
      if k in ns && ShouldRelax(open, closed, k, fs) {
        assert p == sel && q != sel;
        assert k in open || k in closed;
        assert k in open && fs < open[k] <= FNew(inst, gRatio, h, q, closed[q], k);
      } else {
        assert k in parent && parent[k] == Some(p);
      }
    }
  }

  /** Relaxing the neighbours of the freshly closed cell sel keeps the invariant and
      completes the expansion of sel. */
  lemma RelaxKeepsInvariant(inst: Instance, gRatio: real, h: int -> real, open: Scores, closed: Scores,
                            parent: Parents, rank: map<int, nat>, sel: int)
    requires inst.Valid() && sel in closed
    requires StateInv(inst, gRatio, h, open, closed, parent, rank) && ExpandedExcept(inst, open, closed, {sel})
    requires BestOpenExcept(inst, gRatio, h, open, closed, {sel}) && LeastOrder(inst, gRatio, h, closed, rank)
    requires FirstParent(inst, gRatio, h, closed, parent, rank)
    ensures var fr := RelaxAll(inst, gRatio, h, Frontier(open, parent), closed, sel, closed[sel],
                               Neighbors(sel, inst.H, inst.W, inst.D));
      SearchInv(inst, gRatio, h, fr.open, closed, fr.parent, rank)
  {
    var ns := Neighbors(sel, inst.H, inst.W, inst.D);
    NeighborsDistinct(sel, inst.H, inst.W, inst.D);
    var fr := RelaxAll(inst, gRatio, h, Frontier(open, parent), closed, sel, closed[sel], ns);
    forall k
      ensures if k in ns && ShouldRelax(open, closed, k, FNew(inst, gRatio, h, sel, closed[sel], k)) then
          && k in fr.open && fr.open[k] == FNew(inst, gRatio, h, sel, closed[sel], k)
          && k in fr.parent && fr.parent[k] == Some(sel)
        else
          && (k in fr.open <==> k in open) && (k in open ==> fr.open[k] == open[k])
          && (k in fr.parent <==> k in parent) && (k in parent ==> fr.parent[k] == parent[k])
    {
      RelaxAllEffect(inst, gRatio, h, Frontier(open, parent), closed, sel, closed[sel], ns, k);
    }
    assert RelaxedFrom(inst, gRatio, h, open, closed, parent, sel, ns, fr.open, fr.parent);
    RelaxWellFormed(inst, gRatio, h, open, closed, parent, sel, fr.open, fr.parent);
    RelaxRooted(inst, gRatio, h, open, closed, parent, sel, fr.open, fr.parent);
    RelaxParentsClosed(inst, gRatio, h, open, closed, parent, sel, fr.open, fr.parent);
    RelaxParentsAdjacent(inst, gRatio, h, open, closed, parent, sel, fr.open, fr.parent);
    RelaxRanked(inst, gRatio, h, open, closed, parent, rank, sel, fr.open, fr.parent);
    RelaxScores(inst, gRatio, h, open, closed, parent, sel, fr.open, fr.parent);
    RelaxExpanded(inst, gRatio, h, open, closed, parent, sel, fr.open, fr.parent);
    RelaxBestOpen(inst, gRatio, h, open, closed, parent, sel, fr.open, fr.parent);
    RelaxFirstParent(inst, gRatio, h, open, closed, parent, rank, sel, fr.open, fr.parent);
  }

  // ---------------------------------------------------------------------------
  // One iteration and the loop

  /** A non-empty score map has a key of least score. */
  lemma {:induction false} MinimalKeyExists(m: Scores) returns (k: int)
    requires m != map[]
    ensures k in m && forall j :: j in m ==> m[k] <= m[j]
    decreases |m|
  {
    if forall j :: j !in m {
      assert false;
    }
    var a :| a in m;
    var rest := m - {a};
    if rest == map[] {
      k := a;
    } else {
      assert |rest| < |m|;
      var b := MinimalKeyExists(rest);
      k := if m[a] <= m[b] then a else b;
    }
    forall j | j in m ensures m[k] <= m[j] {
      if j != a {
        assert j in rest;
      }
    }
  }

  /** open_list.popitem() of line 187: removes and returns an entry of least score. */
  method PopItem(open: Scores) returns (sel: int, f: real, rest: Scores)
    requires open != map[]
    ensures sel in open && f == open[sel] && rest == open - {sel}
    ensures forall k :: k in open ==> f <= open[k]
  {
    ghost var least := MinimalKeyExists(open);
    sel :| sel in open && forall k :: k in open ==> open[sel] <= open[k];
    f := open[sel];
    rest := open - {sel};
  }

  /** A set of indices below n has at most n members. */
  lemma {:induction false} BoundedSetSize(S: set<int>, n: nat)
    requires forall k :: k in S ==> 0 <= k < n
    ensures |S| <= n
  {
    if n > 0 {
      var S' := S - {n - 1};
      BoundedSetSize(S', n - 1);
    } else {
      assert forall k :: k !in S;
      assert S == {};
    }
  }

  /** One pass of the body of the while loop of line 182 on a non-empty open map
      (lines 187-213): pop a least-score cell, close it with its score, and relax
      its neighbours. */
  method Expand(inst: Instance, gRatio: real, h: int -> real, open: Scores, closed: Scores, parent: Parents,
                ghost rank: map<int, nat>)
    returns (sel: int, open': Scores, closed': Scores, parent': Parents, ghost rank': map<int, nat>)
    requires inst.Valid() && open != map[] && SearchInv(inst, gRatio, h, open, closed, parent, rank)
    ensures sel in open && sel !in closed && forall k :: k in open ==> open[sel] <= open[k]
    ensures closed' == closed[sel := open[sel]] && rank' == rank[sel := |closed|]
    ensures |closed'| == |closed| + 1 <= inst.H * inst.W * inst.D && rank'[sel] == |closed'| - 1
    ensures Frontier(open', parent')
         == RelaxAll(inst, gRatio, h, Frontier(open - {sel}, parent), closed', sel, open[sel],
                     Neighbors(sel, inst.H, inst.W, inst.D))
    ensures SearchInv(inst, gRatio, h, open', closed', parent', rank')
  {
    var f, rest;
    sel, f, rest := PopItem(open);
    closed' := closed[sel := f];
    rank' := rank[sel := |closed|];
    PopKeepsInvariant(inst, gRatio, h, open, closed, parent, rank, sel);
    open', parent' := RelaxNeighbors(inst, gRatio, h, rest, closed', parent, sel, f);
    RelaxKeepsInvariant(inst, gRatio, h, rest, closed', parent, rank', sel);
    BoundedSetSize(closed'.Keys, inst.H * inst.W * inst.D);
  }

  /** The search of solve_single (lines 172-185 and the loop of line 182). found is false
      exactly when the open map ran empty before the goal was closed, the case in which
      the source returns all-zero maps. */
  method Search(inst: Instance, gRatio: real, h: int -> real)
    returns (found: bool, open: Scores, closed: Scores, parent: Parents, ghost rank: map<int, nat>)
    requires inst.Valid()
    ensures found <==> inst.goal in closed
    ensures SearchInv(inst, gRatio, h, open, closed, parent, rank)
    ensures !found ==> open == map[] && inst.start in closed
    ensures !found ==> ClosedUnderNeighbors(closed.Keys, inst.H, inst.W, inst.D)
    ensures |closed| <= inst.H * inst.W * inst.D
    ensures inst.start == inst.goal ==> closed == map[inst.start := 0.0]
    ensures found ==> rank[inst.goal] == |closed| - 1
  {
    open := map[inst.start := 0.0];
    closed := map[];
    parent := map[inst.start := None];
    rank := map[];
    InitialState(inst, gRatio, h);
    while inst.goal !in closed
      invariant SearchInv(inst, gRatio, h, open, closed, parent, rank)
      invariant |closed| <= inst.H * inst.W * inst.D
      invariant inst.start == inst.goal ==> closed == map[] || closed == map[inst.start := 0.0]
      invariant inst.goal in closed ==> rank[inst.goal] == |closed| - 1
      decreases inst.H * inst.W * inst.D - |closed|
    {
      if open == map[] {
        break;
      }
      var sel;
      sel, open, closed, parent, rank := Expand(inst, gRatio, h, open, closed, parent, rank);
    }
    found := inst.goal in closed;
    if !found {
      ExhaustedSearchFacts(inst, gRatio, h, open, closed, parent, rank);
    }
  }

  /** When the loop stops because the goal was closed last, the goal's score is no larger
      than the f_new that any other closed cell offers a neighbour the search did not
      close: no cell left unexpanded could have been reached with a smaller score. */
  lemma GoalScoreIsLeast(inst: Instance, gRatio: real, h: int -> real, open: Scores, closed: Scores,
                         parent: Parents, rank: map<int, nat>)
    requires inst.Valid() && SearchInv(inst, gRatio, h, open, closed, parent, rank)
    requires inst.goal in closed && inst.goal in rank && rank[inst.goal] == |closed| - 1
    ensures forall p, b :: p in closed && p != inst.goal && b in Neighbors(p, inst.H, inst.W, inst.D)
                           && 0 <= b < |inst.cost| && b !in closed ==>
      closed[inst.goal] <= FNew(inst, gRatio, h, p, closed[p], b)
  {
    forall p, b | p in closed && p != inst.goal && b in Neighbors(p, inst.H, inst.W, inst.D)
                  && 0 <= b < |inst.cost| && b !in closed
      ensures closed[inst.goal] <= FNew(inst, gRatio, h, p, closed[p], b)
    {
      assert p in rank && rank[p] < |closed| && rank[p] != rank[inst.goal];
    }
  }

  /** Which parent a closed cell ends up with: among the cells closed before it that
      neighbour it, its parent makes the least offer (line 187 closes it at that score),
      and every one closed before the parent offers strictly more (line 206). So the
      parent is the earliest-closed neighbour with the least offer. */
  lemma ParentIsFirstLeast(inst: Instance, gRatio: real, h: int -> real, open: Scores, closed: Scores,
                           parent: Parents, rank: map<int, nat>, k: int, q: int)
    requires inst.Valid() && SearchInv(inst, gRatio, h, open, closed, parent, rank)
    requires k in closed && k != inst.start && q in closed && rank[q] < rank[k]
    requires k in Neighbors(q, inst.H, inst.W, inst.D)
    ensures parent[k].Some? && parent[k].value in closed && 0 <= k < |inst.cost|
    ensures FNew(inst, gRatio, h, parent[k].value, closed[parent[k].value], k) <= FNew(inst, gRatio, h, q, closed[q], k)
    ensures rank[q] < rank[parent[k].value] ==>
      FNew(inst, gRatio, h, parent[k].value, closed[parent[k].value], k) < FNew(inst, gRatio, h, q, closed[q], k)
  {
    var p := parent[k].value;
    assert InGrid(k, inst.H, inst.W, inst.D);
    assert closed[k] == FNew(inst, gRatio, h, p, closed[p], k);
    assert closed[k] <= FNew(inst, gRatio, h, q, closed[q], k);
  }

  /** What the state says when the open map runs empty before the goal is closed. */
  lemma ExhaustedSearchFacts(inst: Instance, gRatio: real, h: int -> real, open: Scores, closed: Scores,
                             parent: Parents, rank: map<int, nat>)
    requires inst.Valid() && SearchInv(inst, gRatio, h, open, closed, parent, rank) && open == map[]
    ensures inst.start in closed
    ensures ClosedUnderNeighbors(closed.Keys, inst.H, inst.W, inst.D)
  {
    assert closed != map[];
  }

  /** When the open map runs empty, every closed cell has had all its neighbours
      closed, so the search has closed every cell connected to the start, that is every
      cell of the grid, and the goal in particular: the zero-output return of lines
      183-185 cannot happen for a start and a goal inside the grid. */
  lemma ExhaustedSearchClosedGoal(inst: Instance, gRatio: real, h: int -> real, closed: Scores, parent: Parents,
                                  rank: map<int, nat>)
    requires inst.Valid() && SearchInv(inst, gRatio, h, map[], closed, parent, rank)
    ensures inst.goal in closed
  {
    assert inst.start in closed;
    ClosedSetCoversGrid(closed.Keys, inst.start, inst.goal, inst.H, inst.W, inst.D);
  }
}
