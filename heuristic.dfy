/** The distance estimate of compute_chebyshev_distance: an integer part taken from the
    per-axis absolute differences of the decoded coordinates, plus 0.001 times the
    Euclidean distance as a tie-break. Floating point is modelled by exact reals, and
    numpy's square root is a parameter `sqrt` of which only the laws of a square root
    are assumed (SqrtLaws). */
module Heuristic {
  import opened Topology

  /** What is assumed of the square root that the source takes from numpy: it is
      non-negative on non-negative arguments and vanishes exactly at zero. */
  ghost predicate SqrtLaws(sqrt: real -> real)
  {
    forall v: real :: 0.0 <= v ==> 0.0 <= sqrt(v) && (sqrt(v) == 0.0 <==> v == 0.0)
  }

  function Min3(a: int, b: int, c: int): int
  {
    if a <= b && a <= c then a else if b <= c then b else c
  }

  function Max3(a: int, b: int, c: int): int
  {
    if a >= b && a >= c then a else if b >= c then b else c
  }

  /** The coordinate differences between two decoded cells (loc - goal_loc at line 95). */
  function Delta(idx: int, goal: int, W: int, H: int): Offset
    requires W > 0 && H > 0
  {
    Offset(X(idx, W) - X(goal, W), Y(idx, H, W) - Y(goal, H, W), Z(idx, H, W) - Z(goal, H, W))
  }

  /** Line 96 on a difference vector: the sum of the absolute differences minus their minimum. */
  function SumMinusMin(d: Offset): int
  {
    Abs(d.dx) + Abs(d.dy) + Abs(d.dz) - Min3(Abs(d.dx), Abs(d.dy), Abs(d.dz))
  }

  /** The largest absolute difference: the true Chebyshev (max-norm) length. */
  function MaxNormOf(d: Offset): int
  {
    Max3(Abs(d.dx), Abs(d.dy), Abs(d.dz))
  }

  /** The sum of squares under the square root of line 97. */
  function SquaredNorm(d: Offset): int
  {
    d.dx * d.dx + d.dy * d.dy + d.dz * d.dz
  }

  /** The integer part of compute_chebyshev_distance. */
  function StepPart(idx: int, goal: int, W: int, H: int): int
    requires W > 0 && H > 0
  {
    SumMinusMin(Delta(idx, goal, W, H))
  }

  /** The true Chebyshev distance between the decoded cells. */
  function MaxNorm(idx: int, goal: int, W: int, H: int): int
    requires W > 0 && H > 0
  {
    MaxNormOf(Delta(idx, goal, W, H))
  }

  /** Lines 96-98 on a difference vector: the integer part plus 0.001 times the Euclidean length. */
  function OffsetEstimate(d: Offset, sqrt: real -> real): real
  {
    SumMinusMin(d) as real + 0.001 * sqrt(SquaredNorm(d) as real)
  }

  /** compute_chebyshev_distance(idx, goal_idx, W, H). */
  function DistanceEstimate(idx: int, goal: int, W: int, H: int, sqrt: real -> real): real
    requires W > 0 && H > 0
  {
    OffsetEstimate(Delta(idx, goal, W, H), sqrt)
  }

  lemma SquaredNormFacts(d: Offset)
    ensures SquaredNorm(d) >= 0
    ensures SquaredNorm(d) == 0 <==> d == Offset(0, 0, 0)
    ensures SquaredNorm(Offset(-d.dx, -d.dy, -d.dz)) == SquaredNorm(d)
  {
    assert d.dx * d.dx >= 0 && d.dy * d.dy >= 0 && d.dz * d.dz >= 0;
    if d.dx != 0 {
      assert d.dx * d.dx > 0;
    }
    if d.dy != 0 {
      assert d.dy * d.dy > 0;
    }
    if d.dz != 0 {
      assert d.dz * d.dz > 0;
    }
  }

  lemma HeuristicNonNegative(idx: int, goal: int, W: int, H: int, sqrt: real -> real)
    requires W > 0 && H > 0 && SqrtLaws(sqrt)
    ensures DistanceEstimate(idx, goal, W, H, sqrt) >= 0.0
  {
    var d := Delta(idx, goal, W, H);
    SquaredNormFacts(d);
    assert 0.0 <= sqrt(SquaredNorm(d) as real);
  }

  lemma HeuristicSymmetric(idx: int, goal: int, W: int, H: int, sqrt: real -> real)
    requires W > 0 && H > 0
    ensures DistanceEstimate(idx, goal, W, H, sqrt) == DistanceEstimate(goal, idx, W, H, sqrt)
  {
    var d := Delta(idx, goal, W, H);
    assert Delta(goal, idx, W, H) == Offset(-d.dx, -d.dy, -d.dz);
    OffsetEstimateNegated(d, sqrt);
  }

  lemma OffsetEstimateNegated(d: Offset, sqrt: real -> real)
    ensures OffsetEstimate(Offset(-d.dx, -d.dy, -d.dz), sqrt) == OffsetEstimate(d, sqrt)
  {
    SquaredNormFacts(d);
    assert Abs(-d.dx) == Abs(d.dx) && Abs(-d.dy) == Abs(d.dy) && Abs(-d.dz) == Abs(d.dz);
  }

  lemma SumMinusMinFacts(d: Offset)
    ensures d == Offset(0, 0, 0) ==> SumMinusMin(d) == 0
    ensures d != Offset(0, 0, 0) ==> SumMinusMin(d) >= 1
  {
  }

  /** The estimate on a difference vector: zero for the zero vector, at least 1 otherwise. */
  lemma EstimateOfOffset(d: Offset, sqrt: real -> real)
    requires SqrtLaws(sqrt)
    ensures d == Offset(0, 0, 0) ==> OffsetEstimate(d, sqrt) == 0.0
    ensures d != Offset(0, 0, 0) ==> OffsetEstimate(d, sqrt) >= 1.0
  {
    var k, q := SumMinusMin(d), SquaredNorm(d);
    SquaredNormFacts(d);
    SumMinusMinFacts(d);
    var r := sqrt(q as real);
    assert OffsetEstimate(d, sqrt) == k as real + 0.001 * r;
    assert 0.0 <= r;
    if d == Offset(0, 0, 0) {
      assert k == 0 && q == 0;
      assert r == 0.0;
    } else {
      assert k >= 1;
    }
  }

  /** Two cells have the zero difference vector exactly when they are the same cell. */
  lemma DeltaZeroIff(idx: int, goal: int, W: int, H: int)
    requires W > 0 && H > 0
    ensures Delta(idx, goal, W, H) == Offset(0, 0, 0) <==> idx == goal
  {
    if Delta(idx, goal, W, H) == Offset(0, 0, 0) {
      DecodeInjective(idx, goal, H, W);
    }
  }

  /** The estimate vanishes exactly at the goal, and is at least 1 elsewhere. */
  lemma HeuristicZeroIff(idx: int, goal: int, W: int, H: int, sqrt: real -> real)
    requires W > 0 && H > 0 && SqrtLaws(sqrt)
    ensures DistanceEstimate(idx, goal, W, H, sqrt) == 0.0 <==> idx == goal
    ensures idx != goal ==> DistanceEstimate(idx, goal, W, H, sqrt) >= 1.0
  {
    DeltaZeroIff(idx, goal, W, H);
    EstimateOfOffset(Delta(idx, goal, W, H), sqrt);
  }

  /** Line 96 is the largest absolute difference plus the middle one: between the
      Chebyshev length and twice that, and equal to it only when at most one axis differs. */
  lemma SumMinusMinBounds(d: Offset)
    ensures MaxNormOf(d) <= SumMinusMin(d) <= 2 * MaxNormOf(d)
    ensures SumMinusMin(d) == MaxNormOf(d) <==>
      (d.dx == 0 && d.dy == 0) || (d.dx == 0 && d.dz == 0) || (d.dy == 0 && d.dz == 0)
  {
  }

  lemma StepPartBounds(idx: int, goal: int, W: int, H: int)
    requires W > 0 && H > 0
    ensures MaxNorm(idx, goal, W, H) <= StepPart(idx, goal, W, H) <= 2 * MaxNorm(idx, goal, W, H)
    ensures StepPart(idx, goal, W, H) == MaxNorm(idx, goal, W, H) <==>
      (var d := Delta(idx, goal, W, H);
       (d.dx == 0 && d.dy == 0) || (d.dx == 0 && d.dz == 0) || (d.dy == 0 && d.dz == 0))
  {
    SumMinusMinBounds(Delta(idx, goal, W, H));
  }

  /** When the two cells agree on one axis, the integer part is the Manhattan distance
      over the other two. */
  lemma StepPartWithOneAxisEqual(idx: int, goal: int, W: int, H: int)
    requires W > 0 && H > 0
    requires X(idx, W) == X(goal, W) || Y(idx, H, W) == Y(goal, H, W) || Z(idx, H, W) == Z(goal, H, W)
    ensures StepPart(idx, goal, W, H)
         == Abs(X(idx, W) - X(goal, W)) + Abs(Y(idx, H, W) - Y(goal, H, W)) + Abs(Z(idx, H, W) - Z(goal, H, W))
  {
    var d := Delta(idx, goal, W, H);
    assert d.dx == 0 || d.dy == 0 || d.dz == 0;
    assert SumMinusMin(d) == Abs(d.dx) + Abs(d.dy) + Abs(d.dz);
  }

  /** Two cells one diagonal step apart (a difference of 1 on exactly two axes) are one
      Chebyshev step apart, yet their integer part is 2. */
  lemma DiagonalStepPart(idx: int, goal: int, W: int, H: int)
    requires W > 0 && H > 0
    requires var d := Delta(idx, goal, W, H);
      Abs(d.dx) <= 1 && Abs(d.dy) <= 1 && Abs(d.dz) <= 1 && Abs(d.dx) + Abs(d.dy) + Abs(d.dz) == 2
    ensures MaxNorm(idx, goal, W, H) == 1 && StepPart(idx, goal, W, H) == 2
  {
  }
}
