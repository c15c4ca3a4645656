/** Grid topology of the 3D planner: the flat-index codec that get_neighbor_indices,
    compute_chebyshev_distance, get_history and backtrack share, and the
    26-neighbour enumeration of get_neighbor_indices.

    A cell index decodes as x = idx % W, y = idx // W % H, z = idx // (W * H). For a
    positive divisor Dafny's `/` and `%` agree with Python's `//` and `%` on every
    integer, so the formulas below are the source's own. */
module Topology {

  /** Decoded x coordinate (the fastest axis). */
  function X(idx: int, W: int): int
    requires W > 0
  {
    idx % W
  }

  /** Decoded y coordinate. */
  function Y(idx: int, H: int, W: int): int
    requires H > 0 && W > 0
  {
    idx / W % H
  }

  /** Decoded z coordinate (the layer). */
  function Z(idx: int, H: int, W: int): int
    requires H > 0 && W > 0
  {
    idx / (W * H)
  }

  /** The flat index of the cell at (x, y, z). */
  function Encode(x: int, y: int, z: int, H: int, W: int): int
  {
    x + W * y + W * H * z
  }

  /** A flat index of a cell of the H x W x D grid. */
  predicate InGrid(idx: int, H: int, W: int, D: int)
  {
    0 <= idx < H * W * D
  }

  function Abs(n: int): nat
  {
    if n < 0 then -n else n
  }

  /** Two distinct cells of the grid that differ by at most one in every decoded coordinate. */
  predicate Adjacent(i: int, j: int, H: int, W: int, D: int)
    requires H > 0 && W > 0
  {
    && InGrid(i, H, W, D) && InGrid(j, H, W, D) && i != j
    && Abs(X(i, W) - X(j, W)) <= 1
    && Abs(Y(i, H, W) - Y(j, H, W)) <= 1
    && Abs(Z(i, H, W) - Z(j, H, W)) <= 1
  }

  // ---------------------------------------------------------------------------
  // Arithmetic underneath the codec

  lemma MulMonotone(m: int, a: int, b: int)
    requires m >= 0 && a <= b
    ensures m * a <= m * b
  {
    assert m * b - m * a == m * (b - a);
  }

  /** Euclidean division has one quotient and one remainder. */
  lemma DivModUnique(a: int, d: int, q: int, r: int)
    requires d > 0 && 0 <= r < d && a == d * q + r
    ensures a / d == q && a % d == r
  {
    var q0, r0 := a / d, a % d;
    assert a == d * q0 + r0 && 0 <= r0 < d;
    if q0 < q {
      assert d * (q0 + 1) == d * q0 + d;
      MulMonotone(d, q0 + 1, q);
    } else if q < q0 {
      assert d * (q + 1) == d * q + d;
      MulMonotone(d, q + 1, q0);
    }
  }

  /** x + W * y stays below W * H when both coordinates are in range. */
  lemma LayerOffsetBound(x: int, y: int, H: int, W: int)
    requires H > 0 && W > 0 && 0 <= x < W && 0 <= y < H
    ensures 0 <= x + W * y < W * H
  {
    MulMonotone(W, y, H - 1);
    MulMonotone(W, 0, y);
    assert W * (H - 1) == W * H - W;
  }

  /** Decoding an encoded cell gives its coordinates back. */
  lemma DecodeEncode(x: int, y: int, z: int, H: int, W: int)
    requires H > 0 && W > 0 && 0 <= x < W && 0 <= y < H
    ensures X(Encode(x, y, z, H, W), W) == x
    ensures Y(Encode(x, y, z, H, W), H, W) == y
    ensures Z(Encode(x, y, z, H, W), H, W) == z
  {
    var idx := Encode(x, y, z, H, W);
    assert idx == W * (y + H * z) + x;
    DivModUnique(idx, W, y + H * z, x);
    DivModUnique(y + H * z, H, z, y);
    LayerOffsetBound(x, y, H, W);
    assert idx == (W * H) * z + (x + W * y);
    DivModUnique(idx, W * H, z, x + W * y);
  }

  /** Every index is the encoding of its decoded coordinates, which lie in range. */
  lemma EncodeDecode(idx: int, H: int, W: int)
    requires H > 0 && W > 0
    ensures 0 <= X(idx, W) < W && 0 <= Y(idx, H, W) < H
    ensures idx == Encode(X(idx, W), Y(idx, H, W), Z(idx, H, W), H, W)
  {
    var q1, r1 := idx / W, idx % W;
    var q2, r2 := q1 / H, q1 % H;
    assert idx == W * q1 + r1;
    assert q1 == H * q2 + r2;
    LayerOffsetBound(r1, r2, H, W);
    assert idx == (W * H) * q2 + (r1 + W * r2);
    DivModUnique(idx, W * H, q2, r1 + W * r2);
  }

  /** For cells whose x and y are in range, the index is in the grid exactly when 0 <= z < D. */
  lemma InGridIff(x: int, y: int, z: int, H: int, W: int, D: int)
    requires H > 0 && W > 0 && 0 <= x < W && 0 <= y < H
    ensures InGrid(Encode(x, y, z, H, W), H, W, D) <==> 0 <= z < D
  {
    LayerOffsetBound(x, y, H, W);
    var r := x + W * y;
    assert Encode(x, y, z, H, W) == (W * H) * z + r;
    assert H * W * D == (W * H) * D;
    if z < 0 {
      MulMonotone(W * H, z, -1);
    } else if z >= D {
      MulMonotone(W * H, D, z);
    } else {
      MulMonotone(W * H, z, D - 1);
      MulMonotone(W * H, 0, z);
      assert (W * H) * (D - 1) == (W * H) * D - W * H;
    }
  }

  /** The coordinates of a grid cell are in range. */
  lemma CoordinatesInRange(idx: int, H: int, W: int, D: int)
    requires H > 0 && W > 0 && InGrid(idx, H, W, D)
    ensures 0 <= X(idx, W) < W && 0 <= Y(idx, H, W) < H && 0 <= Z(idx, H, W) < D
  {
    EncodeDecode(idx, H, W);
    InGridIff(X(idx, W), Y(idx, H, W), Z(idx, H, W), H, W, D);
  }

  /** Decoding is injective: two indices with the same coordinates are equal. */
  lemma DecodeInjective(i: int, j: int, H: int, W: int)
    requires H > 0 && W > 0
    requires X(i, W) == X(j, W) && Y(i, H, W) == Y(j, H, W) && Z(i, H, W) == Z(j, H, W)
    ensures i == j
  {
    EncodeDecode(i, H, W);
    EncodeDecode(j, H, W);
  }

  // ---------------------------------------------------------------------------
  // get_neighbor_indices

  /** One step of the 3D Moore neighbourhood: the change of x, y and z. */
  datatype Offset = Offset(dx: int, dy: int, dz: int)

  /** The 26 offsets, in the order in which get_neighbor_indices tests and appends them:
      the in-layer moves of lines 28-43, then straight forward and backward (46-49),
      forward with an in-layer move (51-68), backward with an in-layer move (70-87). */
  const Directions: seq<Offset> := [
    Offset(-1, 0, 0), Offset(1, 0, 0), Offset(0, -1, 0), Offset(0, 1, 0),
    Offset(-1, -1, 0), Offset(1, -1, 0), Offset(-1, 1, 0), Offset(1, 1, 0),
    Offset(0, 0, 1), Offset(0, 0, -1),
    Offset(-1, 0, 1), Offset(1, 0, 1), Offset(0, -1, 1), Offset(0, 1, 1),
    Offset(-1, -1, 1), Offset(1, -1, 1), Offset(-1, 1, 1), Offset(1, 1, 1),
    Offset(-1, 0, -1), Offset(1, 0, -1), Offset(0, -1, -1), Offset(0, 1, -1),
    Offset(-1, -1, -1), Offset(1, -1, -1), Offset(-1, 1, -1), Offset(1, 1, -1)
  ]

  /** A non-zero offset with every component in {-1, 0, 1}. */
  predicate IsUnit(o: Offset)
  {
    -1 <= o.dx <= 1 && -1 <= o.dy <= 1 && -1 <= o.dz <= 1 && o != Offset(0, 0, 0)
  }

  /** The guard in front of the append for offset o: the conjunction of the source's
      boundary tests, one per non-zero component, written as the source writes them. */
  predicate Allowed(idx: int, H: int, W: int, D: int, o: Offset)
    requires H > 0 && W > 0
  {
    && (o.dx == -1 ==> idx % W - 1 >= 0)
    && (o.dx == 1 ==> idx % W + 1 < W)
    && (o.dy == -1 ==> idx / W % H - 1 >= 0)
    && (o.dy == 1 ==> idx / W % H + 1 < H)
    && (o.dz == 1 ==> idx + W * H < H * W * D)
    && (o.dz == -1 ==> idx - W * H >= 0)
  }

  /** The index appended for offset o (for instance idx + W * H - 1 - W at line 62). */
  function Target(idx: int, H: int, W: int, o: Offset): int
  {
    idx + o.dx + W * o.dy + W * H * o.dz
  }

  /** The guarded appends for the offsets ds, in order. */
  function Collect(idx: int, H: int, W: int, D: int, ds: seq<Offset>): seq<int>
    requires H > 0 && W > 0
  {
    if ds == [] then []
    else (if Allowed(idx, H, W, D, ds[0]) then [Target(idx, H, W, ds[0])] else [])
         + Collect(idx, H, W, D, ds[1..])
  }

  /** get_neighbor_indices(idx, H, W, D): for a grid cell, only other grid cells. */
  function Neighbors(idx: int, H: int, W: int, D: int): (ns: seq<int>)
    requires H > 0 && W > 0
    ensures InGrid(idx, H, W, D) ==> forall j :: j in ns ==> InGrid(j, H, W, D) && j != idx
  {
    DirectionsAreUnit();
    CollectInGrid(idx, H, W, D, Directions);
    Collect(idx, H, W, D, Directions)
  }

  // ---------------------------------------------------------------------------
  // The direction table

  lemma DirectionsAreTheUnitOffsets(o: Offset)
    ensures o in Directions <==> IsUnit(o)
  {
  }

  lemma DirectionsAreUnit()
    ensures forall o :: o in Directions ==> IsUnit(o)
  {
    forall o | o in Directions ensures IsUnit(o) {
      DirectionsAreTheUnitOffsets(o);
    }
  }

  lemma DirectionsDistinct()
    ensures |Directions| == 26
    ensures forall a, b | 0 <= a < b < |Directions| :: Directions[a] != Directions[b]
  {
  }

  // ---------------------------------------------------------------------------
  // Properties of the guarded appends

  lemma {:induction false} CollectMember(idx: int, H: int, W: int, D: int, ds: seq<Offset>, j: int)
    requires H > 0 && W > 0
    ensures j in Collect(idx, H, W, D, ds)
        <==> exists o :: o in ds && Allowed(idx, H, W, D, o) && Target(idx, H, W, o) == j
  {
    if ds != [] {
      CollectMember(idx, H, W, D, ds[1..], j);
      assert forall o :: o in ds <==> o == ds[0] || o in ds[1..];
    }
  }

  lemma {:induction false} CollectLength(idx: int, H: int, W: int, D: int, ds: seq<Offset>)
    requires H > 0 && W > 0
    ensures |Collect(idx, H, W, D, ds)| <= |ds|
    ensures (forall o :: o in ds ==> Allowed(idx, H, W, D, o)) ==> |Collect(idx, H, W, D, ds)| == |ds|
  {
    if ds != [] {
      CollectLength(idx, H, W, D, ds[1..]);
      assert forall o :: o in ds[1..] ==> o in ds;
    }
  }

  /** The guard of offset o holds exactly when the cell one step along o is still in the grid. */
  lemma GuardMeaning(idx: int, H: int, W: int, D: int, o: Offset)
    requires H > 0 && W > 0 && InGrid(idx, H, W, D) && -1 <= o.dx <= 1 && -1 <= o.dy <= 1 && -1 <= o.dz <= 1
    ensures Allowed(idx, H, W, D, o) <==>
      && 0 <= X(idx, W) + o.dx < W
      && 0 <= Y(idx, H, W) + o.dy < H
      && 0 <= Z(idx, H, W) + o.dz < D
  {
    CoordinatesInRange(idx, H, W, D);
    LayerGuards(idx, H, W, D);
  }

  /** The two layer tests of the guard compare the decoded layer with the grid's depth. */
  lemma LayerGuards(idx: int, H: int, W: int, D: int)
    requires H > 0 && W > 0 && InGrid(idx, H, W, D)
    ensures idx + W * H < H * W * D <==> Z(idx, H, W) + 1 < D
    ensures idx - W * H >= 0 <==> Z(idx, H, W) - 1 >= 0
  {
    var x, y, z := X(idx, W), Y(idx, H, W), Z(idx, H, W);
    EncodeDecode(idx, H, W);
    assert idx + W * H == Encode(x, y, z + 1, H, W);
    assert idx - W * H == Encode(x, y, z - 1, H, W);
    InGridIff(x, y, z + 1, H, W, D);
    InGridIff(x, y, z - 1, H, W, D);
    CoordinatesInRange(idx, H, W, D);
  }

  lemma EncodeShift(x: int, y: int, z: int, o: Offset, H: int, W: int)
    ensures Encode(x + o.dx, y + o.dy, z + o.dz, H, W) == Target(Encode(x, y, z, H, W), H, W, o)
  {
    var m := W * H;
    assert W * (y + o.dy) == W * y + W * o.dy;
    assert m * (z + o.dz) == m * z + m * o.dz;
  }

  /** An allowed append lands in the grid, on the cell one step along o. */
  lemma TargetCoordinates(idx: int, H: int, W: int, D: int, o: Offset)
    requires H > 0 && W > 0 && InGrid(idx, H, W, D) && IsUnit(o) && Allowed(idx, H, W, D, o)
    ensures InGrid(Target(idx, H, W, o), H, W, D)
    ensures X(Target(idx, H, W, o), W) == X(idx, W) + o.dx
    ensures Y(Target(idx, H, W, o), H, W) == Y(idx, H, W) + o.dy
    ensures Z(Target(idx, H, W, o), H, W) == Z(idx, H, W) + o.dz
  {
    var x, y, z := X(idx, W), Y(idx, H, W), Z(idx, H, W);
    GuardMeaning(idx, H, W, D, o);
    EncodeDecode(idx, H, W);
    EncodeShift(x, y, z, o, H, W);
    DecodeEncode(x + o.dx, y + o.dy, z + o.dz, H, W);
    InGridIff(x + o.dx, y + o.dy, z + o.dz, H, W, D);
  }

  /** Under unit offsets, every appended index of a grid cell is another grid cell. */
  lemma {:induction false} CollectInGrid(idx: int, H: int, W: int, D: int, ds: seq<Offset>)
    requires H > 0 && W > 0 && forall o :: o in ds ==> IsUnit(o)
    ensures InGrid(idx, H, W, D) ==>
      forall j :: j in Collect(idx, H, W, D, ds) ==> InGrid(j, H, W, D) && j != idx
  {
    if ds != [] && InGrid(idx, H, W, D) {
      assert forall o :: o in ds[1..] ==> o in ds;
      CollectInGrid(idx, H, W, D, ds[1..]);
      assert ds[0] in ds;
      if Allowed(idx, H, W, D, ds[0]) {
        TargetCoordinates(idx, H, W, D, ds[0]);
      }
    }
  }

  /** Two allowed unit offsets that land on the same index are the same offset. */
  lemma TargetInjective(idx: int, H: int, W: int, D: int, o1: Offset, o2: Offset)
    requires H > 0 && W > 0 && InGrid(idx, H, W, D)
    requires IsUnit(o1) && Allowed(idx, H, W, D, o1) && IsUnit(o2) && Allowed(idx, H, W, D, o2)
    requires Target(idx, H, W, o1) == Target(idx, H, W, o2)
    ensures o1 == o2
  {
    TargetCoordinates(idx, H, W, D, o1);
    TargetCoordinates(idx, H, W, D, o2);
  }

  lemma {:induction false} CollectDistinct(idx: int, H: int, W: int, D: int, ds: seq<Offset>)
    requires H > 0 && W > 0 && InGrid(idx, H, W, D)
    requires forall o :: o in ds ==> IsUnit(o)
    requires forall a, b | 0 <= a < b < |ds| :: ds[a] != ds[b]
    ensures forall a, b | 0 <= a < b < |Collect(idx, H, W, D, ds)| ::
      Collect(idx, H, W, D, ds)[a] != Collect(idx, H, W, D, ds)[b]
  {
    if ds != [] {
      var tail := ds[1..];
      assert forall o :: o in tail ==> o in ds;
      assert forall a, b | 0 <= a < b < |tail| :: tail[a] == ds[a + 1] && tail[b] == ds[b + 1];
      CollectDistinct(idx, H, W, D, tail);
      if Allowed(idx, H, W, D, ds[0]) {
        var t := Target(idx, H, W, ds[0]);
        if t in Collect(idx, H, W, D, tail) {
          CollectMember(idx, H, W, D, tail, t);
          var o :| o in tail && Allowed(idx, H, W, D, o) && Target(idx, H, W, o) == t;
          var k :| 0 <= k < |tail| && tail[k] == o;
          assert ds[k + 1] == o && ds[0] != o;
          TargetInjective(idx, H, W, D, o, ds[0]);
          assert false;
        }
      }
    }
  }

  // ---------------------------------------------------------------------------
  // What get_neighbor_indices returns

  /** For a grid cell i, j is returned by get_neighbor_indices exactly when j is another
      grid cell that differs from i by at most one in each decoded coordinate. */
  lemma NeighborsAreAdjacentCells(i: int, j: int, H: int, W: int, D: int)
    requires H > 0 && W > 0 && InGrid(i, H, W, D)
    ensures j in Neighbors(i, H, W, D) <==> Adjacent(i, j, H, W, D)
  {
    if j in Neighbors(i, H, W, D) {
      NeighborIsAdjacent(i, j, H, W, D);
    }
    if Adjacent(i, j, H, W, D) {
      AdjacentIsNeighbor(i, j, H, W, D);
    }
  }

  lemma NeighborIsAdjacent(i: int, j: int, H: int, W: int, D: int)
    requires H > 0 && W > 0 && InGrid(i, H, W, D) && j in Neighbors(i, H, W, D)
    ensures Adjacent(i, j, H, W, D)
  {
    var o := NeighborOffset(i, j, H, W, D);
    TargetCoordinates(i, H, W, D, o);
  }

  /** The offset whose guarded append produced a neighbour. */
  lemma NeighborOffset(i: int, j: int, H: int, W: int, D: int) returns (o: Offset)
    requires H > 0 && W > 0 && j in Neighbors(i, H, W, D)
    ensures IsUnit(o) && Allowed(i, H, W, D, o) && Target(i, H, W, o) == j
  {
    CollectMember(i, H, W, D, Directions, j);
    o :| o in Directions && Allowed(i, H, W, D, o) && Target(i, H, W, o) == j;
    DirectionsAreTheUnitOffsets(o);
  }

  lemma AdjacentIsNeighbor(i: int, j: int, H: int, W: int, D: int)
    requires H > 0 && W > 0 && InGrid(i, H, W, D) && Adjacent(i, j, H, W, D)
    ensures j in Neighbors(i, H, W, D)
  {
    var o := AdjacentOffset(i, j, H, W, D);
    DirectionsAreTheUnitOffsets(o);
    CollectMember(i, H, W, D, Directions, j);
  }

  /** The step from a cell to an adjacent one is an allowed unit offset. */
  lemma AdjacentOffset(i: int, j: int, H: int, W: int, D: int) returns (o: Offset)
    requires H > 0 && W > 0 && InGrid(i, H, W, D) && Adjacent(i, j, H, W, D)
    ensures IsUnit(o) && Allowed(i, H, W, D, o) && Target(i, H, W, o) == j
  {
    o := Offset(X(j, W) - X(i, W), Y(j, H, W) - Y(i, H, W), Z(j, H, W) - Z(i, H, W));
    if o == Offset(0, 0, 0) {
      DecodeInjective(i, j, H, W);
    }
    CoordinatesInRange(j, H, W, D);
    GuardMeaning(i, H, W, D, o);
    TargetCoordinates(i, H, W, D, o);
    DecodeInjective(Target(i, H, W, o), j, H, W);
  }

  /** At most 26 neighbours, pairwise distinct. */
  lemma NeighborsDistinct(i: int, H: int, W: int, D: int)
    requires H > 0 && W > 0 && InGrid(i, H, W, D)
    ensures |Neighbors(i, H, W, D)| <= 26
    ensures forall a, b | 0 <= a < b < |Neighbors(i, H, W, D)| ::
      Neighbors(i, H, W, D)[a] != Neighbors(i, H, W, D)[b]
  {
    DirectionsDistinct();
    CollectLength(i, H, W, D, Directions);
    forall o | o in Directions ensures IsUnit(o) {
      DirectionsAreTheUnitOffsets(o);
    }
    CollectDistinct(i, H, W, D, Directions);
  }

  /** A cell away from every face of the grid has all 26 neighbours. */
  lemma InteriorCellHas26Neighbors(i: int, H: int, W: int, D: int)
    requires H > 0 && W > 0 && InGrid(i, H, W, D)
    requires 1 <= X(i, W) <= W - 2 && 1 <= Y(i, H, W) <= H - 2 && 1 <= Z(i, H, W) <= D - 2
    ensures |Neighbors(i, H, W, D)| == 26
  {
    forall o | o in Directions ensures Allowed(i, H, W, D, o) {
      DirectionsAreTheUnitOffsets(o);
      GuardMeaning(i, H, W, D, o);
    }
    CollectLength(i, H, W, D, Directions);
  }

  /** The neighbour relation is symmetric on the grid. */
  lemma NeighborsSymmetric(i: int, j: int, H: int, W: int, D: int)
    requires H > 0 && W > 0 && InGrid(i, H, W, D) && InGrid(j, H, W, D)
    ensures j in Neighbors(i, H, W, D) <==> i in Neighbors(j, H, W, D)
  {
    NeighborsAreAdjacentCells(i, j, H, W, D);
    NeighborsAreAdjacentCells(j, i, H, W, D);
  }

  // ---------------------------------------------------------------------------
  // Connectivity of the 26-neighbourhood

  /** Every grid cell of S has all its neighbours in S. */
  ghost predicate ClosedUnderNeighbors(S: set<int>, H: int, W: int, D: int)
    requires H > 0 && W > 0
  {
    forall c, n :: c in S && InGrid(c, H, W, D) && n in Neighbors(c, H, W, D) ==> n in S
  }

  function Sign(n: int): int
  {
    if n > 0 then 1 else if n < 0 then -1 else 0
  }

  /** One 26-step from s towards t: the neighbour of s that moves every differing
      coordinate one unit closer to t. */
  lemma StepTowards(s: int, t: int, H: int, W: int, D: int) returns (n: int)
    requires H > 0 && W > 0 && InGrid(s, H, W, D) && InGrid(t, H, W, D) && s != t
    ensures n in Neighbors(s, H, W, D) && InGrid(n, H, W, D)
    ensures Abs(X(n, W) - X(t, W)) + Abs(Y(n, H, W) - Y(t, H, W)) + Abs(Z(n, H, W) - Z(t, H, W))
          < Abs(X(s, W) - X(t, W)) + Abs(Y(s, H, W) - Y(t, H, W)) + Abs(Z(s, H, W) - Z(t, H, W))
  {
    var x, y, z := X(s, W), Y(s, H, W), Z(s, H, W);
    var tx, ty, tz := X(t, W), Y(t, H, W), Z(t, H, W);
    CoordinatesInRange(s, H, W, D);
    CoordinatesInRange(t, H, W, D);
    var nx, ny, nz := x + Sign(tx - x), y + Sign(ty - y), z + Sign(tz - z);
    assert 0 <= nx < W && 0 <= ny < H && 0 <= nz < D;
    n := Encode(nx, ny, nz, H, W);
    DecodeEncode(nx, ny, nz, H, W);
    InGridIff(nx, ny, nz, H, W, D);
    assert X(n, W) == nx && Y(n, H, W) == ny && Z(n, H, W) == nz && InGrid(n, H, W, D);
    assert n != s by {
      if n == s {
        DecodeInjective(s, t, H, W);
      }
    }
    assert Adjacent(s, n, H, W, D);
    NeighborsAreAdjacentCells(s, n, H, W, D);
    assert x != tx || y != ty || z != tz by {
      if x == tx && y == ty && z == tz {
        DecodeInjective(s, t, H, W);
      }
    }
    StepCloser(x, tx);
    StepCloser(y, ty);
    StepCloser(z, tz);
    assert Abs(nx - tx) + Abs(ny - ty) + Abs(nz - tz) < Abs(x - tx) + Abs(y - ty) + Abs(z - tz);
  }

  lemma StepCloser(a: int, b: int)
    ensures Abs(a + Sign(b - a) - b) + (if a == b then 0 else 1) == Abs(a - b)
  {
  }

  /** The grid is connected under get_neighbor_indices: a set that holds one grid cell
      and is closed under neighbours holds every grid cell. */
  lemma {:induction false} ClosedSetCoversGrid(S: set<int>, s: int, t: int, H: int, W: int, D: int)
    requires H > 0 && W > 0 && InGrid(s, H, W, D) && InGrid(t, H, W, D)
    requires s in S && ClosedUnderNeighbors(S, H, W, D)
    ensures t in S
    decreases Abs(X(s, W) - X(t, W)) + Abs(Y(s, H, W) - Y(t, H, W)) + Abs(Z(s, H, W) - Z(t, H, W))
  {
    if s != t {
      var n := StepTowards(s, t, H, W, D);
      ClosedSetCoversGrid(S, n, t, H, W, D);
    }
  }
}
