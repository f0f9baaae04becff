/**
 * The adjacency-matrix generator of `adjmat.hpp`: grid indexing, the call
 * shapes of adjacency and weight functions, the z/y/x traversal that collects
 * (row, column, value) triplets, and the square matrix built from them, in
 * which triplets that share a position are summed.
 *
 * Matrix values are exact reals; the source's `static_cast<Scalar_t>` of each
 * weight is not modelled.
 */
module Adjmat {
  import opened Coords3d
  import Arith

  /** A matrix position (row, column), `std::array<int, 2>`. */
  type EntryCoords = (int, int)

  /** Number of grid nodes, the side of the square adjacency matrix. */
  function GridSize(dims: Coords): (n: nat)
    requires PositiveDims(dims)
    ensures n > 0
  {
    Arith.MulMonotone(1, dims.y, dims.x);
    Arith.MulMonotone(1, dims.z, dims.x * dims.y);
    dims.x * dims.y * dims.z
  }

  /** Linear index of a node, x fastest, then y, then z (`get_node_index`). */
  function NodeIndex(c: Coords, dims: Coords): (i: nat)
    requires PositiveDims(dims) && IsInsideGrid(c, dims)
    ensures i < GridSize(dims)
  {
    Arith.LinearBound(c.x, c.y, dims.x, dims.y);
    Arith.LinearBound(c.x + c.y * dims.x, c.z, dims.x * dims.y, dims.z);
    c.x + c.y * dims.x + c.z * (dims.x * dims.y)
  }

  /**
   * Every index below GridSize belongs to a node: x is the index modulo nx,
   * y the quotient by nx modulo ny, and z the quotient by nx * ny.
   */
  lemma {:induction false} IndexDecodes(i: int, dims: Coords)
    requires PositiveDims(dims) && 0 <= i < GridSize(dims)
    ensures var c := Coords(i % dims.x, (i / dims.x) % dims.y, (i / dims.x) / dims.y);
            IsInsideGrid(c, dims) && NodeIndex(c, dims) == i
  {
    var j := i / dims.x;
    Arith.DivBelow(i, dims.x, dims.y * dims.z);
    Arith.DivBelow(j, dims.y, dims.z);
    var c := Coords(i % dims.x, j % dims.y, j / dims.y);
    assert i == j * dims.x + c.x;
    assert j == c.z * dims.y + c.y;
    assert c.z * dims.y * dims.x == c.z * dims.x * dims.y;
  }

  /** The node with linear index `i`: the inverse of NodeIndex. */
  ghost function NodeCoords(i: int, dims: Coords): (c: Coords)
    requires PositiveDims(dims) && 0 <= i < GridSize(dims)
    ensures IsInsideGrid(c, dims)
    ensures NodeIndex(c, dims) == i
  {
    IndexDecodes(i, dims);
    var c :| IsInsideGrid(c, dims) && NodeIndex(c, dims) == i;
    c
  }

  /** The index as x plus nx times the index of the row within the grid's rows. */
  lemma NodeIndexSplit(c: Coords, dims: Coords)
    requires PositiveDims(dims) && IsInsideGrid(c, dims)
    ensures NodeIndex(c, dims) == (c.y + c.z * dims.y) * dims.x + c.x
  {
    assert (c.y + c.z * dims.y) * dims.x == c.y * dims.x + (c.z * dims.y) * dims.x;
    assert (c.z * dims.y) * dims.x == c.z * (dims.x * dims.y);
  }

  /** Distinct nodes of the grid get distinct indices. */
  lemma NodeIndexInjective(a: Coords, b: Coords, dims: Coords)
    requires PositiveDims(dims) && IsInsideGrid(a, dims) && IsInsideGrid(b, dims)
    requires NodeIndex(a, dims) == NodeIndex(b, dims)
    ensures a == b
  {
    var i := NodeIndex(a, dims);
    NodeIndexSplit(a, dims);
    NodeIndexSplit(b, dims);
    Arith.DivModUnique(i, dims.x, a.y + a.z * dims.y, a.x);
    Arith.DivModUnique(i, dims.x, b.y + b.z * dims.y, b.x);
    Arith.DivModUnique(a.y + a.z * dims.y, dims.y, a.z, a.y);
    Arith.DivModUnique(b.y + b.z * dims.y, dims.y, b.z, b.y);
  }

  /** Decoding the index of a node gives back the node. */
  lemma NodeCoordsOfIndex(c: Coords, dims: Coords)
    requires PositiveDims(dims) && IsInsideGrid(c, dims)
    ensures NodeCoords(NodeIndex(c, dims), dims) == c
  {
    NodeIndexInjective(NodeCoords(NodeIndex(c, dims), dims), c, dims);
  }

  /**
   * The matrix position of the connection from `c` to `nb`
   * (`get_matrix_entry_coordinates`): the row is the node's index and the
   * column the neighbour's, and both decode back to the two nodes.
   */
  function EntryCoordinates(c: Coords, nb: Coords, dims: Coords): (e: EntryCoords)
    requires PositiveDims(dims) && IsInsideGrid(c, dims) && IsInsideGrid(nb, dims)
    ensures 0 <= e.0 < GridSize(dims) && 0 <= e.1 < GridSize(dims)
    ensures NodeCoords(e.0, dims) == c && NodeCoords(e.1, dims) == nb
  {
    NodeCoordsOfIndex(c, dims);
    NodeCoordsOfIndex(nb, dims);
    (NodeIndex(c, dims), NodeIndex(nb, dims))
  }

  /**
   * The call shapes a weight function may have, decided at compile time in the
   * source: (A) no argument, (B) the matrix position, (C) the node and its
   * neighbour, (D) the position and both nodes, and (C) with the grid's extent.
   */
  datatype WeightFn =
    | NoArgs(value: () -> real)
    | ByEntry(ofEntry: EntryCoords -> real)
    | ByNodes(ofNodes: (Coords, Coords) -> real)
    | ByEntryAndNodes(ofEntryAndNodes: (EntryCoords, Coords, Coords) -> real)
    | ByNodesAndGrid(ofNodesAndGrid: (Coords, Coords, Coords) -> real)

  /** The call shapes of an adjacency function: the node alone, or the node and the grid's extent. */
  datatype AdjFn =
    | OfNode(offsetsOf: Coords -> seq<Coords>)
    | OfNodeAndGrid(offsetsIn: (Coords, Coords) -> seq<Coords>)

  /** One (row, column, value) record (`Eigen::Triplet`). */
  datatype Triplet = Triplet(row: int, col: int, value: real)

  /** A sparse matrix by its dimensions and its stored entries. */
  datatype SparseMatrix = SparseMatrix(rows: nat, cols: nat, entries: map<EntryCoords, real>)

  /** The offsets the adjacency function returns for the node at `c`. */
  function Offsets(adj: AdjFn, c: Coords, dims: Coords): seq<Coords>
  {
    match adj
    case OfNode(f) => f(c)
    case OfNodeAndGrid(f) => f(c, dims)
  }

  /** The weight of one connection, by the weight function's shape. */
  function Weight(w: WeightFn, e: EntryCoords, c: Coords, nb: Coords, dims: Coords): real
  {
    match w
    case NoArgs(f) => f()
    case ByEntry(f) => f(e)
    case ByNodes(f) => f(c, nb)
    case ByEntryAndNodes(f) => f(e, c, nb)
    case ByNodesAndGrid(f) => f(c, nb, dims)
  }

  /**
   * The source computes matrix positions of every returned offset without a
   * bounds check, so its `Expects` demand that each offset lead into the grid.
   */
  ghost predicate OffsetsStayInGrid(dims: Coords, adj: AdjFn)
    requires PositiveDims(dims)
  {
    forall c :: IsInsideGrid(c, dims) ==>
      forall k :: 0 <= k < |Offsets(adj, c, dims)| ==>
        IsInsideGrid(Add(c, Offsets(adj, c, dims)[k]), dims)
  }

  /** The triplet pushed for the node at `c` and one of its offsets. */
  function MakeTriplet(dims: Coords, w: WeightFn, c: Coords, o: Coords): Triplet
    requires PositiveDims(dims) && IsInsideGrid(c, dims) && IsInsideGrid(Add(c, o), dims)
  {
    var nb := Add(c, o);
    var e := EntryCoordinates(c, nb, dims);
    Triplet(e.0, e.1, Weight(w, e, c, nb, dims))
  }

  /** The triplets pushed for the node at `c`, one per offset, in offset order. */
  function NodeTriplets(dims: Coords, w: WeightFn, c: Coords, offs: seq<Coords>): seq<Triplet>
    requires PositiveDims(dims) && IsInsideGrid(c, dims)
    requires forall k :: 0 <= k < |offs| ==> IsInsideGrid(Add(c, offs[k]), dims)
  {
    if offs == [] then []
    else NodeTriplets(dims, w, c, offs[..|offs| - 1]) + [MakeTriplet(dims, w, c, offs[|offs| - 1])]
  }

  /** The triplets pushed for the first `m` nodes of the traversal order, node `k` being NodeCoords(k). */
  ghost function TripletsUpTo(dims: Coords, adj: AdjFn, w: WeightFn, m: nat): seq<Triplet>
    requires PositiveDims(dims) && OffsetsStayInGrid(dims, adj) && m <= GridSize(dims)
  {
    if m == 0 then []
    else
      var c := NodeCoords(m - 1, dims);
      TripletsUpTo(dims, adj, w, m - 1) + NodeTriplets(dims, w, c, Offsets(adj, c, dims))
  }

  /** All triplets of the grid. */
  ghost function Triplets(dims: Coords, adj: AdjFn, w: WeightFn): seq<Triplet>
    requires PositiveDims(dims) && OffsetsStayInGrid(dims, adj)
  {
    TripletsUpTo(dims, adj, w, GridSize(dims))
  }

  function KeyOf(t: Triplet): EntryCoords
  {
    (t.row, t.col)
  }

  /** The sum of the values of all triplets at `key`. */
  function SumAt(ts: seq<Triplet>, key: EntryCoords): real
  {
    if ts == [] then 0.0
    else
      var t := ts[|ts| - 1];
      SumAt(ts[..|ts| - 1], key) + (if KeyOf(t) == key then t.value else 0.0)
  }

  /**
   * `setFromTriplets`: the stored entries built from a triplet list, where a
   * triplet at an already stored position adds to it.
   */
  function Accumulate(ts: seq<Triplet>): map<EntryCoords, real>
  {
    if ts == [] then map[]
    else
      var m := Accumulate(ts[..|ts| - 1]);
      var t := ts[|ts| - 1];
      m[KeyOf(t) := (if KeyOf(t) in m then m[KeyOf(t)] else 0.0) + t.value]
  }

  /**
   * A position is stored exactly when some triplet names it, and its value is
   * the sum of all triplets naming it, not the last one written.
   */
  lemma {:induction false} AccumulateSums(ts: seq<Triplet>, key: EntryCoords)
    ensures key in Accumulate(ts) <==> exists k :: 0 <= k < |ts| && KeyOf(ts[k]) == key
    ensures key in Accumulate(ts) ==> Accumulate(ts)[key] == SumAt(ts, key)
    ensures key !in Accumulate(ts) ==> SumAt(ts, key) == 0.0
  {
    if ts != [] {
      var init := ts[..|ts| - 1];
      AccumulateSums(init, key);
      if key in Accumulate(ts) && KeyOf(ts[|ts| - 1]) != key {
        var k :| 0 <= k < |init| && KeyOf(init[k]) == key;
        assert ts[k] == init[k];
      }
      if exists k :: 0 <= k < |ts| && KeyOf(ts[k]) == key {
        var k :| 0 <= k < |ts| && KeyOf(ts[k]) == key;
        if k < |init| {
          assert init[k] == ts[k];
        }
      }
    }
  }

  /** Two triplets at the same position add up: (0,0,3) and (0,0,4) give 7 at (0,0). */
  lemma DuplicateTripletsAdd()
    ensures Accumulate([Triplet(0, 0, 3.0), Triplet(0, 0, 4.0)]) == map[(0, 0) := 7.0]
  {
    assert [Triplet(0, 0, 3.0), Triplet(0, 0, 4.0)][..1] == [Triplet(0, 0, 3.0)];
  }

  /** Exactly one triplet per offset, in offset order, from the node to node + offset. */
  lemma {:induction false} NodeTripletsPerOffset(dims: Coords, w: WeightFn, c: Coords, offs: seq<Coords>)
    requires PositiveDims(dims) && IsInsideGrid(c, dims)
    requires forall k :: 0 <= k < |offs| ==> IsInsideGrid(Add(c, offs[k]), dims)
    ensures |NodeTriplets(dims, w, c, offs)| == |offs|
    ensures forall k :: 0 <= k < |offs| ==>
              NodeTriplets(dims, w, c, offs)[k] == MakeTriplet(dims, w, c, offs[k])
  {
    if offs != [] {
      NodeTripletsPerOffset(dims, w, c, offs[..|offs| - 1]);
    }
  }

  /**
   * The traversal emits rows in non-decreasing order, and the first `m` nodes
   * fill exactly rows 0 .. m-1; every column is a node index too.
   */
  lemma {:induction false} RowsNonDecreasing(dims: Coords, adj: AdjFn, w: WeightFn, m: nat)
    requires PositiveDims(dims) && OffsetsStayInGrid(dims, adj) && m <= GridSize(dims)
    ensures forall k :: 0 <= k < |TripletsUpTo(dims, adj, w, m)| ==>
              0 <= TripletsUpTo(dims, adj, w, m)[k].row < m &&
              0 <= TripletsUpTo(dims, adj, w, m)[k].col < GridSize(dims)
    ensures forall a, b :: 0 <= a <= b < |TripletsUpTo(dims, adj, w, m)| ==>
              TripletsUpTo(dims, adj, w, m)[a].row <= TripletsUpTo(dims, adj, w, m)[b].row
  {
    if m > 0 {
      RowsNonDecreasing(dims, adj, w, m - 1);
      var c := NodeCoords(m - 1, dims);
      NodeTripletsPerOffset(dims, w, c, Offsets(adj, c, dims));
    }
  }

  /** A weight function of shape B sees exactly the position its value is pushed with. */
  lemma {:induction false} EntryWeightSeesPushedPosition(dims: Coords, adj: AdjFn, w: WeightFn, m: nat)
    requires PositiveDims(dims) && OffsetsStayInGrid(dims, adj) && m <= GridSize(dims)
    requires w.ByEntry?
    ensures forall t :: t in TripletsUpTo(dims, adj, w, m) ==> t.value == w.ofEntry(KeyOf(t))
  {
    if m > 0 {
      EntryWeightSeesPushedPosition(dims, adj, w, m - 1);
      var c := NodeCoords(m - 1, dims);
      NodeTripletsPerOffset(dims, w, c, Offsets(adj, c, dims));
    }
  }

  /** How many of the offsets lead from `c` to the node with index `j`. */
  function OffsetHits(dims: Coords, c: Coords, offs: seq<Coords>, j: int): nat
    requires PositiveDims(dims) && IsInsideGrid(c, dims)
    requires forall k :: 0 <= k < |offs| ==> IsInsideGrid(Add(c, offs[k]), dims)
  {
    if offs == [] then 0
    else OffsetHits(dims, c, offs[..|offs| - 1], j) +
         (if NodeIndex(Add(c, offs[|offs| - 1]), dims) == j then 1 else 0)
  }

  lemma {:induction false} SumAtConcat(a: seq<Triplet>, b: seq<Triplet>, key: EntryCoords)
    ensures SumAt(a + b, key) == SumAt(a, key) + SumAt(b, key)
  {
    if b == [] {
      assert a + b == a;
    } else {
      var ab := a + b;
      assert ab[..|ab| - 1] == a + b[..|b| - 1];
      assert ab[|ab| - 1] == b[|b| - 1];
      SumAtConcat(a, b[..|b| - 1], key);
    }
  }

  /** `v` added up `n` times. */
  function Times(n: nat, v: real): real
  {
    if n == 0 then 0.0 else Times(n - 1, v) + v
  }

  lemma {:induction false} TimesIsProduct(n: nat, v: real)
    ensures Times(n, v) == v * n as real
  {
    if n > 0 {
      TimesIsProduct(n - 1, v);
      assert v * n as real == v * (n - 1) as real + v;
    }
  }

  lemma SumAtSnoc(ts: seq<Triplet>, t: Triplet, key: EntryCoords)
    ensures SumAt(ts + [t], key) == SumAt(ts, key) + (if KeyOf(t) == key then t.value else 0.0)
  {
    assert (ts + [t])[..|ts|] == ts;
  }

  lemma MakeTripletShape(dims: Coords, w: WeightFn, c: Coords, o: Coords)
    requires PositiveDims(dims) && IsInsideGrid(c, dims) && IsInsideGrid(Add(c, o), dims)
    ensures MakeTriplet(dims, w, c, o).row == NodeIndex(c, dims)
    ensures MakeTriplet(dims, w, c, o).col == NodeIndex(Add(c, o), dims)
    ensures w.NoArgs? ==> MakeTriplet(dims, w, c, o).value == w.value()
  {
  }

  lemma {:induction false} NodeSumAt(dims: Coords, w: WeightFn, c: Coords, offs: seq<Coords>, key: EntryCoords)
    requires PositiveDims(dims) && IsInsideGrid(c, dims) && w.NoArgs?
    requires forall k :: 0 <= k < |offs| ==> IsInsideGrid(Add(c, offs[k]), dims)
    ensures SumAt(NodeTriplets(dims, w, c, offs), key) ==
            if key.0 == NodeIndex(c, dims) then Times(OffsetHits(dims, c, offs, key.1), w.value()) else 0.0
  {
    if offs != [] {
      var init := offs[..|offs| - 1];
      var o := offs[|offs| - 1];
      NodeSumAt(dims, w, c, init, key);
      var t := MakeTriplet(dims, w, c, o);
      SumAtSnoc(NodeTriplets(dims, w, c, init), t, key);
      MakeTripletShape(dims, w, c, o);
    }
  }

  /**
   * With a zero-argument weight function returning v, the summed triplets of
   * the first `m` nodes hold, at (i, j), v times the number of offsets of node
   * i that land on node j (zero for rows not yet visited).
   */
  lemma ConstantWeightCountsHits(dims: Coords, adj: AdjFn, w: WeightFn, m: nat, i: int, j: int)
    requires PositiveDims(dims) && OffsetsStayInGrid(dims, adj) && m <= GridSize(dims)
    requires w.NoArgs? && 0 <= i < GridSize(dims)
    ensures SumAt(TripletsUpTo(dims, adj, w, m), (i, j)) ==
            if i < m then HitWeight(dims, adj, w, i, j) else 0.0
  {
    if i < m {
      RowUnchanged(dims, adj, w, i + 1, m, (i, j));
      SumAtStepOwnRow(dims, adj, w, i, (i, j));
      RowUntouched(dims, adj, w, i, (i, j));
    } else {
      RowUntouched(dims, adj, w, m, (i, j));
    }
  }

  /** Before node `key.0` is visited, the sum at `key` is zero. */
  lemma RowUntouched(dims: Coords, adj: AdjFn, w: WeightFn, m: nat, key: EntryCoords)
    requires PositiveDims(dims) && OffsetsStayInGrid(dims, adj) && w.NoArgs? && m <= GridSize(dims) && m <= key.0
    ensures SumAt(TripletsUpTo(dims, adj, w, m), key) == 0.0
  {
    RowUnchanged(dims, adj, w, 0, m, key);
    assert TripletsUpTo(dims, adj, w, 0) == [];
  }

  /**
   * Visiting nodes n .. m - 1 leaves the sum at `key` unchanged when row
   * `key.0` is not among them.
   */
  lemma {:induction false} RowUnchanged(dims: Coords, adj: AdjFn, w: WeightFn, n: nat, m: nat, key: EntryCoords)
    requires PositiveDims(dims) && OffsetsStayInGrid(dims, adj) && w.NoArgs? && n <= m <= GridSize(dims)
    requires key.0 < n || m <= key.0
    ensures SumAt(TripletsUpTo(dims, adj, w, m), key) == SumAt(TripletsUpTo(dims, adj, w, n), key)
  {
    if m != n {
      RowUnchanged(dims, adj, w, n, m - 1, key);
      SumAtStepOtherRow(dims, adj, w, m, key);
    }
  }

  /** The constant weight times the number of offsets of node i that land on node j. */
  ghost function HitWeight(dims: Coords, adj: AdjFn, w: WeightFn, i: int, j: int): real
    requires PositiveDims(dims) && OffsetsStayInGrid(dims, adj) && 0 <= i < GridSize(dims) && w.NoArgs?
  {
    var c := NodeCoords(i, dims);
    Times(OffsetHits(dims, c, Offsets(adj, c, dims), j), w.value())
  }

  /** Visiting node n adds, at a key in its row, v times its hits. */
  lemma SumAtStepOwnRow(dims: Coords, adj: AdjFn, w: WeightFn, n: nat, key: EntryCoords)
    requires PositiveDims(dims) && OffsetsStayInGrid(dims, adj) && n < GridSize(dims) && w.NoArgs?
    requires key.0 == n
    ensures SumAt(TripletsUpTo(dims, adj, w, n + 1), key) ==
            SumAt(TripletsUpTo(dims, adj, w, n), key) + HitWeight(dims, adj, w, n, key.1)
  {
    var c := NodeCoords(n, dims);
    TripletsUpToNext(dims, adj, w, n);
    SumAtConcat(TripletsUpTo(dims, adj, w, n), NodeTriplets(dims, w, c, Offsets(adj, c, dims)), key);
    NodeSumAt(dims, w, c, Offsets(adj, c, dims), key);
  }

  /** Visiting node m - 1 adds nothing at a key outside its row. */
  lemma SumAtStepOtherRow(dims: Coords, adj: AdjFn, w: WeightFn, m: nat, key: EntryCoords)
    requires PositiveDims(dims) && OffsetsStayInGrid(dims, adj) && 0 < m <= GridSize(dims) && w.NoArgs?
    requires key.0 != m - 1
    ensures SumAt(TripletsUpTo(dims, adj, w, m), key) == SumAt(TripletsUpTo(dims, adj, w, m - 1), key)
  {
    var c := NodeCoords(m - 1, dims);
    SumAtConcat(TripletsUpTo(dims, adj, w, m - 1), NodeTriplets(dims, w, c, Offsets(adj, c, dims)), key);
    NodeSumAt(dims, w, c, Offsets(adj, c, dims), key);
  }

  /**
   * The body of the traversal for one node: push one triplet per offset of
   * the node at `myCoords`, in offset order.
   */
  method PushNodeTriplets(dims: Coords, w: WeightFn, myCoords: Coords, offsets: seq<Coords>, triplets: seq<Triplet>)
    returns (ts: seq<Triplet>)
    requires PositiveDims(dims) && IsInsideGrid(myCoords, dims)
    requires forall k :: 0 <= k < |offsets| ==> IsInsideGrid(Add(myCoords, offsets[k]), dims)
    ensures ts == triplets + NodeTriplets(dims, w, myCoords, offsets)
  {
    ts := triplets;
    var k := 0;
    while k < |offsets|
      invariant 0 <= k <= |offsets|
      invariant ts == triplets + NodeTriplets(dims, w, myCoords, offsets[..k])
    {
      var neighborCoords := Add(myCoords, offsets[k]);
      var (ii, jj) := EntryCoordinates(myCoords, neighborCoords, dims);
      var value := Weight(w, (ii, jj), myCoords, neighborCoords, dims);
      assert offsets[..k + 1][..k] == offsets[..k];
      assert offsets[..k + 1][k] == offsets[k];
      ts := ts + [Triplet(ii, jj, value)];
      k := k + 1;
    }
    assert offsets[..k] == offsets;
  }

  /** Index of the first node of plane zz, or GridSize for zz == nz. */
  ghost function PlaneStart(zz: int, dims: Coords): (m: nat)
    requires PositiveDims(dims) && 0 <= zz <= dims.z
    ensures m <= GridSize(dims)
  {
    Arith.MulMonotone(0, zz, dims.x * dims.y);
    Arith.MulMonotone(zz, dims.z, dims.x * dims.y);
    zz * (dims.x * dims.y)
  }

  /** Index of the first node of row (yy, zz), or of the next plane for yy == ny. */
  ghost function RowStart(yy: int, zz: int, dims: Coords): (m: nat)
    requires PositiveDims(dims) && 0 <= yy <= dims.y && 0 <= zz < dims.z
    ensures m == PlaneStart(zz, dims) + yy * dims.x
    ensures yy == 0 ==> m == PlaneStart(zz, dims)
    ensures yy == dims.y ==> m == PlaneStart(zz + 1, dims)
    ensures yy < dims.y ==> m + dims.x <= GridSize(dims)
  {
    if yy < dims.y then
      RowFitsInGrid(yy, zz, dims);
      PlaneStart(zz, dims) + yy * dims.x
    else
      PlaneAfter(zz, dims);
      PlaneStart(zz, dims) + yy * dims.x
  }

  /** A row below the last one ends inside the grid. */
  lemma RowFitsInGrid(yy: int, zz: int, dims: Coords)
    requires PositiveDims(dims) && 0 <= yy < dims.y && 0 <= zz < dims.z
    ensures PlaneStart(zz, dims) + yy * dims.x + dims.x <= GridSize(dims)
  {
    assert NodeIndex(Coords(dims.x - 1, yy, zz), dims) + 1 == PlaneStart(zz, dims) + yy * dims.x + dims.x;
  }

  /** ny full rows of a plane reach the start of the next plane. */
  lemma PlaneAfter(zz: int, dims: Coords)
    requires PositiveDims(dims) && 0 <= zz < dims.z
    ensures PlaneStart(zz, dims) + dims.y * dims.x == PlaneStart(zz + 1, dims)
  {
    Arith.MulSucc(zz, dims.x * dims.y);
    assert dims.y * dims.x == dims.x * dims.y;
  }

  /** The x loop of the traversal: the nodes of row (yy, zz), x ascending. */
  method TraverseRow(dims: Coords, adj: AdjFn, w: WeightFn, yy: int, zz: int, triplets: seq<Triplet>)
    returns (ts: seq<Triplet>)
    requires PositiveDims(dims) && OffsetsStayInGrid(dims, adj)
    requires 0 <= yy < dims.y && 0 <= zz < dims.z
    requires triplets == TripletsUpTo(dims, adj, w, RowStart(yy, zz, dims))
    ensures ts == TripletsUpTo(dims, adj, w, RowStart(yy + 1, zz, dims))
  {
    RowEnd(dims, yy, zz);
    ghost var m := RowStart(yy, zz, dims);
    ts := triplets;
    var xx := 0;
    while xx < dims.x
      invariant 0 <= xx <= dims.x && m == RowStart(yy, zz, dims) + xx
      invariant ts == TripletsUpTo(dims, adj, w, m)
    {
      ts := VisitNode(dims, adj, w, xx, yy, zz, m, ts);
      xx, m := xx + 1, m + 1;
    }
  }

  /** The body of the x loop: fetch the offsets of node (xx, yy, zz) and push its triplets. */
  method VisitNode(dims: Coords, adj: AdjFn, w: WeightFn, xx: int, yy: int, zz: int, ghost m: nat, triplets: seq<Triplet>)
    returns (ts: seq<Triplet>)
    requires PositiveDims(dims) && OffsetsStayInGrid(dims, adj)
    requires 0 <= xx < dims.x && 0 <= yy < dims.y && 0 <= zz < dims.z
    requires m == RowStart(yy, zz, dims) + xx
    requires m < GridSize(dims) && triplets == TripletsUpTo(dims, adj, w, m)
    ensures ts == TripletsUpTo(dims, adj, w, m + 1)
  {
    var myCoords := Coords(xx, yy, zz);
    NodeInRow(dims, xx, yy, zz);
    TripletsUpToNext(dims, adj, w, m);
    var offsets := Offsets(adj, myCoords, dims);
    ts := PushNodeTriplets(dims, w, myCoords, offsets, triplets);
  }

  /** Visiting node m appends its triplets. */
  lemma TripletsUpToNext(dims: Coords, adj: AdjFn, w: WeightFn, m: nat)
    requires PositiveDims(dims) && OffsetsStayInGrid(dims, adj) && m < GridSize(dims)
    ensures TripletsUpTo(dims, adj, w, m + 1) ==
            TripletsUpTo(dims, adj, w, m) + NodeTriplets(dims, w, NodeCoords(m, dims), Offsets(adj, NodeCoords(m, dims), dims))
  {
  }

  /** The row after (yy, zz) starts nx nodes later. */
  lemma RowEnd(dims: Coords, yy: int, zz: int)
    requires PositiveDims(dims) && 0 <= yy < dims.y && 0 <= zz < dims.z
    ensures RowStart(yy + 1, zz, dims) == RowStart(yy, zz, dims) + dims.x
  {
    Arith.MulSucc(yy, dims.x);
  }

  /** Node x of row (yy, zz) is the node visited at position RowStart + x. */
  lemma NodeInRow(dims: Coords, xx: int, yy: int, zz: int)
    requires PositiveDims(dims) && 0 <= xx < dims.x && 0 <= yy < dims.y && 0 <= zz < dims.z
    ensures RowStart(yy, zz, dims) + xx < GridSize(dims)
    ensures NodeCoords(RowStart(yy, zz, dims) + xx, dims) == Coords(xx, yy, zz)
  {
    var c := Coords(xx, yy, zz);
    assert NodeIndex(c, dims) == RowStart(yy, zz, dims) + xx;
    NodeCoordsOfIndex(c, dims);
  }

  /** The y loop of the traversal: the rows of plane zz, y ascending. */
  method TraversePlane(dims: Coords, adj: AdjFn, w: WeightFn, zz: int, triplets: seq<Triplet>)
    returns (ts: seq<Triplet>)
    requires PositiveDims(dims) && OffsetsStayInGrid(dims, adj)
    requires 0 <= zz < dims.z
    requires triplets == TripletsUpTo(dims, adj, w, PlaneStart(zz, dims))
    ensures ts == TripletsUpTo(dims, adj, w, PlaneStart(zz + 1, dims))
  {
    ts := triplets;
    var yy := 0;
    while yy < dims.y
      invariant 0 <= yy <= dims.y
      invariant ts == TripletsUpTo(dims, adj, w, RowStart(yy, zz, dims))
    {
      ts := TraverseRow(dims, adj, w, yy, zz, ts);
      yy := yy + 1;
    }
  }

  /** The nz planes of nx * ny nodes make up the grid. */
  lemma PlanesFillGrid(dims: Coords)
    requires PositiveDims(dims)
    ensures PlaneStart(dims.z, dims) == GridSize(dims)
  {
  }

  /**
   * `Adjmat::invoke`: traverse the grid z outermost, then y, then x, push one
   * triplet per returned offset and build the square matrix of side
   * nx * ny * nz from the triplets, summing those at the same position. The
   * node visited m-th is the node with index m.
   */
  method Invoke(dims: Coords, adj: AdjFn, w: WeightFn) returns (r: SparseMatrix)
    requires PositiveDims(dims) && OffsetsStayInGrid(dims, adj)
    ensures r.rows == GridSize(dims) && r.cols == GridSize(dims)
    ensures r.entries == Accumulate(Triplets(dims, adj, w))
  {
    var matrixHeight := dims.x * dims.y * dims.z;
    var triplets: seq<Triplet> := [];
    var zz := 0;
    while zz < dims.z
      invariant 0 <= zz <= dims.z
      invariant triplets == TripletsUpTo(dims, adj, w, PlaneStart(zz, dims))
    {
      triplets := TraversePlane(dims, adj, w, zz, triplets);
      zz := zz + 1;
    }
    PlanesFillGrid(dims);
    r := SparseMatrix(matrixHeight, matrixHeight, Accumulate(triplets));
  }

  /** Every stored entry of the built matrix lies inside the square of side nx * ny * nz. */
  lemma ResultIsSquare(dims: Coords, adj: AdjFn, w: WeightFn, key: EntryCoords)
    requires PositiveDims(dims) && OffsetsStayInGrid(dims, adj)
    requires key in Accumulate(Triplets(dims, adj, w))
    ensures 0 <= key.0 < GridSize(dims) && 0 <= key.1 < GridSize(dims)
  {
    AccumulateSums(Triplets(dims, adj, w), key);
    RowsNonDecreasing(dims, adj, w, GridSize(dims));
  }

  /**
   * With a zero-argument weight function returning v, entry (i, j) of the
   * matrix is v times the number of offsets of node i that land on node j.
   */
  lemma ConstantWeightEntry(dims: Coords, adj: AdjFn, w: WeightFn, i: int, j: int)
    requires PositiveDims(dims) && OffsetsStayInGrid(dims, adj) && w.NoArgs?
    requires 0 <= i < GridSize(dims)
    ensures var entries := Accumulate(Triplets(dims, adj, w));
            var c := NodeCoords(i, dims);
            var v := if (i, j) in entries then entries[(i, j)] else 0.0;
            v == Times(OffsetHits(dims, c, Offsets(adj, c, dims), j), w.value())
  {
    AccumulateSums(Triplets(dims, adj, w), (i, j));
    ConstantWeightCountsHits(dims, adj, w, GridSize(dims), i, j);
  }
}
