/**
 * The older adjacency-matrix generator of `adjacency-matrix.hpp`. Its
 * traversal, its index arithmetic and its triplet summation are those of
 * `Adjmat::invoke`; it differs in that the stencil function is always called
 * with the node and the grid's extent and in that only the weight-function
 * shapes A to D exist.
 */
module AdjacencyMatrix {
  import opened Coords3d
  import opened Adjmat

  /**
   * `adjmat(gridDimensions, stencil, computeValue)`: the square matrix of side
   * nx * ny * nz whose entries sum the triplets of a z/y/x traversal asking the
   * stencil function for each node's offsets.
   */
  method StencilAdjmat(dims: Coords, stencil: (Coords, Coords) -> seq<Coords>, w: WeightFn)
    returns (r: SparseMatrix)
    requires PositiveDims(dims) && OffsetsStayInGrid(dims, OfNodeAndGrid(stencil))
    requires !w.ByNodesAndGrid?
    ensures r.rows == GridSize(dims) && r.cols == GridSize(dims)
    ensures r.entries == Accumulate(Triplets(dims, OfNodeAndGrid(stencil), w))
  {
    r := Invoke(dims, OfNodeAndGrid(stencil), w);
  }
}
