# matrixgen in Dafny

matrixgen is a header-only C++ library that builds test matrices. This project models its core and proves properties about the model:

- **adjmat**: a sparse adjacency matrix of a 3-D grid graph. Each node is joined to the nodes an adjacency function names through relative offsets. Each edge is weighted by one of five kinds of weight function. Duplicate entries are summed.
- **adjacency-matrix**: the older front end with the same traversal.
- **Stencils**: the 7-, 19- and 27-point stencil tables of `presets.hpp` and `stencil.hpp`, and the constant weight preset.
- **Grid helpers** from `utility.hpp`: coordinate arithmetic, the wrap-around `mod`, `modplus`, the inner-node and inside-grid tests, node numbering and entry coordinates.
- **Sequence algorithms** from `utility.hpp`: the number of non-zeros in one outer slice, the central moving sum and darts sampling.
- **assemble**: builds a compressed sparse matrix whose k-th outer slice is copied from the k-th outer slice of a chosen source matrix.
- **interleave**: chooses those sources by darts sampling on the proportions, then assembles.
- **perturb**: replaces the pattern and the values of selected outer slices. Each pattern is a sorted run taken from a shuffled pool of inner indices. Each value is drawn from [1, 2).
- **create**: fills a dense matrix, row-major or column-major, from a list given in row-major order.

Modules follow the headers:

| Module | Headers |
|---|---|
| `Coords3d` | coordinate helpers in `utility.hpp` |
| `CompressedLayout` | the compressed (CSR/CSC) layout, `num_of_nnz_in_outer` |
| `MovingSum` | `central_moving_sum` |
| `Darts` | `darts_sampling` |
| `Adjmat` | `adjmat.hpp` |
| `AdjacencyMatrix` | `adjacency-matrix.hpp` |
| `Presets` | `presets.hpp` |
| `Stencil` | `stencil.hpp` |
| `Assemble` | `assemble.hpp` |
| `Interleave` | `interleave.hpp` |
| `Perturb` | `perturb.hpp` |
| `DenseCreate` | `create.hpp` |
| `Arith` | arithmetic helper lemmas |

Some code is modelled imperatively, as methods with loops:

- the `adjmat` traversal;
- the moving sum over an array;
- darts sampling and its binary search;
- the loops of `assemble`;
- the shuffle and sort of `perturb` over an array;
- the fill of a dense matrix, a class over an array.

Each of these methods is proved against a specification function. For example, `Adjmat.Invoke` is proved against `Accumulate(Triplets(..))`, and `Assemble.Invoke` against `Assembled(..)`.

The sparse result types of Eigen are modelled as plain values:

- `Adjmat.SparseMatrix` holds its entries as a map from (row, column) to the summed value.
- `CompressedLayout.Compressed` holds the outer pointer array, the inner indices and the values.

Scalars are exact reals and indices are unbounded integers.

## Model

| member | source | states |
|---|---|---|
| Coords3d.AddSubInverse | include/matrixgen/utility.hpp:394-413 | component-wise `-` undoes `+` in both orders, and a - a is the origin |
| Coords3d.TruncRem | include/matrixgen/utility.hpp:442 | C++ `%`: n = trunc(n/m)*m + r, \|r\| < \|m\|, and r takes the sign of n |
| Coords3d.Mod | include/matrixgen/utility.hpp:435-448 | `mod` as written: the result is congruent to n modulo m, and lies in [0, m) when m > 0 |
| Coords3d.NegativeModulusEscapesRange | include/matrixgen/utility.hpp:429-448 | for a negative modulus, the as-written `mod` can leave the documented interval (mod, 0]: mod(3, -2) = 1 and mod(-3, -2) = -3 |
| Coords3d.FloorMod | include/matrixgen/utility.hpp:429-433 | the documented wrap-around: congruent to n, in [0, m) for m > 0, and in (m, 0] for m < 0 |
| Coords3d.ModAgreesForPositiveModulus | include/matrixgen/utility.hpp:435-448 | for every positive modulus, the as-written and the documented function agree (both are Euclidean `%`) |
| Coords3d.FloorModIsTheRepresentative | include/matrixgen/utility.hpp:429-433 | for m > 0, the wrap-around is the unique representative in [0, m) of the class of n |
| Coords3d.ModPlus | include/matrixgen/utility.hpp:450-460 | `modplus` as written, through `mod`: each axis is congruent to a+b modulo the dimension; with positive dimensions the result lies inside the grid |
| Coords3d.WrappedModPlus | include/matrixgen/utility.hpp:429-460 | `modplus` with the documented modulus: congruent per axis, inside the grid for positive dimensions, and in (m, 0] on an axis with negative modulus m |
| Coords3d.ModPlusAgreesForPositiveDims | include/matrixgen/utility.hpp:429-460 | for positive dimensions, the as-written and the documented `modplus` agree |
| Coords3d.ModPlusEscapesForNegativeModulus | include/matrixgen/utility.hpp:450-460 | with modulus (-2, 1, 1), a first-axis sum of 3 wraps to 1 as written, outside (-2, 0], where the documented reading gives -1 |
| Coords3d.ModFixesExactlyTheWindow | include/matrixgen/utility.hpp:435-448 | for m > 0, `mod` leaves n unchanged iff n already lies in [0, m) |
| Coords3d.ModPlusFixesInsideNodes | include/matrixgen/utility.hpp:450-460 | a node already inside the grid is its own periodic image |
| Coords3d.IsInsideGrid | include/matrixgen/utility.hpp:490-501 | a node is inside the grid iff each coordinate lies in [0, dimension), for positive dimensions |
| Coords3d.InsideGridIffOwnImage | include/matrixgen/utility.hpp:450-501 | a node is inside the grid iff `modplus` with a zero step maps it to itself |
| Coords3d.IsInnerNode | include/matrixgen/utility.hpp:466-484 | an in-grid node is inner iff each coordinate lies in [extent, dimension - extent) |
| Coords3d.InnerNodeNeighborsInside | include/matrixgen/utility.hpp:466-484 | every offset of at most `extent` per axis from an inner node stays inside the grid |
| Coords3d.InnerNodeIffStencilInside | include/matrixgen/utility.hpp:466-528 | a node is inner with extent 1 iff all seven offsets of the 7-point stencil keep it inside the grid |
| CompressedLayout.NnzInOuter | include/matrixgen/utility.hpp:35-59 | the non-zero count of outer slice k is non-negative and is the length of its index and value slices |
| CompressedLayout.NnzAtMostInnerSize | include/matrixgen/utility.hpp:35-59 | in a valid compressed matrix, an outer slice holds at most innerSize non-zeros |
| CompressedLayout.CoeffOutsideInnerSizeIsZero | include/matrixgen/assemble.hpp:111-144 | a coefficient read outside [0, innerSize) is zero |
| CompressedLayout.SlicesDetermineMatrix | include/matrixgen/assemble.hpp:88-102 | two well-formed layouts with equal sizes and equal slices are equal |
| CompressedLayout.FromSlicesSlices | include/matrixgen/assemble.hpp:76-102 | concatenated slices with running offsets give well-formed pointers, and slice k reads back as the k-th given slice |
| CompressedLayout.FromSlicesValid | include/matrixgen/assemble.hpp:76-102 | slices with ascending in-range indices build a valid compressed matrix |
| MovingSum.RangeSumIsPrefixDifference | include/matrixgen/utility.hpp:108-119 | the sum over [a, b) is the difference of the prefix sums, which is what the inclusive scan computes |
| MovingSum.ExclusiveScan | include/matrixgen/utility.hpp:106-110 | entry j of the scan, for every j up to n, is the sum of the first j inputs |
| MovingSum.CentralMovingSum | include/matrixgen/utility.hpp:62-120 | output i is the sum of the inputs within `radius` of i, truncated at both borders; the rest of the output is untouched |
| MovingSum.CentralMovingSumInPlace | include/matrixgen/utility.hpp:62-120 | used in place, each element becomes the window sum of the original array |
| MovingSum.RadiusZeroIsIdentity | include/matrixgen/utility.hpp:62-73 | radius 0 reproduces the input |
| MovingSum.TruncatedBorderWindows | include/matrixgen/utility.hpp:62-73 | with radius 2, element 1 sums elements 0..3 and element 2 sums elements 0..4 |
| MovingSum.InteriorWindow | include/matrixgen/utility.hpp:62-73 | an interior window covers exactly 2*radius+1 elements centred on i |
| Darts.LowerBound | include/matrixgen/utility.hpp:270-277 | the first position whose value is >= v: every element before it is smaller |
| Darts.TotalOfNonNegative | include/matrixgen/utility.hpp:262-268 | non-negative quotas have a non-negative total that bounds every prefix sum |
| Darts.CumRatiosAt | include/matrixgen/utility.hpp:262-268 | cumulative ratio k is the sum of quotas 0..k divided by the total |
| Darts.CumRatiosShape | include/matrixgen/utility.hpp:262-268 | the cumulative ratios are sorted and end at exactly 1 |
| Darts.LowerBoundMonotone | include/matrixgen/utility.hpp:270-277 | on a sorted sequence, a larger bullet never falls into an earlier bin |
| Darts.LowerBoundFound | include/matrixgen/utility.hpp:270-277 | a bullet at most the last ratio finds a bin |
| Darts.HitsAreBins | include/matrixgen/utility.hpp:248-278 | every bullet <= 1 hits a valid bin index, and the hit bin is monotone in the bullet |
| Darts.ExampleHits | include/matrixgen/utility.hpp:248-278 | quotas 1,1,2 with bullets 0.0..0.9 give bins 0,0,0,1,1,1,2,2,2,2 |
| Darts.DartsSampling | include/matrixgen/utility.hpp:248-278 | the loop writes, for each bullet, the lower-bound bin of the cumulative ratios |
| Darts.SumQuotas | include/matrixgen/utility.hpp:263 | the accumulated sum is the total of the quotas |
| Darts.ScanRatios | include/matrixgen/utility.hpp:262-268 | dividing by the total and scanning gives exactly the cumulative ratios |
| Darts.SearchBullets | include/matrixgen/utility.hpp:269-277 | one bin per bullet, each the lower bound of that bullet in the sorted scan |
| Darts.BinarySearchLowerBound | include/matrixgen/utility.hpp:272-275 | binary search on a sorted sequence returns the lower bound |
| Darts.LowerBoundUnique | include/matrixgen/utility.hpp:270-277 | the lower bound is the only position with the lower-bound characterisation |
| Adjmat.GridSize | include/matrixgen/adjmat.hpp:138-140 | the matrix height nx*ny*nz is positive for positive dimensions |
| Adjmat.NodeIndex | include/matrixgen/adjmat.hpp:28-50 | the index of a node inside the grid lies in [0, nx*ny*nz); the older header `adjacency-matrix.hpp` (lines 24-46) numbers nodes the same way |
| Adjmat.IndexDecodes | include/matrixgen/adjmat.hpp:28-50 | every index in range is the index of a node inside the grid, obtained by div/mod decoding |
| Adjmat.NodeCoords | include/matrixgen/adjmat.hpp:28-50 | every index has a node inside the grid that maps to it (node numbering is onto) |
| Adjmat.NodeIndexSplit | include/matrixgen/adjmat.hpp:42-44 | x + y*nx + z*nx*ny equals (y + z*ny)*nx + x |
| Adjmat.NodeIndexInjective | include/matrixgen/adjmat.hpp:28-50 | distinct nodes get distinct indices |
| Adjmat.NodeCoordsOfIndex | include/matrixgen/adjmat.hpp:28-50 | decoding the index of a node gives the node back |
| Adjmat.EntryCoordinates | include/matrixgen/adjmat.hpp:60-84 | both components are node indices in range, and they decode to the node and the neighbour; the older header (lines 52-76) forms the same pair |
| Adjmat.AccumulateSums | include/matrixgen/adjmat.hpp:255-265 | an entry is stored iff some triplet has its key, and it holds the sum of all triplets with that key |
| Adjmat.DuplicateTripletsAdd | include/matrixgen/adjmat.hpp:255-262 | two triplets at (0, 0) with values 3 and 4 give the single entry 7 |
| Adjmat.NodeTripletsPerOffset | include/matrixgen/adjmat.hpp:180-249 | node c pushes one triplet per offset, in offset order, from its own index to its neighbour's index |
| Adjmat.RowsNonDecreasing | include/matrixgen/adjmat.hpp:159-249 | the traversal pushes triplets with rows in non-decreasing order; after m nodes all rows are below m and all columns are node indices |
| Adjmat.EntryWeightSeesPushedPosition | include/matrixgen/adjmat.hpp:204-207 | a weight function of the entry kind is evaluated at the very entry its value is pushed to, as in the older header (lines 162-164) |
| Adjmat.SumAtConcat | include/matrixgen/adjmat.hpp:255-262 | summing triplets by key distributes over concatenation |
| Adjmat.TimesIsProduct | include/matrixgen/adjmat.hpp:200-203 | adding the same weight n times gives n times the weight |
| Adjmat.ConstantWeightCountsHits | include/matrixgen/adjmat.hpp:200-249 | with a constant weight, the sum at (i, j) after m nodes is the weight times the number of offsets of node i that reach node j, or zero if i is not yet visited |
| Adjmat.RowUnchanged | include/matrixgen/adjmat.hpp:159-249 | visiting nodes other than node i adds nothing to row i of the summed triplets |
| Adjmat.SumAtStepOwnRow | include/matrixgen/adjmat.hpp:200-249 | visiting node i adds to entry (i, j) the constant weight times the number of offsets of node i that reach node j |
| Adjmat.PushNodeTriplets | include/matrixgen/adjmat.hpp:180-250 | the offset loop appends exactly that node's triplets |
| Adjmat.VisitNode | include/matrixgen/adjmat.hpp:168-250 | visiting node m of the traversal order extends the triplets of the first m nodes to those of the first m + 1 |
| Adjmat.TraverseRow | include/matrixgen/adjmat.hpp:161-251 | the x loop extends the triplets of the nodes before row (y, z) by that row's nodes |
| Adjmat.TraversePlane | include/matrixgen/adjmat.hpp:160-252 | the y loop extends the triplets by plane z |
| Adjmat.PlanesFillGrid | include/matrixgen/adjmat.hpp:159-161 | the z, y, x loops visit all nx*ny*nz nodes |
| Adjmat.Invoke | include/matrixgen/adjmat.hpp:130-267 | the result is a square (nx*ny*nz)-sided matrix holding the summed triplets of the traversal |
| Adjmat.ResultIsSquare | include/matrixgen/adjmat.hpp:263-266 | every stored entry lies inside the square |
| Adjmat.ConstantWeightEntry | include/matrixgen/adjmat.hpp:200-266 | with a constant weight v, entry (i, j) is v times the number of offsets of node i that reach node j |
| AdjacencyMatrix.StencilAdjmat | include/matrixgen/adjacency-matrix.hpp:93-204 | the older front end builds the same summed-triplet matrix through the node-and-grid adjacency |
| Presets.Stencil7Shape | include/matrixgen/presets.hpp:16-20 | seven distinct offsets, the centre first, being exactly the unit offsets with at most one non-zero axis |
| Presets.Stencil19Shape | include/matrixgen/presets.hpp:25-32 | nineteen distinct offsets, being exactly the unit offsets with at most two non-zero axes |
| Presets.Stencil27Shape | include/matrixgen/presets.hpp:37-46 | twenty-seven distinct offsets, being exactly all unit offsets |
| Presets.UnitOffsetPosition | include/matrixgen/presets.hpp:16-46 | each unit offset has one position in the 27-point table, and the tables are ordered by the number of non-zero axes |
| Presets.Stencil7IsSymmetric | include/matrixgen/presets.hpp:16-20 | the 7-point stencil contains the negation of each of its offsets |
| Presets.Stencil19IsSymmetric | include/matrixgen/presets.hpp:25-32 | so does the 19-point stencil |
| Presets.Stencil27IsSymmetric | include/matrixgen/presets.hpp:37-46 | so does the 27-point stencil |
| Presets.TablesArePrefixes | include/matrixgen/presets.hpp:16-46 | the 7-point table is a prefix of the 19-point one, which is a prefix of the 27-point one |
| Presets.UtilityStencilIsReordering | include/matrixgen/utility.hpp:520-528 | the 7-point table of the utility header has the same length as the preset, no repeated offset, exactly the preset's offsets, and a different order |
| Presets.ConstWeight | include/matrixgen/presets.hpp:57-63 | the constant weight takes no arguments and returns the given value, 1 when no value is given |
| Presets.ConstWeightDefault | include/matrixgen/presets.hpp:60-63 | `constweight()` without an argument is the zero-argument weight 1 |
| Stencil.SameAsPresets | include/matrixgen/stencil.hpp:13-42 | the older stencil tables equal the preset tables entry for entry |
| Stencil.Stencil7Shape | include/matrixgen/stencil.hpp:13-17 | the older 7-point table has the shape and symmetry of the preset |
| Stencil.Stencil19Shape | include/matrixgen/stencil.hpp:22-29 | the older 19-point table has the shape and symmetry of the preset and extends the 7-point table |
| Stencil.Stencil27Shape | include/matrixgen/stencil.hpp:33-42 | the older 27-point table has the shape and symmetry of the preset and extends the 19-point table |
| Assemble.MaxInnerSize | include/matrixgen/assemble.hpp:61-64 | the inner size of the result is the largest inner size of the sources, and 0 for no sources |
| Assemble.AssembledOuters | include/matrixgen/assemble.hpp:38-104 | the result is valid with one outer slice per index, and slice k equals slice k of the source indices[k] |
| Assemble.AssembledCoeff | include/matrixgen/assemble.hpp:111-144 | coefficient (k, j) of the result is coefficient (k, j) of the chosen source, and zero beyond that source's inner size |
| Assemble.PickedSourceExists | include/matrixgen/assemble.hpp:49-50 | every selected index names an existing source |
| Assemble.NoSourcesGiveEmptyMatrix | include/matrixgen/assemble.hpp:52-54 | without sources, the only admissible index list is empty, and the result is the empty matrix |
| Assemble.SingleSourceIsReproduced | include/matrixgen/assemble.hpp:38-104 | choosing the only source for every slice reproduces it |
| Assemble.ExampleAssemble | examples/ex1-assemble.cpp:24-41 | three 3x4 sources picked 2, 1, 0 give the matrix whose slices come from each in turn |
| Assemble.Invoke | include/matrixgen/assemble.hpp:38-104 | the max, count and copy loops build exactly the assembled matrix |
| Assemble.LargestInnerSize | include/matrixgen/assemble.hpp:61-64 | the loop finds the largest inner size of the sources |
| Assemble.CountNonzeros | include/matrixgen/assemble.hpp:68-72 | entry k is the non-zero count of slice k of the source indices[k] |
| Assemble.CopyOuters | include/matrixgen/assemble.hpp:76-102 | the pointers are the running offsets of the picked slices, and the indices and values are their concatenation |
| Assemble.CopyOuter | include/matrixgen/assemble.hpp:88-102 | copying one outer slice appends its indices and values |
| Interleave.HitsSelectSources | include/matrixgen/interleave.hpp:50-78 | the darts indices are admissible source indices for assemble |
| Interleave.Invoke | include/matrixgen/interleave.hpp:38-79 | the result is the assembled matrix for the darts indices; it is valid, keeps the common outer size and covers every inner size |
| Perturb.Engine.Below | include/matrixgen/perturb.hpp:71-96 | a draw below n is the next stream value reduced modulo n, and it advances the stream by one |
| Perturb.Engine.Value | include/matrixgen/perturb.hpp:82-83 | a value draw lies in [1, 2) |
| Perturb.RangeCount | include/matrixgen/perturb.hpp:76-79 | the initial pool holds each inner index exactly once |
| Perturb.PoolEntries | include/matrixgen/perturb.hpp:76-96 | a pool has n distinct entries in [0, n) |
| Perturb.SwapInSegment | include/matrixgen/perturb.hpp:93-97 | a swap inside a segment permutes the segment and leaves the rest alone |
| Perturb.Shuffle | include/matrixgen/perturb.hpp:93-96 | shuffling the pool permutes it |
| Perturb.PlaceMinimum | include/matrixgen/perturb.hpp:97 | one selection step extends the sorted prefix of the segment by its minimum, permuting the segment and changing nothing outside it |
| Perturb.MinIndex | include/matrixgen/perturb.hpp:97 | the position of a minimum of a segment |
| Perturb.SortSegment | include/matrixgen/perturb.hpp:97 | sorting a pool segment orders it, permutes it, and changes nothing outside it |
| Perturb.CopyN | include/matrixgen/perturb.hpp:98 | the segment is copied to the slice and nothing else changes |
| Perturb.GenerateValues | include/matrixgen/perturb.hpp:102 | the slice values are all in [1, 2) and nothing else changes |
| Perturb.SortedPoolSegment | include/matrixgen/perturb.hpp:93-98 | a sorted pool segment is strictly ascending with in-range entries |
| Perturb.Refill | include/matrixgen/perturb.hpp:93-96 | when at most nnz pool entries remain, the pool is reshuffled and the cursor goes back to 0; otherwise nothing changes; either way nnz entries remain and the pool stays a pool |
| Perturb.DrawIndices | include/matrixgen/perturb.hpp:97-98 | the slice receives nnz strictly ascending indices below innerSize, the rest of the index storage is unchanged and the pool stays a pool |
| Perturb.PerturbRow | include/matrixgen/perturb.hpp:85-103 | one iteration reshuffles when the pool runs short, then gives slice o strictly ascending in-range indices and values in [1, 2), leaving other slices alone |
| Perturb.OtherRowsUnchanged | include/matrixgen/perturb.hpp:85-103 | rewriting the storage of slice o leaves every other slice unchanged |
| Perturb.Invoke | include/matrixgen/perturb.hpp:60-103 | sizes and pointers are kept and the result is valid; unlisted slices are unchanged and listed slices are perturbed; no indices means no change |
| Perturb.Result | include/matrixgen/perturb.hpp:60-103 | the per-slice facts of the loop make up the whole promise above |
| DenseCreate.StorageOffset | include/matrixgen/create.hpp:40-45 | the storage position of (r, c) in either layout lies inside the rows*cols buffer |
| DenseCreate.StorageOffsetInjective | include/matrixgen/create.hpp:40-45 | distinct positions use distinct storage cells |
| DenseCreate.DenseMatrix.Set | include/matrixgen/create.hpp:43 | writing (r, c) sets that coefficient and no other |
| DenseCreate.FillRow | include/matrixgen/create.hpp:42-44 | the column loop gives row r the list's row r and leaves the other rows alone |
| DenseCreate.Create | include/matrixgen/create.hpp:36-47 | coefficient (r, c) is list element r*cols + c, whatever the storage order |
| DenseCreate.CreateInBothLayouts | include/matrixgen/create.hpp:112-131 | a row-major and a column-major matrix built from one list are the same matrix |
| DenseCreate.FilledMatrix | include/matrixgen/create.hpp:36-47 | a buffer agreeing with the list at every coefficient stores the row-major reading of the list |
| DenseCreate.UnitTestReference | unittests/unittests.cpp:36-44 | the list 3,0,0,1,9,4 read as 3x2 gives rows (3,0), (0,1), (9,4) |

## Left out

- `closed_loop_moving_mean`, `pi`, `midpoint` and `seed_from_time` in `utility.hpp` are not modelled. `Interleave.Invoke` takes the smoothed bullets as an input instead.
- Random number generation is modelled by an arbitrary stream of naturals (`Perturb.Engine`) rather than the standard engines and distributions. Value draws are a stream value scaled to [1, 2) with resolution 2^-52, the spacing of doubles in [1, 2). Which permutation or which values come out is therefore not modelled, only what holds for every stream.
- Eigen internals are not modelled: `setFromTriplets`, `reserve`, `insert`, uncompressed storage and `makeCompressed`. Sparse inputs are taken to be in compressed form, and the adjacency result is a map of summed entries.
- The sparse overload of `create` (`create.hpp:66-89`) is not modelled: it fills a dense matrix with the same loops and converts it with Eigen's `sparseView`, an Eigen internal.
- Column-major sparse inputs of `perturb` (rejected by a `static_assert`) and the template dispatch of the front ends are not modelled. Weight and adjacency function kinds are datatype cases.
- `stencil7p`, random weights and the sinusoid weights appear only in examples, which are not part of this model.
- The boundary-condition tags `BC` (`utility.hpp:509`) are not modelled: no operation of the core branches on them.
- Adjmat.Invoke: weight functions are modelled as pure functions of their arguments. A callable that keeps state across calls within one build, such as the random weight of the examples, is not captured, nor is the order in which it is called.
- Floating point is not modelled: scalars are exact reals, and the `static_cast` of weights is the identity.
- Fixed-width integers are not modelled: indices are unbounded, so 32-bit overflow of `nx*ny*nz` is not captured.
- Darts.DartsSampling: requires non-negative quotas with a positive total, which the source does not check; without them the cumulative ratios need not be sorted or end at 1.
- Interleave.Invoke: also requires bullets at most 1 and the darts preconditions. The source draws bullets in [0, 1) and averages them, but with floating-point rounding the last ratio may fall just below a bullet.
- Adjmat.ConstantWeightEntry: states the entry as repeated addition `Times`, which `Adjmat.TimesIsProduct` equates to the product.
- Adjmat.NodeCoords: is a ghost choice function; the source never decodes an index back to coordinates.
- The argument order of the older `get_node_index` (grid first) differs, but the numbering is the same, so `Adjmat.NodeIndex` models both.
- The comment on line 27 of `examples/ex2-assemble.cpp` disagrees with the index chosen there. Examples are not part of this model.

## Findings

| source | as written | input that shows it | evidently intended | confidence | as-written member | corrected member |
|---|---|---|---|---|---|---|
| include/matrixgen/utility.hpp:435-448 | `mod` takes C++ truncating `%` and adds `mod` only when the remainder is negative | mod(3, -2) returns 1 and mod(-3, -2) returns -3, both outside (-2, 0] | the result lies in (mod, 0] for a negative modulus, as the comment at lines 429-433 says | high, by proof; not executed | Coords3d.NegativeModulusEscapesRange | Coords3d.FloorMod |
| include/matrixgen/utility.hpp:450-460 | `modplus` wraps each axis with the as-written `mod` | modplus((3, 0, 0), (0, 0, 0), (-2, 1, 1)) has first coordinate 1, outside (-2, 0] | each axis lands in the documented interval of `mod` | high, by proof; not executed | Coords3d.ModPlusEscapesForNegativeModulus | Coords3d.WrappedModPlus |
