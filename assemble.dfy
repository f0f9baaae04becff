/**
 * `assemble` of `assemble.hpp`: a new compressed matrix whose outer k is a
 * copy of outer k of the source matrix selected by the k-th index. The inner
 * dimension is the largest inner dimension of the sources; outers taken from
 * a narrower source have zeros in the remaining positions.
 */
module Assemble {
  import opened CompressedLayout

  /** The largest inner dimension of the sources, 0 for none. */
  function MaxInnerSize(sources: seq<Compressed>): (r: nat)
    ensures forall i :: 0 <= i < |sources| ==> sources[i].innerSize <= r
    ensures sources != [] ==> exists i :: 0 <= i < |sources| && sources[i].innerSize == r
    ensures sources == [] ==> r == 0
  {
    if sources == [] then 0
    else
      var m := MaxInnerSize(sources[..|sources| - 1]);
      if m < sources[|sources| - 1].innerSize then sources[|sources| - 1].innerSize else m
  }

  /**
   * What the callers must provide: every index picks one of the sources, the
   * sources are valid compressed matrices, and the source picked for outer k
   * has an outer k (`num_of_nnz_in_outer` demands it).
   */
  predicate Selectable(sources: seq<Compressed>, indices: seq<int>)
  {
    (forall i :: 0 <= i < |sources| ==> Valid(sources[i])) &&
    (forall k :: 0 <= k < |indices| ==> 0 <= indices[k] < |sources|) &&
    (forall k :: 0 <= k < |indices| ==> k < sources[indices[k]].outerSize)
  }

  /** The inner indices of outer k of the source picked for outer k. */
  function PickedInner(sources: seq<Compressed>, indices: seq<int>): (s: seq<seq<int>>)
    requires Selectable(sources, indices)
    ensures |s| == |indices|
  {
    seq(|indices|, k requires 0 <= k < |indices| => InnerSlice(sources[indices[k]], k))
  }

  function PickedVals(sources: seq<Compressed>, indices: seq<int>): (s: seq<seq<real>>)
    requires Selectable(sources, indices)
    ensures SameShape(PickedInner(sources, indices), s)
  {
    seq(|indices|, k requires 0 <= k < |indices| => ValSlice(sources[indices[k]], k))
  }

  /** The assembled matrix. */
  function Assembled(sources: seq<Compressed>, indices: seq<int>): Compressed
    requires Selectable(sources, indices)
  {
    FromSlices(MaxInnerSize(sources), PickedInner(sources, indices), PickedVals(sources, indices))
  }

  /**
   * The assembled matrix is valid, has one outer per index and the largest
   * inner dimension of the sources, and its outer k holds exactly the inner
   * indices and values, in order, of outer k of the picked source, and so as
   * many nonzeros.
   */
  lemma AssembledOuters(sources: seq<Compressed>, indices: seq<int>)
    requires Selectable(sources, indices)
    ensures Valid(Assembled(sources, indices))
    ensures Assembled(sources, indices).outerSize == |indices|
    ensures forall i :: 0 <= i < |sources| ==> sources[i].innerSize <= Assembled(sources, indices).innerSize
    ensures sources != [] ==> exists i :: 0 <= i < |sources| && sources[i].innerSize == Assembled(sources, indices).innerSize
    ensures forall k :: 0 <= k < |indices| ==>
              InnerSlice(Assembled(sources, indices), k) == InnerSlice(sources[indices[k]], k) &&
              ValSlice(Assembled(sources, indices), k) == ValSlice(sources[indices[k]], k) &&
              NnzInOuter(Assembled(sources, indices), k) == NnzInOuter(sources[indices[k]], k)
  {
    var ins, vs := PickedInner(sources, indices), PickedVals(sources, indices);
    var w := MaxInnerSize(sources);
    forall k, p | 0 <= k < |ins| && 0 <= p < |ins[k]|
      ensures 0 <= ins[k][p] < w
    {
      var m := sources[indices[k]];
      assert ins[k][p] == m.inner[m.outer[k] + p];
    }
    FromSlicesValid(w, ins, vs);
    FromSlicesSlices(w, ins, vs);
  }

  /**
   * Tail padding: every coefficient of outer k is that of the picked source,
   * which is zero from the source's own inner dimension on.
   */
  lemma AssembledCoeff(sources: seq<Compressed>, indices: seq<int>, k: int, j: int)
    requires Selectable(sources, indices) && 0 <= k < |indices|
    ensures WellFormedPointers(Assembled(sources, indices)) && k < Assembled(sources, indices).outerSize
    ensures Coeff(Assembled(sources, indices), k, j) == Coeff(sources[indices[k]], k, j)
    ensures sources[indices[k]].innerSize <= j ==> Coeff(Assembled(sources, indices), k, j) == 0.0
  {
    AssembledOuters(sources, indices);
    if sources[indices[k]].innerSize <= j {
      CoeffOutsideInnerSizeIsZero(sources[indices[k]], k, j);
    }
  }

  lemma PickedSourceExists(sources: seq<Compressed>, indices: seq<int>, k: int)
    requires Selectable(sources, indices) && 0 <= k < |indices|
    ensures 0 <= indices[k] < |sources|
  {
  }

  /** Without source matrices (and hence without indices) the result is the empty matrix. */
  lemma NoSourcesGiveEmptyMatrix(indices: seq<int>)
    requires Selectable([], indices)
    ensures indices == []
    ensures Assembled([], indices) == Compressed(0, 0, [0], [], [])
  {
    if indices != [] {
      PickedSourceExists([], indices, 0);
      assert false;
    }
  }

  /** Picking every outer of a single source in order reproduces that source. */
  lemma SingleSourceIsReproduced(m: Compressed, indices: seq<int>)
    requires Valid(m) && |indices| == m.outerSize
    requires forall k :: 0 <= k < |indices| ==> indices[k] == 0
    ensures Selectable([m], indices)
    ensures Assembled([m], indices) == m
  {
    AssembledOuters([m], indices);
    SlicesDetermineMatrix(Assembled([m], indices), m);
  }

  /** The three 3 x 4 row-major sources of the first assemble example, row by row. */
  const ExampleA: Compressed := FromSlices(4, [[0, 3], [0, 2], [0, 1]], [[1.0, 1.0], [1.0, 1.0], [1.0, 1.0]])
  const ExampleB: Compressed := FromSlices(4, [[2, 3], [0, 3], [1]], [[2.0, 2.0], [2.0, 2.0], [2.0]])
  const ExampleC: Compressed := FromSlices(4, [[2, 3], [0, 3], [1]], [[3.0, 3.0], [3.0, 3.0], [3.0]])
  const ExampleSources: seq<Compressed> := [ExampleA, ExampleB, ExampleC]

  /** The expected result of the first assemble example. */
  const ExampleResult: Compressed :=
    FromSlices(4, [[2, 3], [0, 3], [0, 1]], [[3.0, 3.0], [2.0, 2.0], [1.0, 1.0]])

  lemma ExampleSourcesAreValid()
    ensures Valid(ExampleA) && Valid(ExampleB) && Valid(ExampleC)
    ensures Selectable(ExampleSources, [2, 1, 0])
  {
    FromSlicesValid(4, [[0, 3], [0, 2], [0, 1]], [[1.0, 1.0], [1.0, 1.0], [1.0, 1.0]]);
    FromSlicesValid(4, [[2, 3], [0, 3], [1]], [[2.0, 2.0], [2.0, 2.0], [2.0]]);
    FromSlicesValid(4, [[2, 3], [0, 3], [1]], [[3.0, 3.0], [3.0, 3.0], [3.0]]);
  }

  /** Row k of the expected result is row k of the source picked for it. */
  lemma ExampleResultSlices()
    ensures WellFormedPointers(ExampleResult) && ExampleResult.outerSize == 3
    ensures InnerSlice(ExampleResult, 0) == [2, 3] && ValSlice(ExampleResult, 0) == [3.0, 3.0]
    ensures InnerSlice(ExampleResult, 1) == [0, 3] && ValSlice(ExampleResult, 1) == [2.0, 2.0]
    ensures InnerSlice(ExampleResult, 2) == [0, 1] && ValSlice(ExampleResult, 2) == [1.0, 1.0]
  {
    FromSlicesSlices(4, [[2, 3], [0, 3], [0, 1]], [[3.0, 3.0], [2.0, 2.0], [1.0, 1.0]]);
  }

  lemma ExampleSourceSlices()
    ensures WellFormedPointers(ExampleA) && WellFormedPointers(ExampleB) && WellFormedPointers(ExampleC)
    ensures ExampleA.outerSize == ExampleB.outerSize == ExampleC.outerSize == 3
    ensures InnerSlice(ExampleC, 0) == [2, 3] && ValSlice(ExampleC, 0) == [3.0, 3.0]
    ensures InnerSlice(ExampleB, 1) == [0, 3] && ValSlice(ExampleB, 1) == [2.0, 2.0]
    ensures InnerSlice(ExampleA, 2) == [0, 1] && ValSlice(ExampleA, 2) == [1.0, 1.0]
  {
    FromSlicesSlices(4, [[0, 3], [0, 2], [0, 1]], [[1.0, 1.0], [1.0, 1.0], [1.0, 1.0]]);
    FromSlicesSlices(4, [[2, 3], [0, 3], [1]], [[2.0, 2.0], [2.0, 2.0], [2.0]]);
    FromSlicesSlices(4, [[2, 3], [0, 3], [1]], [[3.0, 3.0], [3.0, 3.0], [3.0]]);
  }

  /**
   * Indices 2, 1, 0 take row 0 of source 2, row 1 of source 1 and row 2 of
   * source 0.
   */
  lemma ExampleAssemble()
    ensures Selectable(ExampleSources, [2, 1, 0])
    ensures Assembled(ExampleSources, [2, 1, 0]) == ExampleResult
  {
    ExampleSourcesAreValid();
    ExampleSourceSlices();
    ExampleResultSlices();
    AssembledOuters(ExampleSources, [2, 1, 0]);
    SlicesDetermineMatrix(Assembled(ExampleSources, [2, 1, 0]), ExampleResult);
  }

  /**
   * `Assemble<SparseMatrix>::invoke`: find the largest inner dimension, count
   * the nonzeros of every picked outer, then copy the picked outers one entry
   * at a time.
   */
  method Invoke(sources: seq<Compressed>, indices: seq<int>) returns (r: Compressed)
    requires Selectable(sources, indices)
    ensures r == Assembled(sources, indices)
  {
    if |sources| == 0 {
      NoSourcesGiveEmptyMatrix(indices);
      return Compressed(0, 0, [0], [], []);
    }
    var outerSize := |indices|;
    var innerSize := LargestInnerSize(sources);
    var nonzerosInOuter := CountNonzeros(sources, indices);
    var outer, inner, vals := CopyOuters(sources, indices, nonzerosInOuter);
    r := Compressed(outerSize, innerSize, outer, inner, vals);
  }

  /** The first loop: the largest inner dimension of the sources. */
  method LargestInnerSize(sources: seq<Compressed>) returns (innerSize: nat)
    requires |sources| > 0
    ensures innerSize == MaxInnerSize(sources)
  {
    innerSize := sources[0].innerSize;
    var i := 1;
    assert sources[..1] == [sources[0]];
    while i < |sources|
      invariant 1 <= i <= |sources| && innerSize == MaxInnerSize(sources[..i])
    {
      assert sources[..i + 1][..i] == sources[..i];
      if innerSize < sources[i].innerSize {
        innerSize := sources[i].innerSize;
      }
      i := i + 1;
    }
    assert sources[..i] == sources;
  }

  /** The second loop: the nonzero count of every picked outer. */
  method CountNonzeros(sources: seq<Compressed>, indices: seq<int>) returns (nonzerosInOuter: seq<int>)
    requires Selectable(sources, indices)
    ensures |nonzerosInOuter| == |indices|
    ensures forall k :: 0 <= k < |indices| ==> nonzerosInOuter[k] == NnzInOuter(sources[indices[k]], k)
  {
    nonzerosInOuter := [];
    var ii := 0;
    while ii < |indices|
      invariant 0 <= ii <= |indices| && |nonzerosInOuter| == ii
      invariant forall k :: 0 <= k < ii ==> nonzerosInOuter[k] == NnzInOuter(sources[indices[k]], k)
    {
      nonzerosInOuter := nonzerosInOuter + [NnzInOuter(sources[indices[ii]], ii)];
      ii := ii + 1;
    }
  }

  /** The third loop: copy the picked outers one after the other, recording where each starts. */
  method CopyOuters(sources: seq<Compressed>, indices: seq<int>, nonzerosInOuter: seq<int>)
    returns (outer: seq<int>, inner: seq<int>, vals: seq<real>)
    requires Selectable(sources, indices) && |nonzerosInOuter| == |indices|
    requires forall k :: 0 <= k < |indices| ==> nonzerosInOuter[k] == NnzInOuter(sources[indices[k]], k)
    ensures outer == Offsets(PickedInner(sources, indices))
    ensures inner == Flatten(PickedInner(sources, indices))
    ensures vals == Flatten(PickedVals(sources, indices))
  {
    ghost var ins, vs := PickedInner(sources, indices), PickedVals(sources, indices);
    outer, inner, vals := [0], [], [];
    var ii := 0;
    assert ins[..0] == [] && vs[..0] == [];
    while ii < |indices|
      invariant 0 <= ii <= |indices|
      invariant inner == Flatten(ins[..ii]) && vals == Flatten(vs[..ii])
      invariant outer == Offsets(ins[..ii])
    {
      var m := sources[indices[ii]];
      inner, vals := CopyOuter(m, ii, nonzerosInOuter[ii], inner, vals);
      FlattenStep(ins, ii);
      FlattenStep(vs, ii);
      OffsetsStep(ins, ii);
      outer := outer + [|inner|];
      ii := ii + 1;
    }
    assert ins[..ii] == ins && vs[..ii] == vs;
  }

  /**
   * The inner loop of the copy: append the `count` stored entries of outer
   * `ii` of `m`, one `insert` per entry.
   */
  method CopyOuter(m: Compressed, ii: int, count: int, inner: seq<int>, vals: seq<real>)
    returns (inner': seq<int>, vals': seq<real>)
    requires WellFormedPointers(m) && 0 <= ii < m.outerSize && count == NnzInOuter(m, ii)
    ensures inner' == inner + InnerSlice(m, ii)
    ensures vals' == vals + ValSlice(m, ii)
  {
    var start := m.outer[ii];
    inner', vals' := inner, vals;
    var jj := 0;
    while jj < count
      invariant 0 <= jj <= count
      invariant inner' == inner + m.inner[start..start + jj]
      invariant vals' == vals + m.vals[start..start + jj]
    {
      assert m.inner[start..start + jj + 1] == m.inner[start..start + jj] + [m.inner[start + jj]];
      assert m.vals[start..start + jj + 1] == m.vals[start..start + jj] + [m.vals[start + jj]];
      inner' := inner' + [m.inner[start + jj]];
      vals' := vals' + [m.vals[start + jj]];
      jj := jj + 1;
    }
  }
}
