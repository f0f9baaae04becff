/**
 * The compressed sparse storage every sparse matrix of the library is read
 * and written through: per outer index (a row of a row-major matrix, a
 * column of a column-major one) a contiguous slice of inner indices and
 * values, delimited by the outer pointer array.
 *
 * Only compressed matrices are modelled: the outer array has outerSize + 1
 * entries and its last entry is the number of stored nonzeros.
 */
module CompressedLayout {

  datatype Compressed = Compressed(
    outerSize: nat,
    innerSize: nat,
    outer: seq<int>,
    inner: seq<int>,
    vals: seq<real>)

  /** The outer pointers delimit consecutive slices that exactly cover the stored entries. */
  predicate WellFormedPointers(m: Compressed)
  {
    |m.outer| == m.outerSize + 1 &&
    m.outer[0] == 0 &&
    m.outer[m.outerSize] == |m.inner| == |m.vals| &&
    forall i, j :: 0 <= i <= j <= m.outerSize ==> m.outer[i] <= m.outer[j]
  }

  predicate StrictlyAscending(s: seq<int>)
  {
    forall i, j :: 0 <= i < j < |s| ==> s[i] < s[j]
  }

  /** The inner indices stored for outer index `k`. */
  function InnerSlice(m: Compressed, k: int): seq<int>
    requires WellFormedPointers(m) && 0 <= k < m.outerSize
  {
    m.inner[m.outer[k]..m.outer[k + 1]]
  }

  /** The values stored for outer index `k`, in the order of InnerSlice. */
  function ValSlice(m: Compressed, k: int): seq<real>
    requires WellFormedPointers(m) && 0 <= k < m.outerSize
  {
    m.vals[m.outer[k]..m.outer[k + 1]]
  }

  /**
   * A valid compressed matrix: well-formed pointers, inner indices inside the
   * inner dimension and strictly ascending within each outer slice.
   */
  predicate Valid(m: Compressed)
  {
    WellFormedPointers(m) &&
    (forall p :: 0 <= p < |m.inner| ==> 0 <= m.inner[p] < m.innerSize) &&
    (forall k :: 0 <= k < m.outerSize ==> StrictlyAscending(InnerSlice(m, k)))
  }

  /** The stored nonzeros, `nonZeros()` of a compressed matrix. */
  function NonZeros(m: Compressed): int
  {
    |m.inner|
  }

  /**
   * `num_of_nnz_in_outer`: the difference of consecutive outer pointers, and
   * for the last outer index the nonzero total minus its pointer. Both ways
   * give the length of the outer slice.
   */
  function NnzInOuter(m: Compressed, ii: int): (r: int)
    requires WellFormedPointers(m)
    requires 0 <= ii < m.outerSize
    ensures r >= 0
    ensures r == |InnerSlice(m, ii)| == |ValSlice(m, ii)|
  {
    if ii < m.outerSize - 1 then m.outer[ii + 1] - m.outer[ii]
    else NonZeros(m) - m.outer[ii]
  }

  /** A strictly ascending sequence of indices below `n` has at most `n` members. */
  lemma {:induction false} AscendingIndicesBound(s: seq<int>, n: int)
    requires StrictlyAscending(s) && n >= 0
    requires forall p :: 0 <= p < |s| ==> 0 <= s[p] < n
    ensures |s| <= n
  {
    if |s| > 0 {
      var init := s[..|s| - 1];
      assert forall p :: 0 <= p < |init| ==> 0 <= init[p] < s[|s| - 1];
      AscendingIndicesBound(init, s[|s| - 1]);
    }
  }

  /** An outer index of a valid matrix holds at most innerSize nonzeros. */
  lemma NnzAtMostInnerSize(m: Compressed, ii: int)
    requires Valid(m) && 0 <= ii < m.outerSize
    ensures NnzInOuter(m, ii) <= m.innerSize
  {
    var s := InnerSlice(m, ii);
    assert forall p :: 0 <= p < |s| ==> s[p] == m.inner[m.outer[ii] + p];
    AscendingIndicesBound(s, m.innerSize);
  }

  /** The value stored at inner index `j` of a slice, zero when `j` is not stored. */
  function SliceCoeff(inner: seq<int>, vals: seq<real>, j: int): real
    requires |inner| == |vals|
  {
    if inner == [] then 0.0
    else if inner[0] == j then vals[0]
    else SliceCoeff(inner[1..], vals[1..], j)
  }

  /** Matrix coefficient at (outer k, inner j), `coeff` on the compressed storage. */
  function Coeff(m: Compressed, k: int, j: int): real
    requires WellFormedPointers(m) && 0 <= k < m.outerSize
  {
    SliceCoeff(InnerSlice(m, k), ValSlice(m, k), j)
  }

  lemma {:induction false} SliceCoeffAbsent(inner: seq<int>, vals: seq<real>, j: int)
    requires |inner| == |vals| && j !in inner
    ensures SliceCoeff(inner, vals, j) == 0.0
  {
    if inner != [] {
      assert forall p :: 0 <= p < |inner| - 1 ==> inner[1..][p] == inner[p + 1];
      SliceCoeffAbsent(inner[1..], vals[1..], j);
    }
  }

  /** A valid matrix has no nonzero outside its inner dimension. */
  lemma CoeffOutsideInnerSizeIsZero(m: Compressed, k: int, j: int)
    requires Valid(m) && 0 <= k < m.outerSize
    requires j < 0 || j >= m.innerSize
    ensures Coeff(m, k, j) == 0.0
  {
    var s := InnerSlice(m, k);
    assert forall p :: 0 <= p < |s| ==> s[p] == m.inner[m.outer[k] + p];
    SliceCoeffAbsent(s, ValSlice(m, k), j);
  }

  /** Each stored entry lies in exactly one outer slice. */
  lemma {:induction false} SliceContaining(m: Compressed, p: int) returns (k: int)
    requires WellFormedPointers(m) && 0 <= p < |m.inner|
    ensures 0 <= k < m.outerSize && m.outer[k] <= p < m.outer[k + 1]
  {
    k := 0;
    while m.outer[k + 1] <= p
      invariant 0 <= k < m.outerSize && m.outer[k] <= p
      decreases m.outerSize - k
    {
      k := k + 1;
    }
  }

  /**
   * Valid matrices with the same dimensions and the same slices everywhere
   * are the same matrix: the slices determine the pointers and the storage.
   */
  lemma {:induction false} SlicesDetermineMatrix(a: Compressed, b: Compressed)
    requires WellFormedPointers(a) && WellFormedPointers(b)
    requires a.outerSize == b.outerSize && a.innerSize == b.innerSize
    requires forall k :: 0 <= k < a.outerSize ==>
               InnerSlice(a, k) == InnerSlice(b, k) && ValSlice(a, k) == ValSlice(b, k)
    ensures a == b
  {
    forall k | 0 <= k <= a.outerSize
      ensures a.outer[k] == b.outer[k]
    {
      PointersAgree(a, b, k);
    }
    assert a.outer == b.outer;
    forall p | 0 <= p < |a.inner|
      ensures a.inner[p] == b.inner[p] && a.vals[p] == b.vals[p]
    {
      var k := SliceContaining(a, p);
      assert InnerSlice(a, k)[p - a.outer[k]] == a.inner[p];
      assert InnerSlice(b, k)[p - b.outer[k]] == b.inner[p];
      assert ValSlice(a, k)[p - a.outer[k]] == a.vals[p];
      assert ValSlice(b, k)[p - b.outer[k]] == b.vals[p];
    }
  }

  lemma {:induction false} PointersAgree(a: Compressed, b: Compressed, k: int)
    requires WellFormedPointers(a) && WellFormedPointers(b)
    requires a.outerSize == b.outerSize && 0 <= k <= a.outerSize
    requires forall k :: 0 <= k < a.outerSize ==> |InnerSlice(a, k)| == |InnerSlice(b, k)|
    ensures a.outer[k] == b.outer[k]
  {
    if k > 0 {
      PointersAgree(a, b, k - 1);
      assert |InnerSlice(a, k - 1)| == |InnerSlice(b, k - 1)|;
    }
  }

  /** The slices laid end to end: the inner (or value) storage of a compressed matrix. */
  function Flatten<T>(ss: seq<seq<T>>): seq<T>
  {
    if ss == [] then [] else Flatten(ss[..|ss| - 1]) + ss[|ss| - 1]
  }

  /** Where each slice starts in Flatten(ss), followed by the total length. */
  function Offsets<T>(ss: seq<seq<T>>): (o: seq<int>)
    ensures |o| == |ss| + 1
  {
    seq(|ss| + 1, k requires 0 <= k <= |ss| => |Flatten(ss[..k])|)
  }

  predicate SameShape<S, T>(a: seq<seq<S>>, b: seq<seq<T>>)
  {
    |a| == |b| && forall k :: 0 <= k < |a| ==> |a[k]| == |b[k]|
  }

  /** The compressed matrix whose outer k holds the inner indices ins[k] with the values vs[k]. */
  function FromSlices(innerSize: nat, ins: seq<seq<int>>, vs: seq<seq<real>>): Compressed
    requires SameShape(ins, vs)
  {
    Compressed(|ins|, innerSize, Offsets(ins), Flatten(ins), Flatten(vs))
  }

  /** Flattening a prefix of the slices gives a prefix of the flattened whole. */
  lemma {:induction false} FlattenPrefix<T>(ss: seq<seq<T>>, j: int)
    requires 0 <= j <= |ss|
    ensures |Flatten(ss[..j])| <= |Flatten(ss)|
    ensures Flatten(ss)[..|Flatten(ss[..j])|] == Flatten(ss[..j])
  {
    if j < |ss| {
      var init := ss[..|ss| - 1];
      FlattenPrefix(init, j);
      assert init[..j] == ss[..j];
    } else {
      assert ss[..j] == ss;
    }
  }

  lemma FlattenStep<T>(ss: seq<seq<T>>, k: int)
    requires 0 <= k < |ss|
    ensures Flatten(ss[..k + 1]) == Flatten(ss[..k]) + ss[k]
  {
    assert ss[..k + 1][..k] == ss[..k];
  }

  /** Slice k sits in the flattened storage between offsets k and k + 1. */
  lemma FlattenSlice<T>(ss: seq<seq<T>>, k: int)
    requires 0 <= k < |ss|
    ensures 0 <= Offsets(ss)[k] <= Offsets(ss)[k + 1] <= |Flatten(ss)|
    ensures Flatten(ss)[Offsets(ss)[k]..Offsets(ss)[k + 1]] == ss[k]
  {
    FlattenStep(ss, k);
    FlattenPrefix(ss, k + 1);
    var a, b := |Flatten(ss[..k])|, |Flatten(ss[..k + 1])|;
    assert Flatten(ss)[a..b] == Flatten(ss[..k + 1])[a..b];
  }

  lemma {:induction false} FlattenSameShape<S, T>(a: seq<seq<S>>, b: seq<seq<T>>)
    requires SameShape(a, b)
    ensures |Flatten(a)| == |Flatten(b)|
  {
    if a != [] {
      FlattenSameShape(a[..|a| - 1], b[..|b| - 1]);
    }
  }

  /** Every entry of the flattened storage comes from some slice. */
  lemma {:induction false} FlattenBounds(ss: seq<seq<int>>, lo: int, hi: int)
    requires forall k, p :: 0 <= k < |ss| && 0 <= p < |ss[k]| ==> lo <= ss[k][p] < hi
    ensures forall p :: 0 <= p < |Flatten(ss)| ==> lo <= Flatten(ss)[p] < hi
  {
    if ss != [] {
      FlattenBounds(ss[..|ss| - 1], lo, hi);
    }
  }

  /**
   * Building from slices gives well-formed pointers, and reading the slices
   * back gives what was put in.
   */
  lemma FromSlicesSlices(innerSize: nat, ins: seq<seq<int>>, vs: seq<seq<real>>)
    requires SameShape(ins, vs)
    ensures WellFormedPointers(FromSlices(innerSize, ins, vs))
    ensures forall k :: 0 <= k < |ins| ==>
              InnerSlice(FromSlices(innerSize, ins, vs), k) == ins[k] &&
              ValSlice(FromSlices(innerSize, ins, vs), k) == vs[k]
  {
    var m := FromSlices(innerSize, ins, vs);
    assert ins[..|ins|] == ins;
    FlattenSameShape(ins, vs);
    forall k | 0 <= k < |ins|
      ensures m.outer[k] <= m.outer[k + 1]
    {
      FlattenSlice(ins, k);
    }
    forall i, j | 0 <= i <= j <= m.outerSize
      ensures m.outer[i] <= m.outer[j]
    {
      FlattenPrefix(ins[..j], i);
      assert ins[..j][..i] == ins[..i];
    }
    assert WellFormedPointers(m);
    forall k | 0 <= k < |ins|
      ensures InnerSlice(m, k) == ins[k] && ValSlice(m, k) == vs[k]
    {
      FlattenSlice(ins, k);
      FlattenSlice(vs, k);
      SameShapePrefix(ins, vs, k);
      SameShapePrefix(ins, vs, k + 1);
    }
  }

  lemma SameShapePrefix<S, T>(a: seq<seq<S>>, b: seq<seq<T>>, k: int)
    requires SameShape(a, b) && 0 <= k <= |a|
    ensures Offsets(a)[k] == Offsets(b)[k]
  {
    FlattenSameShape(a[..k], b[..k]);
  }

  /**
   * Slices that lie inside the inner dimension and ascend strictly give a
   * valid compressed matrix.
   */
  lemma FromSlicesValid(innerSize: nat, ins: seq<seq<int>>, vs: seq<seq<real>>)
    requires SameShape(ins, vs)
    requires forall k, p :: 0 <= k < |ins| && 0 <= p < |ins[k]| ==> 0 <= ins[k][p] < innerSize
    requires forall k :: 0 <= k < |ins| ==> StrictlyAscending(ins[k])
    ensures Valid(FromSlices(innerSize, ins, vs))
  {
    FromSlicesSlices(innerSize, ins, vs);
    FlattenBounds(ins, 0, innerSize);
  }

  /** One more slice adds one more offset: the new total length. */
  lemma OffsetsStep<T>(ss: seq<seq<T>>, k: int)
    requires 0 <= k < |ss|
    ensures Offsets(ss[..k + 1]) == Offsets(ss[..k]) + [|Flatten(ss[..k + 1])|]
  {
    var a, b := Offsets(ss[..k + 1]), Offsets(ss[..k]) + [|Flatten(ss[..k + 1])|];
    forall j | 0 <= j <= k + 1
      ensures a[j] == b[j]
    {
      if j <= k {
        assert ss[..k + 1][..j] == ss[..k][..j];
      } else {
        assert ss[..k + 1][..j] == ss[..k + 1];
      }
    }
  }
}
