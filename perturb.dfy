/**
 * `perturb` of `perturb.hpp` for row-major sparse matrices: the listed rows
 * get new inner indices and new values, the outer pointers stay as they are.
 * New inner indices are drawn without repetition from a pool holding every
 * inner index once; the pool is reshuffled whenever too few undrawn entries
 * remain, and every drawn segment is sorted before it is copied into the row.
 */
module Perturb {
  import opened CompressedLayout

  /** Granularity of the values drawn from [1, 2): doubles in [1, 2) are 2^-52 apart. */
  const Resolution: nat := 0x10_0000_0000_0000

  /**
   * The random engine: a fixed stream of raw draws (what the seed determines)
   * and the number of draws taken so far.
   */
  class Engine {
    const draws: nat -> nat
    var used: nat

    constructor(draws: nat -> nat)
      ensures this.draws == draws && used == 0
    {
      this.draws := draws;
      used := 0;
    }

    /** A draw from [0, n). */
    method Below(n: nat) returns (k: nat)
      requires n > 0
      modifies this
      ensures k < n && k == draws(old(used)) % n
      ensures used == old(used) + 1
    {
      k := draws(used) % n;
      used := used + 1;
    }

    /** A draw from [1, 2), `uniform_real_distribution(1.0, 2.0)`. */
    method Value() returns (v: real)
      modifies this
      ensures 1.0 <= v < 2.0
      ensures v == 1.0 + (draws(old(used)) % Resolution) as real / Resolution as real
      ensures used == old(used) + 1
    {
      v := 1.0 + (draws(used) % Resolution) as real / Resolution as real;
      used := used + 1;
    }
  }

  /** 0, 1, ..., n - 1: the pool as `std::generate` first fills it. */
  function Range(n: nat): (s: seq<int>)
    ensures |s| == n && forall i :: 0 <= i < n ==> s[i] == i
  {
    seq(n, i => i)
  }

  /** The pool holds every inner index below n exactly once, in some order. */
  predicate IsPool(s: seq<int>, n: nat)
  {
    multiset(s) == multiset(Range(n))
  }

  lemma {:induction false} RangeCount(n: nat, x: int)
    ensures multiset(Range(n))[x] == if 0 <= x < n then 1 else 0
  {
    if n > 0 {
      RangeCount(n - 1, x);
      assert Range(n) == Range(n - 1) + [n - 1];
    }
  }

  /** A pool has length n, entries in [0, n) and no entry twice. */
  lemma PoolEntries(s: seq<int>, n: nat)
    requires IsPool(s, n)
    ensures |s| == n
    ensures forall i :: 0 <= i < |s| ==> 0 <= s[i] < n
    ensures forall i, j :: 0 <= i < j < |s| ==> s[i] != s[j]
  {
    assert |multiset(s)| == |multiset(Range(n))|;
    forall i | 0 <= i < |s|
      ensures 0 <= s[i] < n
    {
      assert s[i] in multiset(s);
      RangeCount(n, s[i]);
    }
    forall i, j | 0 <= i < j < |s|
      ensures s[i] != s[j]
    {
      if s[i] == s[j] {
        var x := s[i];
        assert s == s[..j] + [s[j]] + s[j + 1..];
        assert s[..j][i] == x;
        assert multiset(s)[x] >= 2;
        RangeCount(n, x);
        assert false;
      }
    }
  }

  function Swapped(s: seq<int>, i: int, j: int): (t: seq<int>)
    requires 0 <= i < |s| && 0 <= j < |s|
    ensures |t| == |s|
  {
    s[i := s[j]][j := s[i]]
  }

  /** Exchanging two entries of a segment keeps the segment's contents and everything around it. */
  lemma SwapInSegment(s: seq<int>, lo: int, hi: int, i: int, j: int)
    requires 0 <= lo <= i < hi <= |s| && lo <= j < hi
    ensures Swapped(s, i, j)[..lo] == s[..lo] && Swapped(s, i, j)[hi..] == s[hi..]
    ensures multiset(Swapped(s, i, j)[lo..hi]) == multiset(s[lo..hi])
    ensures multiset(Swapped(s, i, j)) == multiset(s)
  {
    var seg := s[lo..hi];
    assert Swapped(s, i, j)[lo..hi] == Swapped(seg, i - lo, j - lo);
    SwapKeepsMultiset(seg, i - lo, j - lo);
    SwapKeepsMultiset(s, i, j);
  }

  /** Exchanging two entries keeps the multiset of the values. */
  lemma SwapKeepsMultiset(s: seq<int>, i: int, j: int)
    requires 0 <= i < |s| && 0 <= j < |s|
    ensures multiset(Swapped(s, i, j)) == multiset(s)
  {
  }

  method Swap(a: array<int>, i: int, j: int)
    requires 0 <= i < a.Length && 0 <= j < a.Length
    modifies a
    ensures a[..] == Swapped(old(a[..]), i, j)
    ensures a[i] == old(a[j]) && a[j] == old(a[i])
    ensures forall p :: 0 <= p < a.Length && p != i && p != j ==> a[p] == old(a[p])
  {
    a[i], a[j] := a[j], a[i];
  }

  /** `std::shuffle`: a Fisher-Yates pass driven by the engine. */
  method Shuffle(pool: array<int>, engine: Engine)
    modifies pool, engine
    ensures multiset(pool[..]) == multiset(old(pool[..]))
  {
    var i := pool.Length - 1;
    while i > 0
      invariant i < pool.Length
      invariant multiset(pool[..]) == multiset(old(pool[..]))
    {
      var j := engine.Below(i + 1);
      SwapInSegment(pool[..], 0, pool.Length, i, j);
      Swap(pool, i, j);
      i := i - 1;
    }
  }

  /** The position of a least entry of a[lo..hi]. */
  method MinIndex(a: array<int>, lo: int, hi: int) returns (k: int)
    requires 0 <= lo < hi <= a.Length
    ensures lo <= k < hi
    ensures forall q :: lo <= q < hi ==> a[k] <= a[q]
  {
    k := lo;
    var q := lo + 1;
    while q < hi
      invariant lo <= k < q <= hi
      invariant forall p :: lo <= p < q ==> a[k] <= a[p]
    {
      if a[q] < a[k] {
        k := q;
      }
      q := q + 1;
    }
  }

  /** `std::sort` of a[lo..hi]: the segment ends up ascending with the same contents; nothing else changes. */
  method SortSegment(a: array<int>, lo: int, hi: int)
    requires 0 <= lo <= hi <= a.Length
    modifies a
    ensures a[..lo] == old(a[..lo]) && a[hi..] == old(a[hi..])
    ensures multiset(a[lo..hi]) == multiset(old(a[lo..hi]))
    ensures multiset(a[..]) == multiset(old(a[..]))
    ensures forall p, q :: lo <= p <= q < hi ==> a[p] <= a[q]
  {
    var i := lo;
    while i < hi
      invariant lo <= i <= hi
      invariant a[..lo] == old(a[..lo]) && a[hi..] == old(a[hi..])
      invariant multiset(a[lo..hi]) == multiset(old(a[lo..hi]))
      invariant forall p, q :: lo <= p <= q < i ==> a[p] <= a[q]
      invariant forall p, q :: lo <= p < i <= q < hi ==> a[p] <= a[q]
    {
      PlaceMinimum(a, lo, hi, i);
      i := i + 1;
    }
    SpliceKeepsMultiset(a[..], old(a[..]), lo, hi);
  }

  /** One selection step: move a least entry of a[i..hi] to position i. */
  method PlaceMinimum(a: array<int>, lo: int, hi: int, i: int)
    requires 0 <= lo <= i < hi <= a.Length
    requires forall p, q :: lo <= p <= q < i ==> a[p] <= a[q]
    requires forall p, q :: lo <= p < i <= q < hi ==> a[p] <= a[q]
    modifies a
    ensures a[..lo] == old(a[..lo]) && a[hi..] == old(a[hi..])
    ensures multiset(a[lo..hi]) == multiset(old(a[lo..hi]))
    ensures forall p, q :: lo <= p <= q < i + 1 ==> a[p] <= a[q]
    ensures forall p, q :: lo <= p < i + 1 <= q < hi ==> a[p] <= a[q]
  {
    var k := MinIndex(a, i, hi);
    SwapInSegment(a[..], lo, hi, i, k);
    Swap(a, i, k);
    assert forall p, q :: lo <= p <= q < i ==> a[p] <= a[q];
    assert forall q :: i <= q < hi ==> a[i] <= a[q];
  }

  /** Two sequences that agree outside [lo, hi) and hold the same segment contents hold the same contents. */
  lemma SpliceKeepsMultiset(s: seq<int>, t: seq<int>, lo: int, hi: int)
    requires 0 <= lo <= hi <= |s| == |t|
    requires s[..lo] == t[..lo] && s[hi..] == t[hi..]
    requires multiset(s[lo..hi]) == multiset(t[lo..hi])
    ensures multiset(s) == multiset(t)
  {
    assert s == s[..lo] + s[lo..hi] + s[hi..];
    assert t == t[..lo] + t[lo..hi] + t[hi..];
  }

  /** `std::copy_n`: dst[at..at + count] := src[from..from + count]. */
  method CopyN(src: array<int>, from: int, dst: array<int>, at: int, count: int)
    requires src != dst
    requires 0 <= count && 0 <= from && from + count <= src.Length && 0 <= at && at + count <= dst.Length
    modifies dst
    ensures dst[at..at + count] == src[from..from + count]
    ensures dst[..at] == old(dst[..at]) && dst[at + count..] == old(dst[at + count..])
  {
    var j := 0;
    while j < count
      invariant 0 <= j <= count
      invariant dst[at..at + j] == src[from..from + j]
      invariant dst[..at] == old(dst[..at]) && dst[at + count..] == old(dst[at + count..])
    {
      dst[at + j] := src[from + j];
      j := j + 1;
    }
  }

  /** `std::generate_n` with the value distribution: count fresh values from [1, 2). */
  method GenerateValues(vals: array<real>, at: int, count: int, engine: Engine)
    requires 0 <= count && 0 <= at && at + count <= vals.Length
    modifies vals, engine
    ensures forall p :: at <= p < at + count ==> 1.0 <= vals[p] < 2.0
    ensures vals[..at] == old(vals[..at]) && vals[at + count..] == old(vals[at + count..])
  {
    var j := 0;
    while j < count
      invariant 0 <= j <= count
      invariant forall p :: at <= p < at + j ==> 1.0 <= vals[p] < 2.0
      invariant vals[..at] == old(vals[..at]) && vals[at + count..] == old(vals[at + count..])
    {
      var v := engine.Value();
      vals[at + j] := v;
      j := j + 1;
    }
  }

  /** What a perturbed row holds: strictly ascending inner indices below n, values in [1, 2). */
  predicate PerturbedRow(ins: seq<int>, vs: seq<real>, n: nat)
  {
    StrictlyAscending(ins) && IndicesBelow(ins, n) &&
    (forall p :: 0 <= p < |vs| ==> 1.0 <= vs[p] < 2.0)
  }

  predicate IndicesBelow(ins: seq<int>, n: nat)
  {
    forall p :: 0 <= p < |ins| ==> 0 <= ins[p] < n
  }

  /**
   * One pass of the loop over the listed rows: reshuffle when at most `nnz`
   * undrawn entries remain, sort the next `nnz` pool entries, copy them into
   * row `o`, advance the cursor and draw the row's values. Only row `o` of the
   * storage changes and the pool stays a pool.
   */
  method PerturbRow(m: Compressed, o: int, pool: array<int>, cursor: nat,
                    inner: array<int>, vals: array<real>, engine: Engine)
    returns (cursor': nat)
    requires Valid(m) && 0 <= o < m.outerSize
    requires IsPool(pool[..], m.innerSize) && cursor <= pool.Length
    requires inner.Length == |m.inner| && vals.Length == |m.vals| && pool != inner
    modifies pool, inner, vals, engine
    ensures IsPool(pool[..], m.innerSize) && cursor' <= pool.Length
    ensures inner[..m.outer[o]] == old(inner[..m.outer[o]]) && inner[m.outer[o + 1]..] == old(inner[m.outer[o + 1]..])
    ensures vals[..m.outer[o]] == old(vals[..m.outer[o]]) && vals[m.outer[o + 1]..] == old(vals[m.outer[o + 1]..])
    ensures PerturbedRow(inner[m.outer[o]..m.outer[o + 1]], vals[m.outer[o]..m.outer[o + 1]], m.innerSize)
  {
    var offset := m.outer[o];
    var nnz := m.outer[o + 1] - m.outer[o];
    NnzAtMostInnerSize(m, o);
    cursor' := Refill(pool, cursor, nnz, m.innerSize, engine);
    DrawIndices(pool, cursor', inner, offset, nnz, m.innerSize);
    cursor' := cursor' + nnz;
    GenerateValues(vals, offset, nnz, engine);
  }

  /** Reshuffle the whole pool and restart at its head when at most `nnz` undrawn entries remain. */
  method Refill(pool: array<int>, cursor: nat, nnz: nat, n: nat, engine: Engine) returns (c: nat)
    requires IsPool(pool[..], n) && cursor <= pool.Length && nnz <= n
    modifies pool, engine
    ensures IsPool(pool[..], n) && c + nnz <= pool.Length
    ensures pool.Length - cursor > nnz ==> c == cursor && pool[..] == old(pool[..])
    ensures pool.Length - cursor <= nnz ==> c == 0
  {
    PoolEntries(pool[..], n);
    c := cursor;
    if pool.Length - c <= nnz {
      Shuffle(pool, engine);
      c := 0;
    }
  }

  /**
   * Sort the `nnz` pool entries from `c` on and copy them to inner[offset..offset + nnz]:
   * the row's new indices ascend strictly and are below `n`.
   */
  method DrawIndices(pool: array<int>, c: nat, inner: array<int>, offset: nat, nnz: nat, n: nat)
    requires IsPool(pool[..], n) && c + nnz <= pool.Length
    requires offset + nnz <= inner.Length && pool != inner
    modifies pool, inner
    ensures IsPool(pool[..], n)
    ensures inner[..offset] == old(inner[..offset]) && inner[offset + nnz..] == old(inner[offset + nnz..])
    ensures StrictlyAscending(inner[offset..offset + nnz])
    ensures IndicesBelow(inner[offset..offset + nnz], n)
  {
    SortSegment(pool, c, c + nnz);
    SortedPoolSegment(pool[..], n, c, c + nnz);
    CopyN(pool, c, inner, offset, nnz);
  }

  /** A sorted segment of a pool ascends strictly, since the pool has no entry twice. */
  lemma SortedPoolSegment(s: seq<int>, n: nat, lo: int, hi: int)
    requires IsPool(s, n) && 0 <= lo <= hi <= |s|
    requires forall p, q :: lo <= p <= q < hi ==> s[p] <= s[q]
    ensures StrictlyAscending(s[lo..hi])
    ensures IndicesBelow(s[lo..hi], n)
  {
    PoolEntries(s, n);
  }

  /** Storage outside one row is unchanged, so every other row is unchanged. */
  lemma OtherRowsUnchanged<T>(m: Compressed, o: int, before: seq<T>, after: seq<T>)
    requires WellFormedPointers(m) && 0 <= o < m.outerSize
    requires |before| == |after| == |m.inner|
    requires after[..m.outer[o]] == before[..m.outer[o]]
    requires after[m.outer[o + 1]..] == before[m.outer[o + 1]..]
    ensures forall k :: 0 <= k < m.outerSize && k != o ==>
              after[m.outer[k]..m.outer[k + 1]] == before[m.outer[k]..m.outer[k + 1]]
  {
    forall k | 0 <= k < m.outerSize && k != o
      ensures after[m.outer[k]..m.outer[k + 1]] == before[m.outer[k]..m.outer[k + 1]]
    {
      var lo, hi := m.outer[k], m.outer[k + 1];
      if k < o {
        assert lo <= hi <= m.outer[o];
        SliceOfPrefix(after, m.outer[o], lo, hi);
        SliceOfPrefix(before, m.outer[o], lo, hi);
      } else {
        assert m.outer[o + 1] <= lo <= hi;
        SliceOfSuffix(after, m.outer[o + 1], lo, hi);
        SliceOfSuffix(before, m.outer[o + 1], lo, hi);
      }
    }
  }

  lemma SliceOfPrefix<T>(s: seq<T>, e: int, lo: int, hi: int)
    requires 0 <= lo <= hi <= e <= |s|
    ensures s[lo..hi] == s[..e][lo..hi]
  {
  }

  lemma SliceOfSuffix<T>(s: seq<T>, b: int, lo: int, hi: int)
    requires 0 <= b <= lo <= hi <= |s|
    ensures s[lo..hi] == s[b..][lo - b..hi - b]
  {
  }

  /** Row k of the storage `ins`, `vs` laid out by the pointers of m. */
  predicate RowState(m: Compressed, ins: seq<int>, vs: seq<real>, listed: seq<int>, k: int)
    requires WellFormedPointers(m) && |ins| == |vs| == |m.inner| && 0 <= k < m.outerSize
  {
    if k in listed then PerturbedRow(ins[m.outer[k]..m.outer[k + 1]], vs[m.outer[k]..m.outer[k + 1]], m.innerSize)
    else ins[m.outer[k]..m.outer[k + 1]] == InnerSlice(m, k) && vs[m.outer[k]..m.outer[k + 1]] == ValSlice(m, k)
  }

  /**
   * `Perturb<SparseMatrix>::perturb` for row-major matrices; `draws` stands for
   * the engine seeded with `seed`. The result has the dimensions and outer
   * pointers of m and is valid; unlisted rows keep their inner indices and
   * values; listed rows get strictly ascending inner indices and values from
   * [1, 2).
   */
  method Invoke(m: Compressed, outerIndices: seq<int>, draws: nat -> nat) returns (r: Compressed)
    requires Valid(m)
    requires forall t :: 0 <= t < |outerIndices| ==> 0 <= outerIndices[t] < m.outerSize
    ensures r.outerSize == m.outerSize && r.innerSize == m.innerSize && r.outer == m.outer
    ensures Valid(r)
    ensures forall k :: 0 <= k < m.outerSize && k !in outerIndices ==>
              InnerSlice(r, k) == InnerSlice(m, k) && ValSlice(r, k) == ValSlice(m, k)
    ensures forall k :: 0 <= k < m.outerSize && k in outerIndices ==>
              PerturbedRow(InnerSlice(r, k), ValSlice(r, k), m.innerSize)
    ensures outerIndices == [] ==> r == m
  {
    var inner := new int[|m.inner|](p requires 0 <= p < |m.inner| => m.inner[p]);
    var vals := new real[|m.vals|](p requires 0 <= p < |m.vals| => m.vals[p]);
    assert inner[..] == m.inner && vals[..] == m.vals;
    var engine := new Engine(draws);

    var pool := new int[m.innerSize](i requires 0 <= i < m.innerSize => i);
    assert pool[..] == Range(m.innerSize);
    var cursor: nat := 0;

    var t := 0;
    while t < |outerIndices|
      invariant 0 <= t <= |outerIndices|
      invariant IsPool(pool[..], m.innerSize) && cursor <= pool.Length
      invariant forall k :: 0 <= k < m.outerSize ==> RowState(m, inner[..], vals[..], outerIndices[..t], k)
    {
      var o := outerIndices[t];
      ghost var ins0, vs0 := inner[..], vals[..];
      cursor := PerturbRow(m, o, pool, cursor, inner, vals, engine);
      OtherRowsUnchanged(m, o, ins0, inner[..]);
      OtherRowsUnchanged(m, o, vs0, vals[..]);
      ghost var ins1, vs1, listed := inner[..], vals[..], outerIndices[..t + 1];
      assert listed == outerIndices[..t] + [o];
      forall k | 0 <= k < m.outerSize
        ensures RowState(m, ins1, vs1, listed, k)
      {
        if k != o {
          assert RowState(m, ins0, vs0, outerIndices[..t], k);
        }
      }
      t := t + 1;
    }
    assert outerIndices[..t] == outerIndices;
    r := Compressed(m.outerSize, m.innerSize, m.outer, inner[..], vals[..]);
    Result(m, r, outerIndices);
  }

  /** The row states of the final storage make it a valid matrix with the promised rows. */
  lemma Result(m: Compressed, r: Compressed, listed: seq<int>)
    requires Valid(m)
    requires r.outerSize == m.outerSize && r.innerSize == m.innerSize && r.outer == m.outer
    requires |r.inner| == |r.vals| == |m.inner|
    requires forall k :: 0 <= k < m.outerSize ==> RowState(m, r.inner, r.vals, listed, k)
    ensures Valid(r)
    ensures forall k :: 0 <= k < m.outerSize && k !in listed ==>
              InnerSlice(r, k) == InnerSlice(m, k) && ValSlice(r, k) == ValSlice(m, k)
    ensures forall k :: 0 <= k < m.outerSize && k in listed ==>
              PerturbedRow(InnerSlice(r, k), ValSlice(r, k), m.innerSize)
    ensures listed == [] ==> r == m
  {
    assert WellFormedPointers(r);
    forall p | 0 <= p < |r.inner|
      ensures 0 <= r.inner[p] < r.innerSize
    {
      var k := SliceContaining(r, p);
      assert RowState(m, r.inner, r.vals, listed, k);
      assert r.inner[p] == InnerSlice(r, k)[p - r.outer[k]];
      assert InnerSlice(m, k)[p - m.outer[k]] == m.inner[p];
    }
    forall k | 0 <= k < r.outerSize
      ensures InnerSlice(r, k) == r.inner[m.outer[k]..m.outer[k + 1]]
      ensures ValSlice(r, k) == r.vals[m.outer[k]..m.outer[k + 1]]
      ensures k !in listed ==> InnerSlice(r, k) == InnerSlice(m, k) && ValSlice(r, k) == ValSlice(m, k)
      ensures k in listed ==> PerturbedRow(InnerSlice(r, k), ValSlice(r, k), m.innerSize)
      ensures StrictlyAscending(InnerSlice(r, k))
    {
      assert RowState(m, r.inner, r.vals, listed, k);
    }
    if listed == [] {
      SlicesDetermineMatrix(r, m);
    }
  }
}
