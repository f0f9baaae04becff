/**
 * `darts_sampling` of the utility header: the quotas are normalised into
 * ratios, whose running totals split [0, 1] into consecutive bins, and every
 * bullet is mapped to the first bin whose running total reaches it
 * (`std::lower_bound`).
 *
 * Arithmetic is exact over the reals; the source computes in `double`.
 */
module Darts {

  function Total(q: seq<real>): real
  {
    if q == [] then 0.0 else Total(q[..|q| - 1]) + q[|q| - 1]
  }

  predicate NonNegative(q: seq<real>)
  {
    forall i :: 0 <= i < |q| ==> q[i] >= 0.0
  }

  predicate Sorted(s: seq<real>)
  {
    forall i, j :: 0 <= i <= j < |s| ==> s[i] <= s[j]
  }

  /** The running totals of q / Total(q): the inclusive scan of the ratios. */
  function CumRatios(q: seq<real>, total: real): (c: seq<real>)
    requires total != 0.0
    ensures |c| == |q|
  {
    if q == [] then [] else CumRatios(q[..|q| - 1], total) + [Total(q) / total]
  }

  /**
   * `std::lower_bound`: the first position whose element is not below `v`,
   * or |s| when there is none.
   */
  function LowerBound(s: seq<real>, v: real): (r: nat)
    ensures r <= |s|
    ensures forall j :: 0 <= j < r ==> s[j] < v
    ensures r < |s| ==> s[r] >= v
  {
    if s == [] then 0
    else if s[0] >= v then 0
    else 1 + LowerBound(s[1..], v)
  }

  /** The bins the bullets hit. */
  ghost function Hits(q: seq<real>, bullets: seq<real>): seq<nat>
    requires Total(q) != 0.0
  {
    seq(|bullets|, k requires 0 <= k < |bullets| => LowerBound(CumRatios(q, Total(q)), bullets[k]))
  }

  lemma {:induction false} TotalOfNonNegative(q: seq<real>)
    requires NonNegative(q)
    ensures Total(q) >= 0.0
    ensures forall k :: 0 <= k <= |q| ==> Total(q[..k]) <= Total(q)
  {
    if q != [] {
      var init := q[..|q| - 1];
      TotalOfNonNegative(init);
      forall k | 0 <= k <= |q|
        ensures Total(q[..k]) <= Total(q)
      {
        if k < |q| {
          assert q[..k] == init[..k];
        } else {
          assert q[..k] == q;
        }
      }
    }
  }

  /** Entry k of the running totals is the total of the first k + 1 quotas over the grand total. */
  lemma {:induction false} CumRatiosAt(q: seq<real>, total: real, k: int)
    requires total != 0.0 && 0 <= k < |q|
    ensures CumRatios(q, total)[k] == Total(q[..k + 1]) / total
  {
    if k < |q| - 1 {
      CumRatiosAt(q[..|q| - 1], total, k);
      assert q[..|q| - 1][..k + 1] == q[..k + 1];
    } else {
      assert q[..k + 1] == q;
    }
  }

  /**
   * For nonnegative quotas with a positive total, the running totals rise
   * monotonically and the last one is exactly 1.
   */
  lemma CumRatiosShape(q: seq<real>)
    requires NonNegative(q) && Total(q) > 0.0
    ensures Sorted(CumRatios(q, Total(q)))
    ensures |q| > 0 && CumRatios(q, Total(q))[|q| - 1] == 1.0
  {
    var c := CumRatios(q, Total(q));
    forall i, j | 0 <= i <= j < |q|
      ensures c[i] <= c[j]
    {
      CumRatiosMonotoneAt(q, i, j);
    }
    CumRatiosAt(q, Total(q), |q| - 1);
    assert q[..|q|] == q;
    DivSelf(Total(q));
  }

  lemma DivSelf(d: real)
    requires d > 0.0
    ensures d / d == 1.0
  {
  }

  lemma CumRatiosMonotoneAt(q: seq<real>, i: int, j: int)
    requires NonNegative(q) && Total(q) > 0.0 && 0 <= i <= j < |q|
    ensures CumRatios(q, Total(q))[i] <= CumRatios(q, Total(q))[j]
  {
    CumRatiosAt(q, Total(q), i);
    CumRatiosAt(q, Total(q), j);
    var qj := q[..j + 1];
    assert NonNegative(qj);
    TotalOfNonNegative(qj);
    assert qj[..i + 1] == q[..i + 1];
    DivMonotone(Total(q[..i + 1]), Total(qj), Total(q));
  }

  lemma DivMonotone(a: real, b: real, d: real)
    requires a <= b && d > 0.0
    ensures a / d <= b / d
  {
  }

  /** Higher bullets never hit an earlier bin. */
  lemma {:induction false} LowerBoundMonotone(s: seq<real>, v: real, w: real)
    requires Sorted(s) && v <= w
    ensures LowerBound(s, v) <= LowerBound(s, w)
  {
    if s != [] && s[0] < v {
      assert Sorted(s[1..]);
      LowerBoundMonotone(s[1..], v, w);
    }
  }

  /** A bullet not above the last running total hits a bin. */
  lemma LowerBoundFound(s: seq<real>, v: real)
    requires |s| > 0 && v <= s[|s| - 1]
    ensures LowerBound(s, v) < |s|
  {
  }

  /**
   * The darts hit a bin for every bullet in [0, 1], and a bullet not lower
   * than another never lands in an earlier bin.
   */
  lemma HitsAreBins(q: seq<real>, bullets: seq<real>)
    requires NonNegative(q) && Total(q) > 0.0
    requires forall k :: 0 <= k < |bullets| ==> bullets[k] <= 1.0
    ensures forall k :: 0 <= k < |bullets| ==> Hits(q, bullets)[k] < |q|
    ensures forall k, l :: 0 <= k < |bullets| && 0 <= l < |bullets| && bullets[k] <= bullets[l] ==>
              Hits(q, bullets)[k] <= Hits(q, bullets)[l]
  {
    var c := CumRatios(q, Total(q));
    CumRatiosShape(q);
    forall k | 0 <= k < |bullets|
      ensures Hits(q, bullets)[k] < |q|
    {
      LowerBoundFound(c, bullets[k]);
    }
    forall k, l | 0 <= k < |bullets| && 0 <= l < |bullets| && bullets[k] <= bullets[l]
      ensures Hits(q, bullets)[k] <= Hits(q, bullets)[l]
    {
      LowerBoundMonotone(c, bullets[k], bullets[l]);
    }
  }

  /**
   * Quotas 1, 1, 2 give the bins [0, 1/4], (1/4, 1/2] and (1/2, 1]; the
   * bullets 0, 0.1, ..., 0.9 land in bins 0, 0, 0, 1, 1, 1, 2, 2, 2, 2.
   */
  lemma ExampleHits()
    ensures Total([1.0, 1.0, 2.0]) == 4.0
    ensures Hits([1.0, 1.0, 2.0], [0.0, 0.1, 0.2, 0.3, 0.4, 0.5, 0.6, 0.7, 0.8, 0.9])
         == [0, 0, 0, 1, 1, 1, 2, 2, 2, 2]
  {
    var q := [1.0, 1.0, 2.0];
    assert q[..2][..1] == [1.0];
    assert q[..2] == [1.0, 1.0];
    assert [1.0][..0] == [];
    assert Total([1.0]) == 1.0;
    assert Total(q[..2]) == 2.0;
    assert Total(q) == 4.0;
    var c := CumRatios(q, 4.0);
    assert CumRatios([1.0], 4.0) == [0.25];
    assert CumRatios(q[..2], 4.0) == [0.25, 0.5];
    assert c == [0.25, 0.5, 1.0];
  }

  /**
   * `darts_sampling(quotaFirst, quotaLast, bulletsFirst, bulletsLast, outFirst)`:
   * normalise, scan, then search the running totals once per bullet. The
   * running totals must be sorted for `std::lower_bound`, hence nonnegative
   * quotas, and their total must be nonzero for the division.
   */
  method DartsSampling(quotas: seq<real>, bullets: seq<real>) returns (out: seq<nat>)
    requires NonNegative(quotas) && Total(quotas) > 0.0
    ensures out == Hits(quotas, bullets)
  {
    var sum := SumQuotas(quotas);
    var ratios := seq(|quotas|, k requires 0 <= k < |quotas| => quotas[k] / sum);
    var scan := ScanRatios(quotas, ratios, sum);
    CumRatiosShape(quotas);
    out := SearchBullets(scan, bullets);
  }

  /** `std::accumulate` of the quotas. */
  method SumQuotas(quotas: seq<real>) returns (sum: real)
    ensures sum == Total(quotas)
  {
    sum := 0.0;
    var i := 0;
    while i < |quotas|
      invariant 0 <= i <= |quotas| && sum == Total(quotas[..i])
    {
      assert quotas[..i + 1][..i] == quotas[..i];
      sum := sum + quotas[i];
      i := i + 1;
    }
    assert quotas[..i] == quotas;
  }

  /** `std::inclusive_scan` of the ratios quotas[k] / sum: the cumulative ratios. */
  method ScanRatios(quotas: seq<real>, ratios: seq<real>, sum: real) returns (scan: seq<real>)
    requires sum != 0.0 && |ratios| == |quotas|
    requires forall k :: 0 <= k < |quotas| ==> ratios[k] == quotas[k] / sum
    ensures scan == CumRatios(quotas, sum)
  {
    scan := [];
    var running := 0.0;
    var i := 0;
    while i < |quotas|
      invariant 0 <= i <= |quotas|
      invariant running == Total(quotas[..i]) / sum
      invariant scan == CumRatios(quotas[..i], sum)
    {
      assert quotas[..i + 1][..i] == quotas[..i];
      DivAdd(Total(quotas[..i]), quotas[i], sum);
      running := running + ratios[i];
      scan := scan + [running];
      i := i + 1;
    }
    assert quotas[..i] == quotas;
  }

  lemma DivAdd(a: real, b: real, d: real)
    requires d != 0.0
    ensures a / d + b / d == (a + b) / d
  {
  }

  /** One `std::lower_bound` per bullet. */
  method SearchBullets(scan: seq<real>, bullets: seq<real>) returns (out: seq<nat>)
    requires Sorted(scan)
    ensures |out| == |bullets|
    ensures forall k :: 0 <= k < |bullets| ==> out[k] == LowerBound(scan, bullets[k])
  {
    out := [];
    var b := 0;
    while b < |bullets|
      invariant 0 <= b <= |bullets| && |out| == b
      invariant forall k :: 0 <= k < b ==> out[k] == LowerBound(scan, bullets[k])
    {
      var index := BinarySearchLowerBound(scan, bullets[b]);
      out := out + [index];
      b := b + 1;
    }
  }

  /** `std::lower_bound` on a sorted sequence: halve the candidate range until it is empty. */
  method BinarySearchLowerBound(s: seq<real>, v: real) returns (r: nat)
    requires Sorted(s)
    ensures r == LowerBound(s, v)
  {
    var lo, hi := 0, |s|;
    while lo < hi
      invariant 0 <= lo <= hi <= |s|
      invariant forall j :: 0 <= j < lo ==> s[j] < v
      invariant forall j :: hi <= j < |s| ==> s[j] >= v
    {
      var mid := lo + (hi - lo) / 2;
      if s[mid] < v {
        lo := mid + 1;
      } else {
        hi := mid;
      }
    }
    LowerBoundUnique(s, v, lo);
    r := lo;
  }

  /** The first position not below `v` is determined by the two halves it splits. */
  lemma {:induction false} LowerBoundUnique(s: seq<real>, v: real, r: int)
    requires 0 <= r <= |s|
    requires forall j :: 0 <= j < r ==> s[j] < v
    requires r < |s| ==> s[r] >= v
    ensures LowerBound(s, v) == r
  {
  }
}
