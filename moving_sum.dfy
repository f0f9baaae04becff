/**
 * `central_moving_sum` of the utility header: for every element, the sum of
 * the elements at most `radius` positions away, where the window is cut off
 * at both ends of the range instead of wrapping around. The sums are taken as
 * differences of an exclusive prefix scan, so the output range may be the
 * input range itself.
 */
module MovingSum {

  /** The sum of a sequence. */
  function Sum(s: seq<int>): int
  {
    if s == [] then 0 else Sum(s[..|s| - 1]) + s[|s| - 1]
  }

  function Max(a: int, b: int): int
  {
    if a < b then b else a
  }

  function Min(a: int, b: int): int
  {
    if a < b then a else b
  }

  /**
   * The central window sum at `i`: the elements from max(0, i - radius) up to
   * min(n - 1, i + radius), both included.
   */
  function WindowSum(s: seq<int>, i: int, radius: int): int
    requires 0 <= i < |s| && radius >= 0
  {
    Sum(s[Max(0, i - radius)..Min(i + radius + 1, |s|)])
  }

  /** A range sum is the difference of two prefix sums. */
  lemma {:induction false} RangeSumIsPrefixDifference(s: seq<int>, a: int, b: int)
    requires 0 <= a <= b <= |s|
    ensures Sum(s[a..b]) == Sum(s[..b]) - Sum(s[..a])
  {
    if b > a {
      RangeSumIsPrefixDifference(s, a, b - 1);
      assert s[a..b][..b - a - 1] == s[a..b - 1];
      assert s[..b][..b - 1] == s[..b - 1];
    } else {
      assert s[a..b] == [];
    }
  }

  /**
   * `central_moving_sum(first, last, outFirst, radius)`: writes the window
   * sums of the input into the first n cells of the output and leaves the
   * rest of the output alone. The output array may be the input array.
   */
  method CentralMovingSum(input: array<int>, output: array<int>, radius: int)
    requires input.Length > 0 && radius >= 0
    requires output.Length >= input.Length
    modifies output
    ensures forall i :: 0 <= i < input.Length ==> output[i] == WindowSum(old(input[..]), i, radius)
    ensures forall i :: input.Length <= i < output.Length ==> output[i] == old(output[i])
  {
    var n := input.Length;
    ghost var s := input[..];
    var xscan := ExclusiveScan(input);

    var ii := 0;
    while ii < n
      invariant 0 <= ii <= n
      invariant forall j :: 0 <= j <= n ==> xscan[j] == Sum(s[..j])
      invariant forall j :: 0 <= j < ii ==> output[j] == WindowSum(s, j, radius)
      invariant forall j :: n <= j < output.Length ==> output[j] == old(output[j])
    {
      var left := Max(0, ii - radius);
      var right := Min(ii + radius + 1, n);
      WindowByPrefixes(s, ii, radius);
      output[ii] := xscan[right] - xscan[left];
      ii := ii + 1;
    }
  }

  /** A window sum is the difference of the prefix sums at its two ends. */
  lemma WindowByPrefixes(s: seq<int>, i: int, radius: int)
    requires 0 <= i < |s| && radius >= 0
    ensures 0 <= Max(0, i - radius) <= Min(i + radius + 1, |s|) <= |s|
    ensures WindowSum(s, i, radius) == Sum(s[..Min(i + radius + 1, |s|)]) - Sum(s[..Max(0, i - radius)])
  {
    RangeSumIsPrefixDifference(s, Max(0, i - radius), Min(i + radius + 1, |s|));
  }

  /** The exclusive scan of the input with its total appended: xscan[k] is the sum of the first k elements. */
  method ExclusiveScan(input: array<int>) returns (xscan: array<int>)
    requires input.Length > 0
    ensures fresh(xscan) && xscan.Length == input.Length + 1
    ensures forall j :: 0 <= j <= input.Length ==> xscan[j] == Sum(input[..][..j])
  {
    var n := input.Length;
    ghost var s := input[..];
    xscan := new int[n + 1];
    var k := 0;
    var acc := 0;
    while k < n
      modifies xscan
      invariant 0 <= k <= n && acc == Sum(s[..k])
      invariant forall j :: 0 <= j < k ==> xscan[j] == Sum(s[..j])
    {
      xscan[k] := acc;
      assert s[..k + 1][..k] == s[..k];
      acc := acc + input[k];
      k := k + 1;
    }
    xscan[n] := xscan[n - 1] + input[n - 1];
    assert s[..n][..n - 1] == s[..n - 1];
    assert s[..n] == s;
  }

  /** The moving sum computed in place: the scan is complete before the first write. */
  method CentralMovingSumInPlace(a: array<int>, radius: int)
    requires a.Length > 0 && radius >= 0
    modifies a
    ensures forall i :: 0 <= i < a.Length ==> a[i] == WindowSum(old(a[..]), i, radius)
  {
    CentralMovingSum(a, a, radius);
  }

  /** With radius 0 every window is the element itself. */
  lemma RadiusZeroIsIdentity(s: seq<int>, i: int)
    requires 0 <= i < |s|
    ensures WindowSum(s, i, 0) == s[i]
  {
    RangeSumStep(s, i, i);
    assert s[i..i] == [];
  }

  /** Extending a range by one element adds that element. */
  lemma RangeSumStep(s: seq<int>, a: int, b: int)
    requires 0 <= a <= b < |s|
    ensures Sum(s[a..b + 1]) == Sum(s[a..b]) + s[b]
  {
    assert s[a..b + 1][..b - a] == s[a..b];
  }

  /**
   * Border windows are truncated: with radius 2 the window of element 1 is
   * elements 0 to 3 and that of element 2 is elements 0 to 4.
   */
  lemma {:induction false} TruncatedBorderWindows(s: seq<int>)
    requires |s| >= 5
    ensures WindowSum(s, 1, 2) == s[0] + s[1] + s[2] + s[3]
    ensures WindowSum(s, 2, 2) == s[0] + s[1] + s[2] + s[3] + s[4]
  {
    assert s[0..0] == [];
    RangeSumStep(s, 0, 0);
    RangeSumStep(s, 0, 1);
    RangeSumStep(s, 0, 2);
    RangeSumStep(s, 0, 3);
    RangeSumStep(s, 0, 4);
  }

  /** A window never reaches past the ends: away from the borders it holds 2 * radius + 1 elements. */
  lemma {:induction false} InteriorWindow(s: seq<int>, i: int, radius: int)
    requires radius >= 0 && radius <= i < |s| - radius
    ensures WindowSum(s, i, radius) == Sum(s[i - radius..i + radius + 1])
    ensures |s[i - radius..i + radius + 1]| == 2 * radius + 1
  {
  }
}
