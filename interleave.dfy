/**
 * `interleave` of `interleave.hpp`: every outer of the result is drawn from
 * one of the source matrices, the source being picked by `darts_sampling`
 * with the given proportions, and the outers are put together by `assemble`.
 *
 * The random numbers and their smoothing by `closed_loop_moving_mean` are
 * not modelled: the smoothed numbers come in as `bullets`, one per outer.
 */
module Interleave {
  import opened CompressedLayout
  import Darts
  import Assemble

  /** All sources share the outer size of the first one. */
  predicate SameOuterSize(sources: seq<Compressed>)
    requires |sources| > 0
  {
    forall i :: 0 <= i < |sources| ==> sources[i].outerSize == sources[0].outerSize
  }

  /**
   * The darts land on the sources: with nonnegative proportions of positive
   * total and bullets at most 1, every index picks a source, so the indices
   * are fit for `assemble`.
   */
  lemma HitsSelectSources(sources: seq<Compressed>, proportions: seq<real>, bullets: seq<real>)
    requires |sources| > 0 && |proportions| == |sources| && SameOuterSize(sources)
    requires forall i :: 0 <= i < |sources| ==> Valid(sources[i])
    requires |bullets| == sources[0].outerSize
    requires forall k :: 0 <= k < |bullets| ==> bullets[k] <= 1.0
    requires Darts.NonNegative(proportions) && Darts.Total(proportions) > 0.0
    ensures Assemble.Selectable(sources, Darts.Hits(proportions, bullets))
  {
    Darts.HitsAreBins(proportions, bullets);
  }

  /**
   * `Interleave<SparseMatrix>::invoke`: at least one source, one proportion
   * per source, one outer size for all; the result assembles the sources
   * along the indices the darts give, so it is valid and has the sources'
   * outer size and largest inner size.
   */
  method Invoke(sources: seq<Compressed>, proportions: seq<real>, bullets: seq<real>) returns (r: Compressed)
    requires |sources| > 0
    requires |proportions| == |sources|
    requires SameOuterSize(sources)
    requires forall i :: 0 <= i < |sources| ==> Valid(sources[i])
    requires |bullets| == sources[0].outerSize
    requires forall k :: 0 <= k < |bullets| ==> bullets[k] <= 1.0
    requires Darts.NonNegative(proportions) && Darts.Total(proportions) > 0.0
    ensures Assemble.Selectable(sources, Darts.Hits(proportions, bullets))
    ensures r == Assemble.Assembled(sources, Darts.Hits(proportions, bullets))
    ensures Valid(r) && r.outerSize == sources[0].outerSize
    ensures forall i :: 0 <= i < |sources| ==> sources[i].innerSize <= r.innerSize
  {
    var indices := Darts.DartsSampling(proportions, bullets);
    HitsSelectSources(sources, proportions, bullets);
    r := Assemble.Invoke(sources, indices);
    Assemble.AssembledOuters(sources, indices);
  }
}
