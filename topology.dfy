/**
 * Param_Topology: free-form (density) topology optimisation. A density per
 * grid cell is interpolated linearly between free space (permittivity 1) and
 * `epsMax`, and only inside the design region; outside it the background is
 * kept. Grids are flattened to sequences, one entry per cell, and all arrays
 * of one call have the same length.
 */
module Topology {
  import opened Numerics

  /** `_density2eps`: density 0 is free space, density 1 is `epsMax`. */
  function Density2Eps(density: real, epsMax: real): (eps: real)
    ensures density == 0.0 ==> eps == 1.0
    ensures density == 1.0 ==> eps == epsMax
  {
    1.0 + Mul(epsMax - 1.0, density)
  }

  /** A density in [0, 1] gives a permittivity in [1, epsMax] (for `epsMax >= 1`). */
  lemma Density2EpsBounds(density: real, epsMax: real)
    requires 0.0 <= density <= 1.0 && 1.0 <= epsMax
    ensures 1.0 <= Density2Eps(density, epsMax) <= epsMax
  {
    MulMonotone(epsMax - 1.0, 0.0, density);
    MulMonotone(epsMax - 1.0, density, 1.0);
  }

  /** A denser cell never has a lower permittivity (for `epsMax >= 1`). */
  lemma Density2EpsMonotone(d1: real, d2: real, epsMax: real)
    requires d1 <= d2 && 1.0 <= epsMax
    ensures Density2Eps(d1, epsMax) <= Density2Eps(d2, epsMax)
  {
    MulMonotone(epsMax - 1.0, d1, d2);
  }

  /**
   * `Param_Topology.get_eps`: the interpolated density masked by
   * `designRegion == 1`, plus the background masked by `designRegion == 0`.
   * The masks are not validated: a cell whose region value is neither 0 nor
   * 1 falls in neither mask and comes out as 0.
   */
  function GetEps(params: seq<real>, epsBackground: seq<real>, designRegion: seq<real>, epsMax: real): (eps: seq<real>)
    requires |params| == |epsBackground| == |designRegion|
    ensures |eps| == |epsBackground|
    ensures forall i :: 0 <= i < |eps| && designRegion[i] == 0.0 ==> eps[i] == epsBackground[i]
    ensures forall i :: 0 <= i < |eps| && designRegion[i] == 1.0 ==> eps[i] == Density2Eps(params[i], epsMax)
    ensures forall i :: 0 <= i < |eps| && designRegion[i] != 0.0 && designRegion[i] != 1.0 ==> eps[i] == 0.0
  {
    seq(|epsBackground|, i requires 0 <= i < |epsBackground| =>
      Density2Eps(params[i], epsMax) * Indicator(designRegion[i] == 1.0)
      + epsBackground[i] * Indicator(designRegion[i] == 0.0))
  }

  /**
   * For a binary design region, densities in [0, 1] and `epsMax >= 1`, every
   * design cell lies in [1, epsMax], every other cell is the background, and
   * the densities of non-design cells have no influence on the result.
   */
  lemma GetEpsPartition(params: seq<real>, otherParams: seq<real>, epsBackground: seq<real>,
                        designRegion: seq<real>, epsMax: real, i: int)
    requires |params| == |otherParams| == |epsBackground| == |designRegion|
    requires 0 <= i < |designRegion| && (designRegion[i] == 0.0 || designRegion[i] == 1.0)
    requires 0.0 <= params[i] <= 1.0 && 1.0 <= epsMax
    ensures designRegion[i] == 1.0 ==> 1.0 <= GetEps(params, epsBackground, designRegion, epsMax)[i] <= epsMax
    ensures designRegion[i] == 0.0 ==>
      GetEps(params, epsBackground, designRegion, epsMax)[i] == epsBackground[i]
      == GetEps(otherParams, epsBackground, designRegion, epsMax)[i]
  {
    if designRegion[i] == 1.0 {
      Density2EpsBounds(params[i], epsMax);
    }
  }
}
