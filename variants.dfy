/**
 * The class-level `get_eps(params, eps_background, design_region, eps_max)`
 * entry point shared by the parameterization classes, as a dispatch over a
 * closed set of variants. Only the topology variant defines a mapping; the
 * base class, the abstract shape class and the level-set class raise
 * `NotImplementedError`, modelled as an error result.
 */
module Variants {
  import Topology

  datatype Variant = ParamBase | ParamTopology | ParamShape | ParamLevelSet

  datatype Outcome =
    | Ok(eps: seq<real>)
    | NotImplementedError(message: string)

  const NOT_IMPLEMENTED_MESSAGE: string :=
    "Need to implement a function for computing permittivity from parameters"

  /**
   * `get_eps` of each variant: a permittivity field for the topology variant
   * and the not-implemented error, whatever the arguments, for the others.
   */
  function GetEps(variant: Variant, params: seq<real>, epsBackground: seq<real>, designRegion: seq<real>,
                  epsMax: real): (r: Outcome)
    requires variant == ParamTopology ==> |params| == |epsBackground| == |designRegion|
    ensures r.Ok? <==> variant == ParamTopology
    ensures r.Ok? ==> r.eps == Topology.GetEps(params, epsBackground, designRegion, epsMax)
    ensures r.Ok? ==> |r.eps| == |epsBackground|
    ensures r.Ok? ==> forall i :: 0 <= i < |r.eps| && designRegion[i] == 0.0 ==> r.eps[i] == epsBackground[i]
    ensures r.NotImplementedError? ==> r.message == NOT_IMPLEMENTED_MESSAGE
  {
    match variant
    case ParamTopology => Ok(Topology.GetEps(params, epsBackground, designRegion, epsMax))
    case _ => NotImplementedError(NOT_IMPLEMENTED_MESSAGE)
  }
}
