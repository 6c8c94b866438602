/**
 * The glue between the two routines: an ensemble of independent paths, the
 * terminal price of each, and the histogram of those terminal prices.
 */
module Simulation {

  import opened Gbm
  import opened Binning

  /** The price at the last point of a path. */
  function TerminalPrice(path: seq<Point>): real
    requires |path| > 0
  {
    path[|path| - 1].price
  }

  /** The terminal price of every path, in order. */
  function Endpoints(paths: seq<seq<Point>>): (e: seq<real>)
    requires forall i :: 0 <= i < |paths| ==> |paths[i]| > 0
    ensures |e| == |paths|
    ensures forall i :: 0 <= i < |paths| ==> e[i] == paths[i][|paths[i]| - 1].price
  {
    seq(|paths|, i requires 0 <= i < |paths| => TerminalPrice(paths[i]))
  }

  /** One path per sequence of draws, all with the same parameters and time grid. */
  function Ensemble(p: Params, f: RealFns, draws: seq<seq<real>>): (paths: seq<seq<Point>>)
    requires forall j :: 0 <= j < |draws| ==> |draws[j]| == p.steps
    ensures |paths| == |draws|
    ensures forall j :: 0 <= j < |paths| ==> |paths[j]| == p.steps + 1
  {
    seq(|draws|, j requires 0 <= j < |draws| => GbmPath(p, f, draws[j]))
  }

  /**
   * The endpoint of path j is the price after all steps with draws j; it is
   * positive when the initial price is.
   */
  lemma EndpointIsFinalPrice(p: Params, f: RealFns, draws: seq<seq<real>>, j: nat)
    requires forall k :: 0 <= k < |draws| ==> |draws[k]| == p.steps
    requires j < |draws|
    ensures Endpoints(Ensemble(p, f, draws))[j] == PriceAt(p, f, draws[j], p.steps)
    ensures ExpPositive(f) && p.initialPrice > 0.0 ==> Endpoints(Ensemble(p, f, draws))[j] > 0.0
  {
    if ExpPositive(f) && p.initialPrice > 0.0 {
      PriceAtPositive(p, f, draws[j], p.steps);
    }
  }

  /**
   * With sigma = 0 every path is the same, so every endpoint is the same: the
   * smallest and largest endpoints coincide and the histogram's bin width
   * would be zero, which CreateHistogramData's precondition excludes.
   */
  lemma ZeroVolatilityEndpointsCoincide(p: Params, f: RealFns, draws: seq<seq<real>>)
    requires forall k :: 0 <= k < |draws| ==> |draws[k]| == p.steps
    requires |draws| > 0 && p.sigma == 0.0
    ensures SeqMin(Endpoints(Ensemble(p, f, draws))) == SeqMax(Endpoints(Ensemble(p, f, draws)))
  {
    var e := Endpoints(Ensemble(p, f, draws));
    forall k | 0 <= k < |draws|
      ensures e[k] == e[0]
    {
      ZeroVolatilityIgnoresDraws(p, f, draws[k], draws[0]);
    }
    SeqMinIsLeast(e);
    SeqMaxIsGreatest(e);
  }

  /** The histogram of the terminal prices of an ensemble, with the default number of bins. */
  function EndpointHistogram(p: Params, f: RealFns, draws: seq<seq<real>>): seq<Bin>
    requires forall k :: 0 <= k < |draws| ==> |draws[k]| == p.steps
    requires |draws| > 0
    requires SeqMin(Endpoints(Ensemble(p, f, draws))) < SeqMax(Endpoints(Ensemble(p, f, draws)))
  {
    Histogram(Endpoints(Ensemble(p, f, draws)), DefaultBins)
  }

  /**
   * The endpoint histogram has the default 20 bars and counts every path
   * exactly once.
   */
  lemma EndpointHistogramCountsPaths(p: Params, f: RealFns, draws: seq<seq<real>>)
    requires forall k :: 0 <= k < |draws| ==> |draws[k]| == p.steps
    requires |draws| > 0
    requires SeqMin(Endpoints(Ensemble(p, f, draws))) < SeqMax(Endpoints(Ensemble(p, f, draws)))
    ensures |EndpointHistogram(p, f, draws)| == 20
    ensures TotalCount(EndpointHistogram(p, f, draws)) == |draws|
  {
    CountsSumToLength(Endpoints(Ensemble(p, f, draws)), DefaultBins);
  }
}
