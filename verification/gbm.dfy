/**
 * Path simulation for Geometric Brownian Motion (`generateGBM`).
 *
 * A path over the unit time interval is cut into `steps` equal steps of
 * length dt = 1/steps. Starting from the initial price, each step multiplies
 * the price by exp(drift + diffusion), where
 *   drift     = (mu - sigma^2 / 2) * dt
 *   diffusion = sigma * sqrt(dt) * z
 * and z is a standard-normal draw. The draws are passed in as a sequence
 * (one per step) and the transcendental functions exp and sqrt are passed in
 * as a pair of total functions, so that the model is deterministic and says
 * nothing about floating point.
 */
module Gbm {

  /** One sample of the path: time in [0, 1] and the price at that time. */
  datatype Point = Point(t: real, price: real)

  /** The simulation parameters: number of steps, initial price, drift mu and volatility sigma. */
  datatype Params = Params(steps: nat, initialPrice: real, mu: real, sigma: real)

  /** The exponential and square-root functions the simulation calls. */
  datatype RealFns = RealFns(exp: real -> real, sqrt: real -> real)

  /** The one fact about exp that the model relies on: it is strictly positive. */
  ghost predicate ExpPositive(f: RealFns)
  {
    forall x :: f.exp(x) > 0.0
  }

  /** Length of one time step. */
  function Dt(steps: nat): real
    requires steps > 0
  {
    1.0 / steps as real
  }

  /** The deterministic part of the log-increment of one step. */
  function Drift(p: Params): real
    requires p.steps > 0
  {
    (p.mu - 0.5 * p.sigma * p.sigma) * Dt(p.steps)
  }

  /** The random part of the log-increment of one step, for the normal draw z. */
  function Diffusion(p: Params, f: RealFns, z: real): real
    requires p.steps > 0
  {
    p.sigma * f.sqrt(Dt(p.steps)) * z
  }

  /** The factor by which one step multiplies the price. */
  function Growth(p: Params, f: RealFns, z: real): real
    requires p.steps > 0
  {
    f.exp(Drift(p) + Diffusion(p, f, z))
  }

  /** Price after i steps, driven by the draws z[0], ..., z[i-1]. */
  function PriceAt(p: Params, f: RealFns, z: seq<real>, i: nat): real
    requires |z| == p.steps && i <= p.steps
  {
    if i == 0 then p.initialPrice else PriceAt(p, f, z, i - 1) * Growth(p, f, z[i - 1])
  }

  /** Time of the i-th point: literally 0 for the first point, i * dt for the others. */
  function TimeAt(steps: nat, i: nat): (t: real)
    requires i <= steps
    ensures 0.0 <= t <= 1.0
    ensures steps > 0 ==> t == i as real / steps as real
  {
    if i == 0 then 0.0 else i as real * Dt(steps)
  }

  /** The path that the simulation produces for the draws z. */
  function GbmPath(p: Params, f: RealFns, z: seq<real>): seq<Point>
    requires |z| == p.steps
  {
    seq(p.steps + 1, i requires 0 <= i <= p.steps => Point(TimeAt(p.steps, i), PriceAt(p, f, z, i)))
  }

  /**
   * Fills a freshly allocated array of steps + 1 points, carrying the running
   * price from one step to the next, and hands back its contents.
   */
  method GenerateGbm(p: Params, f: RealFns, z: seq<real>) returns (path: seq<Point>)
    requires |z| == p.steps
    ensures path == GbmPath(p, f, z)
  {
    ghost var spec := GbmPath(p, f, z);
    // With no steps the source's dt is 1/0 (Infinity), which is never read.
    var dt := if p.steps == 0 then 0.0 else 1.0 / p.steps as real;
    var a := new Point[p.steps + 1];
    a[0] := Point(0.0, p.initialPrice);
    var price := p.initialPrice;
    for i := 1 to p.steps + 1
      invariant price == spec[i - 1].price
      invariant a[..i] == spec[..i]
    {
      PathRecurrence(p, f, z, i);
      var drift := Drift(p);
      var diffusion := Diffusion(p, f, z[i - 1]);
      price := price * f.exp(drift + diffusion);
      assert price == spec[i].price && i as real * dt == spec[i].t;
      a[i] := Point(i as real * dt, price);
      assert a[..i + 1] == a[..i] + [a[i]];
    }
    path := a[..];
  }

  /** The path has one point per step plus the start, on the grid 0, dt, 2 dt, ..., 1. */
  lemma PathShape(p: Params, f: RealFns, z: seq<real>)
    requires |z| == p.steps
    ensures var path := GbmPath(p, f, z);
      && |path| == p.steps + 1
      && path[0] == Point(0.0, p.initialPrice)
      && (forall i :: 1 <= i <= p.steps ==> path[i].t == i as real * (1.0 / p.steps as real))
      && (p.steps > 0 ==> path[p.steps].t == 1.0)
  {
  }

  /** Time strictly increases along the path. */
  lemma TimeIncreasing(p: Params, f: RealFns, z: seq<real>, i: nat, j: nat)
    requires |z| == p.steps && i < j <= p.steps
    ensures GbmPath(p, f, z)[i].t < GbmPath(p, f, z)[j].t
  {
    var dt := Dt(p.steps);
    assert dt > 0.0;
    if i > 0 {
      assert j as real * dt - i as real * dt == (j - i) as real * dt;
    }
  }

  /** Every point's price is the previous point's price times exp(drift + diffusion). */
  lemma PathRecurrence(p: Params, f: RealFns, z: seq<real>, i: nat)
    requires |z| == p.steps && 1 <= i <= p.steps
    ensures GbmPath(p, f, z)[i].price
         == GbmPath(p, f, z)[i - 1].price * f.exp(Drift(p) + Diffusion(p, f, z[i - 1]))
  {
  }

  lemma {:induction false} PriceAtPositive(p: Params, f: RealFns, z: seq<real>, i: nat)
    requires |z| == p.steps && i <= p.steps
    requires ExpPositive(f) && p.initialPrice > 0.0
    ensures PriceAt(p, f, z, i) > 0.0
  {
    if i > 0 {
      PriceAtPositive(p, f, z, i - 1);
      var g := Growth(p, f, z[i - 1]);
      assert g > 0.0;
      assert PriceAt(p, f, z, i) == PriceAt(p, f, z, i - 1) * g;
    }
  }

  /** With a positive start and a positive exp, every price on the path is positive. */
  lemma PricesPositive(p: Params, f: RealFns, z: seq<real>)
    requires |z| == p.steps
    requires ExpPositive(f) && p.initialPrice > 0.0
    ensures forall i :: 0 <= i < |GbmPath(p, f, z)| ==> GbmPath(p, f, z)[i].price > 0.0
  {
    forall i | 0 <= i <= p.steps
      ensures PriceAt(p, f, z, i) > 0.0
    {
      PriceAtPositive(p, f, z, i);
    }
  }

  lemma {:induction false} ZeroVolatilityPrices(p: Params, f: RealFns, z1: seq<real>, z2: seq<real>, i: nat)
    requires |z1| == p.steps && |z2| == p.steps && i <= p.steps
    requires p.sigma == 0.0
    ensures PriceAt(p, f, z1, i) == PriceAt(p, f, z2, i)
  {
    if i > 0 {
      ZeroVolatilityPrices(p, f, z1, z2, i - 1);
      assert Diffusion(p, f, z1[i - 1]) == 0.0 == Diffusion(p, f, z2[i - 1]);
    }
  }

  /** With sigma = 0 the path does not depend on the draws at all. */
  lemma ZeroVolatilityIgnoresDraws(p: Params, f: RealFns, z1: seq<real>, z2: seq<real>)
    requires |z1| == p.steps && |z2| == p.steps
    requires p.sigma == 0.0
    ensures GbmPath(p, f, z1) == GbmPath(p, f, z2)
  {
    forall i | 0 <= i <= p.steps
      ensures GbmPath(p, f, z1)[i] == GbmPath(p, f, z2)[i]
    {
      ZeroVolatilityPrices(p, f, z1, z2, i);
    }
  }

  lemma PowStep(x0: real, prev: real, cur: real, e: real, n: nat)
    requires n >= 1 && prev == x0 * Pow(e, n - 1) && cur == prev * e
    ensures cur == x0 * Pow(e, n)
  {
  }

  /** x raised to the natural power n. */
  function Pow(x: real, n: nat): real
  {
    if n == 0 then 1.0 else Pow(x, n - 1) * x
  }

  /**
   * With sigma = 0 the drift is mu / steps and each step multiplies the
   * price by exp(drift), whatever the draw.
   */
  lemma ZeroVolatilityStep(p: Params, f: RealFns, z: seq<real>, i: nat)
    requires |z| == p.steps && 1 <= i <= p.steps
    requires p.sigma == 0.0
    ensures Drift(p) == p.mu / p.steps as real
    ensures PriceAt(p, f, z, i) == PriceAt(p, f, z, i - 1) * f.exp(Drift(p))
  {
    assert Diffusion(p, f, z[i - 1]) == 0.0;
  }

  /** With sigma = 0 the price after i steps is initialPrice * exp(drift)^i. */
  lemma {:induction false} ZeroVolatilityClosedForm(p: Params, f: RealFns, z: seq<real>, i: nat)
    requires |z| == p.steps && 0 < p.steps && i <= p.steps
    requires p.sigma == 0.0
    ensures PriceAt(p, f, z, i) == p.initialPrice * Pow(f.exp(Drift(p)), i)
  {
    if i > 0 {
      var e := f.exp(Drift(p));
      ZeroVolatilityClosedForm(p, f, z, i - 1);
      assert PriceAt(p, f, z, i) == PriceAt(p, f, z, i - 1) * e by {
        ZeroVolatilityStep(p, f, z, i);
      }
      PowStep(p.initialPrice, PriceAt(p, f, z, i - 1), PriceAt(p, f, z, i), e, i);
    }
  }

  /** One step with no drift and no volatility leaves the price where it started (given exp(0) = 1). */
  lemma FlatSingleStep(p: Params, f: RealFns, z: seq<real>)
    requires p.steps == 1 && p.mu == 0.0 && p.sigma == 0.0
    requires |z| == 1 && f.exp(0.0) == 1.0
    ensures GbmPath(p, f, z) == [Point(0.0, p.initialPrice), Point(1.0, p.initialPrice)]
  {
    PathShape(p, f, z);
    PathRecurrence(p, f, z, 1);
    assert Drift(p) + Diffusion(p, f, z[0]) == 0.0;
  }
}
