# Geometric Brownian Motion paths and their endpoint histogram

`gbmviz.tsx` is a React page that simulates price paths under Geometric
Brownian Motion (GBM) and shows a histogram of where the paths end. This
project models its computational core in Dafny:

- `generateGBM(steps, initialPrice, mu, sigma)` builds one path. The unit
  time interval is cut into `steps` steps of length dt = 1/steps. Each step
  multiplies the running price by exp((mu - sigma²/2)·dt + sigma·√dt·z), where
  z is a standard-normal draw. The model is the method `Gbm.GenerateGbm`. It
  fills an array in a loop, as the source does, and is proved equal to the
  specification function `Gbm.GbmPath`.
- `createHistogramData(endpoints, bins = 20)` cuts [min, max] into `bins`
  bins of equal width. It counts each value into bin
  `min(floor((v - min) / width), bins - 1)`. The model is the method
  `Binning.CreateHistogramData`. It allocates the bins in an array and
  increments counts in place, and it is proved equal to the specification
  function `Binning.Histogram`.
- The memoised block of the component draws `numPaths` paths, takes the last
  price of each and builds the endpoint histogram with the default 20 bins.
  `Simulation.Ensemble`, `Simulation.Endpoints` and
  `Simulation.EndpointHistogram` model that.

The model has no randomness and no floating point:

- Draws: the Box–Muller normal draws are a parameter `z: seq<real>` (one
  per step).
- `Math.exp` and `Math.sqrt`: they come in as a pair of total functions
  `RealFns(exp, sqrt)`. The general fact assumed about `exp` is `ExpPositive`
  (exp is positive everywhere), and it is required only where used. The
  one-step example `Gbm.FlatSingleStep` also assumes exp(0) = 1.
- Numbers: prices and times are mathematical reals.

The modules are:

- `Gbm` (`gbm.dfy`): paths.
- `Binning` (`binning.dfy`): histograms.
- `Simulation` (`simulation.dfy`): the glue.
- `RealArith` (`real_arith.dfy`): small facts about real division and
  `Floor` that the binning proofs use.

## Model

| member | source | states |
|---|---|---|
| Gbm.TimeAt | gbmviz.tsx:7-19 | The time of point i is 0 for the start and i·dt after that. It always lies in [0, 1] and equals i/steps. |
| Gbm.PriceAt | gbmviz.tsx:9-18 | The running price after i steps: the initial price times the growth factors of the first i draws (definition, no contract of its own). |
| Gbm.GenerateGbm | gbmviz.tsx:4-23 | The array filled step by step, carrying the running price, holds exactly the path `GbmPath`: point i has time i·dt and the price after i growth factors. |
| Gbm.PathShape | gbmviz.tsx:5-19 | A path has steps + 1 points and starts at (0, initialPrice). Point i > 0 has time i·(1/steps), so the last point is at time 1 when steps > 0. |
| Gbm.TimeIncreasing | gbmviz.tsx:7-19 | Times strictly increase along the path. |
| Gbm.PathRecurrence | gbmviz.tsx:15-19 | Each price is the previous price times exp(drift + diffusion), with drift = (mu - sigma²/2)·dt and diffusion = sigma·√dt·z for that step's draw. |
| Gbm.PriceAtPositive | gbmviz.tsx:9-18 | If exp is positive and the initial price is positive, the price after any number of steps is positive. |
| Gbm.PricesPositive | gbmviz.tsx:7-19 | If exp is positive and the initial price is positive, every price on the path is positive. |
| Gbm.ZeroVolatilityPrices | gbmviz.tsx:15-18 | With sigma = 0 the price after i steps is the same for any two sequences of draws. |
| Gbm.ZeroVolatilityIgnoresDraws | gbmviz.tsx:4-23 | With sigma = 0 the whole path is the same for any two sequences of draws, so the randomness has no effect. |
| Gbm.ZeroVolatilityStep | gbmviz.tsx:15-18 | With sigma = 0 the drift per step is mu/steps. Each step multiplies the price by exp(mu/steps) whatever the draw. |
| Gbm.ZeroVolatilityClosedForm | gbmviz.tsx:9-18 | With sigma = 0 the price after i steps is initialPrice·exp(mu·dt)^i, i.e. deterministic exponential growth. |
| Gbm.FlatSingleStep | gbmviz.tsx:4-23 | One step with mu = sigma = 0 and exp(0) = 1 gives the path [(0, p0), (1, p0)]. |
| Binning.SeqMinIsLeast | gbmviz.tsx:26 | The minimum is one of the values and is no larger than any of them, as `Math.min(...endpoints)`. |
| Binning.SeqMaxIsGreatest | gbmviz.tsx:27 | The maximum is one of the values and is no smaller than any of them, as `Math.max(...endpoints)`. |
| Binning.GridOf | gbmviz.tsx:26-28 | When the values are not all equal, the bin width (max - min)/bins is positive. |
| Binning.GridSpansValues | gbmviz.tsx:26-31 | The first bin starts at the minimum, and bins·width after it is exactly the maximum. |
| Binning.Grid.RawIndex | gbmviz.tsx:37 | floor((v - min)/binWidth), before the cap (definition; `RawIndexBounds` states what it means). |
| Binning.RawIndexBounds | gbmviz.tsx:37 | The raw index r is the floor of the quotient: binStart(r) ≤ v < binStart(r+1). |
| Binning.Grid.Index | gbmviz.tsx:36-39 | The bin index is `Math.min` of the raw index and bins - 1: it is at most both, and equal to one of them. |
| Binning.IndexInRange | gbmviz.tsx:35-40 | Every value's capped index is a valid index into the bins: never negative, never past the last bin. |
| Binning.MaxInLastBin | gbmviz.tsx:36-39 | The maximum's raw index floor((max - min)/width) is exactly bins; the cap `Math.min(…, bins - 1)` puts it in the last bin. |
| Binning.IndexLocatesValue | gbmviz.tsx:31-39 | A value in [min, max] is counted in a bin k with binStart(k) ≤ v < binStart(k+1), or in the last bin when v is the maximum. |
| Binning.BinMemberIndex | gbmviz.tsx:31-39 | Conversely, a value in [binStart(k), binStart(k+1)) is counted in bin k. |
| Binning.StartNext | gbmviz.tsx:31 | Consecutive bins start one width apart. |
| Binning.TallySnoc | gbmviz.tsx:35-41 | Counting one more value adds one to the count of the bin its index names, and changes nothing else. |
| Binning.TotalCountIncrement | gbmviz.tsx:40 | Incrementing one bin's count raises the total by one. |
| Binning.TallyEmpty | gbmviz.tsx:30-33 | Before any value is counted there are bins bins, bin k starting at min + k·width, each with count 0. |
| Binning.TotalCountEmpty | gbmviz.tsx:30-33 | Before any value is counted the counts total zero. |
| Binning.ZeroCountsTotal | gbmviz.tsx:32 | Bins whose counts are all zero total zero. |
| Binning.TallyTotal | gbmviz.tsx:35-41 | When every value's index is in range, the counts add up to the number of values counted. |
| Binning.CountsSumToLength | gbmviz.tsx:35-41 | In the histogram every value is counted exactly once: the counts sum to the number of values. |
| Binning.CountInPositive | gbmviz.tsx:35-41 | The bin a value's index names has count at least one. |
| Binning.ExtremesCounted | gbmviz.tsx:26-41 | The capped index of the minimum is 0 and that of the maximum is bins - 1: the first bin holds the minimum and the last bin holds the maximum, so neither is empty. |
| Binning.HistogramLayout | gbmviz.tsx:28-33 | The histogram has bins bars, and bar k starts at min + k·(max - min)/bins. |
| Binning.TallyStart | gbmviz.tsx:30-40 | Counting never moves a bar: bar k of any tally starts at min + k·width, and there are bins bars. |
| Binning.ValueInCountingBar | gbmviz.tsx:26-40 | Every value is counted in a bar whose range holds it (the maximum in the last bar, which it closes), and that bar's count is at least one. |
| Binning.HistogramCount | gbmviz.tsx:35-41 | Bar k's count is the number of values whose capped index is k. |
| Binning.CountInTwoBlocks | gbmviz.tsx:35-41 | If the first m values go to bin k0 and the rest to a different bin k1, those bins count m and n - m. |
| Binning.OneToTenInTwoBins | gbmviz.tsx:25-44 | The values 1..10 in 2 bins give [(1, 5), (5.5, 5)]. The value 10 is capped into the second bin. |
| Binning.CreateHistogramData | gbmviz.tsx:25-44 | The array filled by counting each value into its capped bin is exactly `Histogram`: bins bars whose counts sum to the number of values. `bins` defaults to 20, as in the source. |
| Simulation.TerminalPrice | gbmviz.tsx:66 | The price of a path's last point (definition, no contract of its own). |
| Simulation.Endpoints | gbmviz.tsx:66 | One endpoint per path, in order. Endpoint i is the price at the last point of path i. |
| Simulation.EndpointHistogram | gbmviz.tsx:67 | The histogram of the endpoints with the default 20 bins (definition; `EndpointHistogramCountsPaths` states its properties). |
| Simulation.Ensemble | gbmviz.tsx:54-56 | One path per sequence of draws, each with steps + 1 points. |
| Simulation.EndpointIsFinalPrice | gbmviz.tsx:66 | Path j's endpoint is its price after all steps. It is positive when exp is positive and the initial price is. |
| Simulation.ZeroVolatilityEndpointsCoincide | gbmviz.tsx:66 | With sigma = 0 all endpoints are equal (min = max), so the histogram's range [min, max] has zero width. That is the case `CreateHistogramData`'s requires excludes. |
| Simulation.EndpointHistogramCountsPaths | gbmviz.tsx:66-67 | The endpoint histogram has the default 20 bars and counts every path exactly once. |

## Left out

- The React component: state hooks, `useMemo`, sliders and labels (gbmviz.tsx:46-157). These are UI only.
- The recharts line and bar charts (gbmviz.tsx:120-153). These are rendering only.
- The reshaping of paths into chart rows (gbmviz.tsx:58-64). It only feeds the line chart.
- The Box–Muller draw from `Math.random` (gbmviz.tsx:12-13). The normal draws are a parameter, so nothing is said about their distribution.
- Infinite draws: `Math.random()` can return exactly 0, and then `log(0)` is -Infinity and the draw is infinite. A price can then become 0 or Infinity. The draws here are finite reals, so `PriceAtPositive`, `PricesPositive` and `EndpointIsFinalPrice` do not cover that case.
- `Math.exp` and `Math.sqrt`. They are parameters. Only positivity of exp is assumed in general; the one-step example `Gbm.FlatSingleStep` also assumes exp(0) = 1.
- IEEE-754 arithmetic. Rounding, overflow to Infinity, NaN and the exact value of `steps * (1/steps)` are not modelled. The model computes over mathematical reals.
- Gbm.ZeroVolatilityClosedForm: the closed form is stated as p0·exp(mu·dt)^i, not p0·exp(mu·dt·i). Exp's additivity is not assumed of the function parameter.
- Binning.CreateHistogramData: requires at least one value. With no values the source does not throw. `min` is Infinity and `binWidth` is -Infinity, so every bin start is NaN (0·-Infinity and Infinity + -Infinity are both NaN). It returns `bins` bars with count 0. NaN has no counterpart over the reals.
- Binning.CreateHistogramData: requires min < max. When all values are equal, the width is 0 and `(v - min) / 0` is NaN. `histogramData[NaN]` is undefined, so line 40 throws a TypeError. The code has no fallback for a zero-width range, such as putting every value in one bin, and the model follows the code by making this a precondition. `Simulation.ZeroVolatilityEndpointsCoincide` shows that sigma = 0 always hits this case.
- Binning.CreateHistogramData: requires bins ≥ 1. With 0 bins `Array(0)` is empty and the first increment throws. A negative or fractional `bins` makes `new Array` throw.
- Gbm.GenerateGbm: `steps` is a natural number, so negative and fractional counts are not modelled. In the source, steps = -1 does not throw. `new Array(0)` is then grown to one element by the write to `path[0]`, and the loop never runs. The result is the one-point path `[{t: 0, price: initialPrice}]`, the same as for steps = 0. steps ≤ -2 or a fractional count makes `new Array` throw a RangeError. With steps = 0 the source's dt is Infinity but never read; the model returns the one-point path, as the source does. The component always passes 100, because `setSteps` (gbmviz.tsx:48) is never called.
- No validation of `steps`, `initialPrice`, `mu` or `sigma` is modelled. The source performs none, and the model follows it.
