/**
 * Equal-width histogram of a collection of values (`createHistogramData`).
 *
 * The range [min, max] of the values is cut into `bins` bins of width
 * (max - min) / bins. Bin k starts at min + k * width. A value v goes to bin
 * floor((v - min) / width), capped at bins - 1 so that the maximum itself,
 * whose raw index is exactly bins, lands in the last bin.
 */
module Binning {

  import opened RealArith

  /** Number of bins used when the caller does not say. */
  const DefaultBins: nat := 20

  /** One bar of the histogram: where its range starts and how many values fell in it. */
  datatype Bin = Bin(binStart: real, count: nat)

  /** Smallest element of a non-empty sequence. */
  function SeqMin(s: seq<real>): real
    requires |s| > 0
  {
    if |s| == 1 then s[0]
    else
      var m := SeqMin(s[..|s| - 1]);
      if s[|s| - 1] < m then s[|s| - 1] else m
  }

  /** Largest element of a non-empty sequence. */
  function SeqMax(s: seq<real>): real
    requires |s| > 0
  {
    if |s| == 1 then s[0]
    else
      var m := SeqMax(s[..|s| - 1]);
      if m < s[|s| - 1] then s[|s| - 1] else m
  }

  /** SeqMin is an element of the sequence and no element is below it. */
  lemma {:induction false} SeqMinIsLeast(s: seq<real>)
    requires |s| > 0
    ensures SeqMin(s) in s
    ensures forall i :: 0 <= i < |s| ==> SeqMin(s) <= s[i]
  {
    if |s| > 1 {
      SeqMinIsLeast(s[..|s| - 1]);
    }
  }

  /** SeqMax is an element of the sequence and no element is above it. */
  lemma {:induction false} SeqMaxIsGreatest(s: seq<real>)
    requires |s| > 0
    ensures SeqMax(s) in s
    ensures forall i :: 0 <= i < |s| ==> s[i] <= SeqMax(s)
  {
    if |s| > 1 {
      SeqMaxIsGreatest(s[..|s| - 1]);
    }
  }

  /** The bin layout: lower end, bin width and number of bins. */
  datatype Grid = Grid(lo: real, width: real, bins: nat) {

    predicate Valid()
    {
      width > 0.0 && bins >= 1
    }

    /** Lower end of bin k. */
    function Start(k: int): real
    {
      lo + k as real * width
    }

    /** Upper end of the last bin. */
    function Hi(): real
    {
      Start(bins)
    }

    /** floor((v - lo) / width): the number of whole bins that fit between lo and v. */
    function RawIndex(v: real): int
      requires Valid()
    {
      ((v - lo) / width).Floor
    }

    /** The bin a value is counted in: the smaller of the raw index and bins - 1. */
    function Index(v: real): (r: int)
      requires Valid()
      ensures r <= RawIndex(v) && r <= bins - 1
      ensures r == RawIndex(v) || r == bins - 1
    {
      var r := RawIndex(v);
      if r < bins - 1 then r else bins - 1
    }
  }

  /** The layout built from the values: from their minimum in `bins` bins of width (max - min) / bins. */
  function GridOf(values: seq<real>, bins: nat): (g: Grid)
    requires |values| > 0 && bins >= 1
    ensures SeqMin(values) < SeqMax(values) ==> g.Valid()
  {
    var lo := SeqMin(values);
    var hi := SeqMax(values);
    DivPositive(hi - lo, bins as real);
    Grid(lo, (hi - lo) / bins as real, bins)
  }

  /** The bins exactly cover the range of the values: the last bin ends at the maximum. */
  lemma GridSpansValues(values: seq<real>, bins: nat)
    requires |values| > 0 && bins >= 1
    ensures GridOf(values, bins).lo == SeqMin(values)
    ensures GridOf(values, bins).Hi() == SeqMax(values)
  {
    SpanCancel(SeqMin(values), SeqMax(values), bins);
  }

  /** How many of the values are counted in bin k. */
  function CountIn(g: Grid, s: seq<real>, k: int): nat
    requires g.Valid()
  {
    if s == [] then 0
    else CountIn(g, s[..|s| - 1], k) + (if g.Index(s[|s| - 1]) == k then 1 else 0)
  }

  /** The bins of layout g after counting the values s. */
  function Tally(g: Grid, s: seq<real>): seq<Bin>
    requires g.Valid()
  {
    seq(g.bins, k requires 0 <= k < g.bins => Bin(g.Start(k), CountIn(g, s, k)))
  }

  /** The histogram of the values, as the source computes it. */
  function Histogram(values: seq<real>, bins: nat): seq<Bin>
    requires |values| > 0 && bins >= 1 && SeqMin(values) < SeqMax(values)
  {
    Tally(GridOf(values, bins), values)
  }

  /** Sum of the counts of a list of bins. */
  function TotalCount(h: seq<Bin>): nat
  {
    if h == [] then 0 else h[0].count + TotalCount(h[1..])
  }

  /**
   * Every value of the input is counted in a bin that exists: the quotient
   * is never negative because no value is below the minimum, and the cap
   * keeps it below bins.
   */
  lemma IndexInRange(values: seq<real>, bins: nat, i: nat)
    requires |values| > 0 && bins >= 1 && SeqMin(values) < SeqMax(values)
    requires i < |values|
    ensures 0 <= GridOf(values, bins).Index(values[i]) < bins
  {
    var g := GridOf(values, bins);
    SeqMinIsLeast(values);
    DivNonnegative(values[i] - g.lo, g.width);
  }

  /** The maximum has raw index exactly bins, and the cap puts it in the last bin. */
  lemma MaxInLastBin(values: seq<real>, bins: nat)
    requires |values| > 0 && bins >= 1 && SeqMin(values) < SeqMax(values)
    ensures GridOf(values, bins).RawIndex(SeqMax(values)) == bins
    ensures GridOf(values, bins).Index(SeqMax(values)) == bins - 1
  {
    var g := GridOf(values, bins);
    GridSpansValues(values, bins);
    DivByQuotient(SeqMax(values) - g.lo, bins as real);
  }

  /**
   * The bin a value in [lo, Hi()] is counted in is the bin whose range holds
   * it: half-open [Start(k), Start(k + 1)), except that the last bin also
   * holds Hi() itself.
   */
  lemma IndexLocatesValue(g: Grid, v: real)
    requires g.Valid() && g.lo <= v <= g.Hi()
    ensures var k := g.Index(v);
      && 0 <= k < g.bins
      && g.Start(k) <= v
      && (v < g.Start(k + 1) || (k == g.bins - 1 && v == g.Hi()))
  {
    var x, w := v - g.lo, g.width;
    var r := g.RawIndex(v);
    FloorBounds(x, w);
    DivNonnegative(x, w);
    var k := g.Index(v);
    StartNext(g, k);
    if r >= g.bins - 1 {
      MulMonotone(k as real, r as real, w);
      if r >= g.bins {
        MulMonotone(g.bins as real, r as real, w);
        assert v == g.Hi();
      }
    }
  }

  /** Conversely, a value inside the range of bin k is counted in bin k. */
  lemma BinMemberIndex(g: Grid, v: real, k: int)
    requires g.Valid() && 0 <= k < g.bins
    requires g.Start(k) <= v < g.Start(k + 1)
    ensures g.Index(v) == k
  {
    StartNext(g, k);
    FloorUnique(v - g.lo, g.width, k);
  }

  /** The raw index is the floor of the quotient: v lies in [Start(r), Start(r + 1)). */
  lemma RawIndexBounds(g: Grid, v: real)
    requires g.Valid()
    ensures g.Start(g.RawIndex(v)) <= v < g.Start(g.RawIndex(v) + 1)
  {
    FloorBounds(v - g.lo, g.width);
    StartNext(g, g.RawIndex(v));
  }

  /** Consecutive bins are one width apart. */
  lemma StartNext(g: Grid, k: int)
    ensures g.Start(k + 1) == g.Start(k) + g.width
  {
    assert (k + 1) as real * g.width == k as real * g.width + g.width;
  }

  /** Counting one more value adds one to exactly the bin its index names. */
  lemma {:induction false} TallySnoc(g: Grid, s: seq<real>, v: real)
    requires g.Valid() && 0 <= g.Index(v) < g.bins
    ensures var j := g.Index(v);
      Tally(g, s + [v]) == Tally(g, s)[j := Bin(g.Start(j), CountIn(g, s, j) + 1)]
  {
    assert (s + [v])[..|s + [v]| - 1] == s;
  }

  /** Incrementing one bin's count increments the total by one. */
  lemma {:induction false} TotalCountIncrement(h: seq<Bin>, j: nat, b: Bin)
    requires j < |h| && b.count == h[j].count + 1
    ensures TotalCount(h[j := b]) == TotalCount(h) + 1
  {
    if j > 0 {
      TotalCountIncrement(h[1..], j - 1, b);
      assert h[j := b][1..] == h[1..][j - 1 := b];
    } else {
      assert h[j := b][1..] == h[1..];
    }
  }

  /** With no values counted, every bin has its start point and a zero count. */
  lemma TallyEmpty(g: Grid)
    requires g.Valid()
    ensures |Tally(g, [])| == g.bins
    ensures forall k :: 0 <= k < g.bins ==> Tally(g, [])[k] == Bin(g.Start(k), 0)
  {
  }

  /** With no values counted, the total is zero. */
  lemma {:induction false} TotalCountEmpty(g: Grid)
    requires g.Valid()
    ensures TotalCount(Tally(g, [])) == 0
  {
    var h := Tally(g, []);
    ZeroCountsTotal(h);
  }

  /** Bins that all have count zero total zero. */
  lemma {:induction false} ZeroCountsTotal(h: seq<Bin>)
    requires forall k :: 0 <= k < |h| ==> h[k].count == 0
    ensures TotalCount(h) == 0
  {
    if h != [] {
      ZeroCountsTotal(h[1..]);
    }
  }

  /** Counting values whose indices are all in range gives counts that sum to their number. */
  lemma {:induction false} TallyTotal(g: Grid, s: seq<real>)
    requires g.Valid()
    requires forall i :: 0 <= i < |s| ==> 0 <= g.Index(s[i]) < g.bins
    ensures TotalCount(Tally(g, s)) == |s|
  {
    if s == [] {
      TotalCountEmpty(g);
    } else {
      var s', v := s[..|s| - 1], s[|s| - 1];
      assert s == s' + [v];
      TallyTotal(g, s');
      var j := g.Index(v);
      TallySnoc(g, s', v);
      TotalCountIncrement(Tally(g, s'), j, Bin(g.Start(j), CountIn(g, s', j) + 1));
    }
  }

  /** The bin counts add up to the number of values: each value is counted exactly once. */
  lemma CountsSumToLength(values: seq<real>, bins: nat)
    requires |values| > 0 && bins >= 1 && SeqMin(values) < SeqMax(values)
    ensures TotalCount(Histogram(values, bins)) == |values|
  {
    var g := GridOf(values, bins);
    forall i | 0 <= i < |values|
      ensures 0 <= g.Index(values[i]) < g.bins
    {
      IndexInRange(values, bins, i);
    }
    TallyTotal(g, values);
  }

  /** A value whose index is k makes CountIn(k) positive. */
  lemma {:induction false} CountInPositive(g: Grid, s: seq<real>, i: nat)
    requires g.Valid() && i < |s|
    ensures CountIn(g, s, g.Index(s[i])) >= 1
  {
    if i < |s| - 1 {
      CountInPositive(g, s[..|s| - 1], i);
    }
  }

  /** The minimum is counted in the first bin and the maximum in the last one. */
  lemma ExtremesCounted(values: seq<real>, bins: nat)
    requires |values| > 0 && bins >= 1 && SeqMin(values) < SeqMax(values)
    ensures GridOf(values, bins).Index(SeqMin(values)) == 0
    ensures GridOf(values, bins).Index(SeqMax(values)) == bins - 1
    ensures Histogram(values, bins)[0].count >= 1
    ensures Histogram(values, bins)[bins - 1].count >= 1
  {
    var g := GridOf(values, bins);
    var lo, hi := SeqMin(values), SeqMax(values);
    SeqMinIsLeast(values);
    SeqMaxIsGreatest(values);
    var i :| 0 <= i < |values| && values[i] == lo;
    var j :| 0 <= j < |values| && values[j] == hi;
    assert g.RawIndex(lo) == 0 by {
      assert (lo - g.lo) / g.width == 0.0;
    }
    CountInPositive(g, values, i);
    MaxInLastBin(values, bins);
    CountInPositive(g, values, j);
  }

  /** Bin k of the histogram starts at min + k * (max - min) / bins and there are bins of them. */
  lemma HistogramLayout(values: seq<real>, bins: nat, k: nat)
    requires |values| > 0 && bins >= 1 && SeqMin(values) < SeqMax(values)
    requires k < bins
    ensures |Histogram(values, bins)| == bins
    ensures Histogram(values, bins)[k].binStart
         == SeqMin(values) + k as real * ((SeqMax(values) - SeqMin(values)) / bins as real)
  {
    var g := GridOf(values, bins);
    TallyStart(g, values, k);
    assert g.lo == SeqMin(values) && g.width == (SeqMax(values) - SeqMin(values)) / bins as real;
  }

  /** Counting never moves a bar: bar k of any tally starts at Start(k). */
  lemma TallyStart(g: Grid, s: seq<real>, k: nat)
    requires g.Valid() && k < g.bins
    ensures |Tally(g, s)| == g.bins && Tally(g, s)[k].binStart == g.Start(k)
  {
  }

  /** Bin k's count is the number of values whose capped index is k. */
  lemma HistogramCount(values: seq<real>, bins: nat, k: nat)
    requires |values| > 0 && bins >= 1 && SeqMin(values) < SeqMax(values)
    requires k < bins
    ensures Histogram(values, bins)[k].count == CountIn(GridOf(values, bins), values, k)
  {
  }

  /**
   * Every value is counted in a bar whose range holds it: the bar starts at or
   * below the value and the next one starts above it, except that the
   * maximum is counted in the last bar, whose upper end it is.
   */
  lemma ValueInCountingBar(values: seq<real>, bins: nat, i: nat)
    requires |values| > 0 && bins >= 1 && SeqMin(values) < SeqMax(values)
    requires i < |values|
    ensures var g := GridOf(values, bins);
      var k := g.Index(values[i]);
      var h := Histogram(values, bins);
      && 0 <= k < bins
      && h[k].binStart <= values[i]
      && (values[i] < h[k].binStart + g.width || (k == bins - 1 && values[i] == SeqMax(values)))
      && h[k].count >= 1
  {
    var g := GridOf(values, bins);
    SeqMinIsLeast(values);
    SeqMaxIsGreatest(values);
    GridSpansValues(values, bins);
    IndexLocatesValue(g, values[i]);
    StartNext(g, g.Index(values[i]));
    CountInPositive(g, values, i);
  }

  /** Values whose first m fall in bin k0 and the rest in bin k1 give counts m and |s| - m. */
  lemma {:induction false} CountInTwoBlocks(g: Grid, s: seq<real>, m: nat, k0: int, k1: int)
    requires g.Valid() && k0 != k1 && m <= |s|
    requires forall i :: 0 <= i < m ==> g.Index(s[i]) == k0
    requires forall i :: m <= i < |s| ==> g.Index(s[i]) == k1
    ensures CountIn(g, s, k0) == m && CountIn(g, s, k1) == |s| - m
  {
    if s != [] {
      var s' := s[..|s| - 1];
      CountInTwoBlocks(g, s', if m == |s| then m - 1 else m, k0, k1);
    }
  }

  /**
   * The values 1, 2, ..., 10 in two bins: the bins start at 1 and 5.5, and
   * 10, whose raw index is 2, is capped into the second bin with 6 to 9.
   */
  lemma OneToTenInTwoBins()
    ensures Histogram(seq(10, i => (i + 1) as real), 2) == [Bin(1.0, 5), Bin(5.5, 5)]
  {
    var s := seq(10, i => (i + 1) as real);
    SeqMinIsLeast(s);
    SeqMaxIsGreatest(s);
    assert SeqMin(s) == 1.0 by { assert s[0] == 1.0; }
    assert SeqMax(s) == 10.0 by { assert s[9] == 10.0; }
    var g := GridOf(s, 2);
    assert g == Grid(1.0, 4.5, 2);
    forall i | 0 <= i < 10
      ensures g.Index(s[i]) == if i < 5 then 0 else 1
    {
      if i < 5 {
        FloorUnique(i as real, 4.5, 0);
      } else if i < 9 {
        FloorUnique(i as real, 4.5, 1);
      } else {
        FloorUnique(i as real, 4.5, 2);
      }
    }
    CountInTwoBlocks(g, s, 5, 0, 1);
  }

  /**
   * Allocates the bins with their start points and zero counts, then counts
   * each value into its bin in place.
   */
  method CreateHistogramData(values: seq<real>, bins: nat := DefaultBins) returns (h: seq<Bin>)
    requires |values| > 0 && bins >= 1 && SeqMin(values) < SeqMax(values)
    ensures h == Histogram(values, bins)
    ensures |h| == bins && TotalCount(h) == |values|
  {
    var lo := SeqMin(values);
    var hi := SeqMax(values);
    var width := (hi - lo) / bins as real;
    var g := Grid(lo, width, bins);
    assert g == GridOf(values, bins);
    var a := new Bin[bins](k => Bin(lo + k as real * width, 0));
    TallyEmpty(g);
    forall k | 0 <= k < bins
      ensures a[k] == Tally(g, [])[k]
    {
      assert a[k] == Bin(g.Start(k), 0);
    }
    assert values[..0] == [];
    assert a[..] == Tally(g, values[..0]);
    for i := 0 to |values|
      invariant a[..] == Tally(g, values[..i])
    {
      IndexInRange(values, bins, i);
      var j := g.Index(values[i]);
      a[j] := a[j].(count := a[j].count + 1);
      TallySnoc(g, values[..i], values[i]);
      assert values[..i + 1] == values[..i] + [values[i]];
    }
    assert values[..|values|] == values;
    h := a[..];
    CountsSumToLength(values, bins);
  }
}
