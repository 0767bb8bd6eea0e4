/** Pure part of the clap detector in hooks/useClappingDetection.ts: the
    loudness test over a band of frequency bins, the sliding window of clap
    timestamps, and the interval-variance test that decides whether the claps
    in the window form a steady rhythm.

    The source computes an average and a standard deviation in floating
    point. Here the loudness test is the exact integer comparison
    `sum > 120 * binCount`, and the rhythm test compares the population
    variance (an exact `real`) with 300 * 300 instead of comparing its square
    root with 300; lemmas below justify both substitutions. */
module Rhythm {

  /** One frequency bin as the analyser's byte array holds it. */
  newtype uint8 = x: int | 0 <= x < 256

  const ClapThreshold: int := 120
  const PeakMargin: int := 50
  const ClapCooldown: int := 200
  const RhythmicWindow: int := 4000
  const RhythmicMinClaps: int := 3
  const RhythmicMaxStdDev: int := 300

  // ---------------------------------------------------------------------
  // Loudness of one band of bins
  // ---------------------------------------------------------------------

  /** Sum of the bins, accumulated left to right. */
  function Sum(bins: seq<uint8>): (r: int)
    ensures 0 <= r <= 255 * |bins|
  {
    if bins == [] then 0 else Sum(bins[..|bins| - 1]) + bins[|bins| - 1] as int
  }

  /** `Math.max` folded over the bins, starting from 0. */
  function Peak(bins: seq<uint8>): (r: int)
    ensures 0 <= r < 256
    ensures forall i :: 0 <= i < |bins| ==> bins[i] as int <= r
    ensures r == 0 || exists i :: 0 <= i < |bins| && bins[i] as int == r
  {
    if bins == [] then 0
    else
      var m := Peak(bins[..|bins| - 1]);
      if bins[|bins| - 1] as int > m then bins[|bins| - 1] as int else m
  }

  /** The "loud enough" test: the band average exceeds the threshold, or one
      bin exceeds the threshold plus the peak margin. For an empty band the
      source divides 0 by 0 and compares NaN, which is false; the integer form
      gives false as well. */
  predicate Loud(bins: seq<uint8>)
    ensures Loud(bins) ==> exists i :: 0 <= i < |bins| && bins[i] as int > ClapThreshold
  {
    SumAboveHasLoudBin(bins);
    Sum(bins) > ClapThreshold * |bins| || Peak(bins) > ClapThreshold + PeakMargin
  }

  /** A band whose sum exceeds the threshold times its size has a bin above
      the threshold. */
  lemma {:induction false} SumAboveHasLoudBin(bins: seq<uint8>)
    ensures Sum(bins) > ClapThreshold * |bins| ==>
      exists i :: 0 <= i < |bins| && bins[i] as int > ClapThreshold
  {
    if bins != [] {
      var init := bins[..|bins| - 1];
      SumAboveHasLoudBin(init);
      if Sum(bins) > ClapThreshold * |bins| && bins[|bins| - 1] as int <= ClapThreshold {
        var i :| 0 <= i < |init| && init[i] as int > ClapThreshold;
        assert bins[i] == init[i];
      }
    }
  }

  /** Dividing by a positive count and comparing is comparing before the
      division. */
  lemma DivAbove(x: real, n: real, c: real)
    requires n > 0.0
    ensures x / n > c <==> x > c * n
    ensures x / n < c <==> x < c * n
  {
    var q := x / n;
    assert q * n == x;
    assert (q - c) * n == x - c * n;
  }

  /** The integer form of the test agrees with the source's division. */
  lemma LoudMatchesAverage(bins: seq<uint8>)
    requires |bins| > 0
    ensures Loud(bins) <==>
      (Sum(bins) as real / |bins| as real > ClapThreshold as real
       || Peak(bins) > ClapThreshold + PeakMargin)
  {
    DivAbove(Sum(bins) as real, |bins| as real, ClapThreshold as real);
    assert (ClapThreshold * |bins|) as real == ClapThreshold as real * |bins| as real;
  }

  /** The accumulation loop over the bins lo .. hi-1 of the analyser's array. */
  method BandLevel(data: array<uint8>, lo: nat, hi: nat) returns (sum: int, max: int)
    requires lo <= hi <= data.Length
    ensures sum == Sum(data[lo..hi]) && max == Peak(data[lo..hi])
    ensures 0 <= sum <= 255 * (hi - lo) && 0 <= max < 256
  {
    sum, max := 0, 0;
    for i := lo to hi
      invariant sum == Sum(data[lo..i]) && max == Peak(data[lo..i])
    {
      assert data[lo..i + 1][..i - lo] == data[lo..i];
      sum := sum + data[i] as int;
      max := if data[i] as int > max then data[i] as int else max;
    }
  }

  // ---------------------------------------------------------------------
  // The window of clap timestamps
  // ---------------------------------------------------------------------

  /** Consecutive timestamps lie more than one cooldown apart. */
  predicate Spaced(w: seq<int>)
  {
    forall i :: 0 < i < |w| ==> w[i] - w[i - 1] > ClapCooldown
  }

  /** In a spaced window, entries j - i places apart lie at least
      (ClapCooldown + 1) * (j - i) milliseconds apart. */
  lemma {:induction false} SpacedGrowth(w: seq<int>, i: int, j: int)
    requires Spaced(w) && 0 <= i <= j < |w|
    ensures w[j] - w[i] >= (ClapCooldown + 1) * (j - i)
    decreases j - i
  {
    if i < j {
      SpacedGrowth(w, i, j - 1);
      assert w[j] - w[j - 1] > ClapCooldown;
    }
  }

  /** The filter `now - t < RHYTHMIC_WINDOW`, keeping the order of the kept
      entries. */
  function Evict(w: seq<int>, now: int): (r: seq<int>)
    ensures forall t :: t in r <==> t in w && now - t < RhythmicWindow
    ensures |r| <= |w|
  {
    if w == [] then []
    else (if now - w[0] < RhythmicWindow then [w[0]] else []) + Evict(w[1..], now)
  }

  /** Number of leading entries that the eviction drops. */
  function StaleCount(w: seq<int>, now: int): (k: nat)
    ensures k <= |w|
    ensures forall j :: 0 <= j < k ==> now - w[j] >= RhythmicWindow
    ensures k < |w| ==> now - w[k] < RhythmicWindow
  {
    if w == [] || now - w[0] < RhythmicWindow then 0 else 1 + StaleCount(w[1..], now)
  }

  lemma {:induction false} EvictKeepsFresh(w: seq<int>, now: int)
    requires forall j :: 0 <= j < |w| ==> now - w[j] < RhythmicWindow
    ensures Evict(w, now) == w
  {
    if w != [] {
      EvictKeepsFresh(w[1..], now);
    }
  }

  /** Since a spaced window is in time order, the eviction drops a prefix: what
      remains is a suffix of the window, in the original order. */
  lemma {:induction false} EvictIsSuffix(w: seq<int>, now: int)
    requires Spaced(w)
    ensures Evict(w, now) == w[StaleCount(w, now)..]
  {
    if w != [] {
      if now - w[0] < RhythmicWindow {
        forall j | 0 <= j < |w| ensures now - w[j] < RhythmicWindow {
          SpacedGrowth(w, 0, j);
        }
        EvictKeepsFresh(w, now);
      } else {
        EvictIsSuffix(w[1..], now);
        assert w[1..][StaleCount(w[1..], now)..] == w[1 + StaleCount(w[1..], now)..];
      }
    }
  }

  /** A spaced window whose entries all lie in the 4000 ms before `now` holds
      at most 20 timestamps. */
  lemma WindowAtMostTwenty(w: seq<int>, now: int)
    requires Spaced(w)
    requires forall j :: 0 <= j < |w| ==> w[j] <= now && now - w[j] < RhythmicWindow
    ensures |w| <= 20
  {
    if |w| > 0 {
      SpacedGrowth(w, 0, |w| - 1);
    }
  }

  // ---------------------------------------------------------------------
  // The interval-variance test
  // ---------------------------------------------------------------------

  /** The consecutive differences between the timestamps of a window. */
  function Gaps(w: seq<int>): seq<int>
  {
    if |w| == 0 then []
    else seq(|w| - 1, i requires 0 <= i < |w| - 1 => w[i + 1] - w[i])
  }

  /** `intervals.reduce((a, b) => a + b, 0)`. */
  function Total(d: seq<int>): int
  {
    if d == [] then 0 else Total(d[..|d| - 1]) + d[|d| - 1]
  }

  function Mean(d: seq<int>): real
    requires |d| > 0
  {
    Total(d) as real / |d| as real
  }

  /** Sum of squared deviations from `m`, accumulated left to right. */
  function SquaredDeviation(d: seq<int>, m: real): (r: real)
    ensures r >= 0.0
  {
    if d == [] then 0.0
    else SquaredDeviation(d[..|d| - 1], m) + Deviation2(d[|d| - 1], m)
  }

  /** Squared deviation of one interval from `m`. */
  function Deviation2(x: int, m: real): (r: real)
    ensures r >= 0.0
  {
    (x as real - m) * (x as real - m)
  }

  /** Population variance: the divisor is the number of intervals. */
  function Variance(d: seq<int>): real
    requires |d| > 0
  {
    SquaredDeviation(d, Mean(d)) / |d| as real
  }

  /** The verdict: at least three claps, and a standard deviation of the
      intervals below 300 ms, that is a variance below 300 * 300. */
  predicate Rhythmic(w: seq<int>)
  {
    |w| >= RhythmicMinClaps
    && Variance(Gaps(w)) < (RhythmicMaxStdDev * RhythmicMaxStdDev) as real
  }

  /** A standard deviation is the non-negative root of the variance; for any
      such root, comparing it with 300 is comparing the variance with 90000. */
  lemma StdDevBelowLimit(variance: real, stdDev: real)
    requires stdDev >= 0.0 && stdDev * stdDev == variance
    ensures stdDev < RhythmicMaxStdDev as real <==>
      variance < (RhythmicMaxStdDev * RhythmicMaxStdDev) as real
  {
    var l := RhythmicMaxStdDev as real;
    if stdDev < l {
      assert stdDev * stdDev <= stdDev * l;
      assert stdDev * l < l * l;
    } else {
      assert stdDev * stdDev >= stdDev * l;
      assert stdDev * l >= l * l;
    }
  }

  /** The loop that builds the consecutive intervals of a window. */
  method Intervals(w: seq<int>) returns (d: seq<int>)
    requires |w| > 0
    ensures d == Gaps(w)
    ensures |d| == |w| - 1 && forall i :: 0 <= i < |d| ==> d[i] == w[i + 1] - w[i]
  {
    d := [];
    for i := 1 to |w|
      invariant |d| == i - 1
      invariant forall k :: 0 <= k < i - 1 ==> d[k] == w[k + 1] - w[k]
    {
      d := d + [w[i] - w[i - 1]];
    }
  }

  /** The rhythm check run on a window of at least three claps: mean of the
      intervals, population variance, and the comparison with the limit. */
  method RhythmTest(w: seq<int>) returns (rhythmic: bool)
    requires |w| >= RhythmicMinClaps
    ensures rhythmic == Rhythmic(w)
  {
    var intervals := Intervals(w);
    var total := 0;
    for i := 0 to |intervals|
      invariant total == Total(intervals[..i])
    {
      assert intervals[..i + 1][..i] == intervals[..i];
      total := total + intervals[i];
    }
    assert intervals[..|intervals|] == intervals;
    var avgInterval := total as real / |intervals| as real;
    var squares := 0.0;
    for i := 0 to |intervals|
      invariant squares == SquaredDeviation(intervals[..i], avgInterval)
    {
      assert intervals[..i + 1][..i] == intervals[..i];
      squares := squares + Deviation2(intervals[i], avgInterval);
    }
    assert intervals[..|intervals|] == intervals;
    var variance := squares / |intervals| as real;
    assert variance == Variance(Gaps(w));
    // stdDev < 300 exactly when variance < 300 * 300 (StdDevBelowLimit)
    rhythmic := variance < (RhythmicMaxStdDev * RhythmicMaxStdDev) as real;
  }

  // ---------------------------------------------------------------------
  // Exact integer form of the variance test
  // ---------------------------------------------------------------------

  /** Sum of (n * d[i] - s)^2, in integers. */
  function ScaledSquares(d: seq<int>, n: int, s: int): int
  {
    if d == [] then 0
    else ScaledSquares(d[..|d| - 1], n, s) + (n * d[|d| - 1] - s) * (n * d[|d| - 1] - s)
  }

  lemma CastProduct(a: int, b: int)
    ensures (a * b) as real == a as real * b as real
  {
  }

  /** One term: n·x − s is n times the deviation of x from s / n. */
  lemma ScaledTerm(n: int, s: int, x: int)
    requires n > 0
    ensures ((n * x - s) * (n * x - s)) as real == (n * n) as real * Deviation2(x, s as real / n as real)
  {
    var nr := n as real;
    var a := x as real - s as real / nr;
    assert s as real / nr * nr == s as real;
    CastProduct(n, x);
    assert (n * x - s) as real == nr * a;
    CastProduct(n * x - s, n * x - s);
    CastProduct(n, n);
    assert (nr * a) * (nr * a) == (nr * nr) * (a * a);
  }

  lemma {:induction false} ScaledSquaresScale(d: seq<int>, n: int, s: int)
    requires n > 0
    ensures ScaledSquares(d, n, s) as real
         == (n * n) as real * SquaredDeviation(d, s as real / n as real)
  {
    if d != [] {
      var init, x := d[..|d| - 1], d[|d| - 1];
      var m := s as real / n as real;
      var k := (n * n) as real;
      ScaledSquaresScale(init, n, s);
      ScaledTerm(n, s, x);
      var a, b := SquaredDeviation(init, m), Deviation2(x, m);
      var t := (n * x - s) * (n * x - s);
      assert SquaredDeviation(d, m) == a + b;
      assert ScaledSquares(d, n, s) == ScaledSquares(init, n, s) + t;
      assert ScaledSquares(d, n, s) as real == k * a + k * b;
      assert k * (a + b) == k * a + k * b;
    }
  }

  /** The comparison of a mean q / n with a limit, multiplied through by n³. */
  lemma ScaledComparison(q: real, n: int, lim: int)
    requires n > 0
    ensures q / n as real < lim as real <==> (n * n) as real * q < (lim * n * n * n) as real
  {
    var nr := n as real;
    DivAbove(q, nr, lim as real);
    CastProduct(n, n);
    CastProduct(lim * n * n, n);
    CastProduct(lim * n, n);
    CastProduct(lim, n);
    assert nr * nr > 0.0 by {
      MulLess(nr, 0.0, nr);
    }
    MulLess(nr * nr, q, lim as real * nr);
    assert (nr * nr) * (lim as real * nr) == lim as real * nr * nr * nr;
  }

  /** With n intervals summing to S, the window is rhythmic exactly when
      Σ (n·dᵢ − S)² < 90000 · n³, a test with no division and no root. */
  lemma RhythmicIntegerForm(w: seq<int>)
    requires |w| >= RhythmicMinClaps
    ensures var n := |w| - 1;
      Rhythmic(w) <==>
        ScaledSquares(Gaps(w), n, Total(Gaps(w)))
          < RhythmicMaxStdDev * RhythmicMaxStdDev * n * n * n
  {
    var d := Gaps(w);
    var n := |w| - 1;
    assert |d| == n;
    var q := SquaredDeviation(d, Mean(d));
    assert Variance(d) == q / n as real;
    ScaledSquaresScale(d, n, Total(d));
    ScaledComparison(q, n, RhythmicMaxStdDev * RhythmicMaxStdDev);
  }

  /** Multiplying both sides by a positive factor keeps a strict comparison. */
  lemma MulLess(k: real, a: real, b: real)
    requires k > 0.0
    ensures a < b <==> k * a < k * b
  {
    assert k * b - k * a == k * (b - a);
  }

  // ---------------------------------------------------------------------
  // Verdicts on particular windows
  // ---------------------------------------------------------------------

  lemma {:induction false} TotalOfConstant(d: seq<int>, g: int)
    requires forall i :: 0 <= i < |d| ==> d[i] == g
    ensures Total(d) == |d| * g
  {
    if d != [] {
      TotalOfConstant(d[..|d| - 1], g);
    }
  }

  lemma {:induction false} NoDeviationFromConstant(d: seq<int>, g: int)
    requires forall i :: 0 <= i < |d| ==> d[i] == g
    ensures SquaredDeviation(d, g as real) == 0.0
  {
    if d != [] {
      NoDeviationFromConstant(d[..|d| - 1], g);
    }
  }

  /** Three or more claps at equal spacing are always a rhythm. */
  lemma EvenlySpacedIsRhythmic(w: seq<int>, g: int)
    requires |w| >= RhythmicMinClaps
    requires forall i :: 0 < i < |w| ==> w[i] - w[i - 1] == g
    ensures Rhythmic(w)
  {
    var d := Gaps(w);
    assert forall i :: 0 <= i < |d| ==> d[i] == g by {
      forall i | 0 <= i < |d| ensures d[i] == g {
        assert d[i] == w[i + 1] - w[i];
      }
    }
    TotalOfConstant(d, g);
    assert Mean(d) == (|d| * g) as real / |d| as real;
    assert Mean(d) == g as real;
    NoDeviationFromConstant(d, g);
  }

  /** Claps at 0, 500 and 1000 ms: intervals 500 and 500, a rhythm. */
  lemma SteadyClapsAreRhythmic()
    ensures Rhythmic([0, 500, 1000])
  {
    EvenlySpacedIsRhythmic([0, 500, 1000], 500);
  }

  /** Claps at 0, 500 and 2400 ms: intervals 500 and 1900, variance 490000
      (a standard deviation of 700), no rhythm. */
  lemma UnsteadyClapsAreNotRhythmic()
    ensures Variance(Gaps([0, 500, 2400])) == 490000.0
    ensures !Rhythmic([0, 500, 2400])
  {
    var d := Gaps([0, 500, 2400]);
    assert d == [500, 1900];
    assert Total(d) == 2400 by {
      assert d[..1] == [500];
      assert [500][..0] == [];
    }
    assert Mean(d) == 1200.0;
    assert SquaredDeviation(d, 1200.0) == 980000.0 by {
      assert d[..1] == [500];
      assert [500][..0] == [];
    }
  }

  /** Claps at 0, 300 and 1200 ms: intervals 300 and 900, a standard deviation
      of exactly 300, which the strict comparison does not count as a rhythm. */
  lemma BoundaryClapsAreNotRhythmic()
    ensures Variance(Gaps([0, 300, 1200])) == 90000.0
    ensures !Rhythmic([0, 300, 1200])
  {
    var d := Gaps([0, 300, 1200]);
    assert d == [300, 900];
    assert Total(d) == 1200 by {
      assert d[..1] == [300];
      assert [300][..0] == [];
    }
    assert Mean(d) == 600.0;
    assert SquaredDeviation(d, 600.0) == 180000.0 by {
      assert d[..1] == [300];
      assert [300][..0] == [];
    }
  }
}
