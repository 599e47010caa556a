/**
  The statistics behind `detect_outliers` and the median fill, over exact
  reals: sorting, pandas' "linear" quantile, the median, the 1.5 x IQR fences
  and the outlier count.
*/
module Stats {

  predicate Sorted(xs: seq<real>) {
    forall i, j :: 0 <= i <= j < |xs| ==> xs[i] <= xs[j]
  }

  /** Insert `x` into a sorted sequence. */
  function Insert(x: real, xs: seq<real>): (r: seq<real>)
    requires Sorted(xs)
    ensures |r| == |xs| + 1
    ensures r[0] == if xs == [] || x <= xs[0] then x else xs[0]
    ensures Sorted(r)
    ensures multiset(r) == multiset(xs) + multiset{x}
  {
    if xs == [] then [x]
    else if x <= xs[0] then [x] + xs
    else
      assert xs == [xs[0]] + xs[1..];
      [xs[0]] + Insert(x, xs[1..])
  }

  /** The values in ascending order. */
  function Sort(xs: seq<real>): (r: seq<real>)
    ensures Sorted(r)
    ensures multiset(r) == multiset(xs)
  {
    if xs == [] then []
    else
      assert xs == [xs[0]] + xs[1..];
      Insert(xs[0], Sort(xs[1..]))
  }

  /** The fraction `f` of a non-negative length `d`. */
  function Scale(f: real, d: real): (s: real)
    requires 0.0 <= f <= 1.0 && 0.0 <= d
    ensures 0.0 <= s <= d
  {
    MulNonneg(d, f);
    MulNonneg(d, 1.0 - f);
    assert d * (1.0 - f) == d - d * f;
    d * f
  }

  lemma MulNonneg(x: real, y: real)
    requires 0.0 <= x && 0.0 <= y
    ensures 0.0 <= x * y
  {
  }

  /** A larger fraction of the same length is larger. */
  lemma ScaleMonotone(f: real, g: real, d: real)
    requires 0.0 <= f <= g <= 1.0 && 0.0 <= d
    ensures Scale(f, d) <= Scale(g, d)
  {
    MulNonneg(d, g - f);
    assert d * (g - f) == d * g - d * f;
  }

  /** Lower order statistic used for the quantile at `p`: floor((n - 1) * p). */
  function Rank(n: nat, p: real): (lo: int)
    requires 0 < n && 0.0 <= p <= 1.0
    ensures 0 <= lo < n
    ensures lo as real <= Scale(p, (n - 1) as real) < lo as real + 1.0
  {
    Scale(p, (n - 1) as real).Floor
  }

  /**
    Quantile at `p` with linear interpolation (pandas' default):
    x[lo] + (h - lo) * (x[lo + 1] - x[lo]) where h = (n - 1) * p, lo = floor(h).
  */
  function Quantile(xs: seq<real>, p: real): (q: real)
    requires |xs| > 0 && Sorted(xs) && 0.0 <= p <= 1.0
    ensures xs[Rank(|xs|, p)] <= q
    ensures Rank(|xs|, p) + 1 < |xs| ==> q <= xs[Rank(|xs|, p) + 1]
    ensures Rank(|xs|, p) + 1 == |xs| ==> q == xs[|xs| - 1]
    ensures xs[0] <= q <= xs[|xs| - 1]
  {
    var h := Scale(p, (|xs| - 1) as real);
    var lo := Rank(|xs|, p);
    assert xs[0] <= xs[lo] <= xs[|xs| - 1];
    if lo + 1 < |xs| then
      assert xs[lo] <= xs[lo + 1] <= xs[|xs| - 1];
      Lerp(xs[lo], xs[lo + 1], h - lo as real)
    else xs[lo]
  }

  /** The point a fraction `f` of the way from `a` to `b`. */
  function Lerp(a: real, b: real, f: real): (r: real)
    requires a <= b && 0.0 <= f <= 1.0
    ensures a <= r <= b
  {
    a + Scale(f, b - a)
  }

  lemma RankMonotone(n: nat, p: real, p': real)
    requires 0 < n && 0.0 <= p <= p' <= 1.0
    ensures Rank(n, p) <= Rank(n, p')
  {
    ScaleMonotone(p, p', (n - 1) as real);
  }

  /** Within one rank the interpolation weight grows with `p`. */
  lemma SameRankMonotone(xs: seq<real>, p: real, p': real)
    requires |xs| > 0 && Sorted(xs) && 0.0 <= p <= p' <= 1.0
    requires Rank(|xs|, p) == Rank(|xs|, p') && Rank(|xs|, p) + 1 < |xs|
    ensures Quantile(xs, p) <= Quantile(xs, p')
  {
    var lo, m := Rank(|xs|, p), (|xs| - 1) as real;
    ScaleMonotone(p, p', m);
    assert xs[lo] <= xs[lo + 1];
    Interpolate(xs[lo], xs[lo + 1], Scale(p, m) - lo as real, Scale(p', m) - lo as real);
  }

  /** Interpolating further along a non-decreasing segment gives a larger value. */
  lemma Interpolate(a: real, b: real, w: real, w': real)
    requires a <= b && 0.0 <= w <= w' <= 1.0
    ensures Lerp(a, b, w) <= Lerp(a, b, w')
  {
    ScaleMonotone(w, w', b - a);
  }

  /** The quantile is monotone in `p`. */
  lemma QuantileMonotone(xs: seq<real>, p: real, p': real)
    requires |xs| > 0 && Sorted(xs) && 0.0 <= p <= p' <= 1.0
    ensures Quantile(xs, p) <= Quantile(xs, p')
  {
    var n := |xs|;
    RankMonotone(n, p, p');
    var lo, lo' := Rank(n, p), Rank(n, p');
    if lo == lo' {
      if lo + 1 < n {
        SameRankMonotone(xs, p, p');
      }
    } else {
      assert Quantile(xs, p) <= xs[lo + 1] <= xs[lo'] <= Quantile(xs, p');
    }
  }

  /**
    The median as pandas computes it: the middle value, or the mean of the two
    middle values when the count is even.
  */
  function Median(xs: seq<real>): (m: real)
    requires |xs| > 0 && Sorted(xs)
    ensures xs[0] <= m <= xs[|xs| - 1]
  {
    var k := |xs| / 2;
    if |xs| % 2 == 1 then xs[k] else (xs[k - 1] + xs[k]) / 2.0
  }

  /** The median is the quantile at one half. */
  lemma MedianIsMidQuantile(xs: seq<real>)
    requires |xs| > 0 && Sorted(xs)
    ensures Median(xs) == Quantile(xs, 0.5)
  {
    var n, k := |xs|, |xs| / 2;
    if n % 2 == 1 {
      assert Scale(0.5, (n - 1) as real) == k as real;
      assert Rank(n, 0.5) == k;
    } else {
      assert Scale(0.5, (n - 1) as real) == (k - 1) as real + 0.5;
      assert Rank(n, 0.5) == k - 1;
    }
  }

  /** The median of unsorted values: that of their sorted order. */
  function MedianOf(vs: seq<real>): (m: real)
    requires |vs| > 0
    ensures exists i :: 0 <= i < |vs| && vs[i] <= m
    ensures exists j :: 0 <= j < |vs| && m <= vs[j]
  {
    var s := Sort(vs);
    assert s[0] in multiset(vs) && s[|s| - 1] in multiset(vs);
    Median(s)
  }

  /** Quartiles and fences of the 1.5 x IQR rule. */
  datatype Fences = Fences(q1: real, q3: real, lower: real, upper: real)

  /** `detect_outliers` lines: q1, q3, iqr = q3 - q1 and the two fences. */
  function FencesOf(xs: seq<real>): (f: Fences)
    requires |xs| > 0
    ensures f.lower <= f.q1 <= f.q3 <= f.upper
    ensures f.q3 - f.q1 >= 0.0
  {
    var s := Sort(xs);
    var q1, q3 := Quantile(s, 0.25), Quantile(s, 0.75);
    QuantileMonotone(s, 0.25, 0.75);
    var iqr := q3 - q1;
    Fences(q1, q3, q1 - 1.5 * iqr, q3 + 1.5 * iqr)
  }

  /** The values strictly below `lower` or strictly above `upper`, in order. */
  function Flagged(xs: seq<real>, lower: real, upper: real): (r: seq<real>)
    ensures |r| <= |xs|
    ensures forall v :: v in r <==> v in xs && (v < lower || v > upper)
    ensures forall v :: multiset(r)[v] == if v < lower || v > upper then multiset(xs)[v] else 0
  {
    if xs == [] then []
    else
      var init, last := xs[..|xs| - 1], xs[|xs| - 1];
      assert xs == init + [last];
      assert multiset(xs) == multiset(init) + multiset{last};
      Flagged(init, lower, upper) + (if last < lower || last > upper then [last] else [])
  }

  /** Positions of the cells strictly outside `[lower, upper]`: the true entries of the mask. */
  function OutsideIndices(xs: seq<real>, lower: real, upper: real): set<int> {
    set i | 0 <= i < |xs| && (xs[i] < lower || xs[i] > upper)
  }

  /** The flagged values are as many as the cells the mask marks. */
  lemma {:induction false} FlaggedCountsCells(xs: seq<real>, lower: real, upper: real)
    ensures |Flagged(xs, lower, upper)| == |OutsideIndices(xs, lower, upper)|
  {
    if xs != [] {
      var n := |xs| - 1;
      FlaggedCountsCells(xs[..n], lower, upper);
      FlaggedSnoc(xs, lower, upper);
      OutsideSnoc(xs, lower, upper);
    }
  }

  lemma FlaggedSnoc(xs: seq<real>, lower: real, upper: real)
    requires xs != []
    ensures var n := |xs| - 1;
            |Flagged(xs, lower, upper)|
            == |Flagged(xs[..n], lower, upper)| + if xs[n] < lower || xs[n] > upper then 1 else 0
  {
  }

  lemma OutsideSnoc(xs: seq<real>, lower: real, upper: real)
    requires xs != []
    ensures var n := |xs| - 1;
            |OutsideIndices(xs, lower, upper)|
            == |OutsideIndices(xs[..n], lower, upper)| + if xs[n] < lower || xs[n] > upper then 1 else 0
  {
    var n := |xs| - 1;
    var init := xs[..n];
    var out := xs[n] < lower || xs[n] > upper;
    var before, after := OutsideIndices(init, lower, upper), OutsideIndices(xs, lower, upper);
    assert n !in before;
    assert after == before + (if out then {n} else {}) by {
      forall i
        ensures i in after <==> i in before || (out && i == n)
      {
        if 0 <= i < n {
          assert init[i] == xs[i];
        }
      }
    }
  }

  /**
    Outlier count over the non-null values of a column: the number of cells
    strictly outside the 1.5 x IQR fences. With no values the quartiles are
    NaN, every comparison is false and the count is 0.
  */
  function DetectOutliers(xs: seq<real>): (n: nat)
    ensures n <= |xs|
    ensures xs == [] ==> n == 0
  {
    if xs == [] then 0
    else
      var f := FencesOf(xs);
      |Flagged(xs, f.lower, f.upper)|
  }

  /**
    `((series < lower) | (series > upper)).sum()` counts cells: the outlier
    count is the number of positions strictly outside the fences.
  */
  lemma OutlierCountIsCells(xs: seq<real>)
    requires xs != []
    ensures var f := FencesOf(xs);
            DetectOutliers(xs) == |OutsideIndices(xs, f.lower, f.upper)|
  {
    var f := FencesOf(xs);
    FlaggedCountsCells(xs, f.lower, f.upper);
  }

  /** No value inside the interquartile range is flagged. */
  lemma InterquartileNotFlagged(xs: seq<real>, v: real)
    requires |xs| > 0
    ensures var f := FencesOf(xs);
            f.q1 <= v <= f.q3 ==> v !in Flagged(xs, f.lower, f.upper)
  {
  }

  /** Sorting values that are already in order leaves them as they are. */
  lemma {:induction false} SortSorted(xs: seq<real>)
    requires Sorted(xs)
    ensures Sort(xs) == xs
  {
    if xs != [] {
      SortSorted(xs[1..]);
    }
  }

  lemma ExampleSorted(xs: seq<real>)
    requires xs == [1.0, 2.0, 3.0, 4.0, 5.0, 100.0]
    ensures Sorted(xs)
  {
  }

  lemma ExampleRanks()
    ensures Rank(6, 0.25) == 1 && Rank(6, 0.75) == 3
  {
    assert Scale(0.25, 5.0) == 1.25;
    assert Scale(0.75, 5.0) == 3.75;
  }

  lemma ExampleQuartiles(xs: seq<real>)
    requires |xs| == 6 && Sorted(xs)
    requires xs[1] == 2.0 && xs[2] == 3.0 && xs[3] == 4.0 && xs[4] == 5.0
    ensures Quantile(xs, 0.25) == 2.25 && Quantile(xs, 0.75) == 4.75
  {
    ExampleRanks();
  }

  /**
    The worked example: on [1, 2, 3, 4, 5, 100] the quartiles are 2.25 and
    4.75, the fences are [-1.5, 8.5] and only 100 is an outlier.
  */
  lemma WorkedExample(xs: seq<real>)
    requires xs == [1.0, 2.0, 3.0, 4.0, 5.0, 100.0]
    ensures FencesOf(xs) == Fences(2.25, 4.75, -1.5, 8.5)
    ensures DetectOutliers(xs) == 1
  {
    ExampleFences(xs);
    ExampleFlagged(xs);
  }

  lemma ExampleFences(xs: seq<real>)
    requires xs == [1.0, 2.0, 3.0, 4.0, 5.0, 100.0]
    ensures FencesOf(xs) == Fences(2.25, 4.75, -1.5, 8.5)
  {
    ExampleSorted(xs);
    SortSorted(xs);
    ExampleQuartiles(xs);
  }

  lemma ExampleFlagged(xs: seq<real>)
    requires xs == [1.0, 2.0, 3.0, 4.0, 5.0, 100.0]
    ensures Flagged(xs, -1.5, 8.5) == [100.0]
  {
    var init := xs[..5];
    assert xs == init + [100.0];
    NoneFlagged(init, -1.5, 8.5);
  }

  lemma NoneFlagged(xs: seq<real>, lower: real, upper: real)
    requires forall i :: 0 <= i < |xs| ==> lower <= xs[i] <= upper
    ensures Flagged(xs, lower, upper) == []
  {
  }
}
