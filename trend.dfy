/** Long-term runoff trend: a degree-1 least-squares fit of the basin
    runoff depth against the year, over every row of the file, reduced to
    its slope and the sign of that slope. */
module Trend {
  import opened Common
  import BasinAggregation

  /** A fitted point: (year, basin_runoff_mm). */
  type Point = (real, real)

  /** Sum of `f` over the points. */
  function SumOf(pts: seq<Point>, f: Point -> real): real {
    if pts == [] then 0.0 else f(pts[0]) + SumOf(pts[1..], f)
  }

  lemma {:induction false} SumOfAppend(a: seq<Point>, b: seq<Point>, f: Point -> real)
    ensures SumOf(a + b, f) == SumOf(a, f) + SumOf(b, f)
  {
    if a == [] {
      assert a + b == b;
    } else {
      assert (a + b)[1..] == a[1..] + b;
      SumOfAppend(a[1..], b, f);
    }
  }

  /** The sum depends only on the multiset of points, not their order. */
  lemma {:induction false} SumOfPermutation(a: seq<Point>, b: seq<Point>, f: Point -> real)
    requires multiset(a) == multiset(b)
    ensures SumOf(a, f) == SumOf(b, f)
  {
    if a == [] {
      assert |b| == |multiset(b)| == 0;
    } else {
      assert a[0] in multiset(b);
      var k :| 0 <= k < |b| && b[k] == a[0];
      var rest := b[..k] + b[k + 1..];
      RemoveOne(a, b, k);
      SumOfPermutation(a[1..], rest, f);
      SumOfRemove(b, k, f);
    }
  }

  /** Taking the matching point out of both sides keeps them permutations. */
  lemma RemoveOne(a: seq<Point>, b: seq<Point>, k: nat)
    requires multiset(a) == multiset(b) && a != [] && k < |b| && b[k] == a[0]
    ensures multiset(a[1..]) == multiset(b[..k] + b[k + 1..])
  {
    assert b == b[..k] + [b[k]] + b[k + 1..];
    assert a == [a[0]] + a[1..];
    assert multiset(b) == multiset(b[..k]) + multiset{b[k]} + multiset(b[k + 1..]);
    assert multiset(a) == multiset{a[0]} + multiset(a[1..]);
    assert multiset(b[..k] + b[k + 1..]) == multiset(b[..k]) + multiset(b[k + 1..]);
    assert multiset(a[1..]) == multiset(a) - multiset{a[0]};
  }

  /** The sum is one point plus the sum of the others. */
  lemma SumOfRemove(b: seq<Point>, k: nat, f: Point -> real)
    requires k < |b|
    ensures SumOf(b, f) == f(b[k]) + SumOf(b[..k] + b[k + 1..], f)
  {
    assert b == b[..k] + [b[k]] + b[k + 1..];
    SumOfAppend(b[..k] + [b[k]], b[k + 1..], f);
    SumOfAppend(b[..k], [b[k]], f);
    SumOfAppend(b[..k], b[k + 1..], f);
    assert SumOf([b[k]], f) == f(b[k]) by {
      assert [b[k]][1..] == [];
    }
  }

  /** Pointwise sums add. */
  lemma {:induction false} SumOfAdd(pts: seq<Point>, f: Point -> real, g: Point -> real, h: Point -> real)
    requires forall i :: 0 <= i < |pts| ==> f(pts[i]) == g(pts[i]) + h(pts[i])
    ensures SumOf(pts, f) == SumOf(pts, g) + SumOf(pts, h)
  {
    if pts != [] {
      SumOfAdd(pts[1..], f, g, h);
    }
  }

  /** A constant factor comes out of the sum. */
  lemma {:induction false} SumOfScale(pts: seq<Point>, f: Point -> real, g: Point -> real, k: real)
    requires forall i :: 0 <= i < |pts| ==> f(pts[i]) == k * g(pts[i])
    ensures SumOf(pts, f) == k * SumOf(pts, g)
  {
    if pts != [] {
      SumOfScale(pts[1..], f, g, k);
    }
  }

  /** A constant summed over the points. */
  lemma {:induction false} SumOfConst(pts: seq<Point>, f: Point -> real, c: real)
    requires forall i :: 0 <= i < |pts| ==> f(pts[i]) == c
    ensures SumOf(pts, f) == (|pts| as real) * c
  {
    if pts != [] {
      SumOfConst(pts[1..], f, c);
    }
  }

  /** Non-negative terms give a non-negative sum, and a positive one among
      them a positive sum. */
  lemma {:induction false} SumOfPositive(pts: seq<Point>, f: Point -> real, k: nat)
    requires forall i :: 0 <= i < |pts| ==> f(pts[i]) >= 0.0
    ensures SumOf(pts, f) >= 0.0
    ensures k < |pts| && f(pts[k]) > 0.0 ==> SumOf(pts, f) > 0.0
  {
    if pts != [] {
      SumOfPositive(pts[1..], f, if k == 0 then 0 else k - 1);
    }
  }

  function X(p: Point): real { p.0 }

  function Y(p: Point): real { p.1 }

  function MeanX(pts: seq<Point>): real
    requires |pts| > 0
  {
    SumOf(pts, X) / (|pts| as real)
  }

  function MeanY(pts: seq<Point>): real
    requires |pts| > 0
  {
    SumOf(pts, Y) / (|pts| as real)
  }

  /** `x - mx` */
  function DevX(mx: real): Point -> real {
    (p: Point) => p.0 - mx
  }

  function Sq(d: real): real { d * d }

  /** `(x - mx)^2` */
  function SqDevX(mx: real): Point -> real {
    (p: Point) => Sq(p.0 - mx)
  }

  /** `(x - mx) * (y - c)` */
  function Cross(mx: real, c: real): Point -> real {
    (p: Point) => (p.0 - mx) * (p.1 - c)
  }

  /** Σ(x − x̄)² */
  function Sxx(pts: seq<Point>): real
    requires |pts| > 0
  {
    SumOf(pts, SqDevX(MeanX(pts)))
  }

  /** Σ(x − x̄)(y − ȳ) */
  function Sxy(pts: seq<Point>): real
    requires |pts| > 0
  {
    SumOf(pts, Cross(MeanX(pts), MeanY(pts)))
  }

  /** At least two points lie at different years. */
  predicate TwoYears(pts: seq<Point>) {
    exists i, j :: 0 <= i < |pts| && 0 <= j < |pts| && pts[i].0 != pts[j].0
  }

  /** The slope of `np.polyfit(years, runoff, 1)`: the closed-form
      least-squares value Σ(x − x̄)(y − ȳ) / Σ(x − x̄)². */
  function Slope(pts: seq<Point>): real
    requires TwoYears(pts)
  {
    SxxPositive(pts);
    Sxy(pts) / Sxx(pts)
  }

  /** The deviations from the mean year sum to zero. */
  lemma DevXSumsToZero(pts: seq<Point>)
    requires |pts| > 0
    ensures SumOf(pts, DevX(MeanX(pts))) == 0.0
  {
    var mx := MeanX(pts);
    var c := (p: Point) => mx;
    SumOfAdd(pts, X, DevX(mx), c);
    SumOfConst(pts, c, mx);
  }

  /** With two distinct years some year lies strictly above the mean and
      some strictly below it. */
  lemma YearsAroundMean(pts: seq<Point>)
    requires TwoYears(pts)
    ensures exists i :: 0 <= i < |pts| && pts[i].0 > MeanX(pts)
    ensures exists i :: 0 <= i < |pts| && pts[i].0 < MeanX(pts)
  {
    var mx := MeanX(pts);
    var i, j :| 0 <= i < |pts| && 0 <= j < |pts| && pts[i].0 != pts[j].0;
    var k := if pts[i].0 != mx then i else j;
    assert pts[k].0 != mx;
    DevXSumsToZero(pts);
    var neg := (p: Point) => mx - p.0;
    SumOfScale(pts, neg, DevX(mx), -1.0);
    if !exists a :: 0 <= a < |pts| && pts[a].0 > mx {
      SumOfPositive(pts, neg, k);
    }
    if !exists a :: 0 <= a < |pts| && pts[a].0 < mx {
      SumOfPositive(pts, DevX(mx), k);
    }
  }

  /** The denominator of the slope is positive exactly when there are two
      distinct years, so `TwoYears` is precisely where the fit is unique. */
  lemma SxxPositive(pts: seq<Point>)
    requires |pts| > 0
    ensures Sxx(pts) >= 0.0
    ensures Sxx(pts) > 0.0 <==> TwoYears(pts)
  {
    var mx := MeanX(pts);
    var f := SqDevX(mx);
    forall i | 0 <= i < |pts|
      ensures f(pts[i]) >= 0.0
    {
      SqDevSign(pts[i], mx);
    }
    if TwoYears(pts) {
      YearsAroundMean(pts);
      var k :| 0 <= k < |pts| && pts[k].0 > mx;
      SqDevPositive(pts[k], mx);
      SumOfPositive(pts, f, k);
    } else {
      SameYears(pts);
    }
  }

  lemma SqDevSign(p: Point, mx: real)
    ensures SqDevX(mx)(p) >= 0.0
  {
    if p.0 > mx {
      SqDevPositive(p, mx);
    } else {
      NonPositiveProduct(p.0 - mx, p.0 - mx);
    }
  }

  lemma SqDevPositive(p: Point, mx: real)
    requires p.0 > mx
    ensures SqDevX(mx)(p) > 0.0
  {
    SqPositive(p.0 - mx);
  }

  lemma SqPositive(d: real)
    requires d > 0.0
    ensures Sq(d) > 0.0
  {
    calc {
      Sq(d);
      d * d;
    >
      { PositiveProduct(d, d); }
      0.0;
    }
  }

  /** Without two distinct years every year is the mean year, and the
      denominator vanishes. */
  lemma SameYears(pts: seq<Point>)
    requires |pts| > 0 && !TwoYears(pts)
    ensures Sxx(pts) == 0.0
  {
    var y := pts[0].0;
    assert forall i :: 0 <= i < |pts| ==> pts[i].0 == y;
    SumOfConst(pts, X, y);
    var mx := MeanX(pts);
    assert mx == y;
    SumOfConst(pts, SqDevX(mx), 0.0);
  }

  /** Sums of functions that agree on the points are equal. */
  lemma {:induction false} SumOfEqual(pts: seq<Point>, f: Point -> real, g: Point -> real)
    requires forall i :: 0 <= i < |pts| ==> f(pts[i]) == g(pts[i])
    ensures SumOf(pts, f) == SumOf(pts, g)
  {
    if pts != [] {
      SumOfEqual(pts[1..], f, g);
    }
  }

  /** The numerator does not depend on which constant is subtracted from
      the runoff, since the year deviations sum to zero. */
  lemma SxyAnyCentre(pts: seq<Point>, c: real)
    requires |pts| > 0
    ensures Sxy(pts) == SumOf(pts, Cross(MeanX(pts), c))
  {
    var mx := MeanX(pts);
    var my := MeanY(pts);
    CrossSplit(pts, mx, my, c);
    DevXSumsToZero(pts);
  }

  /** Re-centring the runoff at `c` adds the centre shift times the summed
      year deviations. */
  lemma CrossSplit(pts: seq<Point>, mx: real, my: real, c: real)
    ensures SumOf(pts, Cross(mx, my)) == SumOf(pts, Cross(mx, c)) + (c - my) * SumOf(pts, DevX(mx))
  {
    CrossSum(pts, mx, my, c);
    ScaledDevXSum(pts, mx, c - my);
  }

  /** `k * (x - mx)` */
  function ScaledDevX(mx: real, k: real): Point -> real {
    (p: Point) => k * (p.0 - mx)
  }

  lemma CrossSum(pts: seq<Point>, mx: real, my: real, c: real)
    ensures SumOf(pts, Cross(mx, my)) == SumOf(pts, Cross(mx, c)) + SumOf(pts, ScaledDevX(mx, c - my))
  {
    forall i | 0 <= i < |pts|
      ensures Cross(mx, my)(pts[i]) == Cross(mx, c)(pts[i]) + ScaledDevX(mx, c - my)(pts[i])
    {
      var p := pts[i];
      CrossShift(p.0 - mx, p.1, my, c);
    }
    SumOfAdd(pts, Cross(mx, my), Cross(mx, c), ScaledDevX(mx, c - my));
  }

  lemma {:induction false} ScaledDevXSum(pts: seq<Point>, mx: real, k: real)
    ensures SumOf(pts, ScaledDevX(mx, k)) == k * SumOf(pts, DevX(mx))
  {
    if pts != [] {
      ScaledDevXSum(pts[1..], mx, k);
      assert ScaledDevX(mx, k)(pts[0]) == k * DevX(mx)(pts[0]);
    }
  }

  /** Moving the centre of the runoff moves the cross term linearly. */
  lemma CrossShift(d: real, y: real, my: real, c: real)
    ensures d * (y - my) == d * (y - c) + (c - my) * d
  {
    assert d * (y - my) == d * y - d * my;
    assert d * (y - c) == d * y - d * c;
    assert (c - my) * d == c * d - my * d;
  }

  /** The fit does not depend on the order of the rows. */
  lemma SlopePermutation(a: seq<Point>, b: seq<Point>)
    requires multiset(a) == multiset(b) && TwoYears(a)
    ensures TwoYears(b) && Slope(a) == Slope(b)
  {
    assert |a| == |multiset(a)| == |multiset(b)| == |b|;
    SumOfPermutation(a, b, X);
    SumOfPermutation(a, b, Y);
    SumOfPermutation(a, b, SqDevX(MeanX(a)));
    SumOfPermutation(a, b, Cross(MeanX(a), MeanY(a)));
    SxxPositive(a);
    SxxPositive(b);
  }

  /** Runoff rises with the year across every pair of points. */
  predicate Increasing(pts: seq<Point>) {
    forall i, j :: 0 <= i < |pts| && 0 <= j < |pts| && pts[i].0 < pts[j].0 ==> pts[i].1 < pts[j].1
  }

  /** Runoff falls with the year across every pair of points. */
  predicate Decreasing(pts: seq<Point>) {
    forall i, j :: 0 <= i < |pts| && 0 <= j < |pts| && pts[i].0 < pts[j].0 ==> pts[i].1 > pts[j].1
  }

  /** The runoff values at or below year `mx`. */
  function LowYs(pts: seq<Point>, mx: real): (ys: seq<real>)
    ensures forall i :: 0 <= i < |pts| && pts[i].0 <= mx ==> pts[i].1 in ys
    ensures forall v :: v in ys ==> exists i :: 0 <= i < |pts| && pts[i].0 <= mx && pts[i].1 == v
  {
    if pts == [] then []
    else
      var rest := LowYs(pts[1..], mx);
      assert forall i :: 1 <= i < |pts| ==> pts[i] == pts[1..][i - 1];
      if pts[0].0 <= mx then [pts[0].1] + rest else rest
  }

  /** Strictly increasing runoff gives a positive numerator. The runoff is
      centred at the largest value among years not above the mean, so every
      term of the numerator is non-negative and a year above the mean makes
      one positive. */
  lemma IncreasingNumerator(pts: seq<Point>)
    requires TwoYears(pts) && Increasing(pts)
    ensures Sxy(pts) > 0.0
  {
    var mx := MeanX(pts);
    YearsAroundMean(pts);
    var lo :| 0 <= lo < |pts| && pts[lo].0 < mx;
    var hi :| 0 <= hi < |pts| && pts[hi].0 > mx;
    LowExtremes(pts, mx, lo);
    var c := MaxOf(LowYs(pts, mx));
    forall i | 0 <= i < |pts|
      ensures Cross(mx, c)(pts[i]) >= 0.0 && (i == hi ==> Cross(mx, c)(pts[i]) > 0.0)
    {
      IncreasingTerm(pts, mx, c, i);
    }
    SumOfPositive(pts, Cross(mx, c), hi);
    SxyAnyCentre(pts, c);
  }

  /** Strictly decreasing runoff gives a negative numerator, by the mirror
      argument centred at the smallest value among years not above the
      mean. */
  lemma DecreasingNumerator(pts: seq<Point>)
    requires TwoYears(pts) && Decreasing(pts)
    ensures Sxy(pts) < 0.0
  {
    var mx := MeanX(pts);
    YearsAroundMean(pts);
    var lo :| 0 <= lo < |pts| && pts[lo].0 < mx;
    var hi :| 0 <= hi < |pts| && pts[hi].0 > mx;
    LowExtremes(pts, mx, lo);
    var c := MinOf(LowYs(pts, mx));
    var f := Mirror(mx, c);
    forall i | 0 <= i < |pts|
      ensures f(pts[i]) >= 0.0 && (i == hi ==> f(pts[i]) > 0.0)
    {
      DecreasingTerm(pts, mx, c, i);
    }
    SumOfPositive(pts, f, hi);
    SumOfMirror(pts, mx, c);
    SxyAnyCentre(pts, c);
  }

  lemma SumOfMirror(pts: seq<Point>, mx: real, c: real)
    ensures SumOf(pts, Mirror(mx, c)) == -1.0 * SumOf(pts, Cross(mx, c))
  {
    forall i | 0 <= i < |pts|
      ensures Mirror(mx, c)(pts[i]) == -1.0 * Cross(mx, c)(pts[i])
    {
      MirrorIsNegatedCross(pts[i], mx, c);
    }
    SumOfScale(pts, Mirror(mx, c), Cross(mx, c), -1.0);
  }

  lemma MirrorIsNegatedCross(p: Point, mx: real, c: real)
    ensures Mirror(mx, c)(p) == -1.0 * Cross(mx, c)(p)
  {
  }

  lemma IncreasingSlope(pts: seq<Point>)
    requires TwoYears(pts) && Increasing(pts)
    ensures Slope(pts) > 0.0
  {
    IncreasingNumerator(pts);
    SxxPositive(pts);
    PositiveRatio(Sxy(pts), Sxx(pts));
  }

  lemma DecreasingSlope(pts: seq<Point>)
    requires TwoYears(pts) && Decreasing(pts)
    ensures Slope(pts) < 0.0
  {
    DecreasingNumerator(pts);
    SxxPositive(pts);
    PositiveRatio(-Sxy(pts), Sxx(pts));
    assert Slope(pts) == -(-Sxy(pts) / Sxx(pts));
  }

  /** The largest and the smallest runoff among years not above `mx`. */
  lemma LowExtremes(pts: seq<Point>, mx: real, lo: nat)
    requires lo < |pts| && pts[lo].0 <= mx
    ensures var low := LowYs(pts, mx);
      && |low| > 0
      && (forall j :: 0 <= j < |pts| && pts[j].0 <= mx ==> MinOf(low) <= pts[j].1 <= MaxOf(low))
      && (exists j :: 0 <= j < |pts| && pts[j].0 <= mx && pts[j].1 == MaxOf(low))
      && (exists j :: 0 <= j < |pts| && pts[j].0 <= mx && pts[j].1 == MinOf(low))
  {
    var low := LowYs(pts, mx);
    assert pts[lo].1 in low;
    forall j | 0 <= j < |pts| && pts[j].0 <= mx
      ensures MinOf(low) <= pts[j].1 <= MaxOf(low)
    {
      assert pts[j].1 in low;
      var a :| 0 <= a < |low| && low[a] == pts[j].1;
    }
    var a :| 0 <= a < |low| && low[a] == MaxOf(low);
    assert low[a] in low;
    var b :| 0 <= b < |low| && low[b] == MinOf(low);
    assert low[b] in low;
  }

  /** One term of the centred numerator for increasing runoff. */
  lemma IncreasingTerm(pts: seq<Point>, mx: real, c: real, i: nat)
    requires Increasing(pts) && i < |pts|
    requires forall j :: 0 <= j < |pts| && pts[j].0 <= mx ==> pts[j].1 <= c
    requires exists j :: 0 <= j < |pts| && pts[j].0 <= mx && pts[j].1 == c
    ensures Cross(mx, c)(pts[i]) >= 0.0
    ensures pts[i].0 > mx ==> Cross(mx, c)(pts[i]) > 0.0
  {
    var j :| 0 <= j < |pts| && pts[j].0 <= mx && pts[j].1 == c;
    if pts[i].0 > mx {
      assert pts[j].0 < pts[i].0;
      CrossAbove(pts[i], mx, c);
    } else {
      CrossBelow(pts[i], mx, c);
    }
  }

  /** `(x - mx) * (c - y)`, the mirrored term. */
  function Mirror(mx: real, c: real): Point -> real {
    (p: Point) => (p.0 - mx) * (c - p.1)
  }

  /** One term of the mirrored numerator for decreasing runoff. */
  lemma DecreasingTerm(pts: seq<Point>, mx: real, c: real, i: nat)
    requires Decreasing(pts) && i < |pts|
    requires forall j :: 0 <= j < |pts| && pts[j].0 <= mx ==> c <= pts[j].1
    requires exists j :: 0 <= j < |pts| && pts[j].0 <= mx && pts[j].1 == c
    ensures Mirror(mx, c)(pts[i]) >= 0.0
    ensures pts[i].0 > mx ==> Mirror(mx, c)(pts[i]) > 0.0
  {
    var j :| 0 <= j < |pts| && pts[j].0 <= mx && pts[j].1 == c;
    if pts[i].0 > mx {
      assert pts[j].0 < pts[i].0;
      MirrorAbove(pts[i], mx, c);
    } else {
      MirrorBelow(pts[i], mx, c);
    }
  }

  lemma CrossAbove(p: Point, mx: real, c: real)
    requires p.0 > mx && p.1 > c
    ensures Cross(mx, c)(p) > 0.0
  {
    PositiveProduct(p.0 - mx, p.1 - c);
  }

  lemma CrossBelow(p: Point, mx: real, c: real)
    requires p.0 <= mx && p.1 <= c
    ensures Cross(mx, c)(p) >= 0.0
  {
    NonPositiveProduct(p.0 - mx, p.1 - c);
  }

  lemma MirrorAbove(p: Point, mx: real, c: real)
    requires p.0 > mx && p.1 < c
    ensures Mirror(mx, c)(p) > 0.0
  {
    PositiveProduct(p.0 - mx, c - p.1);
  }

  lemma MirrorBelow(p: Point, mx: real, c: real)
    requires p.0 <= mx && p.1 >= c
    ensures Mirror(mx, c)(p) >= 0.0
  {
    NonPositiveProduct(p.0 - mx, c - p.1);
  }

  lemma PositiveProduct(a: real, b: real)
    requires a > 0.0 && b > 0.0
    ensures a * b > 0.0
  {
  }

  lemma NonPositiveProduct(a: real, b: real)
    requires a <= 0.0 && b <= 0.0
    ensures a * b >= 0.0
  {
    assert a * b == (-a) * (-b);
  }

  lemma PositiveRatio(a: real, b: real)
    requires a > 0.0 && b > 0.0
    ensures a / b > 0.0
  {
    assert (a / b) * b == a;
  }

  /** The single row of `glacier_runoff_trend.csv`. */
  datatype TrendRow = TrendRow(
    basin: string,
    start_year: nat,
    end_year: nat,
    runoff_trend_mm_per_year: real,
    trend_type: string)

  /** `"Increasing" if slope > 0 else "Decreasing"`: a flat fit is labelled
      decreasing. */
  function TrendType(slope: real): (t: string)
    ensures t == "Increasing" <==> slope > 0.0
    ensures t == "Decreasing" <==> slope <= 0.0
  {
    if slope > 0.0 then "Increasing" else "Decreasing"
  }

  function MinYear(rows: seq<BasinAggregation.BasinRow>): (y: nat)
    requires |rows| > 0
    ensures forall i :: 0 <= i < |rows| ==> y <= rows[i].year
    ensures exists i :: 0 <= i < |rows| && rows[i].year == y
  {
    if |rows| == 1 then rows[0].year
    else
      var rest := MinYear(rows[1..]);
      assert forall i :: 1 <= i < |rows| ==> rows[i] == rows[1..][i - 1];
      if rows[0].year <= rest then rows[0].year else rest
  }

  function MaxYear(rows: seq<BasinAggregation.BasinRow>): (y: nat)
    requires |rows| > 0
    ensures forall i :: 0 <= i < |rows| ==> rows[i].year <= y
    ensures exists i :: 0 <= i < |rows| && rows[i].year == y
  {
    if |rows| == 1 then rows[0].year
    else
      var rest := MaxYear(rows[1..]);
      assert forall i :: 1 <= i < |rows| ==> rows[i] == rows[1..][i - 1];
      if rows[0].year >= rest then rows[0].year else rest
  }

  /** Every row has a runoff depth. */
  predicate AllPresent(rows: seq<BasinAggregation.BasinRow>) {
    forall i :: 0 <= i < |rows| ==> rows[i].basin_runoff_mm.Some?
  }

  /** The fitted points, one per row in file order, whatever the basin. */
  function Points(rows: seq<BasinAggregation.BasinRow>): (pts: seq<Point>)
    requires AllPresent(rows)
    ensures |pts| == |rows|
    ensures forall i :: 0 <= i < |rows| ==> pts[i] == (rows[i].year as real, rows[i].basin_runoff_mm.value)
  {
    seq(|rows|, i requires 0 <= i < |rows| => (rows[i].year as real, rows[i].basin_runoff_mm.value))
  }

  /** The stage. The fit is refused when a runoff depth is missing or when
      fewer than two distinct years leave the slope undetermined. */
  function TrendStage(rows: seq<BasinAggregation.BasinRow>): (r: Result<TrendRow>)
    ensures r.Ok? <==> AllPresent(rows) && TwoYears(Points(rows))
  {
    if !AllPresent(rows) then Err("missing basin_runoff_mm")
    else
      var pts := Points(rows);
      if !TwoYears(pts) then Err("fewer than two distinct years")
      else
        var slope := Slope(pts);
        Ok(TrendRow(rows[0].basin, MinYear(rows), MaxYear(rows), slope, TrendType(slope)))
  }

  /** The one result row: the first row's basin, the year range of the whole
      file, the least-squares slope and its label. */
  lemma TrendStageSpec(rows: seq<BasinAggregation.BasinRow>)
    requires TrendStage(rows).Ok?
    ensures var t := TrendStage(rows).value;
      && |rows| > 0
      && t.basin == rows[0].basin
      && (forall i :: 0 <= i < |rows| ==> t.start_year <= rows[i].year <= t.end_year)
      && (exists i :: 0 <= i < |rows| && rows[i].year == t.start_year)
      && (exists i :: 0 <= i < |rows| && rows[i].year == t.end_year)
      && t.start_year < t.end_year
      && t.runoff_trend_mm_per_year == Slope(Points(rows))
      && (t.trend_type == "Increasing" <==> t.runoff_trend_mm_per_year > 0.0)
  {
    var pts := Points(rows);
    var i, j :| 0 <= i < |pts| && 0 <= j < |pts| && pts[i].0 != pts[j].0;
    assert rows[i].year != rows[j].year;
  }

  /** Runoff rising with the year is labelled "Increasing" and runoff falling
      with it "Decreasing". */
  lemma TrendOfMonotoneRunoff(rows: seq<BasinAggregation.BasinRow>)
    requires TrendStage(rows).Ok?
    ensures Increasing(Points(rows)) ==> TrendStage(rows).value.trend_type == "Increasing"
    ensures Decreasing(Points(rows)) ==> TrendStage(rows).value.trend_type == "Decreasing"
  {
    if Increasing(Points(rows)) {
      IncreasingSlope(Points(rows));
    }
    if Decreasing(Points(rows)) {
      DecreasingSlope(Points(rows));
    }
  }
}
