/** Extreme melt years: each basin-year's runoff depth becomes an anomaly
    from the long-term mean and a z-score, the z-score a melt category, and
    the table is sorted by severity. The statistics are taken over the whole
    file. */
module ExtremeMelt {
  import opened Common
  import Order
  import BasinAggregation

  /** A row of `extreme_melt_years.csv`: the basin row and the three added
      columns. */
  datatype MeltRow = MeltRow(
    base: BasinAggregation.BasinRow,
    runoff_anomaly_mm: Option<real>,
    z_score: Option<real>,
    melt_category: string)

  function Depths(rows: seq<BasinAggregation.BasinRow>): (ds: seq<Option<real>>)
    ensures |ds| == |rows| && forall i :: 0 <= i < |rows| ==> ds[i] == rows[i].basin_runoff_mm
  {
    seq(|rows|, i requires 0 <= i < |rows| => rows[i].basin_runoff_mm)
  }

  /** Sum of squared deviations from `m`. */
  function SquaredDeviations(xs: seq<real>, m: real): real {
    if xs == [] then 0.0 else (xs[0] - m) * (xs[0] - m) + SquaredDeviations(xs[1..], m)
  }

  /** The sample (n - 1) variance that `Series.std()` takes the root of. */
  function SampleVariance(xs: seq<real>): real
    requires |xs| >= 2
  {
    SquaredDeviations(xs, Mean(xs)) / ((|xs| - 1) as real)
  }

  /** The standard deviation `s` handed in for the present depths: a square
      root of their sample variance whenever there are at least two. */
  predicate IsSampleStd(xs: seq<real>, s: real) {
    |xs| >= 2 ==> s >= 0.0 && s * s == SampleVariance(xs)
  }

  /** `basin_runoff_mm - mean`; missing when the depth is missing. */
  function Anomaly(v: Option<real>, present: seq<real>): Option<real> {
    if v.None? || |present| == 0 then None else Some(v.value - Mean(present))
  }

  /** `anomaly / std`; missing (NaN) when the anomaly is missing or the
      standard deviation is undefined or zero. */
  function ZScore(a: Option<real>, present: seq<real>, s: real): Option<real> {
    if a.None? || |present| < 2 || s == 0.0 then None else Some(a.value / s)
  }

  /** `classify_melt`. Comparisons with NaN are false, so a missing z-score
      falls through to "Normal". */
  function Classify(z: Option<real>): (c: string)
    ensures c in {"Extreme Melt", "High Melt", "Low Melt", "Normal"}
    ensures c == "Extreme Melt" <==> z.Some? && z.value >= 2.0
    ensures c == "High Melt" <==> z.Some? && 1.0 <= z.value < 2.0
    ensures c == "Low Melt" <==> z.Some? && z.value <= -1.0
    ensures c == "Normal" <==> z.None? || -1.0 < z.value < 1.0
  {
    if z.Some? && z.value >= 2.0 then "Extreme Melt"
    else if z.Some? && z.value >= 1.0 then "High Melt"
    else if z.Some? && z.value <= -1.0 then "Low Melt"
    else "Normal"
  }

  /** Anomaly, z-score and category of one row. */
  function Annotate(r: BasinAggregation.BasinRow, present: seq<real>, s: real): MeltRow {
    var a := Anomaly(r.basin_runoff_mm, present);
    var z := ZScore(a, present, s);
    MeltRow(r, a, z, Classify(z))
  }

  /** The rows in file order with their added columns. */
  function AnnotateAll(rows: seq<BasinAggregation.BasinRow>, s: real): (out: seq<MeltRow>)
    requires IsSampleStd(Present(Depths(rows)), s)
    ensures |out| == |rows|
    ensures forall i :: 0 <= i < |rows| ==> out[i].base == rows[i]
  {
    var present := Present(Depths(rows));
    seq(|rows|, i requires 0 <= i < |rows| => Annotate(rows[i], present, s))
  }

  /** `sort_values("z_score", ascending=False)`: larger z first, missing z
      last. */
  predicate ZDescending(a: MeltRow, b: MeltRow) {
    if a.z_score.Some? && b.z_score.Some? then a.z_score.value >= b.z_score.value
    else a.z_score.None? ==> b.z_score.None?
  }

  lemma ZDescendingIsTotalPreorder()
    ensures Order.IsTotalPreorder(ZDescending)
  {
  }

  /** The stage's output table. */
  function ExtremeMeltTable(rows: seq<BasinAggregation.BasinRow>, s: real): seq<MeltRow>
    requires IsSampleStd(Present(Depths(rows)), s)
  {
    Order.Sort(AnnotateAll(rows, s), ZDescending)
  }

  /** The output is a permutation of the annotated input, in non-increasing
      z-score order with missing z-scores last. */
  lemma ExtremeMeltTableSpec(rows: seq<BasinAggregation.BasinRow>, s: real)
    requires IsSampleStd(Present(Depths(rows)), s)
    ensures multiset(ExtremeMeltTable(rows, s)) == multiset(AnnotateAll(rows, s))
    ensures forall i, j :: 0 <= i < j < |ExtremeMeltTable(rows, s)| ==>
      ZDescending(ExtremeMeltTable(rows, s)[i], ExtremeMeltTable(rows, s)[j])
  {
    ZDescendingIsTotalPreorder();
    Order.SortProps(AnnotateAll(rows, s), ZDescending);
  }

  /** The anomalies that are present. */
  function Anomalies(out: seq<MeltRow>): seq<Option<real>> {
    seq(|out|, i requires 0 <= i < |out| => out[i].runoff_anomaly_mm)
  }

  /** Each present value minus `m`. */
  function Deviations(ds: seq<Option<real>>, m: real): (r: seq<Option<real>>)
    ensures |r| == |ds|
    ensures forall i :: 0 <= i < |ds| ==> r[i] == if ds[i].None? then None else Some(ds[i].value - m)
  {
    if ds == [] then []
    else [if ds[0].None? then None else Some(ds[0].value - m)] + Deviations(ds[1..], m)
  }

  lemma {:induction false} PresentDeviations(ds: seq<Option<real>>, m: real)
    ensures Present(Deviations(ds, m)) == Shift(Present(ds), m)
  {
    if ds != [] {
      var d := Deviations(ds, m);
      PresentDeviations(ds[1..], m);
      assert d[1..] == Deviations(ds[1..], m);
      if ds[0].Some? {
        calc {
          Present(d);
          [ds[0].value - m] + Present(Deviations(ds[1..], m));
          [ds[0].value - m] + Shift(Present(ds[1..]), m);
          Shift([ds[0].value] + Present(ds[1..]), m);
          Shift(Present(ds), m);
        }
      } else {
        calc {
          Present(d);
          Present(Deviations(ds[1..], m));
          Shift(Present(ds[1..]), m);
          Shift(Present(ds), m);
        }
      }
    }
  }

  /** The anomalies are deviations from the mean of all present depths, so
      they sum to zero. */
  lemma AnomaliesSumToZero(rows: seq<BasinAggregation.BasinRow>, s: real)
    requires IsSampleStd(Present(Depths(rows)), s)
    ensures Sum(Present(Anomalies(AnnotateAll(rows, s)))) == 0.0
  {
    var ds := Depths(rows);
    var present := Present(ds);
    if |present| == 0 {
      AnomaliesMissing(rows, s);
      NonePresent(Anomalies(AnnotateAll(rows, s)));
    } else {
      var m := Mean(present);
      AnomaliesAreDeviations(rows, s);
      PresentDeviations(ds, m);
      DeviationsSumToZero(present);
    }
  }

  /** Without any present depth every anomaly is missing. */
  lemma AnomaliesMissing(rows: seq<BasinAggregation.BasinRow>, s: real)
    requires IsSampleStd(Present(Depths(rows)), s) && |Present(Depths(rows))| == 0
    ensures forall i :: 0 <= i < |Anomalies(AnnotateAll(rows, s))| ==> Anomalies(AnnotateAll(rows, s))[i] == None
  {
  }

  /** The anomaly column is the depth column minus the mean present depth. */
  lemma AnomaliesAreDeviations(rows: seq<BasinAggregation.BasinRow>, s: real)
    requires IsSampleStd(Present(Depths(rows)), s) && |Present(Depths(rows))| > 0
    ensures Anomalies(AnnotateAll(rows, s)) == Deviations(Depths(rows), Mean(Present(Depths(rows))))
  {
    var present := Present(Depths(rows));
    var out := AnnotateAll(rows, s);
    var a := Anomalies(out);
    var d := Deviations(Depths(rows), Mean(present));
    assert |a| == |d|;
    forall i | 0 <= i < |a| ensures a[i] == d[i] {
      assert out[i] == Annotate(rows[i], present, s);
      assert a[i] == Anomaly(rows[i].basin_runoff_mm, present);
      assert Depths(rows)[i] == rows[i].basin_runoff_mm;
    }
  }

  lemma {:induction false} NonePresent(xs: seq<Option<real>>)
    requires forall i :: 0 <= i < |xs| ==> xs[i] == None
    ensures Present(xs) == []
  {
    if xs != [] {
      NonePresent(xs[1..]);
    }
  }

  /** With a positive standard deviation, the z-score orders rows exactly as
      their runoff depths do. */
  lemma ZScorePreservesOrder(a: BasinAggregation.BasinRow, b: BasinAggregation.BasinRow, present: seq<real>, s: real)
    requires a.basin_runoff_mm.Some? && b.basin_runoff_mm.Some?
    requires |present| >= 2 && s > 0.0
    ensures var za := Annotate(a, present, s).z_score;
      var zb := Annotate(b, present, s).z_score;
      && za.Some? && zb.Some?
      && (a.basin_runoff_mm.value <= b.basin_runoff_mm.value <==> za.value <= zb.value)
      && (a.basin_runoff_mm.value < b.basin_runoff_mm.value <==> za.value < zb.value)
  {
    var m := Mean(present);
    var x := a.basin_runoff_mm.value - m;
    var y := b.basin_runoff_mm.value - m;
    DivMonotone(x, y, s);
    DivMonotone(y, x, s);
  }

  lemma DivMonotone(x: real, y: real, s: real)
    requires s > 0.0
    ensures x <= y <==> x / s <= y / s
    ensures x < y <==> x / s < y / s
  {
    assert x == (x / s) * s && y == (y / s) * s;
    if x / s <= y / s {
      assert (x / s) * s <= (y / s) * s;
    }
    if x / s < y / s {
      assert (x / s) * s < (y / s) * s;
    }
  }

  /** The category thresholds at their boundaries. */
  lemma ClassifyBoundaries()
    ensures Classify(Some(2.0)) == "Extreme Melt"
    ensures Classify(Some(1.0)) == "High Melt"
    ensures Classify(Some(-1.0)) == "Low Melt"
    ensures Classify(Some(0.0)) == "Normal"
    ensures Classify(None) == "Normal"
  {
  }
}
