/** Future melt projection: a per-glacier baseline climate is drifted year
    by year over 2025..2040 and a trained regressor predicts the mass change
    of every drifted glacier-year. The regressor is a parameter; its
    training rows are modelled, its fitting is not. */
module Projection {
  import opened Common
  import Order
  import MassBalance

  /** The last observed year; drift is measured from it. */
  const BASE_YEAR: nat := 2024
  const FIRST_YEAR: nat := 2025
  const LAST_YEAR: nat := 2040

  /** What fitting the regressor on no training rows raises. */
  const EMPTY_FIT: string := "ValueError: Found array with 0 sample(s) (shape=(0, 4)) while a minimum of 1 is required by RandomForestRegressor."

  /** `model.predict` on the columns `area_km2, temp_mean, prec_mean,
      srad_mean`, in that order. */
  type Predictor = (real, real, real, real) -> real

  // ---------------------------------------------------------------------
  // Training rows
  // ---------------------------------------------------------------------

  /** `df[(df["year"] >= 2000) & (df["year"] <= 2024)]`, in table order. */
  function TrainingRows(rows: seq<MassBalance.MlRow>): (t: seq<MassBalance.MlRow>)
    ensures |t| <= |rows|
  {
    if rows == [] then []
    else (if 2000 <= rows[0].year <= 2024 then [rows[0]] else []) + TrainingRows(rows[1..])
  }

  /** The training rows are exactly the rows observed in 2000..2024. */
  lemma {:induction false} TrainingRowsMembers(rows: seq<MassBalance.MlRow>)
    ensures forall r :: r in TrainingRows(rows) <==> r in rows && 2000 <= r.year <= 2024
  {
    if rows != [] {
      TrainingRowsMembers(rows[1..]);
      assert forall r :: r in rows <==> r == rows[0] || r in rows[1..];
    }
  }

  /** The filter leaves nothing exactly when no row lies in 2000..2024. */
  lemma NoTrainingRows(rows: seq<MassBalance.MlRow>)
    ensures TrainingRows(rows) == [] <==> forall i :: 0 <= i < |rows| ==> !(2000 <= rows[i].year <= 2024)
  {
    TrainingRowsMembers(rows);
    if TrainingRows(rows) != [] {
      var r := TrainingRows(rows)[0];
      assert r in TrainingRows(rows);
    }
    if exists i :: 0 <= i < |rows| && 2000 <= rows[i].year <= 2024 {
      var i :| 0 <= i < |rows| && 2000 <= rows[i].year <= 2024;
      assert rows[i] in TrainingRows(rows);
    }
  }

  // ---------------------------------------------------------------------
  // Baseline
  // ---------------------------------------------------------------------

  /** A row of the baseline table: one glacier's starting climate. */
  datatype BaseRow = BaseRow(
    glacier_id: string,
    area_km2: real,
    temp_mean: real,
    prec_mean: real,
    srad_mean: real)

  function Ids(rows: seq<MassBalance.MlRow>): (ids: seq<string>)
    ensures |ids| == |rows| && forall i :: 0 <= i < |rows| ==> ids[i] == rows[i].glacier_id
  {
    seq(|rows|, i requires 0 <= i < |rows| => rows[i].glacier_id)
  }

  /** The rows of glacier `g`, in table order. */
  function OfGlacier(rows: seq<MassBalance.MlRow>, g: string): (ms: seq<MassBalance.MlRow>)
    ensures |ms| <= |rows|
    ensures forall r :: r in ms <==> r in rows && r.glacier_id == g
  {
    if rows == [] then []
    else
      assert forall r :: r in rows <==> r == rows[0] || r in rows[1..];
      (if rows[0].glacier_id == g then [rows[0]] else []) + OfGlacier(rows[1..], g)
  }

  /** A column of a group of rows. */
  function Column(ms: seq<MassBalance.MlRow>, f: MassBalance.MlRow -> real): (vs: seq<real>)
    ensures |vs| == |ms| && forall i :: 0 <= i < |ms| ==> vs[i] == f(ms[i])
  {
    seq(|ms|, i requires 0 <= i < |ms| => f(ms[i]))
  }

  function Temp(r: MassBalance.MlRow): real { r.temp_mean }
  function Prec(r: MassBalance.MlRow): real { r.prec_mean }
  function Srad(r: MassBalance.MlRow): real { r.srad_mean }

  /** The `first` aggregation: the area on glacier `g`'s first row. */
  function FirstArea(rows: seq<MassBalance.MlRow>, g: string): (a: real)
    requires exists i :: 0 <= i < |rows| && rows[i].glacier_id == g
    ensures exists i :: 0 <= i < |rows| && rows[i].glacier_id == g && a == rows[i].area_km2
                     && forall j :: 0 <= j < i ==> rows[j].glacier_id != g
  {
    if rows[0].glacier_id == g then rows[0].area_km2
    else
      var i :| 0 <= i < |rows| && rows[i].glacier_id == g;
      assert rows[1..][i - 1].glacier_id == g;
      var a := FirstArea(rows[1..], g);
      var k :| 0 <= k < |rows[1..]| && rows[1..][k].glacier_id == g && a == rows[1..][k].area_km2
             && forall j :: 0 <= j < k ==> rows[1..][j].glacier_id != g;
      assert rows[k + 1].glacier_id == g && forall j :: 0 <= j < k + 1 ==> rows[j].glacier_id != g by {
        forall j | 0 <= j < k + 1 ensures rows[j].glacier_id != g {
          if j > 0 {
            assert rows[j] == rows[1..][j - 1];
          }
        }
      }
      a
  }

  /** A glacier of the file has rows, the first of which gives its area. */
  lemma HasRows(rows: seq<MassBalance.MlRow>, g: string)
    requires g in Ids(rows)
    ensures exists i :: 0 <= i < |rows| && rows[i].glacier_id == g
    ensures |OfGlacier(rows, g)| > 0
  {
    var i :| 0 <= i < |rows| && Ids(rows)[i] == g;
    assert rows[i] in OfGlacier(rows, g);
  }

  /** One glacier's baseline: first area, mean climate over all its rows. */
  function BaselineRow(rows: seq<MassBalance.MlRow>, g: string): BaseRow
    requires g in Ids(rows)
  {
    HasRows(rows, g);
    var ms := OfGlacier(rows, g);
    BaseRow(g, FirstArea(rows, g), Mean(Column(ms, Temp)), Mean(Column(ms, Prec)), Mean(Column(ms, Srad)))
  }

  /** The distinct glacier IDs of the file, ascending. */
  function GlacierKeys(rows: seq<MassBalance.MlRow>): (keys: seq<string>)
    ensures forall j :: 0 <= j < |keys| ==> keys[j] in Ids(rows)
  {
    Order.StrLessIsStrictTotal();
    Order.SortedKeysProps(Ids(rows), Order.StrLess);
    var keys := Order.SortedKeys(Ids(rows), Order.StrLess);
    assert forall j :: 0 <= j < |keys| ==> keys[j] in keys;
    keys
  }

  /** `df.groupby("glacier_id").agg(...).reset_index()` over every row of the
      file (not only the training years): one row per glacier, ascending by
      ID. */
  function Baseline(rows: seq<MassBalance.MlRow>): (b: seq<BaseRow>)
    ensures |b| == |GlacierKeys(rows)|
    ensures forall j :: 0 <= j < |b| ==> b[j] == BaselineRow(rows, GlacierKeys(rows)[j])
  {
    var keys := GlacierKeys(rows);
    seq(|keys|, j requires 0 <= j < |keys| => BaselineRow(rows, keys[j]))
  }

  /** The baseline is strictly ascending by glacier ID. */
  lemma BaselineAscending(rows: seq<MassBalance.MlRow>)
    ensures var b := Baseline(rows);
      forall j, k :: 0 <= j < k < |b| ==> Order.StrLess(b[j].glacier_id, b[k].glacier_id)
  {
    Order.StrLessIsStrictTotal();
    Order.SortedKeysProps(Ids(rows), Order.StrLess);
  }

  /** Every glacier of the file has a baseline row, and every baseline row
      is a glacier of the file. */
  lemma BaselineCovers(rows: seq<MassBalance.MlRow>)
    ensures var b := Baseline(rows);
      && (forall j :: 0 <= j < |b| ==> exists i :: 0 <= i < |rows| && rows[i].glacier_id == b[j].glacier_id)
      && (forall r :: r in rows ==> exists j :: 0 <= j < |b| && b[j].glacier_id == r.glacier_id)
  {
    var keys := GlacierKeys(rows);
    var b := Baseline(rows);
    forall j | 0 <= j < |b| ensures exists i :: 0 <= i < |rows| && rows[i].glacier_id == b[j].glacier_id {
      HasRows(rows, keys[j]);
    }
    forall r | r in rows ensures exists j :: 0 <= j < |b| && b[j].glacier_id == r.glacier_id {
      var i :| 0 <= i < |rows| && rows[i] == r;
      assert Ids(rows)[i] == r.glacier_id;
      KeyListed(rows, r.glacier_id);
      var j :| 0 <= j < |keys| && keys[j] == r.glacier_id;
      assert b[j].glacier_id == r.glacier_id;
    }
  }

  lemma KeyListed(rows: seq<MassBalance.MlRow>, g: string)
    requires g in Ids(rows)
    ensures g in GlacierKeys(rows)
  {
    Order.StrLessIsStrictTotal();
    Order.SortedKeysProps(Ids(rows), Order.StrLess);
  }

  /** A baseline row's area is its glacier's area on the glacier's first
      row, and its climate columns are means over all the glacier's rows,
      whatever their year. */
  lemma BaselineAt(rows: seq<MassBalance.MlRow>, j: nat)
    requires j < |Baseline(rows)|
    ensures var b := Baseline(rows)[j];
      var ms := OfGlacier(rows, b.glacier_id);
      && |ms| > 0
      && (forall r :: r in ms <==> r in rows && r.glacier_id == b.glacier_id)
      && (exists i :: 0 <= i < |rows| && rows[i].glacier_id == b.glacier_id
                   && b.area_km2 == rows[i].area_km2
                   && forall i' :: 0 <= i' < i ==> rows[i'].glacier_id != b.glacier_id)
      && b.temp_mean == Mean(Column(ms, Temp))
      && b.prec_mean == Mean(Column(ms, Prec))
      && b.srad_mean == Mean(Column(ms, Srad))
  {
    HasRows(rows, GlacierKeys(rows)[j]);
  }

  // ---------------------------------------------------------------------
  // Scenario drift
  // ---------------------------------------------------------------------

  /** A row of `future_melt_projection.csv`: the baseline columns, then the
      scenario year and the prediction. */
  datatype FutureRow = FutureRow(
    glacier_id: string,
    area_km2: real,
    temp_mean: real,
    prec_mean: real,
    srad_mean: real,
    year: nat,
    predicted_melt: real)

  /** The scenario for `year`: +0.04 degrees, +0.2 % precipitation and
      +0.1 % radiation per year after 2024, applied to the baseline. */
  function Drift(b: BaseRow, year: nat): BaseRow {
    var dy := (year - BASE_YEAR) as real;
    b.(temp_mean := b.temp_mean + 0.04 * dy,
       prec_mean := b.prec_mean * (1.0 + 0.002 * dy),
       srad_mean := b.srad_mean * (1.0 + 0.001 * dy))
  }

  /** A drifted row with its year and the prediction on its own features. */
  function Predicted(d: BaseRow, year: nat, predict: Predictor): FutureRow {
    FutureRow(d.glacier_id, d.area_km2, d.temp_mean, d.prec_mean, d.srad_mean, year,
              predict(d.area_km2, d.temp_mean, d.prec_mean, d.srad_mean))
  }

  /** The block appended for one scenario year. */
  function YearBlock(baseline: seq<BaseRow>, year: nat, predict: Predictor): (blk: seq<FutureRow>)
    ensures |blk| == |baseline|
    ensures forall i :: 0 <= i < |baseline| ==> blk[i] == Predicted(Drift(baseline[i], year), year, predict)
  {
    seq(|baseline|, i requires 0 <= i < |baseline| => Predicted(Drift(baseline[i], year), year, predict))
  }

  /** The blocks of the years `FIRST_YEAR .. until - 1`, concatenated in year
      order (`pd.concat(projections, ignore_index=True)`). */
  function Blocks(baseline: seq<BaseRow>, predict: Predictor, until: nat): seq<FutureRow>
    requires FIRST_YEAR <= until
    decreases until
  {
    if until == FIRST_YEAR then [] else Blocks(baseline, predict, until - 1) + YearBlock(baseline, until - 1, predict)
  }

  /** The whole projection table. */
  function FutureTable(baseline: seq<BaseRow>, predict: Predictor): seq<FutureRow> {
    Blocks(baseline, predict, LAST_YEAR + 1)
  }

  lemma {:induction false} BlocksLength(baseline: seq<BaseRow>, predict: Predictor, until: nat)
    requires FIRST_YEAR <= until
    ensures |Blocks(baseline, predict, until)| == (until - FIRST_YEAR) * |baseline|
    decreases until
  {
    if until > FIRST_YEAR {
      BlocksLength(baseline, predict, until - 1);
      assert (until - FIRST_YEAR) * |baseline| == (until - 1 - FIRST_YEAR) * |baseline| + |baseline|;
    }
  }

  lemma {:induction false} BlocksAt(baseline: seq<BaseRow>, predict: Predictor, until: nat, k: nat, i: nat)
    requires FIRST_YEAR <= until && k < until - FIRST_YEAR && i < |baseline|
    ensures k * |baseline| + i < |Blocks(baseline, predict, until)|
    ensures Blocks(baseline, predict, until)[k * |baseline| + i]
      == Predicted(Drift(baseline[i], FIRST_YEAR + k), FIRST_YEAR + k, predict)
    decreases until
  {
    var n := |baseline|;
    BlocksLength(baseline, predict, until);
    BlocksLength(baseline, predict, until - 1);
    if k < until - 1 - FIRST_YEAR {
      BlocksAt(baseline, predict, until - 1, k, i);
    } else {
      assert k * n + i == (until - 1 - FIRST_YEAR) * n + i;
    }
  }

  lemma {:induction false} BlocksYears(baseline: seq<BaseRow>, predict: Predictor, until: nat)
    requires FIRST_YEAR <= until
    ensures forall t :: 0 <= t < |Blocks(baseline, predict, until)| ==>
      FIRST_YEAR <= Blocks(baseline, predict, until)[t].year < until
    decreases until
  {
    if until > FIRST_YEAR {
      BlocksYears(baseline, predict, until - 1);
      var prev := Blocks(baseline, predict, until - 1);
      var blk := YearBlock(baseline, until - 1, predict);
      assert Blocks(baseline, predict, until) == prev + blk;
      assert forall t :: |prev| <= t < |prev| + |blk| ==> (prev + blk)[t] == blk[t - |prev|];
    }
  }

  /** Sixteen blocks of one row per baseline glacier, every row in a
      scenario year 2025..2040. */
  lemma FutureTableShape(baseline: seq<BaseRow>, predict: Predictor)
    ensures |FutureTable(baseline, predict)| == 16 * |baseline|
    ensures forall t :: 0 <= t < |FutureTable(baseline, predict)| ==>
      FIRST_YEAR <= FutureTable(baseline, predict)[t].year <= LAST_YEAR
  {
    BlocksLength(baseline, predict, LAST_YEAR + 1);
    BlocksYears(baseline, predict, LAST_YEAR + 1);
  }

  /** Position `k * n + i` of the table is glacier `i` of the baseline in
      year `2025 + k`, drifted and predicted. */
  lemma FutureTableAt(baseline: seq<BaseRow>, predict: Predictor, k: nat, i: nat)
    requires k < 16 && i < |baseline|
    ensures k * |baseline| + i < |FutureTable(baseline, predict)|
    ensures FutureTable(baseline, predict)[k * |baseline| + i]
      == Predicted(Drift(baseline[i], FIRST_YEAR + k), FIRST_YEAR + k, predict)
  {
    BlocksAt(baseline, predict, LAST_YEAR + 1, k, i);
  }

  /** A projected row keeps the glacier and its area, shifts the climate by
      `year - 2024` years of drift measured from the baseline (the drift
      does not compound from one year to the next), and predicts on exactly
      the drifted features. */
  lemma PredictedDrift(b: BaseRow, year: nat, predict: Predictor)
    requires FIRST_YEAR <= year
    ensures var f := Predicted(Drift(b, year), year, predict);
      var dy := (year - BASE_YEAR) as real;
      && f.glacier_id == b.glacier_id && f.area_km2 == b.area_km2 && f.year == year
      && f.temp_mean == b.temp_mean + 0.04 * dy
      && f.prec_mean == b.prec_mean * (1.0 + 0.002 * dy)
      && f.srad_mean == b.srad_mean * (1.0 + 0.001 * dy)
      && f.predicted_melt == predict(f.area_km2, f.temp_mean, f.prec_mean, f.srad_mean)
  {
  }

  // ---------------------------------------------------------------------
  // The scenario loop
  // ---------------------------------------------------------------------

  /** `future = baseline.copy()` followed by the in-place `+=` and `*=`
      updates of the three climate columns. */
  method DriftInPlace(future: array<BaseRow>, year: nat)
    modifies future
    ensures future[..] == seq(future.Length, i requires 0 <= i < future.Length => Drift(old(future[i]), year))
  {
    var dy := (year - BASE_YEAR) as real;
    var temp_inc := 0.04 * dy;
    var prec_inc := 0.002 * dy;
    var srad_inc := 0.001 * dy;
    var i := 0;
    while i < future.Length
      invariant 0 <= i <= future.Length
      invariant forall j :: 0 <= j < i ==> future[j] == Drift(old(future[j]), year)
      invariant forall j :: i <= j < future.Length ==> future[j] == old(future[j])
    {
      var r := future[i];
      future[i] := r.(temp_mean := r.temp_mean + temp_inc,
                      prec_mean := r.prec_mean * (1.0 + prec_inc),
                      srad_mean := r.srad_mean * (1.0 + srad_inc));
      i := i + 1;
    }
  }

  /** The loop over 2025..2040. Each year starts from a fresh copy of the
      baseline, so the baseline itself is never written and no year's drift
      carries into the next. */
  method ProjectFuture(baseline: array<BaseRow>, predict: Predictor) returns (projections: seq<FutureRow>)
    ensures projections == FutureTable(baseline[..], predict)
  {
    projections := [];
    var year := FIRST_YEAR;
    while year <= LAST_YEAR
      invariant FIRST_YEAR <= year <= LAST_YEAR + 1
      invariant projections == Blocks(baseline[..], predict, year)
    {
      var future := new BaseRow[baseline.Length](i reads baseline => if 0 <= i < baseline.Length then baseline[i] else BaseRow("", 0.0, 0.0, 0.0, 0.0));
      assert future[..] == baseline[..];
      DriftInPlace(future, year);
      var block := new FutureRow[future.Length](i reads future => if 0 <= i < future.Length then Predicted(future[i], year, predict) else FutureRow("", 0.0, 0.0, 0.0, 0.0, 0, 0.0));
      assert block[..] == YearBlock(baseline[..], year, predict);
      projections := projections + block[..];
      year := year + 1;
    }
  }

  /** The stage. Fitting on no training rows raises; otherwise the
      baseline comes from the whole file and feeds the scenario loop. */
  method FutureMeltProjection(rows: seq<MassBalance.MlRow>, predict: Predictor) returns (out: Result<seq<FutureRow>>)
    ensures out.Err? <==> forall i :: 0 <= i < |rows| ==> !(2000 <= rows[i].year <= 2024)
    ensures out.Ok? ==> out.value == FutureTable(Baseline(rows), predict)
  {
    NoTrainingRows(rows);
    if TrainingRows(rows) == [] {
      return Err(EMPTY_FIT);
    }
    var baseline := BaselineArray(Baseline(rows));
    var projections := ProjectFuture(baseline, predict);
    assert baseline[..] == Baseline(rows);
    out := Ok(projections);
  }

  /** The baseline table as a new array. */
  method BaselineArray(b: seq<BaseRow>) returns (baseline: array<BaseRow>)
    ensures fresh(baseline) && baseline[..] == b
  {
    baseline := new BaseRow[|b|](i requires 0 <= i < |b| => b[i]);
  }
}
