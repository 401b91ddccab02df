/** Explainability: the fitted regressor's feature importances, sorted, and
    a one-feature-at-a-time partial-effect sweep around the mean feature
    vector. The regressor (its importances and its prediction) and the
    5 % / 95 % quantiles of each feature are parameters. */
module Explain {
  import opened Common
  import Order
  import MassBalance

  /** The regressor's input columns, in order. */
  const FEATURES: seq<string> := ["temp_mean", "prec_mean", "srad_mean", "area_km2"]

  /** Points per feature in the sweep. */
  const STEPS: nat := 20

  /** `model.predict` on one feature vector laid out as `FEATURES`. */
  type VectorPredictor = seq<real> -> real

  /** The value of feature `f` (an index into `FEATURES`) on a row. */
  function FeatureValue(r: MassBalance.MlRow, f: nat): real
    requires f < |FEATURES|
  {
    if f == 0 then r.temp_mean
    else if f == 1 then r.prec_mean
    else if f == 2 then r.srad_mean
    else r.area_km2
  }

  /** One column of `X = df[FEATURES]`. */
  function FeatureColumn(rows: seq<MassBalance.MlRow>, f: nat): (col: seq<real>)
    requires f < |FEATURES|
    ensures |col| == |rows| && forall i :: 0 <= i < |rows| ==> col[i] == FeatureValue(rows[i], f)
  {
    seq(|rows|, i requires 0 <= i < |rows| => FeatureValue(rows[i], f))
  }

  /** `X.mean().values`: the column means, laid out as `FEATURES`. */
  function Means(rows: seq<MassBalance.MlRow>): (m: seq<real>)
    requires |rows| > 0
    ensures |m| == |FEATURES|
    ensures forall f :: 0 <= f < |FEATURES| ==> m[f] == Mean(FeatureColumn(rows, f))
  {
    seq(|FEATURES|, f requires 0 <= f < |FEATURES| => Mean(FeatureColumn(rows, f)))
  }

  // ---------------------------------------------------------------------
  // Feature importance
  // ---------------------------------------------------------------------

  /** A row of `feature_importance.csv`. */
  datatype ImportanceRow = ImportanceRow(feature: string, importance: real)

  /** The unsorted frame: one row per feature, in `FEATURES` order. */
  function ImportanceRows(importances: seq<real>): (rows: seq<ImportanceRow>)
    requires |importances| == |FEATURES|
    ensures |rows| == |FEATURES|
    ensures forall f :: 0 <= f < |FEATURES| ==> rows[f] == ImportanceRow(FEATURES[f], importances[f])
  {
    seq(|FEATURES|, f requires 0 <= f < |FEATURES| => ImportanceRow(FEATURES[f], importances[f]))
  }

  /** `sort_values("importance", ascending=False)`. */
  predicate MoreImportant(a: ImportanceRow, b: ImportanceRow) {
    a.importance >= b.importance
  }

  lemma MoreImportantIsTotalPreorder()
    ensures Order.IsTotalPreorder(MoreImportant)
  {
  }

  function ImportanceTable(importances: seq<real>): seq<ImportanceRow>
    requires |importances| == |FEATURES|
  {
    Order.Sort(ImportanceRows(importances), MoreImportant)
  }

  /** Each feature appears once with its own importance, most important
      first. */
  lemma ImportanceTableSpec(importances: seq<real>)
    requires |importances| == |FEATURES|
    ensures var t := ImportanceTable(importances);
      && multiset(t) == multiset(ImportanceRows(importances))
      && |t| == |FEATURES|
      && (forall i, j :: 0 <= i < j < |t| ==> t[i].importance >= t[j].importance)
      && (forall f :: 0 <= f < |FEATURES| ==> ImportanceRow(FEATURES[f], importances[f]) in t)
  {
    var rows := ImportanceRows(importances);
    var t := ImportanceTable(importances);
    MoreImportantIsTotalPreorder();
    Order.SortProps(rows, MoreImportant);
    assert |t| == |multiset(t)| == |multiset(rows)| == |rows|;
    forall f | 0 <= f < |FEATURES| ensures ImportanceRow(FEATURES[f], importances[f]) in t {
      assert rows[f] in multiset(rows);
    }
  }

  // ---------------------------------------------------------------------
  // Partial effects
  // ---------------------------------------------------------------------

  /** Point `k` of `np.linspace(lo, hi, 20)`. */
  function Linspace(lo: real, hi: real, k: nat): real {
    lo + (k as real) * (hi - lo) / ((STEPS - 1) as real)
  }

  /** The sweep starts at the lower quantile, ends at the upper one and
      moves in equal steps, never downwards when the quantiles are
      ordered. */
  lemma LinspaceSpec(lo: real, hi: real)
    ensures Linspace(lo, hi, 0) == lo
    ensures Linspace(lo, hi, STEPS - 1) == hi
    ensures forall k: nat :: Linspace(lo, hi, k + 1) - Linspace(lo, hi, k) == (hi - lo) / ((STEPS - 1) as real)
    ensures lo <= hi ==> forall j: nat, k: nat :: j <= k ==> Linspace(lo, hi, j) <= Linspace(lo, hi, k)
  {
    forall k: nat ensures Linspace(lo, hi, k + 1) - Linspace(lo, hi, k) == (hi - lo) / ((STEPS - 1) as real) {
      assert ((k + 1) as real) * (hi - lo) == (k as real) * (hi - lo) + (hi - lo);
    }
    if lo <= hi {
      forall j: nat, k: nat | j <= k ensures Linspace(lo, hi, j) <= Linspace(lo, hi, k) {
        StepsMonotone(hi - lo, j, k);
      }
    }
  }

  lemma StepsMonotone(d: real, j: nat, k: nat)
    requires 0.0 <= d && j <= k
    ensures (j as real) * d / ((STEPS - 1) as real) <= (k as real) * d / ((STEPS - 1) as real)
  {
    assert (k as real) * d == (j as real) * d + ((k - j) as real) * d;
    assert ((k - j) as real) * d >= 0.0;
  }

  /** The query vector: the mean vector with feature `f` set to `v`. */
  function Query(means: seq<real>, f: nat, v: real): (q: seq<real>)
    requires f < |means|
    ensures |q| == |means| && q[f] == v
    ensures forall g :: 0 <= g < |means| && g != f ==> q[g] == means[g]
  {
    means[f := v]
  }

  /** A row of `partial_effects.csv`. */
  datatype EffectRow = EffectRow(feature: string, feature_value: real, predicted_melt: real)

  /** Row `t` of the sweep: feature `t / 20`, point `t % 20`. */
  function EffectAt(means: seq<real>, lo: seq<real>, hi: seq<real>, predict: VectorPredictor, t: nat): EffectRow
    requires |means| == |lo| == |hi| == |FEATURES| && t < STEPS * |FEATURES|
  {
    var f := t / STEPS;
    var v := Linspace(lo[f], hi[f], t % STEPS);
    EffectRow(FEATURES[f], v, predict(Query(means, f, v)))
  }

  /** The whole sweep, feature by feature in `FEATURES` order. */
  function EffectsTable(means: seq<real>, lo: seq<real>, hi: seq<real>, predict: VectorPredictor): seq<EffectRow>
    requires |means| == |lo| == |hi| == |FEATURES|
  {
    seq(STEPS * |FEATURES|, t requires 0 <= t < STEPS * |FEATURES| => EffectAt(means, lo, hi, predict, t))
  }

  /** Eighty rows, twenty per feature; row `20 f + k` sweeps feature `f` to
      its `k`-th point and predicts on the mean vector with only that
      feature replaced. */
  lemma EffectsTableAt(means: seq<real>, lo: seq<real>, hi: seq<real>, predict: VectorPredictor, f: nat, k: nat)
    requires |means| == |lo| == |hi| == |FEATURES| && f < |FEATURES| && k < STEPS
    ensures var t := EffectsTable(means, lo, hi, predict);
      && |t| == 80
      && t[STEPS * f + k].feature == FEATURES[f]
      && t[STEPS * f + k].feature_value == Linspace(lo[f], hi[f], k)
      && t[STEPS * f + k].predicted_melt == predict(Query(means, f, Linspace(lo[f], hi[f], k)))
  {
    var t := STEPS * f + k;
    assert t / STEPS == f && t % STEPS == k;
  }

  /** The nested sweep. The mean vector is recomputed for every feature, as
      in the source, and every point starts from a fresh copy of it, so no
      replaced value leaks into a later query. */
  method PartialEffects(rows: seq<MassBalance.MlRow>, lo: seq<real>, hi: seq<real>, predict: VectorPredictor)
    returns (effects: seq<EffectRow>)
    requires |rows| > 0 && |lo| == |hi| == |FEATURES|
    ensures effects == EffectsTable(Means(rows), lo, hi, predict)
  {
    var means := Means(rows);
    effects := [];
    var f := 0;
    while f < |FEATURES|
      invariant 0 <= f <= |FEATURES|
      invariant |effects| == STEPS * f
      invariant forall t :: 0 <= t < |effects| ==> effects[t] == EffectAt(means, lo, hi, predict, t)
    {
      var base := new real[|FEATURES|](g requires 0 <= g < |FEATURES| => means[g]);
      var k := 0;
      while k < STEPS
        invariant 0 <= k <= STEPS
        invariant base[..] == means
        invariant |effects| == STEPS * f + k
        invariant forall t :: 0 <= t < |effects| ==> effects[t] == EffectAt(means, lo, hi, predict, t)
      {
        var v := Linspace(lo[f], hi[f], k);
        var temp := new real[base.Length](g reads base => if 0 <= g < base.Length then base[g] else 0.0);
        temp[f] := v;
        assert temp[..] == Query(means, f, v);
        var pred := predict(temp[..]);
        assert (STEPS * f + k) / STEPS == f && (STEPS * f + k) % STEPS == k;
        effects := effects + [EffectRow(FEATURES[f], v, pred)];
        k := k + 1;
      }
      f := f + 1;
    }
  }

  /** The stage's two outputs. */
  datatype Explanation = Explanation(importance: seq<ImportanceRow>, effects: seq<EffectRow>)

  /** The stage. Fitting on an empty file raises; otherwise the outputs are
      the sorted importances and the sweep. */
  method ExplainableAi(rows: seq<MassBalance.MlRow>, importances: seq<real>, lo: seq<real>, hi: seq<real>,
                       predict: VectorPredictor) returns (out: Result<Explanation>)
    requires |importances| == |lo| == |hi| == |FEATURES|
    ensures out.Err? <==> rows == []
    ensures out.Ok? ==> out.value == Explanation(ImportanceTable(importances), EffectsTable(Means(rows), lo, hi, predict))
  {
    if rows == [] {
      return Err("Found array with 0 sample(s)");
    }
    var effects := PartialEffects(rows, lo, hi, predict);
    out := Ok(Explanation(ImportanceTable(importances), effects));
  }
}
