/** Flood-risk index: the z-score is min-max normalised over the whole file,
    the melt category is mapped to a score, the two are blended 0.6/0.4 and
    the blend is cut into three risk levels. */
module FloodRisk {
  import opened Common
  import ExtremeMelt

  /** A row of `flood_risk_index.csv`: exactly the six saved columns. */
  datatype FloodRow = FloodRow(
    basin: string,
    year: nat,
    melt_category: string,
    z_score: Option<real>,
    flood_risk_index: Option<real>,
    flood_risk_level: string)

  function ZScores(rows: seq<ExtremeMelt.MeltRow>): (zs: seq<Option<real>>)
    ensures |zs| == |rows| && forall i :: 0 <= i < |rows| ==> zs[i] == rows[i].z_score
  {
    seq(|rows|, i requires 0 <= i < |rows| => rows[i].z_score)
  }

  /** `(z - z.min()) / (z.max() - z.min())` for one row, where `present` are
      the z-scores present anywhere in the file. It is missing when the row's
      z is missing or when all present z-scores are equal (0 / 0). */
  function RunoffNorm(z: Option<real>, present: seq<real>): (n: Option<real>)
    ensures n.Some? <==> z.Some? && |present| > 0 && MinOf(present) != MaxOf(present)
  {
    if z.None? || |present| == 0 then None
    else
      var lo := MinOf(present);
      var hi := MaxOf(present);
      if hi == lo then None else Some((z.value - lo) / (hi - lo))
  }

  /** A normalised value lies in [0, 1]; it is 1 exactly at the largest
      z-score and 0 exactly at the smallest. */
  lemma RunoffNormRange(z: real, present: seq<real>)
    requires z in present && MinOf(present) != MaxOf(present)
    ensures var n := RunoffNorm(Some(z), present);
      && n.Some? && 0.0 <= n.value <= 1.0
      && (n.value == 1.0 <==> z == MaxOf(present))
      && (n.value == 0.0 <==> z == MinOf(present))
  {
    var lo := MinOf(present);
    var hi := MaxOf(present);
    var k :| 0 <= k < |present| && present[k] == z;
    assert lo <= z <= hi;
    UnitRatio(z - lo, hi - lo);
  }

  /** A ratio of a part to a positive whole lies in [0, 1], with 1 only for
      the whole and 0 only for nothing. */
  lemma UnitRatio(a: real, d: real)
    requires d > 0.0 && 0.0 <= a <= d
    ensures 0.0 <= a / d <= 1.0
    ensures a / d == 1.0 <==> a == d
    ensures a / d == 0.0 <==> a == 0.0
  {
    assert (a / d) * d == a;
  }

  /** The `melt_score` map; a label outside it maps to a missing score. */
  function MeltScore(c: string): (s: Option<real>)
    ensures s.Some? <==> c in {"Low Melt", "Normal", "High Melt", "Extreme Melt"}
    ensures c == "Low Melt" ==> s == Some(0.2)
    ensures c == "Normal" ==> s == Some(0.4)
    ensures c == "High Melt" ==> s == Some(0.7)
    ensures c == "Extreme Melt" ==> s == Some(1.0)
  {
    if c == "Low Melt" then Some(0.2)
    else if c == "Normal" then Some(0.4)
    else if c == "High Melt" then Some(0.7)
    else if c == "Extreme Melt" then Some(1.0)
    else None
  }

  /** `0.6 * runoff_norm + 0.4 * melt_score`; missing if either part is. */
  function RiskIndex(n: Option<real>, s: Option<real>): (x: Option<real>)
    ensures x.Some? <==> n.Some? && s.Some?
  {
    if n.None? || s.None? then None else Some(0.6 * n.value + 0.4 * s.value)
  }

  /** The index never falls when either part rises. */
  lemma RiskIndexMonotone(n1: real, s1: real, n2: real, s2: real)
    requires n1 <= n2 && s1 <= s2
    ensures RiskIndex(Some(n1), Some(s1)).value <= RiskIndex(Some(n2), Some(s2)).value
  {
  }

  /** For a normalised value and a mapped label the index lies in
      [0.08, 1.0], reaching both ends. */
  lemma RiskIndexRange(n: real, c: string)
    requires 0.0 <= n <= 1.0 && MeltScore(c).Some?
    ensures 0.08 <= RiskIndex(Some(n), MeltScore(c)).value <= 1.0
    ensures RiskIndex(Some(1.0), MeltScore("Extreme Melt")) == Some(1.0)
    ensures RiskIndex(Some(0.0), MeltScore("Low Melt")) == Some(0.08)
  {
  }

  /** `classify_risk`. A NaN index fails both comparisons and falls through
      to "Low Risk". */
  function ClassifyRisk(x: Option<real>): (level: string)
    ensures level in {"High Risk", "Moderate Risk", "Low Risk"}
    ensures level == "High Risk" <==> x.Some? && x.value >= 0.75
    ensures level == "Moderate Risk" <==> x.Some? && 0.45 <= x.value < 0.75
    ensures level == "Low Risk" <==> x.None? || x.value < 0.45
  {
    if x.Some? && x.value >= 0.75 then "High Risk"
    else if x.Some? && x.value >= 0.45 then "Moderate Risk"
    else "Low Risk"
  }

  /** One output row, given the present z-scores of the whole file. */
  function FloodOf(r: ExtremeMelt.MeltRow, present: seq<real>): FloodRow {
    var x := RiskIndex(RunoffNorm(r.z_score, present), MeltScore(r.melt_category));
    FloodRow(r.base.basin, r.base.year, r.melt_category, r.z_score, x, ClassifyRisk(x))
  }

  /** The stage: one output row per input row, in the same order, carrying
      basin, year, category and z-score unchanged. Each index blends the
      row's z-score, normalised against the whole file, with its category
      score, and each level is the classification of the row's own index. */
  function FloodTable(rows: seq<ExtremeMelt.MeltRow>): (out: seq<FloodRow>)
    ensures |out| == |rows|
    ensures forall i :: 0 <= i < |rows| ==>
      && out[i].basin == rows[i].base.basin && out[i].year == rows[i].base.year
      && out[i].melt_category == rows[i].melt_category && out[i].z_score == rows[i].z_score
    ensures forall i :: 0 <= i < |rows| ==>
      out[i].flood_risk_index == RiskIndex(RunoffNorm(rows[i].z_score, Present(ZScores(rows))), MeltScore(rows[i].melt_category))
    ensures forall i :: 0 <= i < |rows| ==> out[i].flood_risk_level == ClassifyRisk(out[i].flood_risk_index)
  {
    var present := Present(ZScores(rows));
    seq(|rows|, i requires 0 <= i < |rows| => FloodOf(rows[i], present))
  }

  /** Two rows of the file have different present z-scores. */
  predicate Spread(rows: seq<ExtremeMelt.MeltRow>) {
    exists j, k :: 0 <= j < |rows| && 0 <= k < |rows|
                && rows[j].z_score.Some? && rows[k].z_score.Some?
                && rows[j].z_score != rows[k].z_score
  }

  /** The normalisation is defined exactly when the file's present z-scores
      are not all equal. */
  lemma SpreadIff(rows: seq<ExtremeMelt.MeltRow>)
    ensures var present := Present(ZScores(rows));
      Spread(rows) <==> |present| > 0 && MinOf(present) != MaxOf(present)
  {
    var present := Present(ZScores(rows));
    if |present| > 0 && MinOf(present) != MaxOf(present) {
      SpreadFromRange(rows);
    }
    if Spread(rows) {
      RangeFromSpread(rows);
    }
  }

  lemma SpreadFromRange(rows: seq<ExtremeMelt.MeltRow>)
    requires |Present(ZScores(rows))| > 0 && MinOf(Present(ZScores(rows))) != MaxOf(Present(ZScores(rows)))
    ensures Spread(rows)
  {
    var zs := ZScores(rows);
    var present := Present(zs);
    PresentMembers(zs);
    var a :| 0 <= a < |present| && present[a] == MinOf(present);
    var b :| 0 <= b < |present| && present[b] == MaxOf(present);
    assert present[a] in present && present[b] in present;
    var j :| 0 <= j < |zs| && zs[j] == Some(present[a]);
    var k :| 0 <= k < |zs| && zs[k] == Some(present[b]);
    assert rows[j].z_score != rows[k].z_score;
  }

  lemma RangeFromSpread(rows: seq<ExtremeMelt.MeltRow>)
    requires Spread(rows)
    ensures |Present(ZScores(rows))| > 0 && MinOf(Present(ZScores(rows))) != MaxOf(Present(ZScores(rows)))
  {
    var j, k :| 0 <= j < |rows| && 0 <= k < |rows|
             && rows[j].z_score.Some? && rows[k].z_score.Some?
             && rows[j].z_score != rows[k].z_score;
    RangeFromTwo(rows, j, k);
  }

  lemma RangeFromTwo(rows: seq<ExtremeMelt.MeltRow>, j: nat, k: nat)
    requires j < |rows| && k < |rows| && rows[j].z_score.Some? && rows[k].z_score.Some?
    requires rows[j].z_score != rows[k].z_score
    ensures |Present(ZScores(rows))| > 0 && MinOf(Present(ZScores(rows))) != MaxOf(Present(ZScores(rows)))
  {
    var present := Present(ZScores(rows));
    OwnZPresent(rows, j);
    OwnZPresent(rows, k);
    var pj :| 0 <= pj < |present| && present[pj] == rows[j].z_score.value;
    var pk :| 0 <= pk < |present| && present[pk] == rows[k].z_score.value;
    assert MinOf(present) <= present[pj] <= MaxOf(present);
  }

  /** A row's own present z-score is among the file's present z-scores. */
  lemma OwnZPresent(rows: seq<ExtremeMelt.MeltRow>, i: nat)
    requires i < |rows| && rows[i].z_score.Some?
    ensures rows[i].z_score.value in Present(ZScores(rows))
  {
    var zs := ZScores(rows);
    PresentMembers(zs);
    var v := rows[i].z_score.value;
    assert zs[i] == Some(v);
    assert Some(v) in zs;
  }

  /** Every index the stage computes lies in [0.08, 1.0], and it is present
      exactly when the row has a z-score, the file's z-scores are not all
      equal and the category is one of the four labels. */
  lemma FloodTableIndexRange(rows: seq<ExtremeMelt.MeltRow>, i: nat)
    requires i < |rows|
    ensures var x := FloodTable(rows)[i].flood_risk_index;
      && (x.Some? <==> rows[i].z_score.Some? && MeltScore(rows[i].melt_category).Some? && Spread(rows))
      && (x.Some? ==> 0.08 <= x.value <= 1.0)
  {
    var present := Present(ZScores(rows));
    SpreadIff(rows);
    if rows[i].z_score.Some? && Spread(rows) && MeltScore(rows[i].melt_category).Some? {
      OwnZPresent(rows, i);
      RunoffNormRange(rows[i].z_score.value, present);
      RiskIndexRange(RunoffNorm(rows[i].z_score, present).value, rows[i].melt_category);
    }
  }

  /** The rows with the largest and the smallest z-score get normalised
      values 1 and 0. */
  lemma FloodTableNormEnds(rows: seq<ExtremeMelt.MeltRow>, i: nat)
    requires i < |rows| && rows[i].z_score.Some?
    ensures var present := Present(ZScores(rows));
      && |present| > 0
      && (MinOf(present) != MaxOf(present) && rows[i].z_score.value == MaxOf(present) ==>
          RunoffNorm(rows[i].z_score, present) == Some(1.0))
      && (MinOf(present) != MaxOf(present) && rows[i].z_score.value == MinOf(present) ==>
          RunoffNorm(rows[i].z_score, present) == Some(0.0))
  {
    var present := Present(ZScores(rows));
    OwnZPresent(rows, i);
    if MinOf(present) != MaxOf(present) {
      RunoffNormRange(rows[i].z_score.value, present);
    }
  }

  /** The level boundaries, and the fall-through of a missing index. */
  lemma ClassifyRiskBoundaries()
    ensures ClassifyRisk(Some(0.75)) == "High Risk"
    ensures ClassifyRisk(Some(0.45)) == "Moderate Risk"
    ensures ClassifyRisk(Some(0.44)) == "Low Risk"
    ensures ClassifyRisk(None) == "Low Risk"
  {
  }
}
