/** The hydrology link: each glacier-year's mass change becomes a melt
    depth, a runoff volume and a runoff depth. Only mass loss produces
    melt. */
module Hydrology {
  import opened Common
  import MassBalance

  /** A row of `glacier_hydrology.csv`: the seven carried columns and the
      two runoff columns. */
  datatype HydroRow = HydroRow(
    glacier_id: string,
    year: nat,
    area_km2: real,
    temp_mean: real,
    prec_mean: real,
    srad_mean: real,
    mass_change: real,
    glacier_runoff_m3: real,
    runoff_mm: real)

  /** Square metres per square kilometre. */
  const M2_PER_KM2: real := 1000000.0

  /** Millimetres per metre. */
  const MM_PER_M: real := 1000.0

  /** `Series.clip(upper=u)` on one value. */
  function ClipUpper(x: real, u: real): (r: real)
    ensures r <= u && (x <= u ==> r == x)
  {
    if x > u then u else x
  }

  function Abs(x: real): (r: real)
    ensures r >= 0.0 && (r == x || r == -x)
  {
    if x < 0.0 then -x else x
  }

  /** `melt_m = mass_change.clip(upper=0).abs()`: the depth of ice lost, in
      metres, and zero for a gain. */
  function MeltM(mass_change: real): (m: real)
    ensures m >= 0.0
    ensures m == (if mass_change < 0.0 then -mass_change else 0.0)
  {
    Abs(ClipUpper(mass_change, 0.0))
  }

  /** Runoff volume in cubic metres: melt depth times area in square metres. */
  function RunoffM3(melt_m: real, area_km2: real): real {
    melt_m * area_km2 * M2_PER_KM2
  }

  /** Runoff depth in millimetres. */
  function RunoffMm(melt_m: real): real {
    melt_m * MM_PER_M
  }

  /** One row of the hydrology table: the carried columns and both runoffs. */
  function HydroOf(r: MassBalance.MlRow): (h: HydroRow)
    ensures h.glacier_id == r.glacier_id && h.year == r.year && h.area_km2 == r.area_km2
    ensures h.temp_mean == r.temp_mean && h.prec_mean == r.prec_mean && h.srad_mean == r.srad_mean
    ensures h.mass_change == r.mass_change
    ensures h.runoff_mm >= 0.0
    ensures r.area_km2 >= 0.0 ==> h.glacier_runoff_m3 >= 0.0
  {
    var m := MeltM(r.mass_change);
    HydroRow(r.glacier_id, r.year, r.area_km2, r.temp_mean, r.prec_mean, r.srad_mean,
             r.mass_change, RunoffM3(m, r.area_km2), RunoffMm(m))
  }

  /** The stage: row count and order preserved, one hydrology row per
      machine-learning row. */
  function HydrologyTable(rows: seq<MassBalance.MlRow>): (out: seq<HydroRow>)
    ensures |out| == |rows|
    ensures forall i :: 0 <= i < |rows| ==> out[i] == HydroOf(rows[i])
  {
    seq(|rows|, i requires 0 <= i < |rows| => HydroOf(rows[i]))
  }

  /** A mass gain (or no change) produces no melt and no runoff. */
  lemma NoLossNoRunoff(r: MassBalance.MlRow)
    requires r.mass_change >= 0.0
    ensures MeltM(r.mass_change) == 0.0
    ensures HydroOf(r).glacier_runoff_m3 == 0.0 && HydroOf(r).runoff_mm == 0.0
  {
  }

  /** A mass loss melts exactly the lost depth; the runoff volume is that
      depth over the glacier area and the runoff depth is it in millimetres. */
  lemma LossIsMelt(r: MassBalance.MlRow)
    requires r.mass_change < 0.0
    ensures MeltM(r.mass_change) == -r.mass_change
    ensures HydroOf(r).glacier_runoff_m3 == -r.mass_change * r.area_km2 * 1000000.0
    ensures HydroOf(r).runoff_mm == -r.mass_change * 1000.0
  {
  }

  /** The runoff volume is the runoff depth in metres times the area in
      square metres. */
  lemma VolumeIsDepthTimesArea(r: MassBalance.MlRow)
    ensures HydroOf(r).glacier_runoff_m3 == (HydroOf(r).runoff_mm / 1000.0) * (r.area_km2 * 1000000.0)
  {
  }
}
