/** The machine-learning table stage: climate features keyed by RGI 7
    region and number, WGMS mass-balance series keyed by RGI 6 region and
    number, the series reshaped to one row per (glacier, year) and joined to
    the climate features. */
module MassBalance {
  import opened Common
  import KeyMatch
  import Frames

  /** What joining a group with a missing key raises. */
  const MISSING_KEY: string := "TypeError: sequence item 0: expected str instance, float found"

  /** What assigning the key column of an empty climate table raises. */
  const EMPTY_CLIMATE: string := "ValueError: Cannot set a DataFrame with multiple columns to the single column glacier_key"

  /** What the stage raises when the mass-balance file has no ID column. */
  const NO_ID_COLUMN: string := "ValueError: no RGI ID column found in WGMS"

  /** What the string accessor raises on an ID column read as numbers. */
  const NOT_STRINGS: string := "AttributeError: Can only use .str accessor with string values!"

  /** What `min()` over no year columns raises. */
  const NO_YEAR: string := "ValueError: min() arg is an empty sequence"

  /** A row of `climate_features.csv`: the columns this stage reads. */
  datatype ClimateRow = ClimateRow(
    glacier_id: Option<string>,
    area_km2: Option<real>,
    temp_mean: Option<real>,
    prec_mean: Option<real>,
    srad_mean: Option<real>)

  /** A row of the long WGMS table: key, year and that year's mass change. */
  datatype LongRow = LongRow(glacier_key: Option<string>, year: nat, mass_change: Option<real>)

  /** A row of `glacier_ml_dataset.csv`; after the dropna nothing is missing. */
  datatype MlRow = MlRow(
    glacier_id: string,
    year: nat,
    area_km2: real,
    temp_mean: real,
    prec_mean: real,
    srad_mean: real,
    mass_change: real)

  // ---------------------------------------------------------------------
  // Climate keys
  // ---------------------------------------------------------------------

  /** The climate key of every row of a non-empty table. Joining the two
      captured groups with "." fails on a row whose ID does not match (the
      groups are NaN), and that failure aborts the stage. */
  function RowKeys(climate: seq<ClimateRow>): (r: Result<seq<string>>)
    ensures r.Ok? <==> forall i :: 0 <= i < |climate| ==> KeyMatch.ClimateKey(climate[i].glacier_id).Some?
    ensures r.Ok? ==> |r.value| == |climate|
    ensures r.Ok? ==> forall i :: 0 <= i < |climate| ==> Some(r.value[i]) == KeyMatch.ClimateKey(climate[i].glacier_id)
  {
    if climate == [] then Ok([])
    else
      var k := KeyMatch.ClimateKey(climate[0].glacier_id);
      var rest := RowKeys(climate[1..]);
      assert forall i :: 1 <= i < |climate| ==> climate[1..][i - 1] == climate[i];
      if k.None? then Err(MISSING_KEY)
      else if rest.Err? then rest
      else Ok([k.value] + rest.value)
  }

  /** The `glacier_key` column. On an empty table the row-wise join is
      never called, the extracted two-column frame comes back unchanged,
      and assigning it to one column raises. */
  function ClimateKeys(climate: seq<ClimateRow>): (r: Result<seq<string>>)
    ensures r.Ok? <==>
      && climate != []
      && forall i :: 0 <= i < |climate| ==> KeyMatch.ClimateKey(climate[i].glacier_id).Some?
    ensures r.Ok? ==> |r.value| == |climate|
    ensures r.Ok? ==> forall i :: 0 <= i < |climate| ==> Some(r.value[i]) == KeyMatch.ClimateKey(climate[i].glacier_id)
  {
    if climate == [] then Err(EMPTY_CLIMATE)
    else RowKeys(climate)
  }

  // ---------------------------------------------------------------------
  // WGMS ID column
  // ---------------------------------------------------------------------

  /** A WGMS column that holds RGI IDs. */
  predicate IsIdName(c: string) {
    Lower(c) == "rgiid" || Lower(c) == "rgid"
  }

  /** `k` is the first ID column of the header. */
  predicate FirstIdColumn(cols: seq<string>, k: nat) {
    k < |cols| && IsIdName(cols[k]) && forall j :: 0 <= j < k ==> !IsIdName(cols[j])
  }

  /** The header scan that stops at the first ID column. */
  method FindIdColumn(cols: seq<string>) returns (id: Option<nat>)
    ensures id.Some? ==> FirstIdColumn(cols, id.value)
    ensures id.None? ==> forall j :: 0 <= j < |cols| ==> !IsIdName(cols[j])
  {
    id := None;
    var i := 0;
    while i < |cols|
      invariant 0 <= i <= |cols|
      invariant id.None? ==> forall j :: 0 <= j < i ==> !IsIdName(cols[j])
      invariant id.Some? ==> FirstIdColumn(cols, id.value)
      decreases |cols| - i, if id.None? then 1 else 0
    {
      if IsIdName(cols[i]) {
        id := Some(i);
        break;
      }
      i := i + 1;
    }
  }

  lemma FirstIdColumnUnique(cols: seq<string>, a: nat, b: nat)
    requires FirstIdColumn(cols, a) && FirstIdColumn(cols, b)
    ensures a == b
  {
  }

  /** The key of every WGMS row, from its ID cell; a cell that is not text
      gives no key. */
  function WgmsKeys(f: Frames.Frame, idc: nat): (keys: seq<Option<string>>)
    ensures |keys| == |f.rows|
    ensures forall r :: 0 <= r < |f.rows| ==>
      keys[r] == (if Frames.CellAt(f.rows[r], idc).Text? then KeyMatch.WgmsKey(Frames.CellAt(f.rows[r], idc).s) else None)
  {
    seq(|f.rows|, r requires 0 <= r < |f.rows| =>
      var c := Frames.CellAt(f.rows[r], idc);
      if c.Text? then KeyMatch.WgmsKey(c.s) else None)
  }

  /** `wgms[id_col].str` needs a column of strings. A column with no text
      cell at all is read as numbers (or as all missing), and the accessor
      raises; a table with no rows keeps the text type of its header. */
  predicate StrAccessible(f: Frames.Frame, idc: nat) {
    f.rows == [] || exists r :: 0 <= r < |f.rows| && Frames.CellAt(f.rows[r], idc).Text?
  }

  // ---------------------------------------------------------------------
  // Year columns
  // ---------------------------------------------------------------------

  /** A column name that is all digits with a value in [2000, 2024]. */
  predicate IsYearColumn(c: string) {
    AllDigits(c) && 2000 <= ParseNat(c) <= 2024
  }

  /** Positions of the year columns, in header order. */
  function YearColumns(cols: seq<string>, from: nat): (idx: seq<nat>)
    requires from <= |cols|
    ensures forall j :: 0 <= j < |idx| ==> from <= idx[j] < |cols| && IsYearColumn(cols[idx[j]])
    ensures forall j, k :: 0 <= j < k < |idx| ==> idx[j] < idx[k]
    ensures forall i :: from <= i < |cols| && IsYearColumn(cols[i]) ==> i in idx
    decreases |cols| - from
  {
    if from == |cols| then []
    else if IsYearColumn(cols[from]) then [from] + YearColumns(cols, from + 1)
    else YearColumns(cols, from + 1)
  }

  // ---------------------------------------------------------------------
  // Wide to long
  // ---------------------------------------------------------------------

  /** The long rows of one year column: one per WGMS row, in row order. */
  function MeltBlock(keys: seq<Option<string>>, f: Frames.Frame, c: nat): (block: seq<LongRow>)
    requires |keys| == |f.rows| && c < |f.cols| && AllDigits(f.cols[c])
    ensures |block| == |f.rows|
  {
    seq(|f.rows|, r requires 0 <= r < |f.rows| =>
      LongRow(keys[r], ParseNat(f.cols[c]), Frames.NumOf(Frames.CellAt(f.rows[r], c))))
  }

  /** `wgms.melt(id_vars=["glacier_key"], value_vars=year_cols, ...)`: the
      blocks of the year columns, one after the other. */
  function Melt(keys: seq<Option<string>>, f: Frames.Frame, years: seq<nat>): seq<LongRow>
    requires |keys| == |f.rows|
    requires forall j :: 0 <= j < |years| ==> years[j] < |f.cols| && AllDigits(f.cols[years[j]])
  {
    if years == [] then [] else MeltBlock(keys, f, years[0]) + Melt(keys, f, years[1..])
  }

  /** One long row per (year column, WGMS row). */
  lemma {:induction false} MeltLength(keys: seq<Option<string>>, f: Frames.Frame, years: seq<nat>)
    requires |keys| == |f.rows|
    requires forall j :: 0 <= j < |years| ==> years[j] < |f.cols| && AllDigits(f.cols[years[j]])
    ensures |Melt(keys, f, years)| == |years| * |f.rows|
  {
    if years != [] {
      MeltLength(keys, f, years[1..]);
      assert |years| * |f.rows| == |f.rows| + (|years| - 1) * |f.rows|;
    }
  }

  /** The long table is column-major: position `j * n + r` holds WGMS row
      `r` under year column `j`, with the row's key, the integer year and
      that cell. */
  lemma {:induction false} MeltAt(keys: seq<Option<string>>, f: Frames.Frame, years: seq<nat>, j: nat, r: nat)
    requires |keys| == |f.rows|
    requires forall j :: 0 <= j < |years| ==> years[j] < |f.cols| && AllDigits(f.cols[years[j]])
    requires j < |years| && r < |f.rows|
    ensures j * |f.rows| + r < |Melt(keys, f, years)|
    ensures Melt(keys, f, years)[j * |f.rows| + r] ==
      LongRow(keys[r], ParseNat(f.cols[years[j]]), Frames.NumOf(Frames.CellAt(f.rows[r], years[j])))
  {
    var n := |f.rows|;
    MeltLength(keys, f, years);
    var head := MeltBlock(keys, f, years[0]);
    var rest := Melt(keys, f, years[1..]);
    if j > 0 {
      MeltAt(keys, f, years[1..], j - 1, r);
      assert j * n + r == n + ((j - 1) * n + r);
      assert years[1..][j - 1] == years[j];
    }
  }

  /** Splits a position of a column-major table into column and row. */
  lemma DivMod(t: nat, n: nat, m: nat) returns (j: nat, r: nat)
    requires t < m * n
    ensures j < m && r < n && t == j * n + r
  {
    j := t / n;
    r := t % n;
  }

  // ---------------------------------------------------------------------
  // Inner join and final table
  // ---------------------------------------------------------------------

  /** The long rows whose key equals `k`, in order. */
  function MatchLong(k: string, long: seq<LongRow>): (m: seq<LongRow>)
    ensures forall x :: x in m <==> x in long && x.glacier_key == Some(k)
  {
    if long == [] then []
    else
      var rest := MatchLong(k, long[1..]);
      assert forall x :: x in long <==> x == long[0] || x in long[1..];
      if long[0].glacier_key == Some(k) then [long[0]] + rest else rest
  }

  /** `climate.merge(wgms_long, on="glacier_key", how="inner")`: for each
      climate row in order, one row per long row with the same key. */
  function InnerJoin(climate: seq<ClimateRow>, ckeys: seq<string>, long: seq<LongRow>): seq<(ClimateRow, LongRow)>
    requires |ckeys| == |climate|
  {
    if climate == [] then []
    else
      var m := MatchLong(ckeys[0], long);
      seq(|m|, j requires 0 <= j < |m| => (climate[0], m[j])) + InnerJoin(climate[1..], ckeys[1..], long)
  }

  /** Every joined row pairs a climate row and a long row with equal keys,
      so a long row without a key never appears; conversely every such pair
      appears. */
  lemma {:induction false} InnerJoinSpec(climate: seq<ClimateRow>, ckeys: seq<string>, long: seq<LongRow>)
    requires |ckeys| == |climate|
    ensures forall p :: p in InnerJoin(climate, ckeys, long) <==>
      p.1 in long && exists i :: 0 <= i < |climate| && climate[i] == p.0 && p.1.glacier_key == Some(ckeys[i])
  {
    if climate != [] {
      InnerJoinSpec(climate[1..], ckeys[1..], long);
      var m := MatchLong(ckeys[0], long);
      var head := seq(|m|, j requires 0 <= j < |m| => (climate[0], m[j]));
      var rest := InnerJoin(climate[1..], ckeys[1..], long);
      forall p: (ClimateRow, LongRow) ensures p in head + rest <==>
        p.1 in long && exists i :: 0 <= i < |climate| && climate[i] == p.0 && p.1.glacier_key == Some(ckeys[i])
      {
        if p in head {
          var j :| 0 <= j < |m| && head[j] == p;
          assert m[j] in m;
        }
        if p in rest {
          var i :| 0 <= i < |climate[1..]| && climate[1..][i] == p.0 && p.1.glacier_key == Some(ckeys[1..][i]);
          assert climate[i + 1] == p.0 && ckeys[i + 1] == ckeys[1..][i];
        }
        if p.1 in long && exists i :: 0 <= i < |climate| && climate[i] == p.0 && p.1.glacier_key == Some(ckeys[i]) {
          var i :| 0 <= i < |climate| && climate[i] == p.0 && p.1.glacier_key == Some(ckeys[i]);
          if i == 0 {
            assert p.1 in m;
            var j :| 0 <= j < |m| && m[j] == p.1;
            assert head[j] == p;
          } else {
            assert climate[1..][i - 1] == p.0 && ckeys[1..][i - 1] == ckeys[i];
          }
        }
      }
    }
  }

  /** The seven output columns of a joined row, when none is missing. */
  function ToMl(p: (ClimateRow, LongRow)): Option<MlRow> {
    var (c, l) := p;
    if c.glacier_id.Some? && c.area_km2.Some? && c.temp_mean.Some? && c.prec_mean.Some?
       && c.srad_mean.Some? && l.mass_change.Some?
    then Some(MlRow(c.glacier_id.value, l.year, c.area_km2.value, c.temp_mean.value,
                    c.prec_mean.value, c.srad_mean.value, l.mass_change.value))
    else None
  }

  /** `final[[...seven columns...]]` followed by `dropna()`. */
  function SelectComplete(joined: seq<(ClimateRow, LongRow)>): (out: seq<MlRow>)
    ensures |out| <= |joined|
    ensures forall x :: x in out <==> exists p :: p in joined && ToMl(p) == Some(x)
  {
    if joined == [] then []
    else
      var rest := SelectComplete(joined[1..]);
      assert forall p :: p in joined <==> p == joined[0] || p in joined[1..];
      var here := ToMl(joined[0]);
      if here.Some? then [here.value] + rest else rest
  }

  /** The table the stage writes, given the climate keys, the ID column and
      the year columns. */
  function MlTable(climate: seq<ClimateRow>, ckeys: seq<string>, wgms: Frames.Frame, idc: nat, years: seq<nat>): seq<MlRow>
    requires |ckeys| == |climate|
    requires forall j :: 0 <= j < |years| ==> years[j] < |wgms.cols| && AllDigits(wgms.cols[years[j]])
  {
    SelectComplete(InnerJoin(climate, ckeys, Melt(WgmsKeys(wgms, idc), wgms, years)))
  }

  /** Each output row comes from a climate row and a WGMS row whose keys
      agree, for a selected year column, with the climate features of that
      climate row and the mass change in that year's cell. */
  lemma MlTableSpec(climate: seq<ClimateRow>, ckeys: seq<string>, wgms: Frames.Frame, idc: nat, years: seq<nat>, x: MlRow)
    requires |ckeys| == |climate|
    requires forall j :: 0 <= j < |years| ==> years[j] < |wgms.cols| && AllDigits(wgms.cols[years[j]])
    requires x in MlTable(climate, ckeys, wgms, idc, years)
    ensures exists i, j, r ::
      && 0 <= i < |climate| && 0 <= j < |years| && 0 <= r < |wgms.rows|
      && WgmsKeys(wgms, idc)[r] == Some(ckeys[i])
      && climate[i].glacier_id == Some(x.glacier_id) && climate[i].area_km2 == Some(x.area_km2)
      && climate[i].temp_mean == Some(x.temp_mean) && climate[i].prec_mean == Some(x.prec_mean)
      && climate[i].srad_mean == Some(x.srad_mean)
      && x.year == ParseNat(wgms.cols[years[j]])
      && Frames.CellAt(wgms.rows[r], years[j]) == Frames.Num(x.mass_change)
  {
    var i, j, r := MlRowSource(climate, ckeys, wgms, idc, years, x);
  }

  /** The climate row, year column and WGMS row an output row comes from. */
  lemma MlRowSource(climate: seq<ClimateRow>, ckeys: seq<string>, wgms: Frames.Frame, idc: nat, years: seq<nat>, x: MlRow)
    returns (i: nat, j: nat, r: nat)
    requires |ckeys| == |climate|
    requires forall j :: 0 <= j < |years| ==> years[j] < |wgms.cols| && AllDigits(wgms.cols[years[j]])
    requires x in MlTable(climate, ckeys, wgms, idc, years)
    ensures i < |climate| && j < |years| && r < |wgms.rows|
    ensures WgmsKeys(wgms, idc)[r] == Some(ckeys[i])
    ensures climate[i].glacier_id == Some(x.glacier_id) && climate[i].area_km2 == Some(x.area_km2)
    ensures climate[i].temp_mean == Some(x.temp_mean) && climate[i].prec_mean == Some(x.prec_mean)
    ensures climate[i].srad_mean == Some(x.srad_mean)
    ensures x.year == ParseNat(wgms.cols[years[j]])
    ensures Frames.CellAt(wgms.rows[r], years[j]) == Frames.Num(x.mass_change)
  {
    var keys := WgmsKeys(wgms, idc);
    var t;
    i, t := JoinedSource(climate, ckeys, Melt(keys, wgms, years), x);
    MeltLength(keys, wgms, years);
    j, r := DivMod(t, |wgms.rows|, |years|);
    MeltAt(keys, wgms, years, j, r);
    var cell := Frames.CellAt(wgms.rows[r], years[j]);
    assert Frames.NumOf(cell) == Some(x.mass_change);
  }

  /** Conversely, every climate row and WGMS row whose keys agree give an
      output row for each selected year in which the WGMS cell and all the
      climate features are present. */
  lemma MlTableComplete(climate: seq<ClimateRow>, ckeys: seq<string>, wgms: Frames.Frame, idc: nat, years: seq<nat>,
                        ci: nat, yj: nat, wr: nat, v: real)
    requires |ckeys| == |climate|
    requires forall j :: 0 <= j < |years| ==> years[j] < |wgms.cols| && AllDigits(wgms.cols[years[j]])
    requires ci < |climate| && yj < |years| && wr < |wgms.rows|
    requires WgmsKeys(wgms, idc)[wr] == Some(ckeys[ci])
    requires climate[ci].glacier_id.Some? && climate[ci].area_km2.Some? && climate[ci].temp_mean.Some?
    requires climate[ci].prec_mean.Some? && climate[ci].srad_mean.Some?
    requires Frames.CellAt(wgms.rows[wr], years[yj]) == Frames.Num(v)
    requires AllDigits(wgms.cols[years[yj]])
    ensures MlRow(climate[ci].glacier_id.value, ParseNat(wgms.cols[years[yj]]), climate[ci].area_km2.value,
                  climate[ci].temp_mean.value, climate[ci].prec_mean.value, climate[ci].srad_mean.value, v)
      in MlTable(climate, ckeys, wgms, idc, years)
  {
    var keys := WgmsKeys(wgms, idc);
    var long := Melt(keys, wgms, years);
    MeltAt(keys, wgms, years, yj, wr);
    var t := yj * |wgms.rows| + wr;
    assert long[t] in long;
    InnerJoinSpec(climate, ckeys, long);
    var p := (climate[ci], long[t]);
    assert p in InnerJoin(climate, ckeys, long);
  }

  /** The climate row and long row a complete joined row comes from. */
  lemma JoinedSource(climate: seq<ClimateRow>, ckeys: seq<string>, long: seq<LongRow>, x: MlRow)
    returns (i: nat, t: nat)
    requires |ckeys| == |climate|
    requires x in SelectComplete(InnerJoin(climate, ckeys, long))
    ensures i < |climate| && t < |long| && long[t].glacier_key == Some(ckeys[i])
    ensures ToMl((climate[i], long[t])) == Some(x)
  {
    InnerJoinSpec(climate, ckeys, long);
    var p :| p in InnerJoin(climate, ckeys, long) && ToMl(p) == Some(x);
    i :| 0 <= i < |climate| && climate[i] == p.0 && p.1.glacier_key == Some(ckeys[i]);
    t :| 0 <= t < |long| && long[t] == p.1;
  }

  /** The whole stage. It raises when the climate keys cannot be built,
      when no WGMS column holds RGI IDs, when the ID column holds no text,
      or when no year column lies in [2000, 2024] (taking the minimum of an
      empty selection); otherwise it writes the joined, complete rows. */
  method MassBalanceStage(climate: seq<ClimateRow>, wgms: Frames.Frame) returns (r: Result<seq<MlRow>>)
    ensures r.Ok? <==>
      && ClimateKeys(climate).Ok?
      && (exists k :: 0 <= k < |wgms.cols| && IsIdName(wgms.cols[k]))
      && (forall k :: FirstIdColumn(wgms.cols, k) ==> StrAccessible(wgms, k))
      && |YearColumns(wgms.cols, 0)| > 0
    ensures r.Ok? ==> forall k :: FirstIdColumn(wgms.cols, k) ==>
      r.value == MlTable(climate, ClimateKeys(climate).value, wgms, k, YearColumns(wgms.cols, 0))
  {
    var ckeys := ClimateKeys(climate);
    if ckeys.Err? {
      return Err(ckeys.msg);
    }
    var id := FindIdColumn(wgms.cols);
    if id.None? {
      return Err(NO_ID_COLUMN);
    }
    forall k | FirstIdColumn(wgms.cols, k) ensures k == id.value {
      FirstIdColumnUnique(wgms.cols, k, id.value);
    }
    if !StrAccessible(wgms, id.value) {
      return Err(NOT_STRINGS);
    }
    var keys := WgmsKeys(wgms, id.value);
    var years := YearColumns(wgms.cols, 0);
    if |years| == 0 {
      return Err(NO_YEAR);
    }
    var long := Melt(keys, wgms, years);
    var joined := InnerJoin(climate, ckeys.value, long);
    var final := SelectComplete(joined);
    r := Ok(final);
  }

  /** Only the years 2000 to 2024 reach the table. */
  lemma MlTableYears(climate: seq<ClimateRow>, ckeys: seq<string>, wgms: Frames.Frame, idc: nat, x: MlRow)
    requires |ckeys| == |climate|
    requires x in MlTable(climate, ckeys, wgms, idc, YearColumns(wgms.cols, 0))
    ensures 2000 <= x.year <= 2024
  {
    MlTableSpec(climate, ckeys, wgms, idc, YearColumns(wgms.cols, 0), x);
  }
}
