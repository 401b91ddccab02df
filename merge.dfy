/** The explorer merge: the glacier master table, left-joined with the
    climate features, the latest projection per glacier and, when there is
    a basin column, the latest melt category and flood level per basin;
    then defaults, a per-glacier integer risk grade and the coordinate
    filter. Every table is a `Frame`, since the script addresses columns by
    name and adds, renames and drops them as it goes. */
module Merge {
  import opened Common
  import opened Frames

  const UNKNOWN: Cell := Text("Unknown")

  /** What the export assertion raises when a coordinate is still missing. */
  const COORDS_MISSING: string := "AssertionError: lat/lon still missing after merge"

  /** The exported columns, in order. */
  const FINAL_COLS: seq<string> := ["glacier_id", "lat", "lon", "area_km2", "temp_mean",
                                    "melt_category", "flood_risk_level", "predicted_melt", "risk_level"]

  /** The coordinate columns, `lat` and `lon`: the second and third final
      columns. */
  const COORDS: seq<string> := FINAL_COLS[1..3]

  /** The coordinate duplicates a merge can leave behind. */
  const COORD_DUPLICATES: seq<string> := ["lat_x", "lat_y", "lon_x", "lon_y"]

  /** Column `name` as a list of cells. */
  function ColumnOf(f: Frame, name: string): (vs: seq<Cell>)
    requires WellFormed(f) && name in f.cols
    ensures |vs| == |f.rows| && forall r :: 0 <= r < |f.rows| ==> vs[r] == Get(f, r, name)
  {
    seq(|f.rows|, r requires 0 <= r < |f.rows| => Get(f, r, name))
  }

  /** A frame filled with one value in every row. */
  function Constant(f: Frame, v: Cell): (vs: seq<Cell>)
    ensures |vs| == |f.rows| && forall r :: 0 <= r < |f.rows| ==> vs[r] == v
  {
    seq(|f.rows|, _ => v)
  }

  // ---------------------------------------------------------------------
  // Base table and coordinate aliases
  // ---------------------------------------------------------------------

  /** A renamed column keeps its cells; the others keep theirs. */
  lemma RenameGet(f: Frame, from: string, to: string, r: nat)
    requires WellFormed(f) && to !in f.cols && from in f.cols && r < |f.rows|
    ensures to in Rename(f, from, to).cols && from !in Rename(f, from, to).cols
    ensures Get(Rename(f, from, to), r, to) == Get(f, r, from)
    ensures forall c :: c in f.cols && c != from ==> c in Rename(f, from, to).cols && Get(Rename(f, from, to), r, c) == Get(f, r, c)
  {
    var g := Rename(f, from, to);
    var k := IndexOf(f.cols, from);
    assert g.cols[k] == to;
    IndexOfDistinct(g.cols, k);
    forall c | c in f.cols && c != from
      ensures c in g.cols && Get(g, r, c) == Get(f, r, c)
    {
      var j := IndexOf(f.cols, c);
      assert g.cols[j] == c;
      IndexOfDistinct(g.cols, j);
    }
  }

  /** `target` is kept if present, otherwise renamed from `first`, otherwise
      from `second`. */
  function AliasColumn(f: Frame, target: string, first: string, second: string): (g: Frame)
    requires WellFormed(f)
    ensures WellFormed(g) && g.rows == f.rows
    ensures target in g.cols <==> target in f.cols || first in f.cols || second in f.cols
    ensures forall r :: 0 <= r < |f.rows| && target in g.cols ==>
      Get(g, r, target) == Get(f, r, if target in f.cols then target else if first in f.cols then first else second)
    ensures forall r, c :: 0 <= r < |f.rows| && c in f.cols && c != first && c != second ==>
      c in g.cols && Get(g, r, c) == Get(f, r, c)
  {
    if target in f.cols then f
    else if first in f.cols then
      var g := Rename(f, first, target);
      forall r | 0 <= r < |f.rows| { RenameGet(f, first, target, r); }
      g
    else if second in f.cols then
      var g := Rename(f, second, target);
      forall r | 0 <= r < |f.rows| { RenameGet(f, second, target, r); }
      g
    else f
  }

  /** The two coordinate aliases. */
  function AliasCoordinates(b: Frame): (g: Frame)
    requires WellFormed(b)
    ensures WellFormed(g) && g.rows == b.rows
    ensures "lat" in g.cols <==> "lat" in b.cols || "latitude" in b.cols || "cenlat" in b.cols
    ensures "lon" in g.cols <==> "lon" in b.cols || "longitude" in b.cols || "cenlon" in b.cols
  {
    var withLat := AliasColumn(b, "lat", "latitude", "cenlat");
    assert "lon" in b.cols ==> "lon" in withLat.cols;
    assert "longitude" in b.cols ==> "longitude" in withLat.cols;
    assert "cenlon" in b.cols ==> "cenlon" in withLat.cols;
    AliasColumn(withLat, "lon", "longitude", "cenlon")
  }

  /** Where the coordinates come from: `lat` itself, else `latitude`, else
      `cenlat`; `lon` likewise. */
  lemma AliasCoordinatesSource(b: Frame, r: nat)
    requires WellFormed(b) && r < |b.rows|
    requires "lat" in AliasCoordinates(b).cols && "lon" in AliasCoordinates(b).cols
    ensures Get(AliasCoordinates(b), r, "lat") == Get(b, r, AliasSource(b.cols, "lat", "latitude", "cenlat"))
    ensures Get(AliasCoordinates(b), r, "lon") == Get(b, r, AliasSource(b.cols, "lon", "longitude", "cenlon"))
  {
    CoordinateNamesDiffer();
    AliasLatSource(b, r);
    AliasLonSource(b, r);
  }

  lemma CoordinateNamesDiffer()
    ensures "lat" != "longitude" && "lat" != "cenlon" && "lat" != "lon"
    ensures "lon" != "latitude" && "lon" != "cenlat"
    ensures "longitude" != "latitude" && "longitude" != "cenlat"
    ensures "cenlon" != "latitude" && "cenlon" != "cenlat"
  {
  }

  lemma AliasLatSource(b: Frame, r: nat)
    requires WellFormed(b) && r < |b.rows| && "lat" in AliasColumn(b, "lat", "latitude", "cenlat").cols
    ensures var withLat := AliasColumn(b, "lat", "latitude", "cenlat");
      && "lat" in AliasColumn(withLat, "lon", "longitude", "cenlon").cols
      && Get(AliasColumn(withLat, "lon", "longitude", "cenlon"), r, "lat")
         == Get(b, r, AliasSource(b.cols, "lat", "latitude", "cenlat"))
  {
    CoordinateNamesDiffer();
    var withLat := AliasColumn(b, "lat", "latitude", "cenlat");
    AliasKeeps(withLat, "lon", "longitude", "cenlon", r, "lat");
  }

  lemma AliasLonSource(b: Frame, r: nat)
    requires WellFormed(b) && r < |b.rows|
    requires "lon" in AliasColumn(AliasColumn(b, "lat", "latitude", "cenlat"), "lon", "longitude", "cenlon").cols
    ensures var withLat := AliasColumn(b, "lat", "latitude", "cenlat");
      Get(AliasColumn(withLat, "lon", "longitude", "cenlon"), r, "lon")
      == Get(b, r, AliasSource(b.cols, "lon", "longitude", "cenlon"))
  {
    CoordinateNamesDiffer();
    AliasAfterAlias(b, "lat", "latitude", "cenlat", "lon", "longitude", "cenlon", r);
  }

  /** A second alias whose names are not renamed by the first reads the
      column it would have read on the original table. */
  lemma AliasAfterAlias(b: Frame, t1: string, a1: string, b1: string, t2: string, a2: string, b2: string, r: nat)
    requires WellFormed(b) && r < |b.rows|
    requires t2 != t1 && a2 != t1 && b2 != t1
    requires t2 != a1 && t2 != b1 && a2 != a1 && a2 != b1 && b2 != a1 && b2 != b1
    requires t2 in AliasColumn(AliasColumn(b, t1, a1, b1), t2, a2, b2).cols
    ensures AliasSource(b.cols, t2, a2, b2) in b.cols
    ensures Get(AliasColumn(AliasColumn(b, t1, a1, b1), t2, a2, b2), r, t2) == Get(b, r, AliasSource(b.cols, t2, a2, b2))
  {
    var g1 := AliasColumn(b, t1, a1, b1);
    var src := AliasSource(g1.cols, t2, a2, b2);
    assert src in g1.cols;
    AliasColumnsFrom(b, t1, a1, b1, src);
    assert src == AliasSource(b.cols, t2, a2, b2);
    AliasKeeps(b, t1, a1, b1, r, src);
  }

  /** Every column of an aliased table other than the alias itself was
      already a column of the original. */
  lemma AliasColumnsFrom(f: Frame, target: string, first: string, second: string, c: string)
    requires WellFormed(f) && c != target && c in AliasColumn(f, target, first, second).cols
    ensures c in f.cols
  {
    var g := AliasColumn(f, target, first, second);
    var i :| 0 <= i < |g.cols| && g.cols[i] == c;
    if target !in f.cols && (first in f.cols || second in f.cols) {
      assert f.cols[i] == c;
    }
  }

  /** The base table: lower-cased columns, `lat` and `lon` aliased, and the
      assertion that both are now present. */
  function PrepareBase(base: Frame): (res: Result<Frame>)
    requires WellFormed(LowerColumns(base))
    ensures var b := LowerColumns(base);
      res.Ok? <==> (("lat" in b.cols || "latitude" in b.cols || "cenlat" in b.cols)
                && ("lon" in b.cols || "longitude" in b.cols || "cenlon" in b.cols))
    ensures res.Ok? ==> res.value == AliasCoordinates(LowerColumns(base))
    ensures res.Ok? ==> WellFormed(res.value) && "lat" in res.value.cols && "lon" in res.value.cols
  {
    var g := AliasCoordinates(LowerColumns(base));
    if "lat" in g.cols && "lon" in g.cols then Ok(g) else Err("AssertionError: lat/lon missing")
  }

  /** The column an alias is taken from. */
  function AliasSource(cols: seq<string>, target: string, first: string, second: string): string {
    if target in cols then target else if first in cols then first else second
  }

  lemma AliasKeeps(f: Frame, target: string, first: string, second: string, r: nat, c: string)
    requires WellFormed(f) && r < |f.rows| && c in f.cols && c != first && c != second
    ensures c in AliasColumn(f, target, first, second).cols
    ensures Get(AliasColumn(f, target, first, second), r, c) == Get(f, r, c)
  {
  }

  // ---------------------------------------------------------------------
  // Latest records
  // ---------------------------------------------------------------------

  /** `sort_values("year").groupby(key).tail(1)` when the frame has a year
      column; a frame without one is kept whole. Grouping by an absent key
      raises. */
  function Latest(f: Frame, key: string): (res: Result<Frame>)
    requires WellFormed(f)
    ensures res.Err? <==> "year" in f.cols && key !in f.cols
    ensures res.Ok? ==> WellFormed(res.value) && res.value.cols == f.cols
    ensures res.Ok? && "year" !in f.cols ==> res.value == f
  {
    if "year" !in f.cols then Ok(f)
    else if key !in f.cols then Err("KeyError: " + key)
    else Ok(LatestPerKey(f, key, "year"))
  }

  /** With a year column, each key keeps one row of the input, no two kept
      rows share a key, and every keyed input row is matched by a kept row
      with the same key and a year at least as large. */
  lemma LatestSpec(f: Frame, key: string)
    requires WellFormed(f) && "year" in f.cols && key in f.cols
    ensures var g := Latest(f, key).value;
      var k := IndexOf(f.cols, key);
      var y := IndexOf(f.cols, "year");
      && (forall row :: row in g.rows ==> row in f.rows && row[k] != Blank)
      && UniqueKeys(g.rows, k)
      && (forall row :: row in f.rows && row[k] != Blank ==>
            exists out :: out in g.rows && out[k] == row[k] && CellLe(row[y], out[y]))
  {
    LatestPerKeySpec(f, key, "year");
  }

  // ---------------------------------------------------------------------
  // Joins
  // ---------------------------------------------------------------------

  /** The two category joins, or "Unknown" for both when the merged frame
      has no basin. The melt and flood frames are cut to the basin and the
      category column first, which raises if either is missing. */
  function JoinCategories(df: Frame, melt: Frame, flood: Frame): (res: Result<Frame>)
    requires WellFormed(df) && WellFormed(melt) && WellFormed(flood)
    ensures res.Ok? ==> WellFormed(res.value) && |res.value.rows| >= |df.rows|
    ensures "basin" !in df.cols ==> res.Ok?
    ensures "basin" !in df.cols ==> "melt_category" in res.value.cols && "flood_risk_level" in res.value.cols
  {
    if "basin" in df.cols then
      var m := Select(melt, ["basin", "melt_category"]);
      if m.Err? then Err(m.msg)
      else
        var withMelt := MergeLeft(df, m.value, "basin");
        if withMelt.Err? then withMelt
        else
          var fl := Select(flood, ["basin", "flood_risk_level"]);
          if fl.Err? then Err(fl.msg) else MergeLeft(withMelt.value, fl.value, "basin")
    else
      var withMelt := SetColumn(df, "melt_category", Constant(df, UNKNOWN));
      Ok(SetColumn(withMelt, "flood_risk_level", Constant(withMelt, UNKNOWN)))
  }

  /** Without a basin column, every row's melt category and flood level is
      "Unknown". */
  lemma NoBasinUnknown(df: Frame, melt: Frame, flood: Frame, r: nat)
    requires WellFormed(df) && WellFormed(melt) && WellFormed(flood)
    requires "basin" !in df.cols && r < |df.rows|
    ensures var g := JoinCategories(df, melt, flood).value;
      && |g.rows| == |df.rows|
      && "melt_category" in g.cols && "flood_risk_level" in g.cols
      && Get(g, r, "melt_category") == UNKNOWN && Get(g, r, "flood_risk_level") == UNKNOWN
  {
  }

  /** The join chain: climate and projections by glacier, then the
      categories. */
  function JoinAll(base: Frame, climate: Frame, future: Frame, melt: Frame, flood: Frame): (res: Result<Frame>)
    requires WellFormed(base) && WellFormed(climate) && WellFormed(future) && WellFormed(melt) && WellFormed(flood)
    ensures res.Ok? ==> WellFormed(res.value) && |res.value.rows| >= |base.rows|
  {
    var withClimate := MergeLeft(base, climate, "glacier_id");
    if withClimate.Err? then withClimate
    else
      var withFuture := MergeLeft(withClimate.value, future, "glacier_id");
      if withFuture.Err? then withFuture else JoinCategories(withFuture.value, melt, flood)
  }

  /** `cell` is what a left merge on `key` brings in from column `name` of
      `t` for the left key `k`: the value in a row of `t` with that key, or
      a missing value when no row of `t` has it. */
  predicate CategoryFrom(cell: Cell, t: Frame, key: string, name: string, k: Cell)
    requires WellFormed(t) && key in t.cols && name in t.cols
  {
    || (exists j :: 0 <= j < |t.rows| && Get(t, j, key) == k && cell == Get(t, j, name))
    || ((forall j :: 0 <= j < |t.rows| ==> Get(t, j, key) != k) && cell == Blank)
  }

  /** A name kept among the first `w` columns of the left side of a merge
      stays there: a left name only changes by gaining `_x`. */
  lemma MergedLeftNames(lc: seq<string>, rc: seq<string>, key: string, name: string, w: nat)
    requires key in rc && w <= |lc| && |name| >= 2 && name[|name| - 2..] != "_x"
    requires forall i :: 0 <= i < w ==> lc[i] != name
    ensures w <= |MergedColumns(lc, rc, key)|
    ensures forall i :: 0 <= i < w ==> MergedColumns(lc, rc, key)[i] != name
  {
    var rest := RemoveAt(rc, IndexOf(rc, key));
    var left := Suffixed(lc, rest, key, "_x");
    assert MergedColumns(lc, rc, key) == left + Suffixed(rest, lc, key, "_y");
    forall i | 0 <= i < w ensures left[i] != name {
      SuffixEnds(lc[i], "_x");
    }
  }

  /** The header of a join with a two-column table whose second column the
      left side lacks: the left header, then that column. */
  lemma TwoColumnHeader(lc: seq<string>, key: string, name: string)
    requires key in lc && name !in lc && key != name
    ensures MergedColumns(lc, [key, name], key) == lc + [name]
  {
    assert IndexOf([key, name], key) == 0;
    assert RemoveAt([key, name], 0) == [name];
    assert Suffixed(lc, [name], key, "_x") == lc;
    assert Suffixed([name], lc, key, "_y") == [name];
  }

  /** The two-column join succeeds and appends `name`. */
  lemma CategoryJoinHeader(df: Frame, t: Frame, key: string, name: string)
    requires WellFormed(df) && WellFormed(t)
    requires key in df.cols && name !in df.cols && key != name && key in t.cols && name in t.cols
    ensures Select(t, [key, name]).Ok?
    ensures var out := MergeLeft(df, Select(t, [key, name]).value, key);
      out.Ok? && out.value.cols == df.cols + [name]
  {
    var sel := Select(t, [key, name]).value;
    TwoColumnHeader(df.cols, key, name);
    var cols := df.cols + [name];
    assert Distinct(cols) by {
      forall i, j | 0 <= i < j < |cols| ensures cols[i] != cols[j] {
        if j == |df.cols| {
          assert cols[i] in df.cols;
        }
      }
    }
  }

  /** One row of the two-column join, from the merge it came out of. */
  lemma CategoryJoinRow(df: Frame, t: Frame, sel: Frame, key: string, name: string, row: seq<Cell>, i: nat)
    requires WellFormed(df) && WellFormed(t) && key in df.cols && key != name && key in t.cols && name in t.cols
    requires Select(t, [key, name]).Ok? && sel == Select(t, [key, name]).value
    requires i < |df.rows| && MergedFrom(row, df.rows[i], sel.rows, IndexOf(df.cols, key), 0, 1)
    ensures |row| == |df.cols| + 1 && row[..|df.cols|] == df.rows[i]
    ensures CategoryFrom(row[|df.cols|], t, key, name, Get(df, i, key))
  {
    var kl := IndexOf(df.cols, key);
    var lrow := df.rows[i];
    assert IndexOf(sel.cols, key) == 0;
    assert IndexOf(sel.cols, name) == 1;
    if m :| m in sel.rows && 0 < |m| && CellAt(m, 0) == lrow[kl] && row == lrow + RemoveAt(m, 0) {
      var j :| 0 <= j < |sel.rows| && sel.rows[j] == m;
      assert Get(sel, j, key) == m[0] == Get(t, j, key);
      assert Get(sel, j, name) == m[1] == Get(t, j, name);
      assert RemoveAt(m, 0) == [m[1]];
      assert row[|df.cols|] == Get(t, j, name);
    } else {
      assert row == lrow + Blanks(1);
      forall j | 0 <= j < |t.rows| ensures Get(t, j, key) != lrow[kl] {
        assert sel.rows[j] in sel.rows;
        assert Get(sel, j, key) == Get(t, j, key);
      }
    }
  }

  /** `df.merge(t[[key, name]], on=key, how="left")` when `df` lacks `name`:
      the join succeeds, appends `name`, keeps the rows of `df` in order, and
      every output row is a row of `df` followed by the value of `name` in a
      row of `t` with its key, or a missing value when `t` has none. */
  lemma CategoryJoin(df: Frame, t: Frame, key: string, name: string)
    requires WellFormed(df) && WellFormed(t)
    requires key in df.cols && name !in df.cols && key != name && key in t.cols && name in t.cols
    ensures Select(t, [key, name]).Ok?
    ensures var out := MergeLeft(df, Select(t, [key, name]).value, key);
      && out.Ok?
      && out.value.cols == df.cols + [name]
      && PrefixesInOrder(df.rows, out.value.rows, |df.cols|)
      && forall row :: row in out.value.rows ==>
           && |row| == |df.cols| + 1
           && exists i :: 0 <= i < |df.rows| && row[..|df.cols|] == df.rows[i]
                && CategoryFrom(row[|df.cols|], t, key, name, Get(df, i, key))
  {
    CategoryJoinHeader(df, t, key, name);
    var sel := Select(t, [key, name]).value;
    var out := MergeLeft(df, sel, key).value;
    MergeLeftSpec(df, sel, key);
    forall row | row in out.rows
      ensures |row| == |df.cols| + 1
      ensures exists i :: 0 <= i < |df.rows| && row[..|df.cols|] == df.rows[i]
                && CategoryFrom(row[|df.cols|], t, key, name, Get(df, i, key))
    {
      var i := CategoryJoinSource(df, t, key, name, row);
    }
  }

  /** The row of `df` an output row of the two-column join starts with. */
  lemma CategoryJoinSource(df: Frame, t: Frame, key: string, name: string, row: seq<Cell>) returns (i: nat)
    requires WellFormed(df) && WellFormed(t)
    requires key in df.cols && name !in df.cols && key != name && key in t.cols && name in t.cols
    requires Select(t, [key, name]).Ok? && MergeLeft(df, Select(t, [key, name]).value, key).Ok?
    requires row in MergeLeft(df, Select(t, [key, name]).value, key).value.rows
    ensures i < |df.rows| && |row| == |df.cols| + 1 && row[..|df.cols|] == df.rows[i]
    ensures CategoryFrom(row[|df.cols|], t, key, name, Get(df, i, key))
  {
    var sel := Select(t, [key, name]).value;
    MergeLeftSpec(df, sel, key);
    assert IndexOf(sel.cols, key) == 0;
    i :| 0 <= i < |df.rows| && MergedFrom(row, df.rows[i], sel.rows, IndexOf(df.cols, key), 0, 1);
    CategoryJoinRow(df, t, sel, key, name, row, i);
  }

  /** Both category joins, when the merged frame has a basin and neither
      category yet: the two categories are appended, and every output row
      is a merged row followed by the melt category and the flood level of
      its basin (or missing values when the category tables lack it). */
  lemma JoinCategoriesFromBasin(df: Frame, melt: Frame, flood: Frame)
    requires WellFormed(df) && WellFormed(melt) && WellFormed(flood)
    requires "basin" in df.cols && "melt_category" !in df.cols && "flood_risk_level" !in df.cols
    requires JoinCategories(df, melt, flood).Ok?
    ensures "basin" in melt.cols && "melt_category" in melt.cols
    ensures "basin" in flood.cols && "flood_risk_level" in flood.cols
    ensures var out := JoinCategories(df, melt, flood).value;
      var w := |df.cols|;
      && out.cols == df.cols + ["melt_category", "flood_risk_level"]
      && forall row :: row in out.rows ==>
           && |row| == w + 2
           && exists i :: 0 <= i < |df.rows| && row[..w] == df.rows[i]
                && CategoryFrom(row[w], melt, "basin", "melt_category", Get(df, i, "basin"))
                && CategoryFrom(row[w + 1], flood, "basin", "flood_risk_level", Get(df, i, "basin"))
  {
    BasinJoinHeader(df, melt, flood);
    var out := JoinCategories(df, melt, flood).value;
    forall row | row in out.rows
      ensures |row| == |df.cols| + 2
      ensures exists i :: 0 <= i < |df.rows| && row[..|df.cols|] == df.rows[i]
                && CategoryFrom(row[|df.cols|], melt, "basin", "melt_category", Get(df, i, "basin"))
                && CategoryFrom(row[|df.cols| + 1], flood, "basin", "flood_risk_level", Get(df, i, "basin"))
    {
      BasinJoinRow(df, melt, flood, row);
    }
  }

  /** The basin branch: both tables carry their two columns and the joins
      append the two categories. */
  lemma BasinJoinHeader(df: Frame, melt: Frame, flood: Frame)
    requires WellFormed(df) && WellFormed(melt) && WellFormed(flood)
    requires "basin" in df.cols && "melt_category" !in df.cols && "flood_risk_level" !in df.cols
    requires JoinCategories(df, melt, flood).Ok?
    ensures "basin" in melt.cols && "melt_category" in melt.cols
    ensures "basin" in flood.cols && "flood_risk_level" in flood.cols
    ensures JoinCategories(df, melt, flood).value.cols == df.cols + ["melt_category", "flood_risk_level"]
  {
    assert ["basin", "melt_category"][0] == "basin" && ["basin", "melt_category"][1] == "melt_category";
    assert ["basin", "flood_risk_level"][0] == "basin" && ["basin", "flood_risk_level"][1] == "flood_risk_level";
    CategoryJoinHeader(df, melt, "basin", "melt_category");
    var withMelt := MergeLeft(df, Select(melt, ["basin", "melt_category"]).value, "basin").value;
    CategoryJoinHeader(withMelt, flood, "basin", "flood_risk_level");
  }

  /** One output row of the basin branch. */
  lemma BasinJoinRow(df: Frame, melt: Frame, flood: Frame, row: seq<Cell>)
    requires WellFormed(df) && WellFormed(melt) && WellFormed(flood)
    requires "basin" in df.cols && "melt_category" !in df.cols && "flood_risk_level" !in df.cols
    requires JoinCategories(df, melt, flood).Ok? && row in JoinCategories(df, melt, flood).value.rows
    requires "basin" in melt.cols && "melt_category" in melt.cols
    requires "basin" in flood.cols && "flood_risk_level" in flood.cols
    ensures |row| == |df.cols| + 2
    ensures exists i :: 0 <= i < |df.rows| && row[..|df.cols|] == df.rows[i]
              && CategoryFrom(row[|df.cols|], melt, "basin", "melt_category", Get(df, i, "basin"))
              && CategoryFrom(row[|df.cols| + 1], flood, "basin", "flood_risk_level", Get(df, i, "basin"))
  {
    CategoryJoinHeader(df, melt, "basin", "melt_category");
    var withMelt := MergeLeft(df, Select(melt, ["basin", "melt_category"]).value, "basin").value;
    CategoryJoinHeader(withMelt, flood, "basin", "flood_risk_level");
    assert JoinCategories(df, melt, flood).value == MergeLeft(withMelt, Select(flood, ["basin", "flood_risk_level"]).value, "basin").value;
    var i2 := CategoryJoinSource(withMelt, flood, "basin", "flood_risk_level", row);
    var row1 := withMelt.rows[i2];
    assert row1 in withMelt.rows;
    var i := CategoryJoinSource(df, melt, "basin", "melt_category", row1);
    StitchCategories(df, melt, flood, withMelt, row, i2, i);
  }

  /** The two category cells of a row, traced back through both joins to
      the basin of the row of `df` it starts with. */
  lemma StitchCategories(df: Frame, melt: Frame, flood: Frame, withMelt: Frame, row: seq<Cell>, i2: nat, i: nat)
    requires WellFormed(df) && WellFormed(melt) && WellFormed(flood) && WellFormed(withMelt)
    requires "basin" in df.cols && withMelt.cols == df.cols + ["melt_category"]
    requires "basin" in melt.cols && "melt_category" in melt.cols
    requires "basin" in flood.cols && "flood_risk_level" in flood.cols
    requires i2 < |withMelt.rows| && i < |df.rows|
    requires |row| == |withMelt.cols| + 1 && row[..|withMelt.cols|] == withMelt.rows[i2]
    requires CategoryFrom(row[|withMelt.cols|], flood, "basin", "flood_risk_level", Get(withMelt, i2, "basin"))
    requires withMelt.rows[i2][..|df.cols|] == df.rows[i]
    requires CategoryFrom(withMelt.rows[i2][|df.cols|], melt, "basin", "melt_category", Get(df, i, "basin"))
    ensures |row| == |df.cols| + 2 && row[..|df.cols|] == df.rows[i]
    ensures CategoryFrom(row[|df.cols|], melt, "basin", "melt_category", Get(df, i, "basin"))
    ensures CategoryFrom(row[|df.cols| + 1], flood, "basin", "flood_risk_level", Get(df, i, "basin"))
  {
    var w := |df.cols|;
    var row1 := withMelt.rows[i2];
    var kb := IndexOf(df.cols, "basin");
    assert IndexOf(withMelt.cols, "basin") == kb by {
      IndexOfDistinct(withMelt.cols, kb);
    }
    assert Get(withMelt, i2, "basin") == row1[kb] == df.rows[i][kb];
    assert row[..w] == row1[..w];
    assert row[w] == row1[w];
  }

  /** The category joins keep the rows of the merged frame in order, as far
      as its first `w` columns, none of which is a category. */
  lemma JoinCategoriesKeepsRows(df: Frame, melt: Frame, flood: Frame, w: nat)
    requires WellFormed(df) && WellFormed(melt) && WellFormed(flood) && JoinCategories(df, melt, flood).Ok?
    requires w <= |df.cols|
    requires forall i :: 0 <= i < w ==> df.cols[i] != "melt_category" && df.cols[i] != "flood_risk_level"
    ensures PrefixesInOrder(df.rows, JoinCategories(df, melt, flood).value.rows, w)
  {
    if "basin" in df.cols {
      BasinJoinKeepsRows(df, melt, flood, w);
    } else {
      var withMelt := SetColumn(df, "melt_category", Constant(df, UNKNOWN));
      SetColumnKeepsPrefix(df, "melt_category", Constant(df, UNKNOWN), w);
      SetColumnKeepsPrefix(withMelt, "flood_risk_level", Constant(withMelt, UNKNOWN), w);
      PrefixesCompose(df.rows, withMelt.rows, JoinCategories(df, melt, flood).value.rows, w, w);
    }
  }

  /** The basin branch of the category joins keeps the rows in order. */
  lemma BasinJoinKeepsRows(df: Frame, melt: Frame, flood: Frame, w: nat)
    requires WellFormed(df) && WellFormed(melt) && WellFormed(flood) && JoinCategories(df, melt, flood).Ok?
    requires "basin" in df.cols && w <= |df.cols|
    ensures PrefixesInOrder(df.rows, JoinCategories(df, melt, flood).value.rows, w)
  {
    var m := Select(melt, ["basin", "melt_category"]).value;
    var withMelt := MergeLeft(df, m, "basin").value;
    var fl := Select(flood, ["basin", "flood_risk_level"]).value;
    var out := MergeLeft(withMelt, fl, "basin").value;
    assert out == JoinCategories(df, melt, flood).value;
    MergeLeftSpec(df, m, "basin");
    MergeLeftSpec(withMelt, fl, "basin");
    PrefixesCompose(df.rows, withMelt.rows, out.rows, |df.cols|, |withMelt.cols|);
    PrefixesWeaken(df.rows, out.rows, |df.cols|, w);
  }

  /** Every row of the master table survives the join chain, in order, as
      the start of an output row (more than one when a glacier has several
      climate rows or projections, or its basin several category rows). */
  lemma JoinAllKeepsBase(base: Frame, climate: Frame, future: Frame, melt: Frame, flood: Frame)
    requires WellFormed(base) && WellFormed(climate) && WellFormed(future) && WellFormed(melt) && WellFormed(flood)
    requires "melt_category" !in base.cols && "flood_risk_level" !in base.cols
    requires JoinAll(base, climate, future, melt, flood).Ok?
    ensures PrefixesInOrder(base.rows, JoinAll(base, climate, future, melt, flood).value.rows, |base.cols|)
  {
    var w := |base.cols|;
    var withClimate := MergeLeft(base, climate, "glacier_id").value;
    var withFuture := MergeLeft(withClimate, future, "glacier_id").value;
    assert JoinAll(base, climate, future, melt, flood) == JoinCategories(withFuture, melt, flood);
    KeyJoinsKeepBase(base, climate, future);
    JoinCategoriesKeepsRows(withFuture, melt, flood, w);
    PrefixesCompose(base.rows, withFuture.rows, JoinAll(base, climate, future, melt, flood).value.rows, w, w);
  }

  /** The two joins on `glacier_id` keep the master rows in order, and its
      columns keep names other than the categories. */
  lemma KeyJoinsKeepBase(base: Frame, climate: Frame, future: Frame)
    requires WellFormed(base) && WellFormed(climate) && WellFormed(future)
    requires "melt_category" !in base.cols && "flood_risk_level" !in base.cols
    requires MergeLeft(base, climate, "glacier_id").Ok?
    requires MergeLeft(MergeLeft(base, climate, "glacier_id").value, future, "glacier_id").Ok?
    ensures var withFuture := MergeLeft(MergeLeft(base, climate, "glacier_id").value, future, "glacier_id").value;
      && |base.cols| <= |withFuture.cols|
      && PrefixesInOrder(base.rows, withFuture.rows, |base.cols|)
      && forall i :: 0 <= i < |base.cols| ==>
           withFuture.cols[i] != "melt_category" && withFuture.cols[i] != "flood_risk_level"
  {
    var w := |base.cols|;
    var withClimate := MergeLeft(base, climate, "glacier_id").value;
    var withFuture := MergeLeft(withClimate, future, "glacier_id").value;
    MergeLeftSpec(base, climate, "glacier_id");
    MergeLeftSpec(withClimate, future, "glacier_id");
    PrefixesCompose(base.rows, withClimate.rows, withFuture.rows, w, |withClimate.cols|);
    CategoryNamesKept(base.cols, climate.cols, "glacier_id", w);
    CategoryNamesKept(withClimate.cols, future.cols, "glacier_id", w);
  }

  /** Neither category name appears among the first `w` merged columns when
      it is not among the first `w` left columns. */
  lemma CategoryNamesKept(lc: seq<string>, rc: seq<string>, key: string, w: nat)
    requires key in rc && w <= |lc|
    requires forall i :: 0 <= i < w ==> lc[i] != "melt_category" && lc[i] != "flood_risk_level"
    ensures w <= |MergedColumns(lc, rc, key)|
    ensures forall i :: 0 <= i < w ==>
      MergedColumns(lc, rc, key)[i] != "melt_category" && MergedColumns(lc, rc, key)[i] != "flood_risk_level"
  {
    var mc := "melt_category";
    var frl := "flood_risk_level";
    assert mc[|mc| - 2..] == "ry" && frl[|frl| - 2..] == "el";
    MergedLeftNames(lc, rc, key, mc, w);
    MergedLeftNames(lc, rc, key, frl, w);
  }

  /** Every row of the join chain starts with a whole master row. */
  lemma JoinAllFromBase(base: Frame, climate: Frame, future: Frame, melt: Frame, flood: Frame)
    requires WellFormed(base) && WellFormed(climate) && WellFormed(future) && WellFormed(melt) && WellFormed(flood)
    requires "melt_category" !in base.cols && "flood_risk_level" !in base.cols
    requires JoinAll(base, climate, future, melt, flood).Ok?
    ensures PrefixesFrom(base.rows, JoinAll(base, climate, future, melt, flood).value.rows, |base.cols|)
  {
    var w := |base.cols|;
    var withClimate := MergeLeft(base, climate, "glacier_id").value;
    var withFuture := MergeLeft(withClimate, future, "glacier_id").value;
    assert JoinAll(base, climate, future, melt, flood) == JoinCategories(withFuture, melt, flood);
    MergeLeftFrom(base, climate, "glacier_id");
    MergeLeftFrom(withClimate, future, "glacier_id");
    PrefixesFromCompose(base.rows, withClimate.rows, withFuture.rows, w, |withClimate.cols|);
    KeyJoinsKeepBase(base, climate, future);
    CategoriesFromRows(withFuture, melt, flood, w);
    PrefixesFromCompose(base.rows, withFuture.rows, JoinAll(base, climate, future, melt, flood).value.rows, w, w);
  }

  /** Every row after the category joins starts with the first `w` cells of
      a row before them, when none of those columns is a category. */
  lemma CategoriesFromRows(df: Frame, melt: Frame, flood: Frame, w: nat)
    requires WellFormed(df) && WellFormed(melt) && WellFormed(flood) && JoinCategories(df, melt, flood).Ok?
    requires w <= |df.cols|
    requires forall i :: 0 <= i < w ==> df.cols[i] != "melt_category" && df.cols[i] != "flood_risk_level"
    ensures PrefixesFrom(df.rows, JoinCategories(df, melt, flood).value.rows, w)
  {
    if "basin" in df.cols {
      BasinJoinFromRows(df, melt, flood, w);
    } else {
      var withMelt := SetColumn(df, "melt_category", Constant(df, UNKNOWN));
      SetColumnKeepsPrefix(df, "melt_category", Constant(df, UNKNOWN), w);
      SetColumnKeepsPrefix(withMelt, "flood_risk_level", Constant(withMelt, UNKNOWN), w);
      PrefixesFromCompose(df.rows, withMelt.rows, JoinCategories(df, melt, flood).value.rows, w, w);
    }
  }

  /** The basin branch of `CategoriesFromRows`. */
  lemma BasinJoinFromRows(df: Frame, melt: Frame, flood: Frame, w: nat)
    requires WellFormed(df) && WellFormed(melt) && WellFormed(flood) && JoinCategories(df, melt, flood).Ok?
    requires "basin" in df.cols && w <= |df.cols|
    ensures PrefixesFrom(df.rows, JoinCategories(df, melt, flood).value.rows, w)
  {
    var m := Select(melt, ["basin", "melt_category"]).value;
    var withMelt := MergeLeft(df, m, "basin").value;
    var fl := Select(flood, ["basin", "flood_risk_level"]).value;
    var out := MergeLeft(withMelt, fl, "basin").value;
    assert out == JoinCategories(df, melt, flood).value;
    MergeLeftFrom(df, m, "basin");
    MergeLeftFrom(withMelt, fl, "basin");
    PrefixesFromCompose(df.rows, withMelt.rows, out.rows, |df.cols|, |withMelt.cols|);
    PrefixesFromWeaken(df.rows, out.rows, |df.cols|, w);
  }

  /** A left column that is the key, or that the right side lacks, keeps its
      name and place in the merged header. */
  lemma MergedKeepsName(lc: seq<string>, rc: seq<string>, key: string, p: nat)
    requires key in rc && p < |lc| && (lc[p] == key || lc[p] !in rc)
    ensures p < |MergedColumns(lc, rc, key)| && MergedColumns(lc, rc, key)[p] == lc[p]
  {
    var rest := RemoveAt(rc, IndexOf(rc, key));
    assert forall c :: c in rest ==> c in rc;
    assert MergedColumns(lc, rc, key) == Suffixed(lc, rest, key, "_x") + Suffixed(rest, lc, key, "_y");
  }

  /** The ID column keeps its place through the joins. */
  lemma JoinAllIdColumn(base: Frame, climate: Frame, future: Frame, melt: Frame, flood: Frame)
    requires WellFormed(base) && WellFormed(climate) && WellFormed(future) && WellFormed(melt) && WellFormed(flood)
    requires JoinAll(base, climate, future, melt, flood).Ok?
    ensures "glacier_id" in base.cols && "glacier_id" in JoinAll(base, climate, future, melt, flood).value.cols
    ensures IndexOf(JoinAll(base, climate, future, melt, flood).value.cols, "glacier_id") == IndexOf(base.cols, "glacier_id")
  {
    var id := "glacier_id";
    var p := IndexOf(base.cols, id);
    var withClimate := MergeLeft(base, climate, id).value;
    MergedKeepsName(base.cols, climate.cols, id, p);
    var withFuture := MergeLeft(withClimate, future, id).value;
    MergedKeepsName(withClimate.cols, future.cols, id, p);
    var out := JoinAll(base, climate, future, melt, flood).value;
    assert out == JoinCategories(withFuture, melt, flood).value;
    CategoryJoinsKeepPlace(withFuture, melt, flood, p);
    IndexOfDistinct(out.cols, p);
  }

  /** The category joins keep every column name other than the basin and
      the categories in its place. */
  lemma CategoryJoinsKeepPlace(df: Frame, melt: Frame, flood: Frame, p: nat)
    requires WellFormed(df) && WellFormed(melt) && WellFormed(flood) && JoinCategories(df, melt, flood).Ok?
    requires p < |df.cols| && df.cols[p] != "basin" && df.cols[p] != "melt_category" && df.cols[p] != "flood_risk_level"
    ensures p < |JoinCategories(df, melt, flood).value.cols|
    ensures JoinCategories(df, melt, flood).value.cols[p] == df.cols[p]
  {
    if "basin" in df.cols {
      var m := Select(melt, ["basin", "melt_category"]).value;
      var withMelt := MergeLeft(df, m, "basin").value;
      MergedKeepsName(df.cols, m.cols, "basin", p);
      var fl := Select(flood, ["basin", "flood_risk_level"]).value;
      MergedKeepsName(withMelt.cols, fl.cols, "basin", p);
    }
  }

  /** Column `p` holds the master table's coordinate `n`: under its own
      name, or suffixed as `nx` when no column bears the plain name. */
  predicate CoordinateAt(cols: seq<string>, n: string, nx: string, p: nat) {
    p < |cols| && (cols[p] == n || (cols[p] == nx && n !in cols))
  }

  /** A merge keeps a coordinate column findable: a plain name gains `_x`
      only when the right side has it too, and then nothing else is left
      under the plain name. */
  lemma MergedCoordinate(lc: seq<string>, rc: seq<string>, key: string, n: string, nx: string, p: nat)
    requires key in rc && CoordinateAt(lc, n, nx, p) && nx == n + "_x"
    requires key != n && key != nx
    requires |n| >= 2 && n[|n| - 2..] != "_x" && n[|n| - 2..] != "_y"
    requires lc[p] == nx ==> n !in rc && nx !in rc
    ensures CoordinateAt(MergedColumns(lc, rc, key), n, nx, p)
  {
    var rest := RemoveAt(rc, IndexOf(rc, key));
    assert forall c :: c in rest ==> c in rc;
    var left := Suffixed(lc, rest, key, "_x");
    var right := Suffixed(rest, lc, key, "_y");
    assert MergedColumns(lc, rc, key) == left + right;
    SuffixedPlain(lc, rest, key, "_x", n);
    SuffixedPlain(rest, lc, key, "_y", n);
    if lc[p] == n && n in rest {
      assert left[p] == nx;
      assert n in lc;
      assert n !in left && n !in right;
    }
  }

  /** The names a coordinate may carry through the joins differ from the
      join keys and the categories, and end in no merge suffix. */
  predicate CoordinateNames(n: string, nx: string) {
    && nx == n + "_x" && |n| >= 2 && n[|n| - 2..] != "_x" && n[|n| - 2..] != "_y"
    && n != "glacier_id" && nx != "glacier_id" && n != "basin" && nx != "basin"
    && n != "melt_category" && nx != "melt_category" && n != "flood_risk_level" && nx != "flood_risk_level"
  }

  lemma LatLonNames()
    ensures CoordinateNames("lat", "lat_x") && CoordinateNames("lon", "lon_x")
  {
    var lat, lon := "lat", "lon";
    assert lat[|lat| - 2..] == "at" && lon[|lon| - 2..] == "on";
  }

  /** When the projections carry no coordinate `n` of their own, plain or
      suffixed, the master table's `n` stays findable through the joins. */
  lemma JoinAllCoordinate(base: Frame, climate: Frame, future: Frame, melt: Frame, flood: Frame, n: string, nx: string)
    requires WellFormed(base) && WellFormed(climate) && WellFormed(future) && WellFormed(melt) && WellFormed(flood)
    requires JoinAll(base, climate, future, melt, flood).Ok?
    requires CoordinateNames(n, nx) && n in base.cols && n !in future.cols && nx !in future.cols
    ensures CoordinateAt(JoinAll(base, climate, future, melt, flood).value.cols, n, nx, IndexOf(base.cols, n))
  {
    var p := IndexOf(base.cols, n);
    var withClimate := MergeLeft(base, climate, "glacier_id").value;
    MergedCoordinate(base.cols, climate.cols, "glacier_id", n, nx, p);
    var withFuture := MergeLeft(withClimate, future, "glacier_id").value;
    MergedCoordinate(withClimate.cols, future.cols, "glacier_id", n, nx, p);
    assert JoinAll(base, climate, future, melt, flood) == JoinCategories(withFuture, melt, flood);
    CategoryJoinsKeepCoordinate(withFuture, melt, flood, n, nx, p);
  }

  /** The category joins keep a coordinate column findable. */
  lemma CategoryJoinsKeepCoordinate(df: Frame, melt: Frame, flood: Frame, n: string, nx: string, p: nat)
    requires WellFormed(df) && WellFormed(melt) && WellFormed(flood) && JoinCategories(df, melt, flood).Ok?
    requires CoordinateNames(n, nx) && CoordinateAt(df.cols, n, nx, p)
    ensures CoordinateAt(JoinCategories(df, melt, flood).value.cols, n, nx, p)
  {
    if "basin" in df.cols {
      var m := Select(melt, ["basin", "melt_category"]).value;
      var fl := Select(flood, ["basin", "flood_risk_level"]).value;
      CategoryColumnsApart(n, nx, m.cols, fl.cols);
      MergedCoordinate(df.cols, m.cols, "basin", n, nx, p);
      var withMelt := MergeLeft(df, m, "basin").value;
      MergedCoordinate(withMelt.cols, fl.cols, "basin", n, nx, p);
    }
  }

  /** A coordinate name is in neither cut category table. */
  lemma CategoryColumnsApart(n: string, nx: string, mc: seq<string>, fc: seq<string>)
    requires CoordinateNames(n, nx)
    requires mc == ["basin", "melt_category"] && fc == ["basin", "flood_risk_level"]
    ensures "basin" in mc && "basin" in fc
    ensures n !in mc && nx !in mc && n !in fc && nx !in fc
  {
  }

  /** The coordinate column the repair step reads is the one at `p`. */
  lemma CoordinateSource(cols: seq<string>, n: string, nx: string, long: string, p: nat)
    requires Distinct(cols) && CoordinateAt(cols, n, nx, p)
    ensures AliasSource(cols, n, nx, long) == cols[p]
    ensures AliasSource(cols, n, nx, long) in cols && IndexOf(cols, AliasSource(cols, n, nx, long)) == p
  {
    IndexOfDistinct(cols, p);
  }

  /** Joining on the latest-per-key table keeps every left row exactly
      once and in order, each extended by at most one match. */
  lemma LatestJoinKeepsRows(df: Frame, f: Frame, key: string)
    requires WellFormed(df) && WellFormed(f) && "year" in f.cols && key in f.cols
    requires MergeLeft(df, Latest(f, key).value, key).Ok?
    ensures |MergeLeft(df, Latest(f, key).value, key).value.rows| == |df.rows|
    ensures forall i :: 0 <= i < |df.rows| ==> MergeLeft(df, Latest(f, key).value, key).value.rows[i][..|df.cols|] == df.rows[i]
  {
    LatestSpec(f, key);
    MergeLeftKeepsRows(df, Latest(f, key).value, key);
  }

  /** A column name that both sides of a merge carry (other than the key)
      leaves the merged header under its own name, unless some other column
      with a suffix happens to spell it. */
  lemma SharedColumnSuffixed(lc: seq<string>, rc: seq<string>, key: string, c: string)
    requires key in rc && c != key && c in lc && c in rc
    requires |c| < 2 || (c[|c| - 2..] != "_x" && c[|c| - 2..] != "_y")
    ensures c !in MergedColumns(lc, rc, key)
  {
    var rest := RemoveAt(rc, IndexOf(rc, key));
    var i :| 0 <= i < |rc| && rc[i] == c;
    var k := IndexOf(rc, key);
    assert c in rest by {
      if i < k {
        assert rest[i] == c;
      } else {
        assert rest[i - 1] == c;
      }
    }
    SuffixedPlain(lc, rest, key, "_x", c);
    SuffixedPlain(rest, lc, key, "_y", c);
    assert MergedColumns(lc, rc, key) == Suffixed(lc, rest, key, "_x") + Suffixed(rest, lc, key, "_y");
  }

  lemma SuffixEnds(s: string, suffix: string)
    requires |suffix| == 2
    ensures (s + suffix)[|s + suffix| - 2..] == suffix
  {
  }

  /** A name that does not end in `suffix` is in a suffixed header only
      where it stood unchanged. */
  lemma SuffixedPlain(cols: seq<string>, other: seq<string>, key: string, suffix: string, c: string)
    requires |suffix| == 2 && (|c| < 2 || c[|c| - 2..] != suffix)
    ensures forall j :: 0 <= j < |cols| && Suffixed(cols, other, key, suffix)[j] == c ==>
      cols[j] == c && (cols[j] == key || cols[j] !in other)
  {
    forall j | 0 <= j < |cols| {
      SuffixEnds(cols[j], suffix);
    }
  }

  /** A column only one side carries, other than the key, keeps its name
      in the merged header. */
  lemma RightColumnKept(lc: seq<string>, rc: seq<string>, key: string, c: string)
    requires key in rc && c != key && c in rc && c !in lc
    ensures c in MergedColumns(lc, rc, key)
  {
    var rest := RemoveAt(rc, IndexOf(rc, key));
    var k := IndexOf(rc, key);
    var i :| 0 <= i < |rc| && rc[i] == c;
    var j := if i < k then i else i - 1;
    assert rest[j] == c;
    var right := Suffixed(rest, lc, key, "_y");
    assert right[j] == c;
    assert MergedColumns(lc, rc, key) == Suffixed(lc, rest, key, "_x") + right;
  }

  /** A merged column that does not end in a suffix comes from one of the
      two sides. */
  lemma MergedColumnOrigin(lc: seq<string>, rc: seq<string>, key: string, c: string)
    requires key in rc
    requires |c| < 2 || (c[|c| - 2..] != "_x" && c[|c| - 2..] != "_y")
    ensures c in MergedColumns(lc, rc, key) ==> c in lc || c in rc
  {
    var k := IndexOf(rc, key);
    var rest := RemoveAt(rc, k);
    var left := Suffixed(lc, rest, key, "_x");
    var right := Suffixed(rest, lc, key, "_y");
    assert MergedColumns(lc, rc, key) == left + right;
    SuffixedPlain(lc, rest, key, "_x", c);
    SuffixedPlain(rest, lc, key, "_y", c);
    if c in right {
      var j :| 0 <= j < |right| && right[j] == c;
      assert c in rc by {
        if j < k {
          assert rc[j] == c;
        } else {
          assert rc[j + 1] == c;
        }
      }
    }
  }

  /** The category joins bring in no column but the categories and the
      (suffixed) columns of the category tables. */
  lemma JoinCategoriesColumns(df: Frame, melt: Frame, flood: Frame, c: string)
    requires WellFormed(df) && WellFormed(melt) && WellFormed(flood) && JoinCategories(df, melt, flood).Ok?
    requires c !in df.cols && c != "basin" && c != "melt_category" && c != "flood_risk_level"
    requires |c| < 2 || (c[|c| - 2..] != "_x" && c[|c| - 2..] != "_y")
    ensures c !in JoinCategories(df, melt, flood).value.cols
  {
    if "basin" in df.cols {
      var m := Select(melt, ["basin", "melt_category"]).value;
      var withMelt := MergeLeft(df, m, "basin").value;
      MergedColumnOrigin(df.cols, m.cols, "basin", c);
      var fl := Select(flood, ["basin", "flood_risk_level"]).value;
      MergedColumnOrigin(withMelt.cols, fl.cols, "basin", c);
    } else {
      var withMelt := SetColumn(df, "melt_category", Constant(df, UNKNOWN));
      assert c !in withMelt.cols;
    }
  }

  /** The headers the earlier stages write give `temp_mean` to both the
      climate table and the projections, and not to the master table. Then
      the second join suffixes both copies, so after the joins there is no
      `temp_mean` column, and the default step recreates it empty: every
      glacier scores 0 temperature points. */
  lemma TempMeanShadowed(base: Frame, climate: Frame, future: Frame, melt: Frame, flood: Frame, r: nat)
    requires WellFormed(base) && WellFormed(climate) && WellFormed(future) && WellFormed(melt) && WellFormed(flood)
    requires "temp_mean" !in base.cols && "temp_mean" in climate.cols && "temp_mean" in future.cols
    requires JoinAll(base, climate, future, melt, flood).Ok?
    requires r < |JoinAll(base, climate, future, melt, flood).value.rows|
    ensures "temp_mean" !in JoinAll(base, climate, future, melt, flood).value.cols
    ensures Get(AddDefaults(JoinAll(base, climate, future, melt, flood).value), r, "temp_mean") == Blank
    ensures TempPoints(NumOf(Get(AddDefaults(JoinAll(base, climate, future, melt, flood).value), r, "temp_mean"))) == 0
  {
    var c := "temp_mean";
    assert c[|c| - 2..] == "an";
    var withClimate := MergeLeft(base, climate, "glacier_id").value;
    RightColumnKept(base.cols, climate.cols, "glacier_id", c);
    var withFuture := MergeLeft(withClimate, future, "glacier_id").value;
    SharedColumnSuffixed(withClimate.cols, future.cols, "glacier_id", c);
    JoinCategoriesColumns(withFuture, melt, flood, c);
  }

  // ---------------------------------------------------------------------
  // Defaults
  // ---------------------------------------------------------------------

  /** `df[name] = None` when the column is absent. */
  function DefaultColumn(df: Frame, name: string): (g: Frame)
    requires WellFormed(df)
    ensures WellFormed(g) && |g.rows| == |df.rows| && name in g.cols
    ensures forall c :: c in df.cols ==> c in g.cols
    ensures forall c :: c in g.cols ==> c in df.cols || c == name
    ensures forall r, c :: 0 <= r < |df.rows| && c in df.cols ==> Get(g, r, c) == Get(df, r, c)
    ensures name !in df.cols ==> forall r :: 0 <= r < |df.rows| ==> Get(g, r, name) == Blank
  {
    if name in df.cols then df else SetColumn(df, name, Blanks(|df.rows|))
  }

  /** The three defaults: a column that is still absent after the joins is
      created empty; the others are untouched. */
  function AddDefaults(df: Frame): (g: Frame)
    requires WellFormed(df)
    ensures WellFormed(g) && |g.rows| == |df.rows|
    ensures "temp_mean" in g.cols && "predicted_melt" in g.cols && "area_km2" in g.cols
    ensures forall c :: c in df.cols ==> c in g.cols
    ensures forall c :: c in g.cols ==> c in df.cols || c == "temp_mean" || c == "predicted_melt" || c == "area_km2"
    ensures forall r, c :: 0 <= r < |df.rows| && c in df.cols ==> Get(g, r, c) == Get(df, r, c)
    ensures "temp_mean" !in df.cols ==> forall r :: 0 <= r < |df.rows| ==> Get(g, r, "temp_mean") == Blank
    ensures "predicted_melt" !in df.cols ==> forall r :: 0 <= r < |df.rows| ==> Get(g, r, "predicted_melt") == Blank
    ensures "area_km2" !in df.cols ==> forall r :: 0 <= r < |df.rows| ==> Get(g, r, "area_km2") == Blank
  {
    var g1 := DefaultColumn(df, "temp_mean");
    var g2 := DefaultColumn(g1, "predicted_melt");
    DefaultColumn(g2, "area_km2")
  }

  /** `df[name] = df[name].fillna("Unknown")`; a missing column raises. */
  function FillUnknown(df: Frame, name: string): (res: Result<Frame>)
    requires WellFormed(df)
    ensures res.Ok? <==> name in df.cols
    ensures res.Ok? ==> WellFormed(res.value) && res.value.cols == df.cols && |res.value.rows| == |df.rows|
    ensures res.Ok? ==> forall r :: 0 <= r < |df.rows| ==>
      && (Get(df, r, name) == Blank ==> Get(res.value, r, name) == UNKNOWN)
      && (Get(df, r, name) != Blank ==> Get(res.value, r, name) == Get(df, r, name))
    ensures res.Ok? ==> forall r, c :: 0 <= r < |df.rows| && c in df.cols && c != name ==>
      Get(res.value, r, c) == Get(df, r, c)
  {
    if name in df.cols then Ok(FillNa(df, name, UNKNOWN)) else Err("KeyError: " + name)
  }

  // ---------------------------------------------------------------------
  // compute_risk
  // ---------------------------------------------------------------------

  /** Points for the mean temperature: 2 above 0, 1 in (-1, 0], else 0. */
  function TempPoints(t: Option<real>): (p: nat)
    ensures p <= 2
    ensures p == 2 <==> t.Some? && t.value > 0.0
    ensures p == 1 <==> t.Some? && -1.0 < t.value <= 0.0
  {
    if t.None? then 0 else if t.value > 0.0 then 2 else if t.value > -1.0 then 1 else 0
  }

  /** Points for the predicted mass change: 2 below -0.6, 1 in [-0.6, -0.3),
      else 0. */
  function PredPoints(m: Option<real>): (p: nat)
    ensures p <= 2
    ensures p == 2 <==> m.Some? && m.value < -0.6
    ensures p == 1 <==> m.Some? && -0.6 <= m.value < -0.3
  {
    if m.None? then 0 else if m.value < -0.6 then 2 else if m.value < -0.3 then 1 else 0
  }

  /** One point for a glacier smaller than 5 km2. */
  function AreaPoints(a: Option<real>): (p: nat)
    ensures p <= 1
    ensures p == 1 <==> a.Some? && a.value < 5.0
  {
    if a.Some? && a.value < 5.0 then 1 else 0
  }

  /** Two points for an exact label match. */
  function LabelPoints(c: Cell, hit: Cell): (p: nat)
    ensures p == 2 <==> c == hit
    ensures p == 0 <==> c != hit
  {
    if c == hit then 2 else 0
  }

  /** The melt category and the flood level that score. */
  const EXTREME_MELT: Cell := Text("Extreme Melt")
  const HIGH_FLOOD_RISK: Cell := Text("High Risk")

  /** The risk score: the sum of the five parts, between 0 and 9. */
  function RiskScore(temp: Option<real>, pred: Option<real>, area: Option<real>, melt: Cell, flood: Cell): (s: nat)
    ensures s <= 9
  {
    TempPoints(temp) + PredPoints(pred) + AreaPoints(area) + LabelPoints(melt, EXTREME_MELT) + LabelPoints(flood, HIGH_FLOOD_RISK)
  }

  /** The bins: 5 and up is High, 3 and 4 Medium, below 3 Low. */
  function RiskLevel(s: int): (level: string)
    ensures level in {"High", "Medium", "Low"}
    ensures level == "High" <==> s >= 5
    ensures level == "Medium" <==> 3 <= s < 5
    ensures level == "Low" <==> s < 3
  {
    if s >= 5 then "High" else if s >= 3 then "Medium" else "Low"
  }

  function Rank(level: string): nat {
    if level == "High" then 2 else if level == "Medium" then 1 else 0
  }

  /** A higher score never gives a lower level. */
  lemma RiskLevelMonotone(s1: int, s2: int)
    requires s1 <= s2
    ensures Rank(RiskLevel(s1)) <= Rank(RiskLevel(s2))
  {
  }

  /** An extra category hit never lowers the level. */
  lemma CategoryHitNeverLowers(temp: Option<real>, pred: Option<real>, area: Option<real>, melt: Cell, flood: Cell)
    ensures Rank(RiskLevel(RiskScore(temp, pred, area, melt, flood)))
         <= Rank(RiskLevel(RiskScore(temp, pred, area, EXTREME_MELT, flood)))
    ensures Rank(RiskLevel(RiskScore(temp, pred, area, melt, flood)))
         <= Rank(RiskLevel(RiskScore(temp, pred, area, melt, HIGH_FLOOD_RISK)))
  {
    RiskLevelMonotone(RiskScore(temp, pred, area, melt, flood), RiskScore(temp, pred, area, EXTREME_MELT, flood));
    RiskLevelMonotone(RiskScore(temp, pred, area, melt, flood), RiskScore(temp, pred, area, melt, HIGH_FLOOD_RISK));
  }

  /** The thresholds at their boundaries, and missing numbers scoring 0. */
  lemma RiskBoundaries()
    ensures TempPoints(Some(0.0)) == 1 && TempPoints(Some(-1.0)) == 0
    ensures PredPoints(Some(-0.6)) == 1 && PredPoints(Some(-0.3)) == 0
    ensures AreaPoints(Some(5.0)) == 0
    ensures TempPoints(None) == 0 && PredPoints(None) == 0 && AreaPoints(None) == 0
  {
  }

  /** A numeric cell as the script sees it: a number, a missing value, or a
      string, which makes the comparison with a number raise. */
  function Numeric(c: Cell): Result<Option<real>> {
    match c
    case Num(x) => Ok(Some(x))
    case Blank => Ok(None)
    case Text(_) => Err("TypeError: str compared with a number")
  }

  /** The grade of one row. */
  function RiskOf(temp: Cell, pred: Cell, area: Cell, melt: Cell, flood: Cell): (res: Result<string>)
    ensures res.Err? <==> temp.Text? || pred.Text? || area.Text?
    ensures res.Ok? ==> res.value in {"High", "Medium", "Low"}
  {
    if temp.Text? || pred.Text? || area.Text? then Err("TypeError: str compared with a number")
    else Ok(RiskLevel(RiskScore(NumOf(temp), NumOf(pred), NumOf(area), melt, flood)))
  }

  /** `compute_risk(row)`: the score accumulated with `+=`, then binned. */
  method ComputeRisk(temp: Cell, pred: Cell, area: Cell, melt: Cell, flood: Cell) returns (res: Result<string>)
    ensures res == RiskOf(temp, pred, area, melt, flood)
  {
    var score := 0;
    if temp != Blank {
      if temp.Text? {
        return Err("TypeError: str compared with a number");
      }
      if temp.x > 0.0 {
        score := score + 2;
      } else if temp.x > -1.0 {
        score := score + 1;
      }
    }
    assert score == TempPoints(NumOf(temp));
    if pred != Blank {
      if pred.Text? {
        return Err("TypeError: str compared with a number");
      }
      if pred.x < -0.6 {
        score := score + 2;
      } else if pred.x < -0.3 {
        score := score + 1;
      }
    }
    assert score == TempPoints(NumOf(temp)) + PredPoints(NumOf(pred));
    if area != Blank {
      if area.Text? {
        return Err("TypeError: str compared with a number");
      }
      if area.x < 5.0 {
        score := score + 1;
      }
    }
    assert score == TempPoints(NumOf(temp)) + PredPoints(NumOf(pred)) + AreaPoints(NumOf(area));
    var partial := score;
    if melt == EXTREME_MELT {
      score := score + 2;
    }
    assert score == partial + LabelPoints(melt, EXTREME_MELT);
    partial := score;
    if flood == HIGH_FLOOD_RISK {
      score := score + 2;
    }
    assert score == partial + LabelPoints(flood, HIGH_FLOOD_RISK);
    assert score == RiskScore(NumOf(temp), NumOf(pred), NumOf(area), melt, flood);
    if score >= 5 {
      res := Ok("High");
    } else if score >= 3 {
      res := Ok("Medium");
    } else {
      res := Ok("Low");
    }
  }

  predicate HasRiskInputs(f: Frame) {
    && "temp_mean" in f.cols && "predicted_melt" in f.cols && "area_km2" in f.cols
    && "melt_category" in f.cols && "flood_risk_level" in f.cols
  }

  function RowRisk(f: Frame, r: nat): Result<string>
    requires WellFormed(f) && HasRiskInputs(f) && r < |f.rows|
  {
    RiskOf(Get(f, r, "temp_mean"), Get(f, r, "predicted_melt"), Get(f, r, "area_km2"),
           Get(f, r, "melt_category"), Get(f, r, "flood_risk_level"))
  }

  /** `df.apply(compute_risk, axis=1)`: raises if any row does. */
  function RiskColumn(f: Frame): (res: Result<seq<Cell>>)
    requires WellFormed(f) && HasRiskInputs(f)
    ensures res.Ok? <==> forall r :: 0 <= r < |f.rows| ==> RowRisk(f, r).Ok?
    ensures res.Ok? ==> |res.value| == |f.rows|
    ensures res.Ok? ==> forall r :: 0 <= r < |f.rows| ==> res.value[r] == Text(RowRisk(f, r).value)
  {
    if forall r :: 0 <= r < |f.rows| ==> RowRisk(f, r).Ok? then
      Ok(seq(|f.rows|, r requires 0 <= r < |f.rows| => Text(RowRisk(f, r).value)))
    else Err("TypeError: str compared with a number")
  }

  // ---------------------------------------------------------------------
  // Coordinates after the merges, and the export
  // ---------------------------------------------------------------------

  /** If `target` is absent, copy it from the suffixed base column, else from
      the long name. */
  function RestoreCoord(f: Frame, target: string, suffixed: string, long: string): (g: Frame)
    requires WellFormed(f)
    ensures WellFormed(g) && |g.rows| == |f.rows|
    ensures target in g.cols <==> target in f.cols || suffixed in f.cols || long in f.cols
    ensures forall r :: 0 <= r < |f.rows| && target in g.cols ==>
      Get(g, r, target) == Get(f, r, if target in f.cols then target else if suffixed in f.cols then suffixed else long)
    ensures forall c :: c in f.cols ==> c in g.cols
    ensures forall c :: c in g.cols ==> c in f.cols || c == target
    ensures forall r, c :: 0 <= r < |f.rows| && c in f.cols ==> c in g.cols && Get(g, r, c) == Get(f, r, c)
  {
    if target in f.cols then f
    else if suffixed in f.cols then SetColumn(f, target, ColumnOf(f, suffixed))
    else if long in f.cols then SetColumn(f, target, ColumnOf(f, long))
    else f
  }

  /** The restored coordinates, without their merge duplicates. */
  function FixCoordinates(f: Frame): (g: Frame)
    requires WellFormed(f)
    ensures WellFormed(g) && |g.rows| == |f.rows|
    ensures forall c :: c in COORD_DUPLICATES ==> c !in g.cols
    ensures forall c :: c in g.cols <==> c !in COORD_DUPLICATES && c in RestoreCoord(RestoreCoord(f, "lat", "lat_x", "latitude"), "lon", "lon_x", "longitude").cols
    ensures forall c :: c in f.cols && c !in COORD_DUPLICATES ==> c in g.cols
    ensures forall r, c :: 0 <= r < |f.rows| && c in f.cols && c !in COORD_DUPLICATES ==> c in g.cols && Get(g, r, c) == Get(f, r, c)
  {
    DropColumns(RestoreCoord(RestoreCoord(f, "lat", "lat_x", "latitude"), "lon", "lon_x", "longitude"), COORD_DUPLICATES)
  }

  /** When the base coordinates were suffixed by a merge, `lat` and `lon`
      are the base's own `lat_x` and `lon_x`, and no suffixed coordinate
      remains. */
  lemma FixCoordinatesFromBase(f: Frame, r: nat)
    requires WellFormed(f) && "lat" !in f.cols && "lon" !in f.cols && "lat_x" in f.cols && "lon_x" in f.cols
    requires r < |f.rows|
    ensures var g := FixCoordinates(f);
      && "lat" in g.cols && "lon" in g.cols
      && Get(g, r, "lat") == Get(f, r, "lat_x") && Get(g, r, "lon") == Get(f, r, "lon_x")
      && "lat_x" !in g.cols && "lat_y" !in g.cols && "lon_x" !in g.cols && "lon_y" !in g.cols
  {
    CoordinatesNotDuplicates();
    var g1 := RestoreCoord(f, "lat", "lat_x", "latitude");
    assert "lat" in g1.cols && Get(g1, r, "lat") == Get(f, r, "lat_x");
    var g2 := RestoreCoord(g1, "lon", "lon_x", "longitude");
    assert "lon" in g2.cols && Get(g2, r, "lon") == Get(f, r, "lon_x");
    assert Get(g2, r, "lat") == Get(f, r, "lat_x");
  }

  lemma CoordinatesNotDuplicates()
    ensures "lat" !in COORD_DUPLICATES && "lon" !in COORD_DUPLICATES
    ensures "lat_x" in COORD_DUPLICATES && "lat_y" in COORD_DUPLICATES
    ensures "lon_x" in COORD_DUPLICATES && "lon_y" in COORD_DUPLICATES
    ensures "lat" != "lon_x" && "lat" != "longitude"
  {
  }

  /** The assertion on the coordinates, `df[final_cols]` and the row filter
      on missing coordinates. */
  function Export(f: Frame): (res: Result<Frame>)
    requires WellFormed(f)
    ensures res.Ok? <==> forall c :: c in FINAL_COLS ==> c in f.cols
    ensures res.Ok? ==> WellFormed(res.value) && res.value.cols == FINAL_COLS
  {
    FinalColsPresent(f);
    if COORDS[0] !in f.cols || COORDS[1] !in f.cols then Err(COORDS_MISSING)
    else
      var sel := Select(f, FINAL_COLS);
      if sel.Err? then Err(sel.msg)
      else Ok(DropNa(sel.value, COORDS))
  }

  /** Every exported row is a row of the selected columns with both
      coordinates present. */
  lemma ExportRows(f: Frame)
    requires WellFormed(f) && Export(f).Ok?
    ensures |Export(f).value.rows| <= |f.rows|
    ensures Distinct(FINAL_COLS) && Select(f, FINAL_COLS).Ok?
    ensures forall row :: row in Export(f).value.rows ==>
      row in Select(f, FINAL_COLS).value.rows && row[1] != Blank && row[2] != Blank
  {
    FinalColsPresent(f);
    var sel := Select(f, FINAL_COLS).value;
    DropNaCoordinates(sel);
  }

  /** The coordinate filter on the exported columns. */
  lemma DropNaCoordinates(sel: Frame)
    requires WellFormed(sel) && sel.cols == FINAL_COLS
    ensures forall row :: row in DropNa(sel, COORDS).rows ==>
      row in sel.rows && row[1] != Blank && row[2] != Blank
  {
    FinalColsDistinct();
    IndexOfDistinct(FINAL_COLS, 1);
    IndexOfDistinct(FINAL_COLS, 2);
    var g := DropNa(sel, COORDS);
    forall row | row in g.rows ensures row in sel.rows && row[1] != Blank && row[2] != Blank {
      var i :| 0 <= i < |sel.rows| && sel.rows[i] == row;
      assert CellAt(row, IndexOf(sel.cols, COORDS[0])) != Blank;
      assert CellAt(row, IndexOf(sel.cols, COORDS[1])) != Blank;
    }
  }

  /** Selecting the final columns succeeds exactly when all are present. */
  lemma FinalColsPresent(f: Frame)
    requires WellFormed(f)
    ensures Distinct(FINAL_COLS)
    ensures Select(f, FINAL_COLS).Ok? <==> forall c :: c in FINAL_COLS ==> c in f.cols
  {
    FinalColsDistinct();
    if forall c :: c in FINAL_COLS ==> c in f.cols {
      forall j | 0 <= j < |FINAL_COLS| ensures FINAL_COLS[j] in f.cols {
        assert FINAL_COLS[j] in FINAL_COLS;
      }
    }
  }

  lemma FinalColsDistinct()
    ensures Distinct(FINAL_COLS)
  {
  }

  const LEVELS: set<Cell> := {Text("High"), Text("Medium"), Text("Low")}

  /** Row `r` has a melt category, a flood level and a risk level, and the
      risk level is the grade of the row's own inputs. */
  predicate GradedRow(f: Frame, r: nat)
    requires WellFormed(f) && r < |f.rows| && HasRiskInputs(f) && "risk_level" in f.cols
  {
    && Get(f, r, "melt_category") != Blank && Get(f, r, "flood_risk_level") != Blank
    && Get(f, r, "risk_level") in LEVELS
    && RowRisk(f, r).Ok? && Get(f, r, "risk_level") == Text(RowRisk(f, r).value)
  }

  /** Every row is graded. */
  predicate Graded(f: Frame) {
    && WellFormed(f) && HasRiskInputs(f) && "risk_level" in f.cols
    && forall r :: 0 <= r < |f.rows| ==> GradedRow(f, r)
  }

  /** The filled categories and the risk column grade every row. */
  lemma GradedAfterRisk(df: Frame, risk: seq<Cell>)
    requires WellFormed(df) && HasRiskInputs(df)
    requires forall r :: 0 <= r < |df.rows| ==> Get(df, r, "melt_category") != Blank && Get(df, r, "flood_risk_level") != Blank
    requires RiskColumn(df).Ok? && risk == RiskColumn(df).value
    ensures Graded(SetColumn(df, "risk_level", risk))
  {
    var g := SetColumn(df, "risk_level", risk);
    forall r | 0 <= r < |df.rows|
      ensures GradedRow(g, r)
    {
      assert Get(g, r, "risk_level") == risk[r] == Text(RowRisk(df, r).value);
      assert RowRisk(g, r) == RowRisk(df, r);
    }
  }

  /** Restoring the coordinates keeps the grades. */
  lemma GradedAfterCoordinates(f: Frame)
    requires Graded(f)
    ensures Graded(FixCoordinates(f))
  {
    var g := FixCoordinates(f);
    FixKeepsColumns(f);
    forall r | 0 <= r < |g.rows| ensures GradedRow(g, r) {
      GradedRowFixed(f, r);
    }
  }

  /** One row of the coordinate repair stays graded. */
  lemma GradedRowFixed(f: Frame, r: nat)
    requires Graded(f) && r < |f.rows|
    ensures HasRiskInputs(FixCoordinates(f)) && "risk_level" in FixCoordinates(f).cols
    ensures GradedRow(FixCoordinates(f), r)
  {
    assert GradedRow(f, r);
    FixKeepsRow(f, r);
    GradedRowKept(f, FixCoordinates(f), r);
  }

  /** The coordinate repair keeps the grading columns of a row. */
  lemma FixKeepsRow(f: Frame, r: nat)
    requires WellFormed(f) && HasRiskInputs(f) && "risk_level" in f.cols && r < |f.rows|
    ensures var g := FixCoordinates(f);
      && HasRiskInputs(g) && "risk_level" in g.cols && r < |g.rows|
      && Get(g, r, "melt_category") == Get(f, r, "melt_category")
      && Get(g, r, "flood_risk_level") == Get(f, r, "flood_risk_level")
      && Get(g, r, "risk_level") == Get(f, r, "risk_level")
      && Get(g, r, "temp_mean") == Get(f, r, "temp_mean")
      && Get(g, r, "predicted_melt") == Get(f, r, "predicted_melt")
      && Get(g, r, "area_km2") == Get(f, r, "area_km2")
  {
    DuplicateNamesLength();
    FixKeepsAt(f, "melt_category", r);
    FixKeepsAt(f, "flood_risk_level", r);
    FixKeepsAt(f, "risk_level", r);
    FixKeepsAt(f, "temp_mean", r);
    FixKeepsAt(f, "predicted_melt", r);
    FixKeepsAt(f, "area_km2", r);
  }

  lemma FixKeepsAt(f: Frame, c: string, r: nat)
    requires WellFormed(f) && c in f.cols && c !in COORD_DUPLICATES && r < |f.rows|
    ensures c in FixCoordinates(f).cols && Get(FixCoordinates(f), r, c) == Get(f, r, c)
  {
  }

  /** A row whose grading columns are unchanged stays graded. */
  lemma GradedRowKept(f: Frame, g: Frame, r: nat)
    requires Graded(f) && WellFormed(g) && HasRiskInputs(g) && "risk_level" in g.cols
    requires r < |f.rows| && r < |g.rows|
    requires Get(g, r, "melt_category") == Get(f, r, "melt_category")
    requires Get(g, r, "flood_risk_level") == Get(f, r, "flood_risk_level")
    requires Get(g, r, "risk_level") == Get(f, r, "risk_level")
    requires Get(g, r, "temp_mean") == Get(f, r, "temp_mean")
    requires Get(g, r, "predicted_melt") == Get(f, r, "predicted_melt")
    requires Get(g, r, "area_km2") == Get(f, r, "area_km2")
    ensures GradedRow(g, r)
  {
    assert GradedRow(f, r);
    assert RowRisk(g, r) == RowRisk(f, r);
  }

  /** The coordinate repair keeps the grading columns. */
  lemma FixKeepsColumns(f: Frame)
    requires WellFormed(f) && HasRiskInputs(f) && "risk_level" in f.cols
    ensures HasRiskInputs(FixCoordinates(f)) && "risk_level" in FixCoordinates(f).cols
  {
    DuplicateNamesLength();
  }

  /** Every coordinate duplicate has five letters, so no longer name is one. */
  lemma DuplicateNamesLength()
    ensures forall c :: c in COORD_DUPLICATES ==> |c| == 5
  {
  }

  lemma FixKeeps(f: Frame, c: string)
    requires WellFormed(f) && c in f.cols && c !in COORD_DUPLICATES
    ensures c in FixCoordinates(f).cols
    ensures forall r :: 0 <= r < |f.rows| ==> Get(FixCoordinates(f), r, c) == Get(f, r, c)
  {
  }

  /** Every exported row has its coordinates, both categories and one of
      the three risk levels, and that level is the grade of the row's own
      temperature, projected melt, area and categories. */
  lemma ExportGraded(f: Frame)
    requires Graded(f) && Export(f).Ok?
    ensures forall row :: row in Export(f).value.rows ==>
      && row[1] != Blank && row[2] != Blank && row[5] != Blank && row[6] != Blank && row[8] in LEVELS
      && RiskOf(row[4], row[7], row[3], row[5], row[6]).Ok?
      && row[8] == Text(RiskOf(row[4], row[7], row[3], row[5], row[6]).value)
  {
    ExportRows(f);
    var sel := Select(f, FINAL_COLS).value;
    forall row | row in Export(f).value.rows
      ensures row[5] != Blank && row[6] != Blank && row[8] in LEVELS
      ensures RiskOf(row[4], row[7], row[3], row[5], row[6]).Ok?
      ensures row[8] == Text(RiskOf(row[4], row[7], row[3], row[5], row[6]).value)
    {
      var i :| 0 <= i < |sel.rows| && sel.rows[i] == row;
      SelectedGraded(f, sel, i);
    }
  }

  lemma FinalColsIndices()
    ensures IndexOf(FINAL_COLS, "glacier_id") == 0
    ensures IndexOf(FINAL_COLS, "lat") == 1 && IndexOf(FINAL_COLS, "lon") == 2
    ensures IndexOf(FINAL_COLS, "melt_category") == 5 && IndexOf(FINAL_COLS, "flood_risk_level") == 6
    ensures IndexOf(FINAL_COLS, "risk_level") == 8
    ensures IndexOf(FINAL_COLS, "area_km2") == 3 && IndexOf(FINAL_COLS, "temp_mean") == 4
    ensures IndexOf(FINAL_COLS, "predicted_melt") == 7
  {
    FinalColsDistinct();
    IndexOfDistinct(FINAL_COLS, 0);
    IndexOfDistinct(FINAL_COLS, 3);
    IndexOfDistinct(FINAL_COLS, 4);
    IndexOfDistinct(FINAL_COLS, 7);
    IndexOfDistinct(FINAL_COLS, 1);
    IndexOfDistinct(FINAL_COLS, 2);
    IndexOfDistinct(FINAL_COLS, 5);
    IndexOfDistinct(FINAL_COLS, 6);
    IndexOfDistinct(FINAL_COLS, 8);
  }

  lemma SelectedGraded(f: Frame, sel: Frame, i: nat)
    requires Graded(f) && Select(f, FINAL_COLS).Ok? && sel == Select(f, FINAL_COLS).value && i < |sel.rows|
    ensures sel.rows[i][5] != Blank && sel.rows[i][6] != Blank && sel.rows[i][8] in LEVELS
    ensures var row := sel.rows[i];
      RiskOf(row[4], row[7], row[3], row[5], row[6]).Ok?
      && row[8] == Text(RiskOf(row[4], row[7], row[3], row[5], row[6]).value)
  {
    FinalColsDistinct();
    FinalColsIndices();
    assert GradedRow(f, i);
    assert Get(sel, i, "melt_category") == Get(f, i, "melt_category");
    assert Get(sel, i, "flood_risk_level") == Get(f, i, "flood_risk_level");
    assert Get(sel, i, "risk_level") == Get(f, i, "risk_level");
    assert Get(sel, i, "temp_mean") == Get(f, i, "temp_mean");
    assert Get(sel, i, "predicted_melt") == Get(f, i, "predicted_melt");
    assert Get(sel, i, "area_km2") == Get(f, i, "area_km2");
  }

  // ---------------------------------------------------------------------
  // What the steps after the joins export
  // ---------------------------------------------------------------------

  /** The columns the steps after the joins read by name: the ID, both
      categories, and a column each coordinate can be restored from. */
  predicate ExportHeader(cols: seq<string>) {
    && "glacier_id" in cols && "melt_category" in cols && "flood_risk_level" in cols
    && ("lat" in cols || "lat_x" in cols || "latitude" in cols)
    && ("lon" in cols || "lon_x" in cols || "longitude" in cols)
  }

  /** No numeric grading cell of row `r` holds text. */
  predicate NumericCells(f: Frame, r: nat)
    requires WellFormed(f) && r < |f.rows|
  {
    && ("temp_mean" in f.cols ==> !Get(f, r, "temp_mean").Text?)
    && ("predicted_melt" in f.cols ==> !Get(f, r, "predicted_melt").Text?)
    && ("area_km2" in f.cols ==> !Get(f, r, "area_km2").Text?)
  }

  /** The steps after the joins go through on `f`. */
  predicate Finishes(f: Frame)
    requires WellFormed(f)
  {
    ExportHeader(f.cols) && forall r :: 0 <= r < |f.rows| ==> NumericCells(f, r)
  }

  /** The ID and the coordinates row `j` of the joined frame exports, each
      coordinate from the column the repair step restores it from. */
  function Location(f: Frame, j: nat): (loc: seq<Cell>)
    requires WellFormed(f) && ExportHeader(f.cols) && j < |f.rows|
    ensures |loc| == 3
  {
    [Get(f, j, "glacier_id"), Get(f, j, AliasSource(f.cols, "lat", "lat_x", "latitude")),
     Get(f, j, AliasSource(f.cols, "lon", "lon_x", "longitude"))]
  }

  /** The names a row's location is read from. */
  const LOCATION: seq<string> := ["glacier_id", "lat", "lat_x", "latitude", "lon", "lon_x", "longitude"]

  /** `g` has exactly the location columns of `f`, with the same cells. */
  predicate SameLocation(f: Frame, g: Frame)
    requires WellFormed(f) && WellFormed(g)
  {
    && |g.rows| == |f.rows|
    && (forall c :: c in LOCATION ==> (c in g.cols <==> c in f.cols))
    && (forall r, c :: 0 <= r < |f.rows| && c in LOCATION && c in f.cols ==> Get(g, r, c) == Get(f, r, c))
  }

  lemma LocationApart()
    ensures forall c :: c in LOCATION ==>
      && c != "temp_mean" && c != "predicted_melt" && c != "area_km2"
      && c != "melt_category" && c != "flood_risk_level" && c != "risk_level"
  {
  }

  /** The defaults, the category fill and the risk column keep the location
      columns. */
  lemma StepsKeepLocation(joined: Frame, df1: Frame, df2: Frame, risk: seq<Cell>)
    requires WellFormed(joined)
    requires FillUnknown(AddDefaults(joined), "melt_category").Ok? && df1 == FillUnknown(AddDefaults(joined), "melt_category").value
    requires FillUnknown(df1, "flood_risk_level").Ok? && df2 == FillUnknown(df1, "flood_risk_level").value
    requires |risk| == |df2.rows|
    ensures SameLocation(joined, SetColumn(df2, "risk_level", risk))
  {
    LocationApart();
    var df0 := AddDefaults(joined);
    var df3 := SetColumn(df2, "risk_level", risk);
    forall r, c | 0 <= r < |joined.rows| && c in LOCATION && c in joined.cols
      ensures Get(df3, r, c) == Get(joined, r, c)
    {
      assert Get(df0, r, c) == Get(joined, r, c);
      assert Get(df1, r, c) == Get(df0, r, c);
      assert Get(df2, r, c) == Get(df1, r, c);
    }
  }

  /** A row can be graded exactly when its numeric grading cells in the
      joined frame hold no text: the fill steps do not touch them, and an
      absent column is created empty. */
  lemma StepsKeepNumeric(joined: Frame, df1: Frame, df2: Frame)
    requires WellFormed(joined)
    requires FillUnknown(AddDefaults(joined), "melt_category").Ok? && df1 == FillUnknown(AddDefaults(joined), "melt_category").value
    requires FillUnknown(df1, "flood_risk_level").Ok? && df2 == FillUnknown(df1, "flood_risk_level").value
    ensures HasRiskInputs(df2) && |df2.rows| == |joined.rows|
    ensures forall r :: 0 <= r < |joined.rows| ==> (RowRisk(df2, r).Ok? <==> NumericCells(joined, r))
  {
    var df0 := AddDefaults(joined);
    forall r | 0 <= r < |joined.rows| ensures RowRisk(df2, r).Ok? <==> NumericCells(joined, r) {
      assert Get(df2, r, "temp_mean") == Get(df0, r, "temp_mean");
      assert Get(df2, r, "predicted_melt") == Get(df0, r, "predicted_melt");
      assert Get(df2, r, "area_km2") == Get(df0, r, "area_km2");
    }
  }

  /** A frame with the same location columns restores its coordinates from
      the same columns. */
  lemma SameLocationSource(f: Frame, g: Frame, r: nat)
    requires WellFormed(f) && WellFormed(g) && SameLocation(f, g) && ExportHeader(f.cols) && r < |f.rows|
    ensures "glacier_id" in g.cols && Get(g, r, "glacier_id") == Get(f, r, "glacier_id")
    ensures AliasSource(g.cols, "lat", "lat_x", "latitude") == AliasSource(f.cols, "lat", "lat_x", "latitude")
    ensures AliasSource(g.cols, "lon", "lon_x", "longitude") == AliasSource(f.cols, "lon", "lon_x", "longitude")
    ensures AliasSource(f.cols, "lat", "lat_x", "latitude") in g.cols
    ensures AliasSource(f.cols, "lon", "lon_x", "longitude") in g.cols
    ensures Get(g, r, AliasSource(f.cols, "lat", "lat_x", "latitude")) == Get(f, r, AliasSource(f.cols, "lat", "lat_x", "latitude"))
    ensures Get(g, r, AliasSource(f.cols, "lon", "lon_x", "longitude")) == Get(f, r, AliasSource(f.cols, "lon", "lon_x", "longitude"))
  {
    assert forall c :: c in ["glacier_id", "lat", "lat_x", "latitude", "lon", "lon_x", "longitude"] ==> c in LOCATION;
  }

  /** After the repair, `lat` and `lon` hold the cells of the columns they
      are restored from, and the ID is untouched. */
  lemma RepairLocation(f: Frame, r: nat)
    requires WellFormed(f) && r < |f.rows| && "glacier_id" in f.cols
    requires "lat" in f.cols || "lat_x" in f.cols || "latitude" in f.cols
    requires "lon" in f.cols || "lon_x" in f.cols || "longitude" in f.cols
    ensures var g := FixCoordinates(f);
      && "glacier_id" in g.cols && "lat" in g.cols && "lon" in g.cols
      && Get(g, r, "glacier_id") == Get(f, r, "glacier_id")
      && Get(g, r, "lat") == Get(f, r, AliasSource(f.cols, "lat", "lat_x", "latitude"))
      && Get(g, r, "lon") == Get(f, r, AliasSource(f.cols, "lon", "lon_x", "longitude"))
  {
    CoordinatesNotDuplicates();
    DuplicateNamesLength();
    var g1 := RestoreCoord(f, "lat", "lat_x", "latitude");
    var g2 := RestoreCoord(g1, "lon", "lon_x", "longitude");
    assert AliasSource(g1.cols, "lon", "lon_x", "longitude") == AliasSource(f.cols, "lon", "lon_x", "longitude");
    assert Get(g2, r, "lat") == Get(g1, r, "lat");
  }

  /** The repair leaves `lat` exactly when some column to restore it from
      exists, and likewise `lon`. */
  lemma RepairHeader(f: Frame)
    requires WellFormed(f)
    ensures "lat" in FixCoordinates(f).cols <==> "lat" in f.cols || "lat_x" in f.cols || "latitude" in f.cols
    ensures "lon" in FixCoordinates(f).cols <==> "lon" in f.cols || "lon_x" in f.cols || "longitude" in f.cols
    ensures "glacier_id" in FixCoordinates(f).cols <==> "glacier_id" in f.cols
  {
    CoordinatesNotDuplicates();
    DuplicateNamesLength();
    var g1 := RestoreCoord(f, "lat", "lat_x", "latitude");
    var g2 := RestoreCoord(g1, "lon", "lon_x", "longitude");
    assert "lat" in g2.cols <==> "lat" in g1.cols;
  }

  /** The export is the row filter on the selected columns. */
  lemma ExportIsFilter(g: Frame)
    requires WellFormed(g) && Export(g).Ok?
    ensures Select(g, FINAL_COLS).Ok?
    ensures Export(g).value == DropNa(Select(g, FINAL_COLS).value, COORDS)
  {
  }

  /** Every exported row is the ID and coordinates of a row of the repaired
      frame. */
  lemma ExportLocated(g: Frame)
    requires WellFormed(g) && Export(g).Ok?
    ensures "glacier_id" in g.cols && "lat" in g.cols && "lon" in g.cols
    ensures forall row :: row in Export(g).value.rows ==>
      (exists j :: 0 <= j < |g.rows| && ExportedFrom(row, g, j))
  {
    ExportIsFilter(g);
    SelectedLocations(g);
    ExportedRowsFrom(g, Select(g, FINAL_COLS).value);
  }

  /** Every row of the repaired frame with both coordinates is exported. */
  lemma ExportKeeps(g: Frame)
    requires WellFormed(g) && Export(g).Ok?
    ensures "glacier_id" in g.cols && "lat" in g.cols && "lon" in g.cols
    ensures forall j :: 0 <= j < |g.rows| && Get(g, j, "lat") != Blank && Get(g, j, "lon") != Blank ==>
      (exists row :: row in Export(g).value.rows && ExportedFrom(row, g, j))
  {
    ExportIsFilter(g);
    SelectedLocations(g);
    ExportedRowsComplete(g, Select(g, FINAL_COLS).value);
  }

  /** Each selected row carries the ID and coordinates of its own row. */
  lemma SelectedLocations(g: Frame)
    requires WellFormed(g) && Select(g, FINAL_COLS).Ok?
    ensures "glacier_id" in g.cols && "lat" in g.cols && "lon" in g.cols
    ensures var sel := Select(g, FINAL_COLS).value;
      && WellFormed(sel) && sel.cols == FINAL_COLS && |sel.rows| == |g.rows|
      && forall j :: 0 <= j < |sel.rows| ==> ExportedFrom(sel.rows[j], g, j)
  {
    LocationColumns(g);
    var sel := Select(g, FINAL_COLS).value;
    forall j | 0 <= j < |sel.rows| ensures ExportedFrom(sel.rows[j], g, j) {
      SelectedLocation(g, sel, j);
    }
  }

  lemma ExportedRowsFrom(g: Frame, sel: Frame)
    requires WellFormed(g) && WellFormed(sel) && sel.cols == FINAL_COLS && |sel.rows| == |g.rows|
    requires "glacier_id" in g.cols && "lat" in g.cols && "lon" in g.cols
    requires forall j :: 0 <= j < |sel.rows| ==> ExportedFrom(sel.rows[j], g, j)
    ensures forall row :: row in DropNa(sel, COORDS).rows ==>
      (exists j :: 0 <= j < |g.rows| && ExportedFrom(row, g, j))
  {
    DropNaCoordinates(sel);
    forall row | row in DropNa(sel, COORDS).rows
      ensures exists j :: 0 <= j < |g.rows| && ExportedFrom(row, g, j)
    {
      var j :| 0 <= j < |sel.rows| && sel.rows[j] == row;
    }
  }

  lemma ExportedRowsComplete(g: Frame, sel: Frame)
    requires WellFormed(g) && WellFormed(sel) && sel.cols == FINAL_COLS && |sel.rows| == |g.rows|
    requires "glacier_id" in g.cols && "lat" in g.cols && "lon" in g.cols
    requires forall j :: 0 <= j < |sel.rows| ==> ExportedFrom(sel.rows[j], g, j)
    ensures forall j :: 0 <= j < |g.rows| && Get(g, j, "lat") != Blank && Get(g, j, "lon") != Blank ==>
      (exists row :: row in DropNa(sel, COORDS).rows && ExportedFrom(row, g, j))
  {
    forall j | 0 <= j < |g.rows| && Get(g, j, "lat") != Blank && Get(g, j, "lon") != Blank
      ensures exists row :: row in DropNa(sel, COORDS).rows && ExportedFrom(row, g, j)
    {
      ExportedRowComplete(g, sel, j);
    }
  }

  /** A selected row carrying row `j`'s coordinates, both present, is
      exported. */
  lemma ExportedRowComplete(g: Frame, sel: Frame, j: nat)
    requires WellFormed(g) && WellFormed(sel) && sel.cols == FINAL_COLS
    requires "glacier_id" in g.cols && "lat" in g.cols && "lon" in g.cols
    requires j < |g.rows| && j < |sel.rows| && ExportedFrom(sel.rows[j], g, j)
    requires Get(g, j, "lat") != Blank && Get(g, j, "lon") != Blank
    ensures sel.rows[j] in DropNa(sel, COORDS).rows
  {
    DropNaKeepsRow(sel, j);
  }

  /** The selection needs the ID and both coordinates. */
  lemma LocationColumns(g: Frame)
    requires WellFormed(g) && Select(g, FINAL_COLS).Ok?
    ensures "glacier_id" in g.cols && "lat" in g.cols && "lon" in g.cols
  {
    assert FINAL_COLS[0] in g.cols && FINAL_COLS[1] in g.cols && FINAL_COLS[2] in g.cols;
  }

  /** `row` carries the ID and the coordinates of row `j` of `g`. */
  predicate ExportedFrom(row: seq<Cell>, g: Frame, j: nat)
    requires WellFormed(g) && j < |g.rows| && "glacier_id" in g.cols && "lat" in g.cols && "lon" in g.cols
  {
    |row| >= 3 && row[0] == Get(g, j, "glacier_id") && row[1] == Get(g, j, "lat") && row[2] == Get(g, j, "lon")
  }

  /** The selected row `j` carries the ID and coordinates of row `j`. */
  lemma SelectedLocation(g: Frame, sel: Frame, j: nat)
    requires WellFormed(g) && Select(g, FINAL_COLS).Ok? && sel == Select(g, FINAL_COLS).value && j < |sel.rows|
    ensures "glacier_id" in g.cols && "lat" in g.cols && "lon" in g.cols
    ensures ExportedFrom(sel.rows[j], g, j)
  {
    FinalColsDistinct();
    FinalColsIndices();
    assert "glacier_id" in FINAL_COLS && "lat" in FINAL_COLS && "lon" in FINAL_COLS;
    assert Get(sel, j, "glacier_id") == Get(g, j, "glacier_id");
    assert Get(sel, j, "lat") == Get(g, j, "lat");
    assert Get(sel, j, "lon") == Get(g, j, "lon");
  }

  /** The coordinate filter keeps a row with both coordinates. */
  lemma DropNaKeepsRow(sel: Frame, j: nat)
    requires WellFormed(sel) && sel.cols == FINAL_COLS
    requires j < |sel.rows| && sel.rows[j][1] != Blank && sel.rows[j][2] != Blank
    ensures sel.rows[j] in DropNa(sel, COORDS).rows
  {
    FinalColsDistinct();
    IndexOfDistinct(FINAL_COLS, 1);
    IndexOfDistinct(FINAL_COLS, 2);
    assert CellAt(sel.rows[j], IndexOf(sel.cols, COORDS[0])) != Blank;
    assert CellAt(sel.rows[j], IndexOf(sel.cols, COORDS[1])) != Blank;
  }

  /** Frames with the same location columns have the same location header. */
  lemma SameHeader(f: Frame, g: Frame)
    requires WellFormed(f) && WellFormed(g) && SameLocation(f, g)
    ensures "glacier_id" in g.cols <==> "glacier_id" in f.cols
    ensures ("lat" in g.cols || "lat_x" in g.cols || "latitude" in g.cols) <==>
            ("lat" in f.cols || "lat_x" in f.cols || "latitude" in f.cols)
    ensures ("lon" in g.cols || "lon_x" in g.cols || "longitude" in g.cols) <==>
            ("lon" in f.cols || "lon_x" in f.cols || "longitude" in f.cols)
  {
    assert forall c :: c in ["glacier_id", "lat", "lat_x", "latitude", "lon", "lon_x", "longitude"] ==> c in LOCATION;
  }

  /** Once the grading columns exist, the export goes through exactly when
      the ID and a column for each coordinate exist. */
  lemma ExportOk(f: Frame)
    requires WellFormed(f) && HasRiskInputs(f) && "risk_level" in f.cols
    ensures Export(FixCoordinates(f)).Ok? <==>
      && "glacier_id" in f.cols
      && ("lat" in f.cols || "lat_x" in f.cols || "latitude" in f.cols)
      && ("lon" in f.cols || "lon_x" in f.cols || "longitude" in f.cols)
  {
    FixKeepsColumns(f);
    RepairHeader(f);
    FinalColsIn(FixCoordinates(f).cols);
  }

  /** All final columns are present exactly when each one is. */
  lemma FinalColsIn(cols: seq<string>)
    ensures (forall c :: c in FINAL_COLS ==> c in cols) <==>
      && "glacier_id" in cols && "lat" in cols && "lon" in cols && "area_km2" in cols && "temp_mean" in cols
      && "melt_category" in cols && "flood_risk_level" in cols && "predicted_melt" in cols && "risk_level" in cols
  {
    if "glacier_id" in cols && "lat" in cols && "lon" in cols && "area_km2" in cols && "temp_mean" in cols
      && "melt_category" in cols && "flood_risk_level" in cols && "predicted_melt" in cols && "risk_level" in cols
    {
      forall c | c in FINAL_COLS ensures c in cols {
        var i :| 0 <= i < |FINAL_COLS| && FINAL_COLS[i] == c;
      }
    }
  }

  /** The ID and coordinates the export reads from row `j` of the repaired
      frame are the location of row `j` of the joined frame. */
  lemma LocationThrough(joined: Frame, f: Frame, j: nat)
    requires WellFormed(joined) && WellFormed(f) && SameLocation(joined, f)
    requires ExportHeader(joined.cols) && j < |joined.rows|
    ensures var g := FixCoordinates(f);
      && "glacier_id" in g.cols && "lat" in g.cols && "lon" in g.cols
      && Get(g, j, "glacier_id") == Location(joined, j)[0]
      && Get(g, j, "lat") == Location(joined, j)[1]
      && Get(g, j, "lon") == Location(joined, j)[2]
  {
    SameLocationSource(joined, f, j);
    SameHeader(joined, f);
    RepairLocation(f, j);
  }

  /** Row for row, the repaired frame holds the location of the joined
      frame under `glacier_id`, `lat` and `lon`. */
  predicate RepairedFrom(joined: Frame, g: Frame)
    requires WellFormed(joined) && WellFormed(g) && ExportHeader(joined.cols)
  {
    && "glacier_id" in g.cols && "lat" in g.cols && "lon" in g.cols && |g.rows| == |joined.rows|
    && forall j :: 0 <= j < |joined.rows| ==>
      && Get(g, j, "glacier_id") == Location(joined, j)[0]
      && Get(g, j, "lat") == Location(joined, j)[1]
      && Get(g, j, "lon") == Location(joined, j)[2]
  }

  /** The coordinate repair of a frame with the joined frame's location
      columns holds the joined locations. */
  lemma Repaired(joined: Frame, f: Frame)
    requires WellFormed(joined) && WellFormed(f) && SameLocation(joined, f) && ExportHeader(joined.cols)
    ensures RepairedFrom(joined, FixCoordinates(f))
  {
    SameHeader(joined, f);
    RepairHeader(f);
    forall j | 0 <= j < |joined.rows|
      ensures var g := FixCoordinates(f);
        && Get(g, j, "glacier_id") == Location(joined, j)[0]
        && Get(g, j, "lat") == Location(joined, j)[1]
        && Get(g, j, "lon") == Location(joined, j)[2]
    {
      LocationThrough(joined, f, j);
    }
  }

  /** Every row exported from the repaired frame starts with the location of
      a joined row. */
  lemma FinishLocated(joined: Frame, g: Frame, rows: seq<seq<Cell>>)
    requires WellFormed(joined) && WellFormed(g) && ExportHeader(joined.cols) && RepairedFrom(joined, g)
    requires forall row :: row in rows ==> (exists j :: 0 <= j < |g.rows| && ExportedFrom(row, g, j))
    ensures forall row :: row in rows ==>
      (exists j :: 0 <= j < |joined.rows| && |row| >= 3 && row[..3] == Location(joined, j))
  {
    forall row | row in rows
      ensures exists j :: 0 <= j < |joined.rows| && |row| >= 3 && row[..3] == Location(joined, j)
    {
      var j :| 0 <= j < |g.rows| && ExportedFrom(row, g, j);
      SameFirstThree(row, Location(joined, j));
    }
  }

  /** Every joined row whose location has both coordinates is exported. */
  lemma FinishComplete(joined: Frame, g: Frame, rows: seq<seq<Cell>>)
    requires WellFormed(joined) && WellFormed(g) && ExportHeader(joined.cols) && RepairedFrom(joined, g)
    requires forall j :: 0 <= j < |g.rows| && Get(g, j, "lat") != Blank && Get(g, j, "lon") != Blank ==>
      (exists row :: row in rows && ExportedFrom(row, g, j))
    ensures forall j :: 0 <= j < |joined.rows| && Location(joined, j)[1] != Blank && Location(joined, j)[2] != Blank ==>
      (exists row :: row in rows && |row| >= 3 && row[..3] == Location(joined, j))
  {
    forall j | 0 <= j < |joined.rows| && Location(joined, j)[1] != Blank && Location(joined, j)[2] != Blank
      ensures exists row :: row in rows && |row| >= 3 && row[..3] == Location(joined, j)
    {
      var row :| row in rows && ExportedFrom(row, g, j);
      SameFirstThree(row, Location(joined, j));
    }
  }

  /** The category fills go through exactly when the joins produced both
      category columns. */
  lemma FillsNeedCategories(joined: Frame)
    requires WellFormed(joined)
    ensures FillUnknown(AddDefaults(joined), "melt_category").Ok? <==> "melt_category" in joined.cols
    ensures FillUnknown(AddDefaults(joined), "melt_category").Ok? ==>
      (FillUnknown(FillUnknown(AddDefaults(joined), "melt_category").value, "flood_risk_level").Ok? <==>
       "flood_risk_level" in joined.cols)
  {
  }

  /** A row the risk step cannot grade has a text cell among its numeric
      grading columns in the joined frame. */
  lemma RiskFails(joined: Frame, df1: Frame, df2: Frame)
    requires WellFormed(joined)
    requires FillUnknown(AddDefaults(joined), "melt_category").Ok? && df1 == FillUnknown(AddDefaults(joined), "melt_category").value
    requires FillUnknown(df1, "flood_risk_level").Ok? && df2 == FillUnknown(df1, "flood_risk_level").value
    ensures HasRiskInputs(df2)
    ensures RiskColumn(df2).Err? ==> !Finishes(joined)
  {
    StepsKeepNumeric(joined, df1, df2);
    if RiskColumn(df2).Err? {
      var r :| 0 <= r < |df2.rows| && !RowRisk(df2, r).Ok?;
      assert !NumericCells(joined, r);
    }
  }

  /** Once every row is graded, the steps after the joins go through exactly
      when the location columns exist. */
  lemma FinishCondition(joined: Frame, df1: Frame, df2: Frame, df3: Frame)
    requires WellFormed(joined)
    requires FillUnknown(AddDefaults(joined), "melt_category").Ok? && df1 == FillUnknown(AddDefaults(joined), "melt_category").value
    requires FillUnknown(df1, "flood_risk_level").Ok? && df2 == FillUnknown(df1, "flood_risk_level").value
    requires HasRiskInputs(df2) && RiskColumn(df2).Ok? && df3 == SetColumn(df2, "risk_level", RiskColumn(df2).value)
    ensures Finishes(joined) <==>
      && "glacier_id" in df3.cols
      && ("lat" in df3.cols || "lat_x" in df3.cols || "latitude" in df3.cols)
      && ("lon" in df3.cols || "lon_x" in df3.cols || "longitude" in df3.cols)
  {
    FillsNeedCategories(joined);
    StepsKeepNumeric(joined, df1, df2);
    StepsKeepLocation(joined, df1, df2, RiskColumn(df2).value);
    SameHeader(joined, df3);
  }

  lemma SameFirstThree(row: seq<Cell>, loc: seq<Cell>)
    requires |row| >= 3 && |loc| == 3 && row[0] == loc[0] && row[1] == loc[1] && row[2] == loc[2]
    ensures row[..3] == loc
  {
  }

  // ---------------------------------------------------------------------
  // Where the exported rows come from
  // ---------------------------------------------------------------------

  /** The projections bring no coordinate of their own, plain or suffixed,
      so the master table's coordinates are the ones the repair reads. */
  predicate NoCoordinates(f: Frame) {
    "lat" !in f.cols && "lat_x" !in f.cols && "lon" !in f.cols && "lon_x" !in f.cols
  }

  /** The first three cells of `row` are the ID of master row `i` and, when
      `coords` holds, its coordinates. */
  predicate FromMaster(row: seq<Cell>, b: Frame, i: nat, coords: bool)
    requires WellFormed(b) && i < |b.rows| && "glacier_id" in b.cols && "lat" in b.cols && "lon" in b.cols
  {
    && |row| >= 3 && row[0] == Get(b, i, "glacier_id")
    && (coords ==> row[1] == Get(b, i, "lat") && row[2] == Get(b, i, "lon"))
  }

  /** A cell at the same place in a row that starts with a whole master
      row is the master row's cell. */
  lemma CellFromMaster(b: Frame, j: Frame, i: nat, k: nat, c: string, d: string)
    requires WellFormed(b) && WellFormed(j) && i < |b.rows| && k < |j.rows|
    requires c in b.cols && d in j.cols && IndexOf(j.cols, d) == IndexOf(b.cols, c)
    requires |b.cols| <= |j.rows[k]| && j.rows[k][..|b.cols|] == b.rows[i][..|b.cols|]
    ensures Get(j, k, d) == Get(b, i, c)
  {
    assert j.rows[k][IndexOf(b.cols, c)] == j.rows[k][..|b.cols|][IndexOf(b.cols, c)];
  }

  /** The location of a joined row that starts with master row `i` is that
      row's ID and, when the projections bring no coordinates, its
      coordinates. */
  lemma LocationFromMaster(b: Frame, climate: Frame, future: Frame, melt: Frame, flood: Frame, i: nat, k: nat)
    requires WellFormed(b) && WellFormed(climate) && WellFormed(future) && WellFormed(melt) && WellFormed(flood)
    requires "melt_category" !in b.cols && "flood_risk_level" !in b.cols && "lat" in b.cols && "lon" in b.cols
    requires JoinAll(b, climate, future, melt, flood).Ok?
    requires ExportHeader(JoinAll(b, climate, future, melt, flood).value.cols)
    requires i < |b.rows| && k < |JoinAll(b, climate, future, melt, flood).value.rows|
    requires var row := JoinAll(b, climate, future, melt, flood).value.rows[k];
      |b.cols| <= |row| && row[..|b.cols|] == b.rows[i][..|b.cols|]
    ensures "glacier_id" in b.cols
    ensures FromMaster(Location(JoinAll(b, climate, future, melt, flood).value, k), b, i, NoCoordinates(future))
  {
    var J := JoinAll(b, climate, future, melt, flood).value;
    JoinAllIdColumn(b, climate, future, melt, flood);
    CellFromMaster(b, J, i, k, "glacier_id", "glacier_id");
    if NoCoordinates(future) {
      LatLonNames();
      JoinAllCoordinate(b, climate, future, melt, flood, "lat", "lat_x");
      JoinAllCoordinate(b, climate, future, melt, flood, "lon", "lon_x");
      CoordinateSource(J.cols, "lat", "lat_x", "latitude", IndexOf(b.cols, "lat"));
      CoordinateSource(J.cols, "lon", "lon_x", "longitude", IndexOf(b.cols, "lon"));
      CellFromMaster(b, J, i, k, "lat", AliasSource(J.cols, "lat", "lat_x", "latitude"));
      CellFromMaster(b, J, i, k, "lon", AliasSource(J.cols, "lon", "lon_x", "longitude"));
    }
  }

  /** Rows that start with joined locations come from master rows. */
  lemma RowsFromMaster(b: Frame, climate: Frame, future: Frame, melt: Frame, flood: Frame, rows: seq<seq<Cell>>)
    requires WellFormed(b) && WellFormed(climate) && WellFormed(future) && WellFormed(melt) && WellFormed(flood)
    requires "melt_category" !in b.cols && "flood_risk_level" !in b.cols && "lat" in b.cols && "lon" in b.cols
    requires JoinAll(b, climate, future, melt, flood).Ok?
    requires ExportHeader(JoinAll(b, climate, future, melt, flood).value.cols)
    requires var J := JoinAll(b, climate, future, melt, flood).value;
      forall row :: row in rows ==> (exists k :: 0 <= k < |J.rows| && |row| >= 3 && row[..3] == Location(J, k))
    ensures "glacier_id" in b.cols
    ensures forall row :: row in rows ==>
      (exists i :: 0 <= i < |b.rows| && FromMaster(row, b, i, NoCoordinates(future)))
  {
    var J := JoinAll(b, climate, future, melt, flood).value;
    JoinAllIdColumn(b, climate, future, melt, flood);
    JoinAllFromBase(b, climate, future, melt, flood);
    forall row | row in rows
      ensures exists i :: 0 <= i < |b.rows| && FromMaster(row, b, i, NoCoordinates(future))
    {
      var k :| 0 <= k < |J.rows| && |row| >= 3 && row[..3] == Location(J, k);
      var i := RowFromMaster(b, climate, future, melt, flood, row, k);
    }
  }

  /** The master row a row starting with joined location `k` comes from. */
  lemma RowFromMaster(b: Frame, climate: Frame, future: Frame, melt: Frame, flood: Frame, row: seq<Cell>, k: nat)
    returns (i: nat)
    requires WellFormed(b) && WellFormed(climate) && WellFormed(future) && WellFormed(melt) && WellFormed(flood)
    requires "melt_category" !in b.cols && "flood_risk_level" !in b.cols && "lat" in b.cols && "lon" in b.cols
    requires JoinAll(b, climate, future, melt, flood).Ok?
    requires ExportHeader(JoinAll(b, climate, future, melt, flood).value.cols)
    requires PrefixesFrom(b.rows, JoinAll(b, climate, future, melt, flood).value.rows, |b.cols|)
    requires k < |JoinAll(b, climate, future, melt, flood).value.rows|
    requires |row| >= 3 && row[..3] == Location(JoinAll(b, climate, future, melt, flood).value, k)
    ensures "glacier_id" in b.cols
    ensures i < |b.rows| && FromMaster(row, b, i, NoCoordinates(future))
  {
    var J := JoinAll(b, climate, future, melt, flood).value;
    var w := |b.cols|;
    i :| 0 <= i < |b.rows| && w <= |b.rows[i]| && J.rows[k][..w] == b.rows[i][..w];
    LocationFromMaster(b, climate, future, melt, flood, i, k);
    FirstThree(row, Location(J, k));
  }

  /** When the projections bring no coordinates, every master row with both
      coordinates starts one of the rows that cover the joined locations. */
  lemma MasterRowsKept(b: Frame, climate: Frame, future: Frame, melt: Frame, flood: Frame, rows: seq<seq<Cell>>)
    requires WellFormed(b) && WellFormed(climate) && WellFormed(future) && WellFormed(melt) && WellFormed(flood)
    requires "melt_category" !in b.cols && "flood_risk_level" !in b.cols && "lat" in b.cols && "lon" in b.cols
    requires JoinAll(b, climate, future, melt, flood).Ok? && NoCoordinates(future)
    requires ExportHeader(JoinAll(b, climate, future, melt, flood).value.cols)
    requires var J := JoinAll(b, climate, future, melt, flood).value;
      forall k :: 0 <= k < |J.rows| && Location(J, k)[1] != Blank && Location(J, k)[2] != Blank ==>
        (exists row :: row in rows && |row| >= 3 && row[..3] == Location(J, k))
    ensures "glacier_id" in b.cols
    ensures forall i :: 0 <= i < |b.rows| && Get(b, i, "lat") != Blank && Get(b, i, "lon") != Blank ==>
      (exists row :: row in rows && FromMaster(row, b, i, true))
  {
    var J := JoinAll(b, climate, future, melt, flood).value;
    var w := |b.cols|;
    JoinAllIdColumn(b, climate, future, melt, flood);
    JoinAllKeepsBase(b, climate, future, melt, flood);
    var pos :| PrefixesAt(b.rows, J.rows, w, pos);
    forall i | 0 <= i < |b.rows| && Get(b, i, "lat") != Blank && Get(b, i, "lon") != Blank
      ensures exists row :: row in rows && FromMaster(row, b, i, true)
    {
      var k := pos[i];
      LocationFromMaster(b, climate, future, melt, flood, i, k);
      var row :| row in rows && |row| >= 3 && row[..3] == Location(J, k);
      FirstThree(row, Location(J, k));
    }
  }

  lemma FirstThree(row: seq<Cell>, loc: seq<Cell>)
    requires |row| >= 3 && row[..3] == loc
    ensures |loc| == 3 && row[0] == loc[0] && row[1] == loc[1] && row[2] == loc[2]
  {
    assert row[0] == row[..3][0] && row[1] == row[..3][1] && row[2] == row[..3][2];
  }

  // ---------------------------------------------------------------------
  // The script
  // ---------------------------------------------------------------------

  /** The script after the joins: defaults, filled categories, the risk
      column, the coordinate repair and the export. */
  method FinishMerged(joined: Frame) returns (out: Result<Frame>)
    requires WellFormed(joined)
    ensures out.Ok? <==> Finishes(joined)
    ensures out.Ok? ==> WellFormed(out.value) && out.value.cols == FINAL_COLS
    ensures out.Ok? ==> forall row :: row in out.value.rows ==>
      && row[1] != Blank && row[2] != Blank
      && row[5] != Blank && row[6] != Blank
      && row[8] in LEVELS
      && RiskOf(row[4], row[7], row[3], row[5], row[6]).Ok?
      && row[8] == Text(RiskOf(row[4], row[7], row[3], row[5], row[6]).value)
    ensures out.Ok? ==> forall row :: row in out.value.rows ==>
      (exists j :: 0 <= j < |joined.rows| && row[..3] == Location(joined, j))
    ensures out.Ok? ==> forall j :: 0 <= j < |joined.rows| && Location(joined, j)[1] != Blank && Location(joined, j)[2] != Blank ==>
      (exists row :: row in out.value.rows && row[..3] == Location(joined, j))
  {
    FillsNeedCategories(joined);
    var filled := FillUnknown(AddDefaults(joined), "melt_category");
    if filled.Err? { return Err(filled.msg); }
    var df1 := filled.value;
    filled := FillUnknown(df1, "flood_risk_level");
    if filled.Err? { return Err(filled.msg); }
    var df2 := filled.value;

    RiskFails(joined, df1, df2);
    var risk := RiskColumn(df2);
    if risk.Err? { return Err(risk.msg); }
    GradedAfterRisk(df2, risk.value);
    var df3 := SetColumn(df2, "risk_level", risk.value);
    FinishCondition(joined, df1, df2, df3);
    StepsKeepLocation(joined, df1, df2, risk.value);

    GradedAfterCoordinates(df3);
    var g := FixCoordinates(df3);
    ExportOk(df3);
    out := Export(g);
    if out.Ok? {
      ExportGraded(g);
      ExportLocated(g);
      ExportKeeps(g);
      Repaired(joined, df3);
      FinishLocated(joined, g, out.value.rows);
      FinishComplete(joined, g, out.value.rows);
    }
  }

  /** The script up to the joins: the prepared master table, the latest
      record per basin and per glacier, and the join chain. Any step that
      raises ends the run with its error. */
  function Joined(base: Frame, climate: Frame, melt: Frame, flood: Frame, future: Frame): (res: Result<Frame>)
    requires WellFormed(LowerColumns(base)) && WellFormed(LowerColumns(climate))
    requires WellFormed(LowerColumns(melt)) && WellFormed(LowerColumns(flood)) && WellFormed(LowerColumns(future))
    ensures res.Ok? ==> PrepareBase(base).Ok? && WellFormed(res.value)
    ensures res.Ok? ==> |res.value.rows| >= |PrepareBase(base).value.rows|
  {
    var b := PrepareBase(base);
    if b.Err? then b
    else
      var m := Latest(LowerColumns(melt), "basin");
      if m.Err? then m
      else
        var fl := Latest(LowerColumns(flood), "basin");
        if fl.Err? then fl
        else
          var fu := Latest(LowerColumns(future), "glacier_id");
          if fu.Err? then fu
          else JoinAll(b.value, LowerColumns(climate), fu.value, m.value, fl.value)
  }

  /** Rows that start with the locations of the joined rows start with the
      IDs of master rows, and with their coordinates when the projections
      bring none. */
  lemma JoinedFromMaster(base: Frame, climate: Frame, melt: Frame, flood: Frame, future: Frame, rows: seq<seq<Cell>>)
    requires WellFormed(LowerColumns(base)) && WellFormed(LowerColumns(climate))
    requires WellFormed(LowerColumns(melt)) && WellFormed(LowerColumns(flood)) && WellFormed(LowerColumns(future))
    requires Joined(base, climate, melt, flood, future).Ok?
    requires ExportHeader(Joined(base, climate, melt, flood, future).value.cols)
    requires var J := Joined(base, climate, melt, flood, future).value;
      forall row :: row in rows ==> (exists k :: 0 <= k < |J.rows| && |row| >= 3 && row[..3] == Location(J, k))
    ensures "glacier_id" in PrepareBase(base).value.cols
    ensures var b := PrepareBase(base).value;
      "melt_category" !in b.cols && "flood_risk_level" !in b.cols ==>
        forall row :: row in rows ==>
          (exists i :: 0 <= i < |b.rows| && FromMaster(row, b, i, NoCoordinates(LowerColumns(future))))
  {
    var b := PrepareBase(base).value;
    var m := Latest(LowerColumns(melt), "basin").value;
    var fl := Latest(LowerColumns(flood), "basin").value;
    var fu := Latest(LowerColumns(future), "glacier_id").value;
    var c := LowerColumns(climate);
    assert Joined(base, climate, melt, flood, future) == JoinAll(b, c, fu, m, fl);
    JoinAllIdColumn(b, c, fu, m, fl);
    assert NoCoordinates(fu) == NoCoordinates(LowerColumns(future));
    if "melt_category" !in b.cols && "flood_risk_level" !in b.cols {
      RowsFromMaster(b, c, fu, m, fl, rows);
    }
  }

  /** When the projections bring no coordinates, every master row with both
      coordinates starts one of the rows that cover the joined locations. */
  lemma JoinedKeepsMaster(base: Frame, climate: Frame, melt: Frame, flood: Frame, future: Frame, rows: seq<seq<Cell>>)
    requires WellFormed(LowerColumns(base)) && WellFormed(LowerColumns(climate))
    requires WellFormed(LowerColumns(melt)) && WellFormed(LowerColumns(flood)) && WellFormed(LowerColumns(future))
    requires Joined(base, climate, melt, flood, future).Ok?
    requires ExportHeader(Joined(base, climate, melt, flood, future).value.cols)
    requires var J := Joined(base, climate, melt, flood, future).value;
      forall k :: 0 <= k < |J.rows| && Location(J, k)[1] != Blank && Location(J, k)[2] != Blank ==>
        (exists row :: row in rows && |row| >= 3 && row[..3] == Location(J, k))
    ensures "glacier_id" in PrepareBase(base).value.cols
    ensures var b := PrepareBase(base).value;
      "melt_category" !in b.cols && "flood_risk_level" !in b.cols && NoCoordinates(LowerColumns(future)) ==>
        forall i :: 0 <= i < |b.rows| && Get(b, i, "lat") != Blank && Get(b, i, "lon") != Blank ==>
          (exists row :: row in rows && FromMaster(row, b, i, true))
  {
    var b := PrepareBase(base).value;
    var m := Latest(LowerColumns(melt), "basin").value;
    var fl := Latest(LowerColumns(flood), "basin").value;
    var fu := Latest(LowerColumns(future), "glacier_id").value;
    var c := LowerColumns(climate);
    assert Joined(base, climate, melt, flood, future) == JoinAll(b, c, fu, m, fl);
    JoinAllIdColumn(b, c, fu, m, fl);
    assert NoCoordinates(fu) == NoCoordinates(LowerColumns(future));
    if "melt_category" !in b.cols && "flood_risk_level" !in b.cols && NoCoordinates(fu) {
      MasterRowsKept(b, c, fu, m, fl, rows);
    }
  }

  /** The merge script: the joins, then the steps after them. */
  method MergeGlacierDatasets(base: Frame, climate: Frame, melt: Frame, flood: Frame, future: Frame)
    returns (out: Result<Frame>)
    requires WellFormed(LowerColumns(base)) && WellFormed(LowerColumns(climate))
    requires WellFormed(LowerColumns(melt)) && WellFormed(LowerColumns(flood)) && WellFormed(LowerColumns(future))
    ensures out.Ok? <==> Joined(base, climate, melt, flood, future).Ok? && Finishes(Joined(base, climate, melt, flood, future).value)
    ensures out.Ok? ==> WellFormed(out.value) && out.value.cols == FINAL_COLS
    ensures out.Ok? ==> forall row :: row in out.value.rows ==>
      && row[1] != Blank && row[2] != Blank
      && row[5] != Blank && row[6] != Blank
      && row[8] in LEVELS
      && RiskOf(row[4], row[7], row[3], row[5], row[6]).Ok?
      && row[8] == Text(RiskOf(row[4], row[7], row[3], row[5], row[6]).value)
    ensures out.Ok? ==> "glacier_id" in PrepareBase(base).value.cols
    ensures out.Ok? ==> var b := PrepareBase(base).value;
      "melt_category" !in b.cols && "flood_risk_level" !in b.cols ==>
        forall row :: row in out.value.rows ==>
          (exists i :: 0 <= i < |b.rows| && FromMaster(row, b, i, NoCoordinates(LowerColumns(future))))
    ensures out.Ok? ==> var b := PrepareBase(base).value;
      "melt_category" !in b.cols && "flood_risk_level" !in b.cols && NoCoordinates(LowerColumns(future)) ==>
        forall i :: 0 <= i < |b.rows| && Get(b, i, "lat") != Blank && Get(b, i, "lon") != Blank ==>
          (exists row :: row in out.value.rows && FromMaster(row, b, i, true))
  {
    var joined := Joined(base, climate, melt, flood, future);
    if joined.Err? { return Err(joined.msg); }
    out := FinishMerged(joined.value);
    if out.Ok? {
      JoinedFromMaster(base, climate, melt, flood, future, out.value.rows);
      JoinedKeepsMaster(base, climate, melt, flood, future, out.value.rows);
    }
  }
}
