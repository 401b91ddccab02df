/** Basin aggregation: the glacier-year hydrology rows are tagged with a
    basin and summed per (basin, year). */
module BasinAggregation {
  import opened Common
  import Order
  import Hydrology

  /** The columns the stage needs, in the order it reports them. */
  const REQUIRED: seq<string> := ["glacier_id", "year", "area_km2", "glacier_runoff_m3", "runoff_mm"]

  /** The only basin there is. */
  const BASIN: string := "Himalayas"

  /** Positions, from `from` on, of the required columns the header lacks. */
  function MissingFrom(cols: seq<string>, req: seq<string>, from: nat): (idx: seq<nat>)
    requires from <= |req|
    ensures forall j :: 0 <= j < |idx| ==> from <= idx[j] < |req| && req[idx[j]] !in cols
    ensures forall j, k :: 0 <= j < k < |idx| ==> idx[j] < idx[k]
    ensures forall i :: from <= i < |req| && req[i] !in cols ==> i in idx
    decreases |req| - from
  {
    if from == |req| then []
    else if req[from] !in cols then [from] + MissingFrom(cols, req, from + 1)
    else MissingFrom(cols, req, from + 1)
  }

  /** `[c for c in req if c not in cols]`: the required columns the header
      lacks, in required order. */
  function Missing(req: seq<string>, cols: seq<string>): (m: seq<string>)
    ensures forall c :: c in m <==> c in req && c !in cols
    ensures forall x, y :: 0 <= x < y < |m| ==>
      exists a, b :: 0 <= a < b < |req| && req[a] == m[x] && req[b] == m[y]
  {
    var idx := MissingFrom(cols, req, 0);
    var m := seq(|idx|, j requires 0 <= j < |idx| => req[idx[j]]);
    PickedMissing(req, cols, idx, m);
    m
  }

  /** The names at the missing positions are exactly the missing names, in
      required order. */
  lemma PickedMissing(req: seq<string>, cols: seq<string>, idx: seq<nat>, m: seq<string>)
    requires idx == MissingFrom(cols, req, 0)
    requires |m| == |idx| && forall j :: 0 <= j < |idx| ==> m[j] == req[idx[j]]
    ensures forall c :: c in m <==> c in req && c !in cols
    ensures forall x, y :: 0 <= x < y < |m| ==>
      exists a, b :: 0 <= a < b < |req| && req[a] == m[x] && req[b] == m[y]
  {
    forall c | c in m ensures c in req && c !in cols {
      var j :| 0 <= j < |m| && m[j] == c;
      assert req[idx[j]] == c;
    }
    forall c | c in req && c !in cols ensures c in m {
      var i :| 0 <= i < |req| && req[i] == c;
      assert i in idx;
      var j :| 0 <= j < |idx| && idx[j] == i;
      assert m[j] == c;
    }
    forall x, y | 0 <= x < y < |m|
      ensures exists a, b :: 0 <= a < b < |req| && req[a] == m[x] && req[b] == m[y]
    {
      var a, b := idx[x], idx[y];
      assert 0 <= a < b < |req| && req[a] == m[x] && req[b] == m[y];
    }
  }

  // ---------------------------------------------------------------------
  // Grouping
  // ---------------------------------------------------------------------

  type Key = (string, nat)

  /** The (basin, year) order of a sorted group-by. */
  predicate KeyLess(a: Key, b: Key) {
    Order.StrLess(a.0, b.0) || (a.0 == b.0 && a.1 < b.1)
  }

  lemma KeyLessIsStrictTotal()
    ensures Order.IsStrictTotal(KeyLess)
  {
    Order.StrLessIsStrictTotal();
  }

  /** `df["basin"] = "Himalayas"`: every row's group is the basin and its year. */
  function KeyOf(r: Hydrology.HydroRow): Key {
    (BASIN, r.year)
  }

  function Keys(rows: seq<Hydrology.HydroRow>): (ks: seq<Key>)
    ensures |ks| == |rows| && forall i :: 0 <= i < |rows| ==> ks[i] == KeyOf(rows[i])
  {
    seq(|rows|, i requires 0 <= i < |rows| => KeyOf(rows[i]))
  }

  /** The rows of group `k`, in table order. */
  function Members(rows: seq<Hydrology.HydroRow>, k: Key): (ms: seq<Hydrology.HydroRow>)
    ensures |ms| <= |rows|
    ensures forall r :: r in ms <==> r in rows && KeyOf(r) == k
  {
    if rows == [] then []
    else
      assert forall r :: r in rows <==> r == rows[0] || r in rows[1..];
      (if KeyOf(rows[0]) == k then [rows[0]] else []) + Members(rows[1..], k)
  }

  /** A column of a group. */
  function Values(ms: seq<Hydrology.HydroRow>, f: Hydrology.HydroRow -> real): (vs: seq<real>)
    ensures |vs| == |ms| && forall i :: 0 <= i < |ms| ==> vs[i] == f(ms[i])
  {
    seq(|ms|, i requires 0 <= i < |ms| => f(ms[i]))
  }

  /** `nunique` of a column of IDs: the number of distinct IDs. */
  function NUnique(ids: seq<string>): nat {
    |Order.SortedKeys(ids, Order.StrLess)|
  }

  /** One output row of the aggregation. `basin_runoff_mm` is missing when
      the group's total area is zero (pandas gives NaN there). */
  datatype BasinRow = BasinRow(
    basin: string,
    year: nat,
    total_glacier_runoff_m3: real,
    mean_runoff_mm: real,
    glacier_count: nat,
    total_glacier_area_km2: real,
    basin_runoff_mm: Option<real>)

  function Runoff(r: Hydrology.HydroRow): real { r.glacier_runoff_m3 }
  function RunoffMm(r: Hydrology.HydroRow): real { r.runoff_mm }
  function Area(r: Hydrology.HydroRow): real { r.area_km2 }

  function Ids(ms: seq<Hydrology.HydroRow>): (ids: seq<string>)
    ensures |ids| == |ms| && forall i :: 0 <= i < |ms| ==> ids[i] == ms[i].glacier_id
  {
    seq(|ms|, i requires 0 <= i < |ms| => ms[i].glacier_id)
  }

  /** The aggregates of one non-empty group, then the basin-wide depth:
      total runoff over total area in square metres. */
  function GroupRow(k: Key, ms: seq<Hydrology.HydroRow>): BasinRow
    requires |ms| > 0
  {
    var total := Sum(Values(ms, Runoff));
    var area := Sum(Values(ms, Area));
    BasinRow(k.0, k.1, total, Mean(Values(ms, RunoffMm)), NUnique(Ids(ms)), area,
             if area == 0.0 then None else Some(total / (area * Hydrology.M2_PER_KM2)))
  }

  /** `df.groupby(["basin", "year"]).agg(...).reset_index()`: one row per
      group, groups in ascending (basin, year) order. */
  function Aggregate(rows: seq<Hydrology.HydroRow>): seq<BasinRow> {
    var keys := Order.SortedKeys(Keys(rows), KeyLess);
    KeyLessIsStrictTotal();
    Order.SortedKeysProps(Keys(rows), KeyLess);
    assert forall j :: 0 <= j < |keys| ==> |Members(rows, keys[j])| > 0 by {
      forall j | 0 <= j < |keys| ensures |Members(rows, keys[j])| > 0 {
        assert keys[j] in keys;
        var i :| 0 <= i < |rows| && Keys(rows)[i] == keys[j];
        assert rows[i] in Members(rows, keys[j]);
      }
    }
    seq(|keys|, j requires 0 <= j < |keys| => GroupRow(keys[j], Members(rows, keys[j])))
  }

  /** A list of names as Python prints it, `['a', 'b']`; none of the names
      it is given holds a quote. */
  function ListRepr(names: seq<string>): string {
    "[" + Items(names) + "]"
  }

  function Items(names: seq<string>): string {
    if names == [] then ""
    else if |names| == 1 then "'" + names[0] + "'"
    else "'" + names[0] + "', " + Items(names[1..])
  }

  const MISSING_MESSAGE: string := "ValueError: \U{274C} Missing required columns: "

  /** The stage: a ValueError naming the missing required columns, or the
      aggregated table. */
  function BasinStage(cols: seq<string>, rows: seq<Hydrology.HydroRow>): (r: Result<seq<BasinRow>>)
    ensures r.Err? <==> exists c :: c in REQUIRED && c !in cols
    ensures r.Err? ==> r.msg == MISSING_MESSAGE + ListRepr(Missing(REQUIRED, cols))
    ensures r.Ok? ==> r.value == Aggregate(rows)
  {
    assert forall c :: c in Missing(REQUIRED, cols) <==> c in REQUIRED && c !in cols;
    var missing := Missing(REQUIRED, cols);
    if missing != [] then Err(MISSING_MESSAGE + ListRepr(missing))
    else Ok(Aggregate(rows))
  }

  /** The error names the missing columns in required order: with only the
      runoff columns absent it lists `glacier_runoff_m3`, then `runoff_mm`
      (printed `['glacier_runoff_m3', 'runoff_mm']`, see `TwoNamesRepr`). */
  lemma BasinStageMessage(rows: seq<Hydrology.HydroRow>)
    ensures var r := BasinStage(["glacier_id", "year", "area_km2"], rows);
      r.Err? && r.msg == MISSING_MESSAGE + ListRepr(["glacier_runoff_m3", "runoff_mm"])
  {
    var cols := ["glacier_id", "year", "area_km2"];
    RunoffColumnsMissing(cols);
    assert REQUIRED[4] in REQUIRED && REQUIRED[4] !in cols;
  }

  /** Two names print as `['a', 'b']`. */
  lemma TwoNamesRepr(a: string, b: string)
    ensures ListRepr([a, b]) == "['" + a + "', '" + b + "']"
  {
    assert [a, b][1..] == [b];
    assert Items([a, b]) == "'" + a + "', " + ("'" + b + "'");
    assert "['" == "[" + "'" && "', '" == "', " + "'" && "']" == "'" + "]";
  }

  lemma RunoffColumnsMissing(cols: seq<string>)
    requires cols == ["glacier_id", "year", "area_km2"]
    ensures Missing(REQUIRED, cols) == ["glacier_runoff_m3", "runoff_mm"]
  {
    assert REQUIRED[0] in cols && REQUIRED[1] in cols && REQUIRED[2] in cols;
    assert REQUIRED[3] !in cols && REQUIRED[4] !in cols;
    assert MissingFrom(cols, REQUIRED, 5) == [];
    assert MissingFrom(cols, REQUIRED, 4) == [4];
    assert MissingFrom(cols, REQUIRED, 3) == [3, 4];
    assert MissingFrom(cols, REQUIRED, 2) == [3, 4];
    assert MissingFrom(cols, REQUIRED, 1) == [3, 4];
    assert MissingFrom(cols, REQUIRED, 0) == [3, 4];
  }

  // ---------------------------------------------------------------------
  // Properties of the aggregation
  // ---------------------------------------------------------------------

  /** Exactly one output row per (basin, year) present in the input, in
      strictly ascending (basin, year) order, and every row belongs to the
      one basin. */
  lemma AggregateKeys(rows: seq<Hydrology.HydroRow>)
    ensures var out := Aggregate(rows);
      && (forall j, k :: 0 <= j < k < |out| ==> KeyLess((out[j].basin, out[j].year), (out[k].basin, out[k].year)))
      && (forall r :: r in rows ==> exists j :: 0 <= j < |out| && (out[j].basin, out[j].year) == KeyOf(r))
      && (forall j :: 0 <= j < |out| ==> out[j].basin == BASIN)
  {
    var keys := Order.SortedKeys(Keys(rows), KeyLess);
    KeyLessIsStrictTotal();
    Order.SortedKeysProps(Keys(rows), KeyLess);
    var out := Aggregate(rows);
    assert forall j :: 0 <= j < |out| ==> (out[j].basin, out[j].year) == keys[j];
    forall r | r in rows ensures exists j :: 0 <= j < |out| && (out[j].basin, out[j].year) == KeyOf(r) {
      var i :| 0 <= i < |rows| && rows[i] == r;
      assert Keys(rows)[i] == KeyOf(r);
      assert KeyOf(r) in Keys(rows);
      var j :| 0 <= j < |keys| && keys[j] == KeyOf(r);
    }
    forall j | 0 <= j < |out| ensures out[j].basin == BASIN {
      assert keys[j] in keys;
      var i :| 0 <= i < |rows| && Keys(rows)[i] == keys[j];
    }
  }

  /** Each output row is a group present in the input (none for an absent
      pair) and holds its group's runoff and area sums, the mean runoff
      depth, and the number of distinct glacier IDs in the group, which
      lies between 1 and the group size. */
  lemma AggregateGroups(rows: seq<Hydrology.HydroRow>, j: nat)
    requires j < |Aggregate(rows)|
    ensures var out := Aggregate(rows)[j];
      var ms := Members(rows, (out.basin, out.year));
      && |ms| > 0
      && out.total_glacier_runoff_m3 == Sum(Values(ms, Runoff))
      && out.total_glacier_area_km2 == Sum(Values(ms, Area))
      && out.mean_runoff_mm == Mean(Values(ms, RunoffMm))
      && out.glacier_count == |set r | r in ms :: r.glacier_id|
      && 1 <= out.glacier_count <= |ms|
  {
    var keys := Order.SortedKeys(Keys(rows), KeyLess);
    var out := Aggregate(rows);
    KeyLessIsStrictTotal();
    Order.SortedKeysProps(Keys(rows), KeyLess);
    assert (out[j].basin, out[j].year) == keys[j];
    assert keys[j] in keys;
    var i :| 0 <= i < |rows| && Keys(rows)[i] == keys[j];
    assert rows[i] in Members(rows, keys[j]);
    GlacierCount(Members(rows, keys[j]));
  }

  /** `nunique` of a group's IDs counts its distinct glacier IDs. */
  lemma GlacierCount(ms: seq<Hydrology.HydroRow>)
    ensures NUnique(Ids(ms)) == |set r | r in ms :: r.glacier_id|
    ensures |ms| > 0 ==> 1 <= NUnique(Ids(ms)) <= |ms|
  {
    Order.SortedKeysLength(Ids(ms), Order.StrLess);
    Order.StrLessIsStrictTotal();
    Order.SortedKeysCount(Ids(ms), Order.StrLess);
    assert (set x | x in Ids(ms)) == (set r | r in ms :: r.glacier_id) by {
      forall x | x in Ids(ms) ensures x in (set r | r in ms :: r.glacier_id) {
        var i :| 0 <= i < |ms| && Ids(ms)[i] == x;
        assert ms[i] in ms;
      }
      forall r | r in ms ensures r.glacier_id in Ids(ms) {
        var i :| 0 <= i < |ms| && ms[i] == r;
        assert Ids(ms)[i] == r.glacier_id;
      }
    }
  }

  /** A group's total in column `f`, accumulated row by row. */
  function MemberSum(rows: seq<Hydrology.HydroRow>, k: Key, f: Hydrology.HydroRow -> real): real {
    if rows == [] then 0.0
    else (if KeyOf(rows[0]) == k then f(rows[0]) else 0.0) + MemberSum(rows[1..], k, f)
  }

  lemma {:induction false} MemberSumIsSum(rows: seq<Hydrology.HydroRow>, k: Key, f: Hydrology.HydroRow -> real)
    ensures MemberSum(rows, k, f) == Sum(Values(Members(rows, k), f))
  {
    if rows != [] {
      MemberSumIsSum(rows[1..], k, f);
      var head := if KeyOf(rows[0]) == k then [rows[0]] else [];
      var rest := Members(rows[1..], k);
      assert Values(head + rest, f) == Values(head, f) + Values(rest, f);
      SumAppend(Values(head, f), Values(rest, f));
    }
  }

  /** The group totals of column `f`, one per key of `ks`. */
  function GroupSums(ks: seq<Key>, rows: seq<Hydrology.HydroRow>, f: Hydrology.HydroRow -> real): (s: seq<real>)
    ensures |s| == |ks|
  {
    if ks == [] then [] else [MemberSum(rows, ks[0], f)] + GroupSums(ks[1..], rows, f)
  }

  /** `v` at the position of `k0` in `ks`, zero elsewhere. */
  function Indicator(ks: seq<Key>, k0: Key, v: real): (s: seq<real>)
    ensures |s| == |ks|
  {
    if ks == [] then [] else [if ks[0] == k0 then v else 0.0] + Indicator(ks[1..], k0, v)
  }

  lemma {:induction false} IndicatorSum(ks: seq<Key>, k0: Key, v: real)
    requires forall i, j :: 0 <= i < j < |ks| ==> ks[i] != ks[j]
    ensures Sum(Indicator(ks, k0, v)) == if k0 in ks then v else 0.0
  {
    if ks != [] {
      assert forall i, j :: 0 <= i < j < |ks[1..]| ==> ks[1..][i] != ks[1..][j] by {
        forall i, j | 0 <= i < j < |ks[1..]| ensures ks[1..][i] != ks[1..][j] {
          assert ks[1..][i] == ks[i + 1] && ks[1..][j] == ks[j + 1];
        }
      }
      IndicatorSum(ks[1..], k0, v);
      if ks[0] == k0 {
        assert k0 !in ks[1..];
      } else {
        assert k0 in ks <==> k0 in ks[1..];
      }
    }
  }

  lemma {:induction false} GroupSumsSplit(ks: seq<Key>, rows: seq<Hydrology.HydroRow>, f: Hydrology.HydroRow -> real)
    requires rows != []
    ensures GroupSums(ks, rows, f) == AddCols(Indicator(ks, KeyOf(rows[0]), f(rows[0])), GroupSums(ks, rows[1..], f))
  {
    if ks != [] {
      GroupSumsSplit(ks[1..], rows, f);
    }
  }

  /** Summing the group totals over a list of distinct keys that covers
      every row's group gives the column's total over all rows. */
  lemma {:induction false} GroupSumsConserve(ks: seq<Key>, rows: seq<Hydrology.HydroRow>, f: Hydrology.HydroRow -> real)
    requires forall i, j :: 0 <= i < j < |ks| ==> ks[i] != ks[j]
    requires forall r :: r in rows ==> KeyOf(r) in ks
    ensures Sum(GroupSums(ks, rows, f)) == Sum(Values(rows, f))
  {
    if rows == [] {
      assert GroupSums(ks, rows, f) == Indicator(ks, (BASIN, 0), 0.0) by {
        IndicatorZero(ks, rows, f);
      }
      IndicatorSum(ks, (BASIN, 0), 0.0);
    } else {
      assert forall r :: r in rows[1..] ==> r in rows;
      GroupSumsConserve(ks, rows[1..], f);
      GroupSumsSplit(ks, rows, f);
      SumAddCols(Indicator(ks, KeyOf(rows[0]), f(rows[0])), GroupSums(ks, rows[1..], f));
      IndicatorSum(ks, KeyOf(rows[0]), f(rows[0]));
      assert Values(rows, f) == [f(rows[0])] + Values(rows[1..], f);
    }
  }

  lemma {:induction false} IndicatorZero(ks: seq<Key>, rows: seq<Hydrology.HydroRow>, f: Hydrology.HydroRow -> real)
    requires rows == []
    ensures GroupSums(ks, rows, f) == Indicator(ks, (BASIN, 0), 0.0)
  {
    if ks != [] {
      IndicatorZero(ks[1..], rows, f);
    }
  }

  /** Summed over the output rows, total runoff and total area equal their
      sums over the input rows: the aggregation neither loses nor invents
      runoff. */
  lemma AggregateConserves(rows: seq<Hydrology.HydroRow>)
    ensures var out := Aggregate(rows);
      && Sum(seq(|out|, j requires 0 <= j < |out| => out[j].total_glacier_runoff_m3)) == Sum(Values(rows, Runoff))
      && Sum(seq(|out|, j requires 0 <= j < |out| => out[j].total_glacier_area_km2)) == Sum(Values(rows, Area))
  {
    var keys := Order.SortedKeys(Keys(rows), KeyLess);
    GroupKeysCover(rows);
    GroupSumsConserve(keys, rows, Runoff);
    GroupSumsConserve(keys, rows, Area);
    AggregateColumns(rows);
  }

  /** The group keys are distinct and every row's key is among them. */
  lemma GroupKeysCover(rows: seq<Hydrology.HydroRow>)
    ensures var keys := Order.SortedKeys(Keys(rows), KeyLess);
      && (forall i, j :: 0 <= i < j < |keys| ==> keys[i] != keys[j])
      && (forall r :: r in rows ==> KeyOf(r) in keys)
  {
    var keys := Order.SortedKeys(Keys(rows), KeyLess);
    KeyLessIsStrictTotal();
    Order.SortedKeysProps(Keys(rows), KeyLess);
    forall i, j | 0 <= i < j < |keys| ensures keys[i] != keys[j] {
      Order.StrictlySortedDistinct(keys, KeyLess, i, j);
    }
    forall r | r in rows ensures KeyOf(r) in keys {
      var i :| 0 <= i < |rows| && rows[i] == r;
      assert Keys(rows)[i] == KeyOf(r);
    }
  }

  /** The total columns of the output are the per-group sums. */
  lemma AggregateColumns(rows: seq<Hydrology.HydroRow>)
    ensures var out := Aggregate(rows);
      var keys := Order.SortedKeys(Keys(rows), KeyLess);
      && seq(|out|, j requires 0 <= j < |out| => out[j].total_glacier_runoff_m3) == GroupSums(keys, rows, Runoff)
      && seq(|out|, j requires 0 <= j < |out| => out[j].total_glacier_area_km2) == GroupSums(keys, rows, Area)
  {
    var keys := Order.SortedKeys(Keys(rows), KeyLess);
    GroupSumsAt(keys, rows, Runoff);
    GroupSumsAt(keys, rows, Area);
  }

  lemma {:induction false} GroupSumsAt(ks: seq<Key>, rows: seq<Hydrology.HydroRow>, f: Hydrology.HydroRow -> real)
    ensures forall j :: 0 <= j < |ks| ==> GroupSums(ks, rows, f)[j] == Sum(Values(Members(rows, ks[j]), f))
  {
    if ks != [] {
      GroupSumsAt(ks[1..], rows, f);
      MemberSumIsSum(rows, ks[0], f);
      assert forall j :: 1 <= j < |ks| ==> ks[1..][j - 1] == ks[j];
    }
  }

  // ---------------------------------------------------------------------
  // basin_runoff_mm
  // ---------------------------------------------------------------------

  /** Melt depth times area for each row of a group. */
  function MeltTimesArea(ms: seq<Hydrology.HydroRow>): (vs: seq<real>)
    ensures |vs| == |ms|
    ensures forall i :: 0 <= i < |ms| ==> vs[i] == Hydrology.MeltM(ms[i].mass_change) * ms[i].area_km2
  {
    seq(|ms|, i requires 0 <= i < |ms| => Hydrology.MeltM(ms[i].mass_change) * ms[i].area_km2)
  }

  lemma RunoffIsScaledMelt(ms: seq<Hydrology.HydroRow>)
    requires forall i :: 0 <= i < |ms| ==>
      ms[i].glacier_runoff_m3 == Hydrology.RunoffM3(Hydrology.MeltM(ms[i].mass_change), ms[i].area_km2)
    ensures Values(ms, Runoff) == Scale(MeltTimesArea(ms), 1000000.0)
  {
    forall i | 0 <= i < |ms| ensures Values(ms, Runoff)[i] == Scale(MeltTimesArea(ms), 1000000.0)[i] {
      var m := Hydrology.MeltM(ms[i].mass_change);
      assert Values(ms, Runoff)[i] == m * ms[i].area_km2 * 1000000.0;
    }
  }

  lemma DivideOutFactor(w: real, a: real, c: real)
    requires a != 0.0 && c != 0.0
    ensures (c * w) / (a * c) == w / a
  {
    calc {
      (c * w) / (a * c);
      == (c * w) / (c * a);
      == w / a;
    }
  }

  /** For rows produced by the hydrology stage, `basin_runoff_mm` is the
      area-weighted mean melt depth in metres, despite its name. */
  lemma BasinRunoffIsAreaWeightedMelt(k: Key, ms: seq<Hydrology.HydroRow>)
    requires |ms| > 0
    requires forall i :: 0 <= i < |ms| ==>
      ms[i].glacier_runoff_m3 == Hydrology.RunoffM3(Hydrology.MeltM(ms[i].mass_change), ms[i].area_km2)
    requires Sum(Values(ms, Area)) != 0.0
    ensures GroupRow(k, ms).basin_runoff_mm == Some(Sum(MeltTimesArea(ms)) / Sum(Values(ms, Area)))
  {
    RunoffIsScaledMelt(ms);
    SumScale(MeltTimesArea(ms), 1000000.0);
    var w := Sum(MeltTimesArea(ms));
    var a := Sum(Values(ms, Area));
    DivideOutFactor(w, a, 1000000.0);
  }

  /** Two glaciers melting 0.5 m over 10 km² and 0.1 m over 2 km² in one
      year: 5.2e6 m³ of runoff, a `basin_runoff_mm` of 13/30 (0.433 m, the
      area-weighted melt) and a `mean_runoff_mm` of 300. */
  lemma TwoGlacierExample(a: Hydrology.HydroRow, b: Hydrology.HydroRow)
    requires a == Hydrology.HydroRow("A", 2020, 10.0, 0.0, 0.0, 0.0, -0.5, 5000000.0, 500.0)
    requires b == Hydrology.HydroRow("B", 2020, 2.0, 0.0, 0.0, 0.0, -0.1, 200000.0, 100.0)
    ensures GroupRow((BASIN, 2020), [a, b]).total_glacier_runoff_m3 == 5200000.0
    ensures GroupRow((BASIN, 2020), [a, b]).basin_runoff_mm == Some(13.0 / 30.0)
    ensures GroupRow((BASIN, 2020), [a, b]).mean_runoff_mm == 300.0
  {
    var ms := [a, b];
    assert Values(ms, Runoff) == [5000000.0, 200000.0];
    assert Values(ms, Area) == [10.0, 2.0];
    assert Values(ms, RunoffMm) == [500.0, 100.0];
    assert Sum([5000000.0, 200000.0]) == 5200000.0 by {
      assert [5000000.0, 200000.0][1..] == [200000.0];
      assert [200000.0][1..] == [];
    }
    assert Sum([10.0, 2.0]) == 12.0 by {
      assert [10.0, 2.0][1..] == [2.0];
      assert [2.0][1..] == [];
    }
    assert Sum([500.0, 100.0]) == 600.0 by {
      assert [500.0, 100.0][1..] == [100.0];
      assert [100.0][1..] == [];
    }
  }
}
