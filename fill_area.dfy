/** The area back-fill stage: each glacier of the master table gets the
    area that the RGI global attribute table records under the same numeric
    key, averaged over duplicate keys, or a missing area when there is none. */
module FillArea {
  import opened Common
  import Order
  import KeyMatch

  /** A row of `glacier_master.csv` (columns glacier_id, lat, lon, region,
      area_km2). */
  datatype MasterRow = MasterRow(
    glacier_id: Option<string>,
    lat: Option<real>,
    lon: Option<real>,
    region: Option<string>,
    area_km2: Option<real>)

  /** The two columns of the RGI attribute table this stage reads. */
  datatype AttrRow = AttrRow(rgi_id: Option<string>, area_km2: Option<real>)

  /** `rgi[["gid", "area_km2"]].dropna()`: the (key, area) pairs of the
      attribute rows whose key and area are both present. */
  function Pairs(rgi: seq<AttrRow>): (ps: seq<(string, real)>)
    ensures |ps| <= |rgi|
    ensures forall p: (string, real) :: p in ps <==> exists r :: r in rgi && Yields(r, p)
  {
    if rgi == [] then []
    else
      var rest := Pairs(rgi[1..]);
      assert forall r :: r in rgi <==> r == rgi[0] || r in rgi[1..];
      var gid := KeyMatch.ExtractNumericId(rgi[0].rgi_id);
      var ps := if gid.Some? && rgi[0].area_km2.Some? then [(gid.value, rgi[0].area_km2.value)] + rest else rest;
      assert forall p: (string, real) :: p in ps <==> exists r :: r in rgi && Yields(r, p) by {
        forall p: (string, real) ensures p in ps <==> exists r :: r in rgi && Yields(r, p) {
          if p in ps && p !in rest {
            assert Yields(rgi[0], p);
          }
          if exists r :: r in rgi && Yields(r, p) {
            var r :| r in rgi && Yields(r, p);
            if r == rgi[0] {
              assert p == (gid.value, rgi[0].area_km2.value);
            }
          }
        }
      }
      ps
  }

  /** An attribute row contributes the pair (key, area). */
  predicate Yields(r: AttrRow, p: (string, real)) {
    KeyMatch.ExtractNumericId(r.rgi_id) == Some(p.0) && r.area_km2 == Some(p.1)
  }

  /** The keys of the pairs, in order, with repetitions. */
  function Keys(ps: seq<(string, real)>): (ks: seq<string>)
    ensures |ks| == |ps| && forall i :: 0 <= i < |ps| ==> ks[i] == ps[i].0
  {
    seq(|ps|, i requires 0 <= i < |ps| => ps[i].0)
  }

  /** The areas recorded under key `g`, in table order. */
  function AreasOf(ps: seq<(string, real)>, g: string): (xs: seq<real>)
    ensures |xs| <= |ps|
    ensures |xs| == 0 <==> g !in Keys(ps)
  {
    if ps == [] then []
    else
      var rest := AreasOf(ps[1..], g);
      assert Keys(ps) == [ps[0].0] + Keys(ps[1..]);
      if ps[0].0 == g then [ps[0].1] + rest else rest
  }

  /** `groupby("gid", as_index=False)["area_km2"].mean()`: one row per key,
      keys ascending, each with the mean of its areas. */
  function GroupMeans(ps: seq<(string, real)>): seq<(string, real)> {
    var keys := Order.SortedKeys(Keys(ps), Order.StrLess);
    Order.StrLessIsStrictTotal();
    Order.SortedKeysProps(Keys(ps), Order.StrLess);
    assert forall j :: 0 <= j < |keys| ==> keys[j] in Keys(ps);
    seq(|keys|, j requires 0 <= j < |keys| => (keys[j], Mean(AreasOf(ps, keys[j]))))
  }

  /** The area table has exactly one row per key that survives the dropna,
      keys strictly ascending, and each row holds the mean of that key's
      areas. */
  lemma GroupMeansSpec(ps: seq<(string, real)>)
    ensures var t := GroupMeans(ps);
      && (forall i, j :: 0 <= i < j < |t| ==> Order.StrLess(t[i].0, t[j].0))
      && (forall g :: g in Keys(ps) <==> exists i :: 0 <= i < |t| && t[i].0 == g)
      && (forall i :: 0 <= i < |t| ==> |AreasOf(ps, t[i].0)| > 0 && t[i].1 == Mean(AreasOf(ps, t[i].0)))
  {
    var keys := Order.SortedKeys(Keys(ps), Order.StrLess);
    Order.StrLessIsStrictTotal();
    Order.SortedKeysProps(Keys(ps), Order.StrLess);
    var t := GroupMeans(ps);
    forall g | g in Keys(ps) ensures exists i :: 0 <= i < |t| && t[i].0 == g {
      var i :| 0 <= i < |keys| && keys[i] == g;
      assert t[i].0 == g;
    }
  }

  /** The mean area recorded under key `g`, if any: the first row of the
      area table with that key. */
  function Lookup(t: seq<(string, real)>, g: string): Option<real> {
    if t == [] then None
    else if t[0].0 == g then Some(t[0].1)
    else Lookup(t[1..], g)
  }

  /** The area the stage should give a master row: the mean of every RGI
      area whose ID yields the same key, or missing when the row's ID yields
      no key or no RGI row has that key. */
  function ExpectedArea(id: Option<string>, rgi: seq<AttrRow>): Option<real> {
    var g := KeyMatch.ExtractNumericId(id);
    if g.None? || |AreasOf(Pairs(rgi), g.value)| == 0 then None
    else Some(Mean(AreasOf(Pairs(rgi), g.value)))
  }

  lemma {:induction false} LookupFinds(t: seq<(string, real)>, i: nat)
    requires i < |t| && forall a, b :: 0 <= a < b < |t| ==> t[a].0 != t[b].0
    ensures Lookup(t, t[i].0) == Some(t[i].1)
  {
    if i > 0 {
      assert t[0].0 != t[i].0;
      LookupFinds(t[1..], i - 1);
    }
  }

  lemma {:induction false} LookupMisses(t: seq<(string, real)>, g: string)
    requires forall i :: 0 <= i < |t| ==> t[i].0 != g
    ensures Lookup(t, g) == None
  {
    if t != [] {
      LookupMisses(t[1..], g);
    }
  }

  /** Looking a key up in the area table gives exactly the expected area. */
  lemma LookupGroupMeans(rgi: seq<AttrRow>, id: Option<string>)
    requires KeyMatch.ExtractNumericId(id).Some?
    ensures Lookup(GroupMeans(Pairs(rgi)), KeyMatch.ExtractNumericId(id).value) == ExpectedArea(id, rgi)
  {
    var ps := Pairs(rgi);
    var t := GroupMeans(ps);
    var g := KeyMatch.ExtractNumericId(id).value;
    GroupMeansSpec(ps);
    Order.StrLessIsStrictTotal();
    forall a, b | 0 <= a < b < |t| ensures t[a].0 != t[b].0 {
      Order.StrLessIrreflexive(t[a].0);
    }
    if g in Keys(ps) {
      var i :| 0 <= i < |t| && t[i].0 == g;
      LookupFinds(t, i);
    } else {
      LookupMisses(t, g);
    }
  }

  /** The area-table values whose key equals `gid`. */
  function MatchAreas(gid: Option<string>, t: seq<(string, real)>): (m: seq<real>)
    ensures |m| <= |t|
  {
    if t == [] || gid.None? then []
    else (if t[0].0 == gid.value then [t[0].1] else []) + MatchAreas(gid, t[1..])
  }

  /** `gm.merge(rgi_area, on="gid", how="left")`: every master row in order,
      once per matching area row, or once with a missing area. A master row
      without a key matches nothing, since the area table holds no missing
      keys. */
  function LeftJoin(gm: seq<MasterRow>, gids: seq<Option<string>>, t: seq<(string, real)>): seq<(MasterRow, Option<real>)>
    requires |gids| == |gm|
  {
    if gm == [] then []
    else
      var m := MatchAreas(gids[0], t);
      var here := if m == [] then [(gm[0], None)] else seq(|m|, j requires 0 <= j < |m| => (gm[0], Some(m[j])));
      here + LeftJoin(gm[1..], gids[1..], t)
  }

  lemma {:induction false} MatchAreasUnique(gid: Option<string>, t: seq<(string, real)>)
    requires forall a, b :: 0 <= a < b < |t| ==> t[a].0 != t[b].0
    ensures gid.None? ==> MatchAreas(gid, t) == []
    ensures gid.Some? ==> MatchAreas(gid, t) == (if Lookup(t, gid.value).Some? then [Lookup(t, gid.value).value] else [])
  {
    if t != [] && gid.Some? {
      MatchAreasUnique(gid, t[1..]);
      if t[0].0 == gid.value {
        LookupMisses(t[1..], gid.value);
      }
    }
  }

  /** With unique keys on the right, the left merge keeps every master row
      exactly once and in order, paired with its looked-up area. */
  lemma {:induction false} LeftJoinKeepsRows(gm: seq<MasterRow>, gids: seq<Option<string>>, t: seq<(string, real)>)
    requires |gids| == |gm|
    requires forall a, b :: 0 <= a < b < |t| ==> t[a].0 != t[b].0
    ensures |LeftJoin(gm, gids, t)| == |gm|
    ensures forall i :: 0 <= i < |gm| ==>
      LeftJoin(gm, gids, t)[i] == (gm[i], if gids[i].None? then None else Lookup(t, gids[i].value))
  {
    if gm != [] {
      MatchAreasUnique(gids[0], t);
      LeftJoinKeepsRows(gm[1..], gids[1..], t);
      var out := LeftJoin(gm, gids, t);
      var rest := LeftJoin(gm[1..], gids[1..], t);
      assert |out| == 1 + |rest|;
      forall i | 1 <= i < |gm|
        ensures out[i] == (gm[i], if gids[i].None? then None else Lookup(t, gids[i].value))
      {
        assert out[i] == rest[i - 1];
        assert gm[1..][i - 1] == gm[i] && gids[1..][i - 1] == gids[i];
      }
    }
  }

  /** The whole stage. The master table is rebuilt step by step as the
      script does: the key column is added, merged with the area table, and
      `area_km2` is replaced by the looked-up area, dropping the helper
      columns. Every master row survives exactly once, in order, with all
      fields but `area_km2` unchanged. */
  method FillAreaStage(gm: seq<MasterRow>, rgi: seq<AttrRow>) returns (out: seq<MasterRow>)
    ensures |out| == |gm|
    ensures forall i :: 0 <= i < |gm| ==> out[i] == gm[i].(area_km2 := ExpectedArea(gm[i].glacier_id, rgi))
  {
    // 1. the numeric key of every master row
    var gids := seq(|gm|, i requires 0 <= i < |gm| => KeyMatch.ExtractNumericId(gm[i].glacier_id));
    // 2. keep complete (key, area) pairs, one mean per key
    var areas := GroupMeans(Pairs(rgi));
    // 3. left merge on the key
    var merged := LeftJoin(gm, gids, areas);
    Order.StrLessIsStrictTotal();
    GroupMeansSpec(Pairs(rgi));
    forall a, b | 0 <= a < b < |areas| ensures areas[a].0 != areas[b].0 {
      Order.StrLessIrreflexive(areas[a].0);
    }
    LeftJoinKeepsRows(gm, gids, areas);
    // 4. the merged area replaces the old one
    out := seq(|merged|, i requires 0 <= i < |merged| => merged[i].0.(area_km2 := merged[i].1));
    forall i | 0 <= i < |gm| ensures out[i] == gm[i].(area_km2 := ExpectedArea(gm[i].glacier_id, rgi)) {
      if gids[i].Some? {
        LookupGroupMeans(rgi, gm[i].glacier_id);
      }
    }
  }

  /** A master row whose ID carries an RGI 7 version tag is keyed by the
      version number, so it only gets an area if some attribute row is keyed
      the same way. */
  lemma Rgi7RowKeyedByVersion(row: MasterRow, rgi: seq<AttrRow>)
    requires row.glacier_id == Some("RGI2000-v7.0-G-14.03456")
    ensures ExpectedArea(row.glacier_id, rgi) ==
      (if |AreasOf(Pairs(rgi), "7.0")| == 0 then None else Some(Mean(AreasOf(Pairs(rgi), "7.0"))))
  {
    KeyMatch.ExtractNumericIdOfRgi7();
  }
}
