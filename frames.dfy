/** Data frames whose columns are only known at run time: the WGMS
    mass-balance file (one column per year) and the tables the final merge
    script reshapes by column name. A frame is a header and rows of cells;
    the operations below are the pandas operations the scripts use. */
module Frames {
  import opened Common
  import Order

  /** What a merge raises when its suffixes leave two columns with one name. */
  const DUPLICATE_COLUMNS: string := "MergeError: duplicate columns after suffixing"

  /** One cell of a frame read from CSV. `Blank` is NaN / None. */
  datatype Cell = Text(s: string) | Num(x: real) | Blank

  datatype Frame = Frame(cols: seq<string>, rows: seq<seq<Cell>>)

  predicate Distinct(cols: seq<string>) {
    forall i, j :: 0 <= i < j < |cols| ==> cols[i] != cols[j]
  }

  /** Distinct column names, and every row as wide as the header. */
  predicate WellFormed(f: Frame) {
    Distinct(f.cols) && forall r :: 0 <= r < |f.rows| ==> |f.rows[r]| == |f.cols|
  }

  /** Position of a column name in the header. */
  function IndexOf(cols: seq<string>, name: string): (k: nat)
    requires name in cols
    ensures k < |cols| && cols[k] == name
    ensures forall j :: 0 <= j < k ==> cols[j] != name
  {
    if cols[0] == name then 0 else 1 + IndexOf(cols[1..], name)
  }

  lemma IndexOfDistinct(cols: seq<string>, k: nat)
    requires Distinct(cols) && k < |cols|
    ensures IndexOf(cols, cols[k]) == k
  {
  }

  /** The cell of column `name` in row `r`. */
  function Get(f: Frame, r: nat, name: string): Cell
    requires WellFormed(f) && r < |f.rows| && name in f.cols
  {
    f.rows[r][IndexOf(f.cols, name)]
  }

  /** The number in a cell, if it holds one. */
  function NumOf(c: Cell): Option<real> {
    if c.Num? then Some(c.x) else None
  }

  /** A column of `n` missing values. */
  function Blanks(n: nat): (r: seq<Cell>)
    ensures |r| == n && forall i :: 0 <= i < n ==> r[i] == Blank
  {
    seq(n, _ => Blank)
  }

  // ---------------------------------------------------------------------
  // Column operations
  // ---------------------------------------------------------------------

  /** `df.columns = df.columns.str.lower()`. */
  function LowerColumns(f: Frame): (g: Frame)
    ensures |g.cols| == |f.cols| && g.rows == f.rows
    ensures forall i :: 0 <= i < |f.cols| ==> g.cols[i] == Lower(f.cols[i])
  {
    Frame(seq(|f.cols|, i requires 0 <= i < |f.cols| => Lower(f.cols[i])), f.rows)
  }

  /** `df.rename(columns={old: new})`. */
  function Rename(f: Frame, from: string, to: string): (g: Frame)
    requires WellFormed(f) && to !in f.cols
    ensures WellFormed(g) && g.rows == f.rows && |g.cols| == |f.cols|
    ensures forall i :: 0 <= i < |f.cols| ==> g.cols[i] == (if f.cols[i] == from then to else f.cols[i])
  {
    Frame(seq(|f.cols|, i requires 0 <= i < |f.cols| => if f.cols[i] == from then to else f.cols[i]), f.rows)
  }

  /** `df[name] = values`: overwrites the column if it exists, otherwise
      appends it at the right. */
  function SetColumn(f: Frame, name: string, values: seq<Cell>): (g: Frame)
    requires WellFormed(f) && |values| == |f.rows|
    ensures WellFormed(g) && |g.rows| == |f.rows| && name in g.cols
    ensures name in f.cols ==> g.cols == f.cols
    ensures name !in f.cols ==> g.cols == f.cols + [name]
    ensures forall r :: 0 <= r < |f.rows| ==> Get(g, r, name) == values[r]
    ensures forall r, c :: 0 <= r < |f.rows| && c in f.cols && c != name ==> Get(g, r, c) == Get(f, r, c)
  {
    if name in f.cols then
      var k := IndexOf(f.cols, name);
      var g := Frame(f.cols, seq(|f.rows|, r requires 0 <= r < |f.rows| => f.rows[r][k := values[r]]));
      assert forall c :: c in f.cols ==> IndexOf(g.cols, c) == IndexOf(f.cols, c);
      g
    else
      var g := Frame(f.cols + [name], seq(|f.rows|, r requires 0 <= r < |f.rows| => f.rows[r] + [values[r]]));
      assert forall c :: c in f.cols ==> IndexOf(g.cols, c) == IndexOf(f.cols, c) by {
        forall c | c in f.cols ensures IndexOf(g.cols, c) == IndexOf(f.cols, c) {
          var k := IndexOf(f.cols, c);
          assert g.cols[k] == c;
          IndexOfDistinct(g.cols, k);
        }
      }
      assert IndexOf(g.cols, name) == |f.cols| by {
        IndexOfDistinct(g.cols, |f.cols|);
      }
      g
  }

  /** `df[name].fillna(v)` written back into the frame. */
  function FillNa(f: Frame, name: string, v: Cell): (g: Frame)
    requires WellFormed(f) && name in f.cols
    ensures WellFormed(g) && g.cols == f.cols && |g.rows| == |f.rows|
    ensures forall r :: 0 <= r < |f.rows| ==>
      Get(g, r, name) == (if Get(f, r, name) == Blank then v else Get(f, r, name))
    ensures forall r, c :: 0 <= r < |f.rows| && c in f.cols && c != name ==> Get(g, r, c) == Get(f, r, c)
  {
    SetColumn(f, name, seq(|f.rows|, r requires 0 <= r < |f.rows| =>
      if Get(f, r, name) == Blank then v else Get(f, r, name)))
  }

  /** The columns at positions `idx`, in that order. */
  function Project(f: Frame, idx: seq<nat>): (g: Frame)
    requires WellFormed(f) && forall j :: 0 <= j < |idx| ==> idx[j] < |f.cols|
    ensures |g.cols| == |idx| && |g.rows| == |f.rows|
    ensures forall j :: 0 <= j < |idx| ==> g.cols[j] == f.cols[idx[j]]
    ensures forall r, j :: 0 <= r < |f.rows| && 0 <= j < |idx| ==> |g.rows[r]| == |idx| && g.rows[r][j] == f.rows[r][idx[j]]
  {
    Frame(seq(|idx|, j requires 0 <= j < |idx| => f.cols[idx[j]]),
          seq(|f.rows|, r requires 0 <= r < |f.rows| =>
            seq(|idx|, j requires 0 <= j < |idx| => f.rows[r][idx[j]])))
  }

  /** Positions of the columns not named in `names`, in order. */
  function KeptIndices(cols: seq<string>, names: seq<string>, from: nat): (idx: seq<nat>)
    requires from <= |cols|
    ensures forall j :: 0 <= j < |idx| ==> from <= idx[j] < |cols| && cols[idx[j]] !in names
    ensures forall j, k :: 0 <= j < k < |idx| ==> idx[j] < idx[k]
    ensures forall i :: from <= i < |cols| && cols[i] !in names ==> i in idx
    decreases |cols| - from
  {
    if from == |cols| then []
    else if cols[from] in names then KeptIndices(cols, names, from + 1)
    else [from] + KeptIndices(cols, names, from + 1)
  }

  /** `df.drop(columns=names)` for the names that are present. */
  function DropColumns(f: Frame, names: seq<string>): (g: Frame)
    requires WellFormed(f)
    ensures WellFormed(g) && |g.rows| == |f.rows|
    ensures forall c :: c in g.cols <==> c in f.cols && c !in names
    ensures forall r, c :: 0 <= r < |f.rows| && c in g.cols ==> Get(g, r, c) == Get(f, r, c)
  {
    var idx := KeptIndices(f.cols, names, 0);
    var g := Project(f, idx);
    ProjectIncreasing(f, idx);
    forall r, c | 0 <= r < |f.rows| && c in g.cols ensures Get(g, r, c) == Get(f, r, c) {
      var j := IndexOf(g.cols, c);
      IndexOfDistinct(f.cols, idx[j]);
    }
    KeptColumns(f, names);
    g
  }

  /** Columns taken at increasing positions stay distinct. */
  lemma ProjectIncreasing(f: Frame, idx: seq<nat>)
    requires WellFormed(f) && forall j :: 0 <= j < |idx| ==> idx[j] < |f.cols|
    requires forall j, k :: 0 <= j < k < |idx| ==> idx[j] < idx[k]
    ensures WellFormed(Project(f, idx))
  {
    var g := Project(f, idx);
    forall i, j | 0 <= i < j < |g.cols| ensures g.cols[i] != g.cols[j] {
      assert idx[i] < idx[j];
    }
  }

  /** Every column not named is kept. */
  lemma KeptColumns(f: Frame, names: seq<string>)
    requires WellFormed(f)
    ensures forall c :: c in f.cols && c !in names ==> c in Project(f, KeptIndices(f.cols, names, 0)).cols
  {
    var idx := KeptIndices(f.cols, names, 0);
    var g := Project(f, idx);
    forall c | c in f.cols && c !in names ensures c in g.cols {
      var i := IndexOf(f.cols, c);
      var j :| 0 <= j < |idx| && idx[j] == i;
      assert g.cols[j] == c;
    }
  }

  /** `df[names]`: the named columns in the given order, or a KeyError. */
  function Select(f: Frame, names: seq<string>): (r: Result<Frame>)
    requires WellFormed(f) && Distinct(names)
    ensures r.Ok? <==> forall j :: 0 <= j < |names| ==> names[j] in f.cols
    ensures r.Ok? ==> WellFormed(r.value) && r.value.cols == names && |r.value.rows| == |f.rows|
    ensures r.Ok? ==> forall i, c :: 0 <= i < |f.rows| && c in names ==> Get(r.value, i, c) == Get(f, i, c)
  {
    if forall j :: 0 <= j < |names| ==> names[j] in f.cols then
      var idx := seq(|names|, j requires 0 <= j < |names| => IndexOf(f.cols, names[j]));
      var g := Project(f, idx);
      assert g.cols == names;
      forall i, c | 0 <= i < |f.rows| && c in names ensures Get(g, i, c) == Get(f, i, c) {
        var j := IndexOf(names, c);
      }
      Ok(g)
    else
      Err("KeyError: column not found")
  }

  /** `df.dropna(subset=names)`: the rows whose named cells are all present. */
  function DropNaRows(f: Frame, ks: seq<nat>, from: nat): (rows: seq<seq<Cell>>)
    requires from <= |f.rows|
    ensures |rows| <= |f.rows| - from
    ensures forall row :: row in rows <==>
      exists i :: from <= i < |f.rows| && f.rows[i] == row && forall j :: 0 <= j < |ks| ==> CellAt(row, ks[j]) != Blank
    decreases |f.rows| - from
  {
    if from == |f.rows| then []
    else
      var rest := DropNaRows(f, ks, from + 1);
      if forall j :: 0 <= j < |ks| ==> CellAt(f.rows[from], ks[j]) != Blank then [f.rows[from]] + rest else rest
  }

  /** The cell at position `i`, or `Blank` past the end of the row. */
  function CellAt(row: seq<Cell>, i: nat): Cell {
    if i < |row| then row[i] else Blank
  }

  function DropNa(f: Frame, names: seq<string>): (g: Frame)
    requires WellFormed(f) && forall j :: 0 <= j < |names| ==> names[j] in f.cols
    ensures WellFormed(g) && g.cols == f.cols && |g.rows| <= |f.rows|
    ensures forall row :: row in g.rows <==>
      row in f.rows && forall j :: 0 <= j < |names| ==> CellAt(row, IndexOf(f.cols, names[j])) != Blank
  {
    var ks := seq(|names|, j requires 0 <= j < |names| => IndexOf(f.cols, names[j]));
    var rows := DropNaRows(f, ks, 0);
    forall r | 0 <= r < |rows| ensures |rows[r]| == |f.cols| {
      assert rows[r] in rows;
    }
    forall row ensures row in rows <==>
      row in f.rows && forall j :: 0 <= j < |names| ==> CellAt(row, IndexOf(f.cols, names[j])) != Blank
    {
      if row in f.rows && forall j :: 0 <= j < |names| ==> CellAt(row, IndexOf(f.cols, names[j])) != Blank {
        var i :| 0 <= i < |f.rows| && f.rows[i] == row;
        assert forall j :: 0 <= j < |ks| ==> CellAt(row, ks[j]) != Blank;
        assert row in rows;
      }
      if row in rows {
        var i :| 0 <= i < |f.rows| && f.rows[i] == row && forall j :: 0 <= j < |ks| ==> CellAt(row, ks[j]) != Blank;
        assert forall j :: 0 <= j < |names| ==> CellAt(row, IndexOf(f.cols, names[j])) != Blank by {
          forall j | 0 <= j < |names| ensures CellAt(row, IndexOf(f.cols, names[j])) != Blank {
            assert ks[j] == IndexOf(f.cols, names[j]);
          }
        }
      }
    }
    Frame(f.cols, rows)
  }

  // ---------------------------------------------------------------------
  // pandas.merge(left, right, on=key, how="left")
  // ---------------------------------------------------------------------

  /** A column name with its merge suffix when the other side has it too. */
  function Suffixed(cols: seq<string>, other: seq<string>, key: string, suffix: string): (r: seq<string>)
    ensures |r| == |cols|
    ensures forall i :: 0 <= i < |cols| ==>
      r[i] == (if cols[i] != key && cols[i] in other then cols[i] + suffix else cols[i])
  {
    seq(|cols|, i requires 0 <= i < |cols| =>
      if cols[i] != key && cols[i] in other then cols[i] + suffix else cols[i])
  }

  function RemoveAt<T>(s: seq<T>, k: nat): (r: seq<T>)
    requires k < |s|
    ensures |r| == |s| - 1
  {
    s[..k] + s[k + 1..]
  }

  /** Header of a left merge: the left columns, then the right columns
      without the key; names on both sides get `_x` / `_y`. */
  function MergedColumns(lc: seq<string>, rc: seq<string>, key: string): seq<string>
    requires key in rc
  {
    var rest := RemoveAt(rc, IndexOf(rc, key));
    Suffixed(lc, rest, key, "_x") + Suffixed(rest, lc, key, "_y")
  }

  /** The right rows whose key cell equals `k` (NaN keys match NaN keys). */
  function Matching(k: Cell, rrows: seq<seq<Cell>>, kr: nat): (m: seq<seq<Cell>>)
    ensures |m| <= |rrows|
    ensures forall row :: row in m <==> row in rrows && CellAt(row, kr) == k
  {
    if rrows == [] then []
    else
      var rest := Matching(k, rrows[1..], kr);
      assert forall row :: row in rrows <==> row == rrows[0] || row in rrows[1..];
      if CellAt(rrows[0], kr) == k then [rrows[0]] + rest else rest
  }

  /** The merged rows contributed by one left row. */
  function MatchRows(lrow: seq<Cell>, rrows: seq<seq<Cell>>, kl: nat, kr: nat, width: nat): (out: seq<seq<Cell>>)
    requires kl < |lrow| && forall i :: 0 <= i < |rrows| ==> kr < |rrows[i]| == width + 1
    ensures |out| >= 1
    ensures forall j :: 0 <= j < |out| ==> |out[j]| == |lrow| + width && out[j][..|lrow|] == lrow
  {
    var m := Matching(lrow[kl], rrows, kr);
    forall j | 0 <= j < |m| ensures kr < |m[j]| == width + 1 {
      assert m[j] in m;
      var i :| 0 <= i < |rrows| && rrows[i] == m[j];
    }
    if m == [] then [lrow + Blanks(width)]
    else seq(|m|, j requires 0 <= j < |m| => lrow + RemoveAt(m[j], kr))
  }

  function LeftRows(lrows: seq<seq<Cell>>, rrows: seq<seq<Cell>>, kl: nat, kr: nat, lw: nat, width: nat): (out: seq<seq<Cell>>)
    requires forall i :: 0 <= i < |lrows| ==> kl < |lrows[i]| == lw
    requires forall i :: 0 <= i < |rrows| ==> kr < |rrows[i]| == width + 1
    ensures |out| >= |lrows|
    ensures forall j :: 0 <= j < |out| ==> |out[j]| == lw + width
  {
    if lrows == [] then []
    else MatchRows(lrows[0], rrows, kl, kr, width) + LeftRows(lrows[1..], rrows, kl, kr, lw, width)
  }

  /** `left.merge(right, on=key, how="left")`: a KeyError when either side
      lacks the key, an error when the suffixes still leave two columns with
      one name (a frame here cannot hold a repeated name), otherwise every
      left row in order, once per matching right row or once with missing
      right-hand cells. */
  function MergeLeft(l: Frame, r: Frame, key: string): (res: Result<Frame>)
    requires WellFormed(l) && WellFormed(r)
    ensures res.Ok? ==> WellFormed(res.value) && |res.value.rows| >= |l.rows|
    ensures res.Ok? ==> key in l.cols && key in r.cols && res.value.cols == MergedColumns(l.cols, r.cols, key)
    ensures (key !in l.cols || key !in r.cols) ==> res.Err?
  {
    if key !in l.cols || key !in r.cols then Err("KeyError: merge key missing")
    else
      var cols := MergedColumns(l.cols, r.cols, key);
      if !Distinct(cols) then Err(DUPLICATE_COLUMNS)
      else
        var kl := IndexOf(l.cols, key);
        var kr := IndexOf(r.cols, key);
        Ok(Frame(cols, LeftRows(l.rows, r.rows, kl, kr, |l.cols|, |r.cols| - 1)))
  }

  /** No two right rows share a key cell. */
  predicate UniqueKeys(rows: seq<seq<Cell>>, k: nat) {
    forall i, j :: 0 <= i < j < |rows| ==> CellAt(rows[i], k) != CellAt(rows[j], k)
  }

  lemma {:induction false} MatchingUnique(k: Cell, rrows: seq<seq<Cell>>, kr: nat)
    requires UniqueKeys(rrows, kr)
    ensures |Matching(k, rrows, kr)| <= 1
  {
    if rrows != [] {
      assert UniqueKeys(rrows[1..], kr) by {
        forall i, j | 0 <= i < j < |rrows[1..]| ensures CellAt(rrows[1..][i], kr) != CellAt(rrows[1..][j], kr) {
          assert rrows[1..][i] == rrows[i + 1] && rrows[1..][j] == rrows[j + 1];
        }
      }
      MatchingUnique(k, rrows[1..], kr);
      if CellAt(rrows[0], kr) == k {
        forall row | row in rrows[1..] ensures CellAt(row, kr) != k {
          var j :| 0 <= j < |rrows[1..]| && rrows[1..][j] == row;
          assert rrows[j + 1] == row;
        }
        MatchingNone(k, rrows[1..], kr);
      }
    }
  }

  lemma MatchingNone(k: Cell, rrows: seq<seq<Cell>>, kr: nat)
    requires forall row :: row in rrows ==> CellAt(row, kr) != k
    ensures Matching(k, rrows, kr) == []
  {
  }

  /** With unique keys on the right, a left merge keeps every left row
      exactly once and in order. */
  lemma {:induction false} LeftRowsUnique(lrows: seq<seq<Cell>>, rrows: seq<seq<Cell>>, kl: nat, kr: nat, lw: nat, width: nat)
    requires forall i :: 0 <= i < |lrows| ==> kl < |lrows[i]| == lw
    requires forall i :: 0 <= i < |rrows| ==> kr < |rrows[i]| == width + 1
    requires UniqueKeys(rrows, kr)
    ensures |LeftRows(lrows, rrows, kl, kr, lw, width)| == |lrows|
    ensures forall i :: 0 <= i < |lrows| ==> LeftRows(lrows, rrows, kl, kr, lw, width)[i][..lw] == lrows[i]
  {
    if lrows != [] {
      MatchRowsSingle(lrows[0], rrows, kl, kr, width);
      LeftRowsUnique(lrows[1..], rrows, kl, kr, lw, width);
      var head := MatchRows(lrows[0], rrows, kl, kr, width);
      var rest := LeftRows(lrows[1..], rrows, kl, kr, lw, width);
      var out := LeftRows(lrows, rrows, kl, kr, lw, width);
      assert out == head + rest;
      forall i | 0 <= i < |lrows| ensures out[i][..lw] == lrows[i] {
        if i > 0 {
          assert out[i] == rest[i - 1];
          assert lrows[1..][i - 1] == lrows[i];
        } else {
          assert out[0] == head[0];
        }
      }
    }
  }

  /** With unique right keys a left row yields exactly one merged row. */
  lemma MatchRowsSingle(lrow: seq<Cell>, rrows: seq<seq<Cell>>, kl: nat, kr: nat, width: nat)
    requires kl < |lrow| && forall i :: 0 <= i < |rrows| ==> kr < |rrows[i]| == width + 1
    requires UniqueKeys(rrows, kr)
    ensures |MatchRows(lrow, rrows, kl, kr, width)| == 1
  {
    MatchingUnique(lrow[kl], rrows, kr);
  }

  /** A row of a left merge built from left row `lrow`: the left row, then
      the non-key cells of a right row with the same key, or missing cells
      when no right row has that key. */
  predicate MergedFrom(row: seq<Cell>, lrow: seq<Cell>, rrows: seq<seq<Cell>>, kl: nat, kr: nat, width: nat)
    requires kl < |lrow|
  {
    || (exists m :: m in rrows && kr < |m| && CellAt(m, kr) == lrow[kl] && row == lrow + RemoveAt(m, kr))
    || ((forall m :: m in rrows ==> CellAt(m, kr) != lrow[kl]) && row == lrow + Blanks(width))
  }

  /** `pos` places the rows of `small`, in order, at rows of `big` whose
      first `w` cells are theirs. */
  predicate PrefixesAt(small: seq<seq<Cell>>, big: seq<seq<Cell>>, w: nat, pos: seq<nat>) {
    && |pos| == |small|
    && (forall i, j :: 0 <= i < j < |pos| ==> pos[i] < pos[j])
    && (forall i :: 0 <= i < |pos| ==>
          pos[i] < |big| && w <= |small[i]| && w <= |big[pos[i]]| && big[pos[i]][..w] == small[i][..w])
  }

  /** Every row of `small` survives, in order, as the start of a row of
      `big`. */
  ghost predicate PrefixesInOrder(small: seq<seq<Cell>>, big: seq<seq<Cell>>, w: nat) {
    exists pos :: PrefixesAt(small, big, w, pos)
  }

  /** Rows kept in order through two steps are kept in order through both. */
  lemma PrefixesCompose(a: seq<seq<Cell>>, b: seq<seq<Cell>>, c: seq<seq<Cell>>, w1: nat, w2: nat)
    requires PrefixesInOrder(a, b, w1) && PrefixesInOrder(b, c, w2) && w1 <= w2
    ensures PrefixesInOrder(a, c, w1)
  {
    var p1 :| PrefixesAt(a, b, w1, p1);
    var p2 :| PrefixesAt(b, c, w2, p2);
    var p := seq(|p1|, i requires 0 <= i < |p1| => p2[p1[i]]);
    forall i | 0 <= i < |p|
      ensures p[i] < |c| && w1 <= |a[i]| && w1 <= |c[p[i]]| && c[p[i]][..w1] == a[i][..w1]
    {
      var k := p1[i];
      assert c[p2[k]][..w2] == b[k][..w2];
      assert c[p2[k]][..w1] == c[p2[k]][..w2][..w1];
      assert b[k][..w1] == b[k][..w2][..w1];
    }
    forall i, j | 0 <= i < j < |p| ensures p[i] < p[j] {
      assert p1[i] < p1[j];
    }
    assert PrefixesAt(a, c, w1, p);
  }

  /** Rows kept with their first `w` cells keep any shorter start too. */
  lemma PrefixesWeaken(a: seq<seq<Cell>>, b: seq<seq<Cell>>, w: nat, v: nat)
    requires PrefixesInOrder(a, b, w) && v <= w
    ensures PrefixesInOrder(a, b, v)
  {
    var p :| PrefixesAt(a, b, w, p);
    forall i | 0 <= i < |p| ensures b[p[i]][..v] == a[i][..v] {
      assert b[p[i]][..v] == b[p[i]][..w][..v];
      assert a[i][..v] == a[i][..w][..v];
    }
    assert PrefixesAt(a, b, v, p);
  }

  /** The merged rows of one left row are built from it, and every right
      row with its key contributes one. */
  lemma MatchRowsSpec(lrow: seq<Cell>, rrows: seq<seq<Cell>>, kl: nat, kr: nat, width: nat)
    requires kl < |lrow| && forall i :: 0 <= i < |rrows| ==> kr < |rrows[i]| == width + 1
    ensures forall row :: row in MatchRows(lrow, rrows, kl, kr, width) ==> MergedFrom(row, lrow, rrows, kl, kr, width)
    ensures forall j :: 0 <= j < |rrows| && CellAt(rrows[j], kr) == lrow[kl] ==>
      lrow + RemoveAt(rrows[j], kr) in MatchRows(lrow, rrows, kl, kr, width)
  {
    var m := Matching(lrow[kl], rrows, kr);
    var out := MatchRows(lrow, rrows, kl, kr, width);
    if m == [] {
      assert out == [lrow + Blanks(width)];
      forall j | 0 <= j < |rrows| ensures CellAt(rrows[j], kr) != lrow[kl] {
        assert rrows[j] in rrows;
      }
    } else {
      forall row | row in out ensures MergedFrom(row, lrow, rrows, kl, kr, width) {
        var j :| 0 <= j < |out| && out[j] == row;
        assert m[j] in m;
        var i :| 0 <= i < |rrows| && rrows[i] == m[j];
        assert row == lrow + RemoveAt(m[j], kr);
      }
      forall j | 0 <= j < |rrows| && CellAt(rrows[j], kr) == lrow[kl]
        ensures lrow + RemoveAt(rrows[j], kr) in out
      {
        assert rrows[j] in rrows;
        assert rrows[j] in m;
        var t :| 0 <= t < |m| && m[t] == rrows[j];
        assert out[t] == lrow + RemoveAt(rrows[j], kr);
      }
    }
  }

  /** Every merged row is built from some left row. */
  lemma {:induction false} LeftRowsFrom(lrows: seq<seq<Cell>>, rrows: seq<seq<Cell>>, kl: nat, kr: nat, lw: nat, width: nat)
    requires forall i :: 0 <= i < |lrows| ==> kl < |lrows[i]| == lw
    requires forall i :: 0 <= i < |rrows| ==> kr < |rrows[i]| == width + 1
    ensures forall row :: row in LeftRows(lrows, rrows, kl, kr, lw, width) ==>
      exists i :: 0 <= i < |lrows| && MergedFrom(row, lrows[i], rrows, kl, kr, width)
  {
    if lrows != [] {
      var head := MatchRows(lrows[0], rrows, kl, kr, width);
      var rest := LeftRows(lrows[1..], rrows, kl, kr, lw, width);
      MatchRowsSpec(lrows[0], rrows, kl, kr, width);
      LeftRowsFrom(lrows[1..], rrows, kl, kr, lw, width);
      forall row | row in head + rest ensures exists i :: 0 <= i < |lrows| && MergedFrom(row, lrows[i], rrows, kl, kr, width) {
        if row in head {
          assert MergedFrom(row, lrows[0], rrows, kl, kr, width);
        } else {
          var i :| 0 <= i < |lrows[1..]| && MergedFrom(row, lrows[1..][i], rrows, kl, kr, width);
          assert lrows[1..][i] == lrows[i + 1];
        }
      }
    }
  }

  /** Every pair of a left row and a right row with its key gives a merged
      row. */
  lemma {:induction false} LeftRowsComplete(lrows: seq<seq<Cell>>, rrows: seq<seq<Cell>>, kl: nat, kr: nat, lw: nat, width: nat)
    requires forall i :: 0 <= i < |lrows| ==> kl < |lrows[i]| == lw
    requires forall i :: 0 <= i < |rrows| ==> kr < |rrows[i]| == width + 1
    ensures forall i, j :: 0 <= i < |lrows| && 0 <= j < |rrows| && CellAt(rrows[j], kr) == lrows[i][kl] ==>
      lrows[i] + RemoveAt(rrows[j], kr) in LeftRows(lrows, rrows, kl, kr, lw, width)
  {
    if lrows != [] {
      var head := MatchRows(lrows[0], rrows, kl, kr, width);
      var rest := LeftRows(lrows[1..], rrows, kl, kr, lw, width);
      MatchRowsSpec(lrows[0], rrows, kl, kr, width);
      LeftRowsComplete(lrows[1..], rrows, kl, kr, lw, width);
      forall i, j | 0 <= i < |lrows| && 0 <= j < |rrows| && CellAt(rrows[j], kr) == lrows[i][kl]
        ensures lrows[i] + RemoveAt(rrows[j], kr) in head + rest
      {
        if i > 0 {
          assert lrows[1..][i - 1] == lrows[i];
        }
      }
    }
  }

  /** Where each left row's first merged row lands. */
  function LeftPositions(lrows: seq<seq<Cell>>, rrows: seq<seq<Cell>>, kl: nat, kr: nat, lw: nat, width: nat): (pos: seq<nat>)
    requires forall i :: 0 <= i < |lrows| ==> kl < |lrows[i]| == lw
    requires forall i :: 0 <= i < |rrows| ==> kr < |rrows[i]| == width + 1
    ensures |pos| == |lrows|
  {
    if lrows == [] then []
    else
      var d := |MatchRows(lrows[0], rrows, kl, kr, width)|;
      var rest := LeftPositions(lrows[1..], rrows, kl, kr, lw, width);
      [0] + seq(|rest|, i requires 0 <= i < |rest| => rest[i] + d)
  }

  /** The left rows survive in order, each as the start of its first
      merged row. */
  lemma {:induction false} LeftRowsInOrder(lrows: seq<seq<Cell>>, rrows: seq<seq<Cell>>, kl: nat, kr: nat, lw: nat, width: nat)
    requires forall i :: 0 <= i < |lrows| ==> kl < |lrows[i]| == lw
    requires forall i :: 0 <= i < |rrows| ==> kr < |rrows[i]| == width + 1
    ensures PrefixesAt(lrows, LeftRows(lrows, rrows, kl, kr, lw, width), lw, LeftPositions(lrows, rrows, kl, kr, lw, width))
  {
    if lrows != [] {
      var head := MatchRows(lrows[0], rrows, kl, kr, width);
      var rest := LeftRows(lrows[1..], rrows, kl, kr, lw, width);
      var rp := LeftPositions(lrows[1..], rrows, kl, kr, lw, width);
      var pos := LeftPositions(lrows, rrows, kl, kr, lw, width);
      var out := LeftRows(lrows, rrows, kl, kr, lw, width);
      var d := |head|;
      LeftRowsInOrder(lrows[1..], rrows, kl, kr, lw, width);
      assert out == head + rest;
      forall i | 0 <= i < |pos|
        ensures pos[i] < |out| && lw <= |lrows[i]| && lw <= |out[pos[i]]| && out[pos[i]][..lw] == lrows[i][..lw]
      {
        if i == 0 {
          assert out[0] == head[0];
        } else {
          assert pos[i] == rp[i - 1] + d;
          assert out[pos[i]] == rest[rp[i - 1]];
          assert lrows[1..][i - 1] == lrows[i];
        }
      }
      forall i, j | 0 <= i < j < |pos| ensures pos[i] < pos[j] {
        if i > 0 {
          assert rp[i - 1] < rp[j - 1];
        }
      }
    }
  }

  /** The three facts about the merged rows, on rows alone. */
  lemma LeftRowsSpec(lrows: seq<seq<Cell>>, rrows: seq<seq<Cell>>, kl: nat, kr: nat, lw: nat, width: nat)
    requires forall i :: 0 <= i < |lrows| ==> kl < |lrows[i]| == lw
    requires forall i :: 0 <= i < |rrows| ==> kr < |rrows[i]| == width + 1
    ensures var out := LeftRows(lrows, rrows, kl, kr, lw, width);
      && (forall row :: row in out ==> exists i :: 0 <= i < |lrows| && MergedFrom(row, lrows[i], rrows, kl, kr, width))
      && (forall i, j :: 0 <= i < |lrows| && 0 <= j < |rrows| && CellAt(rrows[j], kr) == lrows[i][kl] ==>
            lrows[i] + RemoveAt(rrows[j], kr) in out)
      && PrefixesInOrder(lrows, out, lw)
  {
    LeftRowsFrom(lrows, rrows, kl, kr, lw, width);
    LeftRowsComplete(lrows, rrows, kl, kr, lw, width);
    LeftRowsInOrder(lrows, rrows, kl, kr, lw, width);
  }

  /** What a left merge holds: every row is a left row followed by the
      non-key cells of a right row with its key, or by missing cells when
      none has it; every such pair is present; and the left rows survive in
      order as the starts of merged rows. */
  lemma MergeLeftSpec(l: Frame, r: Frame, key: string)
    requires WellFormed(l) && WellFormed(r) && MergeLeft(l, r, key).Ok?
    ensures var out := MergeLeft(l, r, key).value;
      var kl := IndexOf(l.cols, key);
      var kr := IndexOf(r.cols, key);
      && (forall row :: row in out.rows ==>
            exists i :: 0 <= i < |l.rows| && MergedFrom(row, l.rows[i], r.rows, kl, kr, |r.cols| - 1))
      && (forall i, j :: 0 <= i < |l.rows| && 0 <= j < |r.rows| && CellAt(r.rows[j], kr) == l.rows[i][kl] ==>
            l.rows[i] + RemoveAt(r.rows[j], kr) in out.rows)
      && PrefixesInOrder(l.rows, out.rows, |l.cols|)
  {
    var kl := IndexOf(l.cols, key);
    var kr := IndexOf(r.cols, key);
    MergeLeftRows(l, r, key);
    LeftRowsSpec(l.rows, r.rows, kl, kr, |l.cols|, |r.cols| - 1);
  }

  lemma MergeLeftRows(l: Frame, r: Frame, key: string)
    requires WellFormed(l) && WellFormed(r) && MergeLeft(l, r, key).Ok?
    ensures key in l.cols && key in r.cols
    ensures forall i :: 0 <= i < |l.rows| ==> IndexOf(l.cols, key) < |l.rows[i]| == |l.cols|
    ensures forall i :: 0 <= i < |r.rows| ==> IndexOf(r.cols, key) < |r.rows[i]| == |r.cols| - 1 + 1
    ensures MergeLeft(l, r, key).value.rows
      == LeftRows(l.rows, r.rows, IndexOf(l.cols, key), IndexOf(r.cols, key), |l.cols|, |r.cols| - 1)
  {
  }

  /** Writing a column outside the first `w` leaves every row's first `w`
      cells alone. */
  lemma SetColumnKeepsPrefix(f: Frame, name: string, values: seq<Cell>, w: nat)
    requires WellFormed(f) && |values| == |f.rows| && w <= |f.cols|
    requires forall i :: 0 <= i < w ==> f.cols[i] != name
    ensures forall r :: 0 <= r < |f.rows| ==>
      w <= |SetColumn(f, name, values).rows[r]| && SetColumn(f, name, values).rows[r][..w] == f.rows[r][..w]
    ensures PrefixesInOrder(f.rows, SetColumn(f, name, values).rows, w)
    ensures PrefixesFrom(f.rows, SetColumn(f, name, values).rows, w)
  {
    var g := SetColumn(f, name, values);
    var pos := seq(|f.rows|, r requires 0 <= r < |f.rows| => r);
    forall r | 0 <= r < |f.rows| ensures w <= |g.rows[r]| && g.rows[r][..w] == f.rows[r][..w] {
      forall i | 0 <= i < w ensures g.rows[r][i] == f.rows[r][i] {
        var c := f.cols[i];
        assert c in f.cols;
        IndexOfDistinct(f.cols, i);
        assert g.cols[i] == c;
        IndexOfDistinct(g.cols, i);
        assert Get(g, r, c) == Get(f, r, c);
      }
    }
    assert PrefixesAt(f.rows, g.rows, w, pos);
    forall r | 0 <= r < |g.rows|
      ensures exists i :: 0 <= i < |f.rows| && w <= |f.rows[i]| && g.rows[r][..w] == f.rows[i][..w]
    {
      assert w <= |f.rows[r]| && g.rows[r][..w] == f.rows[r][..w];
    }
  }

  /** Every row of `big` starts with the first `w` cells of a row of
      `small`. */
  predicate PrefixesFrom(small: seq<seq<Cell>>, big: seq<seq<Cell>>, w: nat) {
    forall j :: 0 <= j < |big| ==>
      w <= |big[j]| && exists i :: 0 <= i < |small| && w <= |small[i]| && big[j][..w] == small[i][..w]
  }

  /** Rows drawn from rows drawn from `a` are drawn from `a`. */
  lemma PrefixesFromCompose(a: seq<seq<Cell>>, b: seq<seq<Cell>>, c: seq<seq<Cell>>, w1: nat, w2: nat)
    requires PrefixesFrom(a, b, w1) && PrefixesFrom(b, c, w2) && w1 <= w2
    ensures PrefixesFrom(a, c, w1)
  {
    forall j | 0 <= j < |c|
      ensures w1 <= |c[j]| && exists i :: 0 <= i < |a| && w1 <= |a[i]| && c[j][..w1] == a[i][..w1]
    {
      var k :| 0 <= k < |b| && w2 <= |b[k]| && c[j][..w2] == b[k][..w2];
      var i :| 0 <= i < |a| && w1 <= |a[i]| && b[k][..w1] == a[i][..w1];
      assert c[j][..w1] == c[j][..w2][..w1];
      assert b[k][..w1] == b[k][..w2][..w1];
    }
  }

  /** Rows drawn with their first `w` cells are drawn with any shorter start. */
  lemma PrefixesFromWeaken(a: seq<seq<Cell>>, b: seq<seq<Cell>>, w: nat, v: nat)
    requires PrefixesFrom(a, b, w) && v <= w
    ensures PrefixesFrom(a, b, v)
  {
    forall j | 0 <= j < |b|
      ensures v <= |b[j]| && exists i :: 0 <= i < |a| && v <= |a[i]| && b[j][..v] == a[i][..v]
    {
      var i :| 0 <= i < |a| && w <= |a[i]| && b[j][..w] == a[i][..w];
      assert b[j][..v] == b[j][..w][..v];
      assert a[i][..v] == a[i][..w][..v];
    }
  }

  /** Every row of a left merge starts with a whole left row. */
  lemma MergeLeftFrom(l: Frame, r: Frame, key: string)
    requires WellFormed(l) && WellFormed(r) && MergeLeft(l, r, key).Ok?
    ensures PrefixesFrom(l.rows, MergeLeft(l, r, key).value.rows, |l.cols|)
  {
    MergeLeftRows(l, r, key);
    LeftRowsPrefixes(l.rows, r.rows, IndexOf(l.cols, key), IndexOf(r.cols, key), |l.cols|, |r.cols| - 1);
  }

  /** Every merged row starts with a whole left row. */
  lemma LeftRowsPrefixes(lrows: seq<seq<Cell>>, rrows: seq<seq<Cell>>, kl: nat, kr: nat, lw: nat, width: nat)
    requires forall i :: 0 <= i < |lrows| ==> kl < |lrows[i]| == lw
    requires forall i :: 0 <= i < |rrows| ==> kr < |rrows[i]| == width + 1
    ensures PrefixesFrom(lrows, LeftRows(lrows, rrows, kl, kr, lw, width), lw)
  {
    var out := LeftRows(lrows, rrows, kl, kr, lw, width);
    LeftRowsFrom(lrows, rrows, kl, kr, lw, width);
    forall j | 0 <= j < |out|
      ensures lw <= |out[j]|
      ensures exists i :: 0 <= i < |lrows| && lw <= |lrows[i]| && out[j][..lw] == lrows[i][..lw]
    {
      assert out[j] in out;
      var i :| 0 <= i < |lrows| && MergedFrom(out[j], lrows[i], rrows, kl, kr, width);
      MergedFromStarts(out[j], lrows[i], rrows, kl, kr, width);
      assert lrows[i][..lw] == lrows[i];
    }
  }

  /** A merged row starts with its left row. */
  lemma MergedFromStarts(row: seq<Cell>, lrow: seq<Cell>, rrows: seq<seq<Cell>>, kl: nat, kr: nat, width: nat)
    requires kl < |lrow| && MergedFrom(row, lrow, rrows, kl, kr, width)
    ensures |lrow| <= |row| && row[..|lrow|] == lrow
  {
    if exists m :: m in rrows && kr < |m| && CellAt(m, kr) == lrow[kl] && row == lrow + RemoveAt(m, kr) {
      var m :| m in rrows && kr < |m| && CellAt(m, kr) == lrow[kl] && row == lrow + RemoveAt(m, kr);
      assert row[..|lrow|] == lrow;
    } else {
      assert row[..|lrow|] == lrow;
    }
  }

  lemma MergeLeftKeepsRows(l: Frame, r: Frame, key: string)
    requires WellFormed(l) && WellFormed(r)
    requires MergeLeft(l, r, key).Ok?
    requires UniqueKeys(r.rows, IndexOf(r.cols, key))
    ensures |MergeLeft(l, r, key).value.rows| == |l.rows|
    ensures forall i :: 0 <= i < |l.rows| ==> MergeLeft(l, r, key).value.rows[i][..|l.cols|] == l.rows[i]
  {
    LeftRowsUnique(l.rows, r.rows, IndexOf(l.cols, key), IndexOf(r.cols, key), |l.cols|, |r.cols| - 1);
  }

  // ---------------------------------------------------------------------
  // sort_values("year").groupby(key).tail(1)
  // ---------------------------------------------------------------------

  /** `sort_values` order on a numeric column: numbers ascending, missing
      values last. */
  predicate CellLe(a: Cell, b: Cell) {
    if a.Num? && b.Num? then a.x <= b.x else !a.Num? ==> !b.Num?
  }

  function RowLe(y: nat): (le: (seq<Cell>, seq<Cell>) -> bool) {
    (a: seq<Cell>, b: seq<Cell>) => CellLe(CellAt(a, y), CellAt(b, y))
  }

  lemma RowLeIsTotalPreorder(y: nat)
    ensures Order.IsTotalPreorder(RowLe(y))
  {
  }

  /** Row `i` is the last row of its group: no later row has its key. */
  predicate LastOfKey(rows: seq<seq<Cell>>, k: nat, i: nat)
    requires i < |rows|
  {
    forall j :: i < j < |rows| ==> CellAt(rows[j], k) != CellAt(rows[i], k)
  }

  /** `groupby(k).tail(1)`: each group's last row, in frame order; rows with
      a missing key belong to no group. */
  function TailRows(rows: seq<seq<Cell>>, k: nat, from: nat): (out: seq<seq<Cell>>)
    requires from <= |rows|
    ensures forall row :: row in out <==>
      exists i :: from <= i < |rows| && rows[i] == row && CellAt(row, k) != Blank && LastOfKey(rows, k, i)
    decreases |rows| - from
  {
    if from == |rows| then []
    else
      var rest := TailRows(rows, k, from + 1);
      if CellAt(rows[from], k) != Blank && LastOfKey(rows, k, from) then [rows[from]] + rest else rest
  }

  /** No two kept rows share a key. */
  lemma {:induction false} TailRowsUnique(rows: seq<seq<Cell>>, k: nat, from: nat)
    requires from <= |rows|
    ensures UniqueKeys(TailRows(rows, k, from), k)
    decreases |rows| - from
  {
    if from < |rows| {
      TailRowsUnique(rows, k, from + 1);
      var rest := TailRows(rows, k, from + 1);
      if CellAt(rows[from], k) != Blank && LastOfKey(rows, k, from) {
        LaterKeysDiffer(rows, k, from);
        ConsUnique(rows[from], rest, k);
      }
    }
  }

  /** A row whose key no row of a key-unique list has keeps it key-unique
      when put in front. */
  lemma ConsUnique(x: seq<Cell>, rest: seq<seq<Cell>>, k: nat)
    requires UniqueKeys(rest, k)
    requires forall row :: row in rest ==> CellAt(row, k) != CellAt(x, k)
    ensures UniqueKeys([x] + rest, k)
  {
    var out := [x] + rest;
    forall a, b | 0 <= a < b < |out| ensures CellAt(out[a], k) != CellAt(out[b], k) {
      if a > 0 {
        assert out[a] == rest[a - 1] && out[b] == rest[b - 1];
      } else {
        assert out[b] == rest[b - 1] && rest[b - 1] in rest;
      }
    }
  }

  /** The rows kept after the last row of a group have other keys. */
  lemma LaterKeysDiffer(rows: seq<seq<Cell>>, k: nat, from: nat)
    requires from < |rows| && LastOfKey(rows, k, from)
    ensures forall row :: row in TailRows(rows, k, from + 1) ==> CellAt(row, k) != CellAt(rows[from], k)
  {
    forall row | row in TailRows(rows, k, from + 1) ensures CellAt(row, k) != CellAt(rows[from], k) {
      var i :| from + 1 <= i < |rows| && rows[i] == row && CellAt(row, k) != Blank && LastOfKey(rows, k, i);
      assert CellAt(rows[i], k) != CellAt(rows[from], k);
    }
  }

  /** The latest row per key: sort by year (missing years last), then keep
      each key's last row. */
  function LatestPerKey(f: Frame, key: string, year: string): (g: Frame)
    requires WellFormed(f) && key in f.cols && year in f.cols
    ensures WellFormed(g) && g.cols == f.cols
  {
    var sorted := Order.Sort(f.rows, RowLe(IndexOf(f.cols, year)));
    Order.SortProps(f.rows, RowLe(IndexOf(f.cols, year)));
    RowLeIsTotalPreorder(IndexOf(f.cols, year));
    var out := TailRows(sorted, IndexOf(f.cols, key), 0);
    assert forall r :: 0 <= r < |out| ==> |out[r]| == |f.cols| by {
      forall r | 0 <= r < |out| ensures |out[r]| == |f.cols| {
        assert out[r] in out;
        assert out[r] in multiset(sorted);
      }
    }
    Frame(f.cols, out)
  }

  /** After the selection, each key present in the frame keeps exactly one
      row, and that row carries the largest year of its key. */
  lemma LatestPerKeySpec(f: Frame, key: string, year: string)
    requires WellFormed(f) && key in f.cols && year in f.cols
    ensures var g := LatestPerKey(f, key, year);
      var k := IndexOf(f.cols, key);
      var y := IndexOf(f.cols, year);
      && (forall row :: row in g.rows ==> row in f.rows && row[k] != Blank)
      && UniqueKeys(g.rows, k)
      && (forall row :: row in f.rows && row[k] != Blank ==>
            exists out :: out in g.rows && out[k] == row[k] && CellLe(row[y], out[y]))
  {
    var k := IndexOf(f.cols, key);
    var y := IndexOf(f.cols, year);
    var sorted := Order.Sort(f.rows, RowLe(y));
    Order.SortProps(f.rows, RowLe(y));
    RowLeIsTotalPreorder(y);
    assert LatestPerKey(f, key, year).rows == TailRows(sorted, k, 0);
    TailRowsFrom(f.rows, sorted, k);
    TailRowsUnique(sorted, k, 0);
    TailRowsLatest(f.rows, sorted, k, y);
  }

  /** The kept rows are rows of the frame with a key. */
  lemma TailRowsFrom(rows: seq<seq<Cell>>, sorted: seq<seq<Cell>>, k: nat)
    requires multiset(sorted) == multiset(rows)
    requires forall i :: 0 <= i < |rows| ==> k < |rows[i]|
    ensures forall row :: row in TailRows(sorted, k, 0) ==> row in rows && row[k] != Blank
  {
    forall row | row in TailRows(sorted, k, 0) ensures row in rows && row[k] != Blank {
      var i :| 0 <= i < |sorted| && sorted[i] == row && CellAt(row, k) != Blank && LastOfKey(sorted, k, i);
      assert row in multiset(sorted);
    }
  }

  /** Every keyed row has a kept row with its key and a year at least as
      large. */
  lemma TailRowsLatest(rows: seq<seq<Cell>>, sorted: seq<seq<Cell>>, k: nat, y: nat)
    requires multiset(sorted) == multiset(rows) && Order.SortedBy(sorted, RowLe(y))
    requires forall i :: 0 <= i < |rows| ==> k < |rows[i]| && y < |rows[i]|
    ensures forall row :: row in rows && row[k] != Blank ==>
      exists out :: out in TailRows(sorted, k, 0) && k < |out| && y < |out| && out[k] == row[k] && CellLe(row[y], out[y])
  {
    forall row | row in rows && row[k] != Blank
      ensures exists out :: out in TailRows(sorted, k, 0) && k < |out| && y < |out| && out[k] == row[k] && CellLe(row[y], out[y])
    {
      assert row in multiset(sorted);
      var i :| 0 <= i < |sorted| && sorted[i] == row;
      var last := LastIndex(sorted, k, i);
      assert sorted[last] in TailRows(sorted, k, 0);
      if i < last {
        assert RowLe(y)(sorted[i], sorted[last]);
      }
      assert sorted[last] in multiset(sorted);
    }
  }

  /** The last row at or after `i` with the same key as row `i`. */
  function LastIndex(rows: seq<seq<Cell>>, k: nat, i: nat): (last: nat)
    requires i < |rows|
    ensures i <= last < |rows| && CellAt(rows[last], k) == CellAt(rows[i], k) && LastOfKey(rows, k, last)
    decreases |rows| - i
  {
    if LastOfKey(rows, k, i) then i
    else
      var j :| i < j < |rows| && CellAt(rows[j], k) == CellAt(rows[i], k);
      LastIndex(rows, k, j)
  }
}
