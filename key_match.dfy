/** Key normaliser: the three regular-expression key extractors of the
    pipeline, written out as leftmost-match scanners with Python `re.search`
    semantics (greedy `\d+`, first matching start position wins), each
    proved against a declarative description of the text it matches. */
module KeyMatch {
  import opened Common

  /** End of the maximal run of digits that starts at `i`. */
  function RunEnd(s: string, i: nat): (j: nat)
    requires i <= |s|
    ensures i <= j <= |s|
    ensures forall m :: i <= m < j ==> IsDigit(s[m])
    ensures j == |s| || !IsDigit(s[j])
    decreases |s| - i
  {
    if i < |s| && IsDigit(s[i]) then RunEnd(s, i + 1) else i
  }

  /** A digit run is determined by its start. */
  lemma RunEndIs(s: string, i: nat, j: nat)
    requires i <= j <= |s|
    requires forall m :: i <= m < j ==> IsDigit(s[m])
    requires j == |s| || !IsDigit(s[j])
    ensures RunEnd(s, i) == j
  {
  }

  // ---------------------------------------------------------------------
  // (\d+\.\d+)  — extract_numeric_id
  // ---------------------------------------------------------------------

  /** `t` is digits, a '.' at position `p`, digits (both runs non-empty). */
  predicate DotAt(t: string, p: nat) {
    && 0 < p && p + 1 < |t| && t[p] == '.'
    && (forall m :: 0 <= m < p ==> IsDigit(t[m]))
    && (forall m :: p < m < |t| ==> IsDigit(t[m]))
  }

  /** `t` is entirely matched by `\d+\.\d+`. */
  ghost predicate NumDotNum(t: string) {
    exists p: nat :: DotAt(t, p)
  }

  /** `s[a..b]` is the match `re.search(r"\d+\.\d+", s)` reports: it has
      the pattern's shape, greedy `\d+` stops only before a non-digit, and no
      earlier start position begins any text of that shape. */
  ghost predicate LeftmostNumDotNum(s: string, a: nat, b: nat) {
    && a <= b <= |s|
    && NumDotNum(s[a..b])
    && (b == |s| || !IsDigit(s[b]))
    && forall a': nat, b': nat :: 0 <= a' < a && a' <= b' <= |s| ==> !NumDotNum(s[a'..b'])
  }

  /** End of the `\d+\.\d+` match that starts at `i`, if any. */
  function NumDotNumEnd(s: string, i: nat): Option<nat>
    requires i <= |s|
  {
    if i < |s| && IsDigit(s[i]) then
      var j := RunEnd(s, i);
      if j + 1 < |s| && s[j] == '.' && IsDigit(s[j + 1]) then Some(RunEnd(s, j + 1)) else None
    else None
  }

  lemma NumDotNumEndSound(s: string, i: nat)
    requires i <= |s| && NumDotNumEnd(s, i).Some?
    ensures i <= NumDotNumEnd(s, i).value <= |s|
    ensures NumDotNum(s[i..NumDotNumEnd(s, i).value])
    ensures NumDotNumEnd(s, i).value == |s| || !IsDigit(s[NumDotNumEnd(s, i).value])
  {
    var j := RunEnd(s, i);
    var k := NumDotNumEnd(s, i).value;
    assert DotAt(s[i..k], j - i);
  }

  lemma NumDotNumEndComplete(s: string, i: nat, k: nat)
    requires i <= k <= |s| && NumDotNum(s[i..k])
    ensures NumDotNumEnd(s, i).Some?
  {
    var t := s[i..k];
    var p: nat :| DotAt(t, p);
    assert forall m :: i <= m < i + p ==> IsDigit(s[m]) by {
      forall m | i <= m < i + p ensures IsDigit(s[m]) {
        assert s[m] == t[m - i];
      }
    }
    assert s[i + p] == t[p] && s[i + p + 1] == t[p + 1];
    RunEndIs(s, i, i + p);
  }

  /** `re.search(r"(\d+\.\d+)", s[i..])`, group 1. */
  function SearchNumDotNum(s: string, i: nat): Option<string>
    requires i <= |s|
    decreases |s| - i
  {
    if i == |s| then None
    else match NumDotNumEnd(s, i)
      case Some(k) => Some(s[i..k])
      case None => SearchNumDotNum(s, i + 1)
  }

  lemma {:induction false} SearchNumDotNumSpec(s: string, i: nat)
    requires i <= |s|
    requires forall a': nat, b': nat :: 0 <= a' < i && a' <= b' <= |s| ==> !NumDotNum(s[a'..b'])
    ensures SearchNumDotNum(s, i).Some? ==>
      exists a: nat, b: nat :: LeftmostNumDotNum(s, a, b) && SearchNumDotNum(s, i).value == s[a..b]
    ensures SearchNumDotNum(s, i).None? ==>
      forall a: nat, b: nat :: 0 <= a <= b <= |s| ==> !NumDotNum(s[a..b])
    decreases |s| - i
  {
    if i == |s| {
      forall a, b | 0 <= a <= b <= |s| ensures !NumDotNum(s[a..b]) {
        if a == |s| {
          assert s[a..b] == [];
        }
      }
    } else {
      match NumDotNumEnd(s, i)
      case Some(k) =>
        NumDotNumEndSound(s, i);
        assert LeftmostNumDotNum(s, i, k);
      case None =>
        forall a', b' | 0 <= a' < i + 1 && a' <= b' <= |s| ensures !NumDotNum(s[a'..b']) {
          if a' == i && NumDotNum(s[a'..b']) {
            NumDotNumEndComplete(s, i, b');
          }
        }
        SearchNumDotNumSpec(s, i + 1);
    }
  }

  /** `extract_numeric_id`: `None` for a missing id, otherwise the first
      digits-dot-digits run of the id text. */
  function ExtractNumericId(id: Option<string>): Option<string> {
    match id
    case None => None
    case Some(s) => SearchNumDotNum(s, 0)
  }

  /** What `extract_numeric_id` returns, stated without the scanner. */
  lemma ExtractNumericIdSpec(id: Option<string>)
    ensures id.None? ==> ExtractNumericId(id) == None
    ensures id.Some? && ExtractNumericId(id).Some? ==>
      exists a: nat, b: nat :: LeftmostNumDotNum(id.value, a, b) && ExtractNumericId(id).value == id.value[a..b]
    ensures id.Some? && ExtractNumericId(id).None? ==>
      forall a: nat, b: nat :: 0 <= a <= b <= |id.value| ==> !NumDotNum(id.value[a..b])
  {
    if id.Some? {
      SearchNumDotNumSpec(id.value, 0);
    }
  }

  /** Any text `extract_numeric_id` returns has the `\d+\.\d+` shape. */
  lemma ExtractNumericIdShape(id: Option<string>)
    requires ExtractNumericId(id).Some?
    ensures NumDotNum(ExtractNumericId(id).value)
  {
    ExtractNumericIdSpec(id);
  }

  /** Start positions where no match begins can be skipped. */
  lemma {:induction false} SearchNumDotNumSkip(s: string, i: nat, j: nat)
    requires i <= j <= |s|
    requires forall m :: i <= m < j ==> NumDotNumEnd(s, m) == None
    ensures SearchNumDotNum(s, i) == SearchNumDotNum(s, j)
    decreases j - i
  {
    if i < j {
      SearchNumDotNumSkip(s, i + 1, j);
    }
  }

  /** An id laid out as `RGI` + four digits + `-v` + `<d>.<d>` + a
      non-digit: the first match is the version tag. */
  lemma {:induction false} VersionTagFirst(s: string)
    requires |s| > 12
    requires !IsDigit(s[0]) && !IsDigit(s[1]) && !IsDigit(s[2])
    requires IsDigit(s[3]) && IsDigit(s[4]) && IsDigit(s[5]) && IsDigit(s[6])
    requires s[7] == '-' && s[8] == 'v'
    requires IsDigit(s[9]) && s[10] == '.' && IsDigit(s[11]) && !IsDigit(s[12])
    ensures ExtractNumericId(Some(s)) == Some([s[9], '.', s[11]])
  {
    forall m | 3 <= m < 7 ensures RunEnd(s, m) == 7 {
      RunEndIs(s, m, 7);
    }
    forall m | 0 <= m < 9 ensures NumDotNumEnd(s, m) == None {
      if 3 <= m < 7 {
        assert RunEnd(s, m) == 7;
      }
    }
    SearchNumDotNumSkip(s, 0, 9);
    RunEndIs(s, 9, 10);
    RunEndIs(s, 11, 12);
    assert NumDotNumEnd(s, 9) == Some(12);
    assert s[9..12] == [s[9], '.', s[11]];
  }

  /** An RGI 7 identifier carries the version tag "7.0" before the glacier
      number, and the leftmost match is that tag, not "14.03456". */
  lemma ExtractNumericIdOfRgi7()
    ensures ExtractNumericId(Some("RGI2000-v7.0-G-14.03456")) == Some("7.0")
  {
    var s := "RGI2000-v7.0-G-14.03456";
    VersionTagFirst(s);
    assert s[9] == '7' && s[11] == '0';
  }

  /** The older layout in the function's own docstring fares no better. */
  lemma ExtractNumericIdOfRgi5()
    ensures ExtractNumericId(Some("RGI2000-v5.0-14.03456")) == Some("5.0")
  {
    var s := "RGI2000-v5.0-14.03456";
    VersionTagFirst(s);
    assert s[9] == '5' && s[11] == '0';
  }

  /** An id without a digits-dot-digits run, and a missing id, give no key. */
  lemma ExtractNumericIdOfMissing()
    ensures ExtractNumericId(None) == None
    ensures ExtractNumericId(Some("RGI60-15-03456")) == None
  {
    var s := "RGI60-15-03456";
    RunEndIs(s, 3, 5);
    RunEndIs(s, 4, 5);
    forall m | 6 <= m < 8 ensures RunEnd(s, m) == 8 {
      RunEndIs(s, m, 8);
    }
    forall m | 9 <= m < 14 ensures RunEnd(s, m) == 14 {
      RunEndIs(s, m, 14);
    }
    SearchNumDotNumSkip(s, 0, |s|);
  }

  // ---------------------------------------------------------------------
  // I-(\d{2})-(\d+)  — climate key, joined as "<group1>.<group2>"
  // ---------------------------------------------------------------------

  /** `t` is entirely matched by `I-\d{2}-\d+`. */
  predicate ClimateShape(t: string) {
    && |t| >= 6 && t[0] == 'I' && t[1] == '-' && IsDigit(t[2]) && IsDigit(t[3]) && t[4] == '-'
    && forall m :: 5 <= m < |t| ==> IsDigit(t[m])
  }

  ghost predicate LeftmostClimate(s: string, a: nat, b: nat) {
    && a <= b <= |s|
    && ClimateShape(s[a..b])
    && (b == |s| || !IsDigit(s[b]))
    && forall a': nat, b': nat :: 0 <= a' < a && a' <= b' <= |s| ==> !ClimateShape(s[a'..b'])
  }

  function ClimateEnd(s: string, i: nat): Option<nat>
    requires i <= |s|
  {
    if i + 6 <= |s| && s[i] == 'I' && s[i + 1] == '-' && IsDigit(s[i + 2]) && IsDigit(s[i + 3])
       && s[i + 4] == '-' && IsDigit(s[i + 5])
    then Some(RunEnd(s, i + 5))
    else None
  }

  /** `re.search(r"I-(\d{2})-(\d+)", s[i..])`: the match's span. */
  function SearchClimate(s: string, i: nat): Option<(nat, nat)>
    requires i <= |s|
    ensures SearchClimate(s, i).Some? ==>
      i <= SearchClimate(s, i).value.0 && SearchClimate(s, i).value.0 + 6 <= SearchClimate(s, i).value.1 <= |s|
    decreases |s| - i
  {
    if i == |s| then None
    else match ClimateEnd(s, i)
      case Some(k) => Some((i, k))
      case None => SearchClimate(s, i + 1)
  }

  lemma {:induction false} SearchClimateSpec(s: string, i: nat)
    requires i <= |s|
    requires forall a': nat, b': nat :: 0 <= a' < i && a' <= b' <= |s| ==> !ClimateShape(s[a'..b'])
    ensures SearchClimate(s, i).Some? ==>
      LeftmostClimate(s, SearchClimate(s, i).value.0, SearchClimate(s, i).value.1)
    ensures SearchClimate(s, i).None? ==>
      forall a: nat, b: nat :: 0 <= a <= b <= |s| ==> !ClimateShape(s[a..b])
    decreases |s| - i
  {
    if i < |s| {
      match ClimateEnd(s, i)
      case Some(k) =>
        ClimateEndSound(s, i);
      case None =>
        forall a', b' | 0 <= a' < i + 1 && a' <= b' <= |s| ensures !ClimateShape(s[a'..b']) {
          if a' == i {
            ClimateEndNone(s, i, b');
          }
        }
        SearchClimateSpec(s, i + 1);
    }
  }

  /** A match found at `i` has the climate shape and ends before a
      non-digit. */
  lemma ClimateEndSound(s: string, i: nat)
    requires i <= |s| && ClimateEnd(s, i).Some?
    ensures var k := ClimateEnd(s, i).value;
      && i <= k <= |s| && ClimateShape(s[i..k]) && (k == |s| || !IsDigit(s[k]))
  {
    var k := ClimateEnd(s, i).value;
    var t := s[i..k];
    assert t[0] == s[i] && t[1] == s[i + 1] && t[2] == s[i + 2] && t[3] == s[i + 3] && t[4] == s[i + 4];
    forall m | 5 <= m < |t| ensures IsDigit(t[m]) {
      assert t[m] == s[i + m];
    }
  }

  /** Where no match is found at `i`, no text starting at `i` has the
      shape. */
  lemma ClimateEndNone(s: string, i: nat, b: nat)
    requires i <= b <= |s| && ClimateEnd(s, i) == None
    ensures !ClimateShape(s[i..b])
  {
    var t := s[i..b];
    if |t| >= 6 {
      assert t[0] == s[i] && t[1] == s[i + 1] && t[2] == s[i + 2] && t[3] == s[i + 3];
      assert t[4] == s[i + 4] && t[5] == s[i + 5];
    }
  }

  /** The climate table's `glacier_key`: region digits, '.', glacier
      number, or `None` when the id has no `I-dd-d…` part. */
  function ClimateKey(id: Option<string>): Option<string> {
    match id
    case None => None
    case Some(s) =>
      match SearchClimate(s, 0)
      case None => None
      case Some((a, b)) => Some(s[a + 2..a + 4] + "." + s[a + 5..b])
  }

  /** The climate key is built from the leftmost `I-dd-d…` match: its two
      region digits, a dot, and the whole digit run after the second '-'. */
  lemma ClimateKeySpec(id: Option<string>)
    ensures id.None? ==> ClimateKey(id) == None
    ensures id.Some? && ClimateKey(id).Some? ==>
      exists a: nat, b: nat :: LeftmostClimate(id.value, a, b)
        && ClimateKey(id).value == id.value[a + 2..a + 4] + "." + id.value[a + 5..b]
    ensures id.Some? && ClimateKey(id).None? ==>
      forall a: nat, b: nat :: 0 <= a <= b <= |id.value| ==> !ClimateShape(id.value[a..b])
  {
    if id.Some? {
      SearchClimateSpec(id.value, 0);
    }
  }

  // ---------------------------------------------------------------------
  // (\d{2}\.\d+)  — WGMS key
  // ---------------------------------------------------------------------

  /** `t` is entirely matched by `\d{2}\.\d+`. */
  predicate WgmsShape(t: string) {
    && |t| >= 4 && IsDigit(t[0]) && IsDigit(t[1]) && t[2] == '.'
    && forall m :: 3 <= m < |t| ==> IsDigit(t[m])
  }

  ghost predicate LeftmostWgms(s: string, a: nat, b: nat) {
    && a <= b <= |s|
    && WgmsShape(s[a..b])
    && (b == |s| || !IsDigit(s[b]))
    && forall a': nat, b': nat :: 0 <= a' < a && a' <= b' <= |s| ==> !WgmsShape(s[a'..b'])
  }

  function WgmsEnd(s: string, i: nat): Option<nat>
    requires i <= |s|
  {
    if i + 4 <= |s| && IsDigit(s[i]) && IsDigit(s[i + 1]) && s[i + 2] == '.' && IsDigit(s[i + 3])
    then Some(RunEnd(s, i + 3))
    else None
  }

  /** `re.search(r"(\d{2}\.\d+)", s[i..])`, group 1. */
  function SearchWgms(s: string, i: nat): Option<string>
    requires i <= |s|
    decreases |s| - i
  {
    if i == |s| then None
    else match WgmsEnd(s, i)
      case Some(k) => Some(s[i..k])
      case None => SearchWgms(s, i + 1)
  }

  lemma {:induction false} SearchWgmsSpec(s: string, i: nat)
    requires i <= |s|
    requires forall a': nat, b': nat :: 0 <= a' < i && a' <= b' <= |s| ==> !WgmsShape(s[a'..b'])
    ensures SearchWgms(s, i).Some? ==>
      exists a: nat, b: nat :: LeftmostWgms(s, a, b) && SearchWgms(s, i).value == s[a..b]
    ensures SearchWgms(s, i).None? ==>
      forall a: nat, b: nat :: 0 <= a <= b <= |s| ==> !WgmsShape(s[a..b])
    decreases |s| - i
  {
    if i < |s| {
      match WgmsEnd(s, i)
      case Some(k) =>
        WgmsEndSound(s, i);
        assert LeftmostWgms(s, i, k);
      case None =>
        forall a', b' | 0 <= a' < i + 1 && a' <= b' <= |s| ensures !WgmsShape(s[a'..b']) {
          if a' == i {
            WgmsEndNone(s, i, b');
          }
        }
        SearchWgmsSpec(s, i + 1);
    }
  }

  /** A match found at `i` has the WGMS shape and ends before a non-digit. */
  lemma WgmsEndSound(s: string, i: nat)
    requires i <= |s| && WgmsEnd(s, i).Some?
    ensures var k := WgmsEnd(s, i).value;
      && i <= k <= |s| && WgmsShape(s[i..k]) && (k == |s| || !IsDigit(s[k]))
  {
    var k := WgmsEnd(s, i).value;
    var t := s[i..k];
    assert t[0] == s[i] && t[1] == s[i + 1] && t[2] == s[i + 2];
    forall m | 3 <= m < |t| ensures IsDigit(t[m]) {
      assert t[m] == s[i + m];
    }
  }

  /** Where no match is found at `i`, no text starting at `i` has the
      shape. */
  lemma WgmsEndNone(s: string, i: nat, b: nat)
    requires i <= b <= |s| && WgmsEnd(s, i) == None
    ensures !WgmsShape(s[i..b])
  {
    var t := s[i..b];
    if |t| >= 4 {
      assert t[0] == s[i] && t[1] == s[i + 1] && t[2] == s[i + 2] && t[3] == s[i + 3];
    }
  }

  /** The WGMS table's `glacier_key`. */
  function WgmsKey(id: string): Option<string> {
    SearchWgms(id, 0)
  }

  lemma WgmsKeySpec(id: string)
    ensures WgmsKey(id).Some? ==>
      exists a: nat, b: nat :: LeftmostWgms(id, a, b) && WgmsKey(id).value == id[a..b]
    ensures WgmsKey(id).None? ==>
      forall a: nat, b: nat :: 0 <= a <= b <= |id| ==> !WgmsShape(id[a..b])
  {
    SearchWgmsSpec(id, 0);
  }

  lemma {:induction false} SearchClimateSkip(s: string, i: nat, j: nat)
    requires i <= j <= |s|
    requires forall m :: i <= m < j ==> ClimateEnd(s, m) == None
    ensures SearchClimate(s, i) == SearchClimate(s, j)
    decreases j - i
  {
    if i < j {
      SearchClimateSkip(s, i + 1, j);
    }
  }

  lemma {:induction false} SearchWgmsSkip(s: string, i: nat, j: nat)
    requires i <= j <= |s|
    requires forall m :: i <= m < j ==> WgmsEnd(s, m) == None
    ensures SearchWgms(s, i) == SearchWgms(s, j)
    decreases j - i
  {
    if i < j {
      SearchWgmsSkip(s, i + 1, j);
    }
  }

  /** The climate key of an RGI 7 id is its region and glacier number. */
  lemma ClimateKeyExample(c: string)
    requires c == "RGI2000-v7.0-I-15-03456"
    ensures ClimateKey(Some(c)) == Some("15.03456")
  {
    ClimateMatchOfRgi7(c);
    var key := c[15..17] + "." + c[18..23];
    assert |key| == 8;
    assert key[0] == '1' && key[1] == '5' && key[2] == '.' && key[3] == '0';
    assert key[4] == '3' && key[5] == '4' && key[6] == '5' && key[7] == '6';
    assert key == "15.03456";
  }

  /** The leftmost `I-dd-d…` match of the RGI 7 id spans positions 13 to 23. */
  lemma ClimateMatchOfRgi7(c: string)
    requires c == "RGI2000-v7.0-I-15-03456"
    ensures SearchClimate(c, 0) == Some((13, 23))
  {
    NoClimateBeforeTag(c);
    SearchClimateSkip(c, 0, 13);
    RunEndIs(c, 18, 23);
    assert ClimateEnd(c, 13) == Some(23);
  }

  lemma NoClimateBeforeTag(c: string)
    requires c == "RGI2000-v7.0-I-15-03456"
    ensures forall m :: 0 <= m < 13 ==> ClimateEnd(c, m) == None
  {
    assert c[0] != 'I' && c[1] != 'I' && c[3] != '-' && c[4] != 'I' && c[5] != 'I' && c[6] != 'I';
    assert c[7] != 'I' && c[8] != 'I' && c[9] != 'I' && c[10] != 'I' && c[11] != 'I' && c[12] != 'I';
    forall m | 0 <= m < 13 ensures ClimateEnd(c, m) == None {
      if m == 2 {
        assert c[m + 1] != '-';
      } else {
        assert c[m] != 'I';
      }
    }
  }

  /** The WGMS key of an RGI 6 id is its region and glacier number. */
  lemma WgmsKeyOfRgi6()
    ensures WgmsKey("RGI60-15.03456") == Some("15.03456")
  {
    var w := "RGI60-15.03456";
    forall m | 0 <= m < 6 ensures WgmsEnd(w, m) == None {
      assert !IsDigit(w[m]) || !IsDigit(w[m + 1]) || w[m + 2] != '.';
    }
    SearchWgmsSkip(w, 0, 6);
    RunEndIs(w, 9, 14);
    assert WgmsEnd(w, 6) == Some(14);
    assert w[6..14] == "15.03456";
  }

  /** The WGMS key of the same glacier's RGI 6 id is the same text, so the
      two tables join on it. */
  lemma WgmsKeyExample()
    ensures WgmsKey("RGI60-15.03456").Some?
    ensures ClimateKey(Some("RGI2000-v7.0-I-15-03456")) == Some(WgmsKey("RGI60-15.03456").value)
  {
    ClimateKeyExample("RGI2000-v7.0-I-15-03456");
    WgmsKeyOfRgi6();
  }
}
