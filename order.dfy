/** Orderings used by the pipeline's group-by and sort steps: Python's
    lexicographic string comparison, the sorted list of distinct group keys
    that `DataFrame.groupby` (sort=True) produces, and a stable insertion sort
    standing in for `sort_values`. */
module Order {

  /** `a < b` on Python strings: lexicographic by code point. */
  predicate StrLess(a: string, b: string)
    decreases |a|
  {
    if |a| == 0 then |b| > 0
    else if |b| == 0 then false
    else if a[0] != b[0] then a[0] < b[0]
    else StrLess(a[1..], b[1..])
  }

  lemma {:induction false} StrLessIrreflexive(a: string)
    ensures !StrLess(a, a)
    decreases |a|
  {
    if |a| > 0 {
      StrLessIrreflexive(a[1..]);
    }
  }

  lemma {:induction false} StrLessTransitive(a: string, b: string, c: string)
    requires StrLess(a, b) && StrLess(b, c)
    ensures StrLess(a, c)
    decreases |a|
  {
    if |a| > 0 && |b| > 0 && |c| > 0 && a[0] == b[0] && b[0] == c[0] {
      StrLessTransitive(a[1..], b[1..], c[1..]);
    }
  }

  lemma {:induction false} StrLessTotal(a: string, b: string)
    ensures a == b || StrLess(a, b) || StrLess(b, a)
    decreases |a|
  {
    if |a| > 0 && |b| > 0 && a[0] == b[0] {
      StrLessTotal(a[1..], b[1..]);
      if a[1..] == b[1..] {
        assert a == [a[0]] + a[1..] && b == [b[0]] + b[1..];
      }
    }
  }

  /** `lt` is a strict total order: irreflexive, transitive and total. */
  ghost predicate IsStrictTotal<K(!new)>(lt: (K, K) -> bool) {
    && (forall a :: !lt(a, a))
    && (forall a, b, c :: lt(a, b) && lt(b, c) ==> lt(a, c))
    && (forall a, b :: a == b || lt(a, b) || lt(b, a))
  }

  lemma StrLessIsStrictTotal()
    ensures IsStrictTotal(StrLess)
  {
    forall a: string ensures !StrLess(a, a) {
      StrLessIrreflexive(a);
    }
    forall a: string, b: string, c: string | StrLess(a, b) && StrLess(b, c)
      ensures StrLess(a, c)
    {
      StrLessTransitive(a, b, c);
    }
    forall a: string, b: string ensures a == b || StrLess(a, b) || StrLess(b, a) {
      StrLessTotal(a, b);
    }
  }

  ghost predicate StrictlySorted<K>(s: seq<K>, lt: (K, K) -> bool) {
    forall i, j :: 0 <= i < j < |s| ==> lt(s[i], s[j])
  }

  /** Adds `k` to a strictly sorted key list unless it is already there. */
  function InsertKey<K(==)>(s: seq<K>, k: K, lt: (K, K) -> bool): seq<K> {
    if s == [] then [k]
    else if k == s[0] then s
    else if lt(k, s[0]) then [k] + s
    else [s[0]] + InsertKey(s[1..], k, lt)
  }

  lemma {:induction false} InsertKeyProps<K(!new)>(s: seq<K>, k: K, lt: (K, K) -> bool)
    requires IsStrictTotal(lt) && StrictlySorted(s, lt)
    ensures StrictlySorted(InsertKey(s, k, lt), lt)
    ensures forall x :: x in InsertKey(s, k, lt) <==> x in s || x == k
  {
    if s != [] && k != s[0] && !lt(k, s[0]) {
      InsertKeyProps(s[1..], k, lt);
      var r := InsertKey(s[1..], k, lt);
      assert forall x :: x in r ==> lt(s[0], x) by {
        forall x | x in r ensures lt(s[0], x) {
          if x != k {
            var j :| 0 <= j < |s[1..]| && s[1..][j] == x;
            assert s[j + 1] == x;
          }
        }
      }
    }
  }

  /** The distinct keys of `ks`, ascending: the groups of a sorted group-by. */
  function SortedKeys<K(==)>(ks: seq<K>, lt: (K, K) -> bool): seq<K> {
    if ks == [] then [] else InsertKey(SortedKeys(ks[..|ks| - 1], lt), ks[|ks| - 1], lt)
  }

  lemma {:induction false} SortedKeysProps<K(!new)>(ks: seq<K>, lt: (K, K) -> bool)
    requires IsStrictTotal(lt)
    ensures StrictlySorted(SortedKeys(ks, lt), lt)
    ensures forall x :: x in SortedKeys(ks, lt) <==> x in ks
  {
    if ks != [] {
      var init := ks[..|ks| - 1];
      SortedKeysProps(init, lt);
      InsertKeyProps(SortedKeys(init, lt), ks[|ks| - 1], lt);
      assert ks == init + [ks[|ks| - 1]];
    }
  }

  lemma {:induction false} InsertKeyLength<K>(s: seq<K>, k: K, lt: (K, K) -> bool)
    ensures |s| <= |InsertKey(s, k, lt)| <= |s| + 1
  {
    if s != [] && k != s[0] && !lt(k, s[0]) {
      InsertKeyLength(s[1..], k, lt);
    }
  }

  /** There are at least one and at most `|ks|` distinct keys in a non-empty
      `ks`. */
  lemma {:induction false} SortedKeysLength<K>(ks: seq<K>, lt: (K, K) -> bool)
    ensures |SortedKeys(ks, lt)| <= |ks|
    ensures |ks| > 0 ==> |SortedKeys(ks, lt)| >= 1
  {
    if ks != [] {
      SortedKeysLength(ks[..|ks| - 1], lt);
      InsertKeyLength(SortedKeys(ks[..|ks| - 1], lt), ks[|ks| - 1], lt);
    }
  }

  /** A strictly sorted list has no repeated element. */
  lemma StrictlySortedDistinct<K(!new)>(s: seq<K>, lt: (K, K) -> bool, i: nat, j: nat)
    requires IsStrictTotal(lt) && StrictlySorted(s, lt)
    requires i < |s| && j < |s| && i != j
    ensures s[i] != s[j]
  {
    if i < j {
      assert lt(s[i], s[j]);
    } else {
      assert lt(s[j], s[i]);
    }
  }

  /** A list without repeats has as many elements as its set. */
  lemma {:induction false} DistinctCard<K>(s: seq<K>)
    requires forall i, j :: 0 <= i < j < |s| ==> s[i] != s[j]
    ensures |set x | x in s| == |s|
  {
    if s != [] {
      DistinctCard(s[1..]);
      assert (set x | x in s) == {s[0]} + (set x | x in s[1..]);
      assert s[0] !in s[1..];
    }
  }

  /** The sorted distinct keys count the distinct keys of the input. */
  lemma SortedKeysCount<K(!new)>(ks: seq<K>, lt: (K, K) -> bool)
    requires IsStrictTotal(lt)
    ensures |SortedKeys(ks, lt)| == |set x | x in ks|
  {
    var sk := SortedKeys(ks, lt);
    SortedKeysProps(ks, lt);
    forall i, j | 0 <= i < j < |sk| ensures sk[i] != sk[j] {
      StrictlySortedDistinct(sk, lt, i, j);
    }
    DistinctCard(sk);
    assert (set x | x in sk) == (set x | x in ks);
  }

  /** `le` is a total preorder: total and transitive (ties allowed). */
  ghost predicate IsTotalPreorder<T(!new)>(le: (T, T) -> bool) {
    && (forall a, b :: le(a, b) || le(b, a))
    && (forall a, b, c :: le(a, b) && le(b, c) ==> le(a, c))
  }

  ghost predicate SortedBy<T>(s: seq<T>, le: (T, T) -> bool) {
    forall i, j :: 0 <= i < j < |s| ==> le(s[i], s[j])
  }

  function Insert<T>(x: T, s: seq<T>, le: (T, T) -> bool): seq<T> {
    if s == [] then [x]
    else if le(x, s[0]) then [x] + s
    else [s[0]] + Insert(x, s[1..], le)
  }

  lemma {:induction false} InsertMultiset<T>(x: T, s: seq<T>, le: (T, T) -> bool)
    ensures multiset(Insert(x, s, le)) == multiset(s) + multiset{x}
  {
    if s != [] && !le(x, s[0]) {
      InsertMultiset(x, s[1..], le);
      assert s == [s[0]] + s[1..];
    }
  }

  lemma {:induction false} InsertProps<T(!new)>(x: T, s: seq<T>, le: (T, T) -> bool)
    requires IsTotalPreorder(le) && SortedBy(s, le)
    ensures SortedBy(Insert(x, s, le), le)
    ensures multiset(Insert(x, s, le)) == multiset(s) + multiset{x}
  {
    InsertMultiset(x, s, le);
    if s == [] {
    } else if le(x, s[0]) {
      forall k | 0 <= k < |s| ensures le(x, s[k]) {
        if k > 0 {
          assert le(s[0], s[k]);
        }
      }
      ConsSorted(x, s, le);
    } else {
      var t := s[1..];
      assert SortedBy(t, le) by {
        forall i, j | 0 <= i < j < |t| ensures le(t[i], t[j]) {
          assert t[i] == s[i + 1] && t[j] == s[j + 1];
        }
      }
      InsertProps(x, t, le);
      InsertAbove(x, s, le);
      ConsSorted(s[0], Insert(x, t, le), le);
    }
  }

  /** An element below every element of a sorted list can go in front. */
  lemma ConsSorted<T>(h: T, r: seq<T>, le: (T, T) -> bool)
    requires SortedBy(r, le) && forall k :: 0 <= k < |r| ==> le(h, r[k])
    ensures SortedBy([h] + r, le)
  {
    var out := [h] + r;
    forall i, j | 0 <= i < j < |out| ensures le(out[i], out[j]) {
      if i > 0 {
        assert out[i] == r[i - 1] && out[j] == r[j - 1];
      } else {
        assert out[j] == r[j - 1];
      }
    }
  }

  /** When `x` goes after the head, the head is below everything in the
      insertion into the tail. */
  lemma InsertAbove<T(!new)>(x: T, s: seq<T>, le: (T, T) -> bool)
    requires IsTotalPreorder(le) && SortedBy(s, le) && s != [] && !le(x, s[0])
    requires multiset(Insert(x, s[1..], le)) == multiset(s[1..]) + multiset{x}
    ensures forall k :: 0 <= k < |Insert(x, s[1..], le)| ==> le(s[0], Insert(x, s[1..], le)[k])
  {
    var t := s[1..];
    var r := Insert(x, t, le);
    assert le(s[0], x);
    forall k | 0 <= k < |r| ensures le(s[0], r[k]) {
      assert r[k] in multiset(r);
      if r[k] != x {
        assert r[k] in multiset(t);
        var j :| 0 <= j < |t| && t[j] == r[k];
        assert s[j + 1] == r[k];
      }
    }
  }

  /** Stable insertion sort; `sort_values` promises only the order and the
      permutation, which is all that is stated about it. */
  function Sort<T>(s: seq<T>, le: (T, T) -> bool): seq<T> {
    if s == [] then [] else Insert(s[0], Sort(s[1..], le), le)
  }

  lemma {:induction false} SortProps<T(!new)>(s: seq<T>, le: (T, T) -> bool)
    requires IsTotalPreorder(le)
    ensures SortedBy(Sort(s, le), le)
    ensures multiset(Sort(s, le)) == multiset(s)
  {
    if s != [] {
      SortProps(s[1..], le);
      InsertProps(s[0], Sort(s[1..], le), le);
      assert s == [s[0]] + s[1..];
    }
  }
}
