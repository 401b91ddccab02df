/** Shared vocabulary of the pipeline model: optional values (pandas NaN),
    stage failures (a raised exception), ASCII character classes and sums
    over columns of reals. */
module Common {

  /** A cell that may be missing (NaN / None in the data frames). */
  datatype Option<T> = None | Some(value: T)

  /** A stage either produces its table or raises. */
  datatype Result<T> = Ok(value: T) | Err(msg: string)

  /** `\d` and `str.isdigit`, restricted to ASCII decimal digits. */
  predicate IsDigit(c: char) {
    '0' <= c <= '9'
  }

  /** Python's `str.isdigit()`: non-empty and every character a digit. */
  predicate AllDigits(s: string) {
    |s| > 0 && forall i :: 0 <= i < |s| ==> IsDigit(s[i])
  }

  function DigitValue(c: char): (d: nat)
    requires IsDigit(c)
    ensures d < 10
  {
    (c as int) - ('0' as int)
  }

  /** `int(s)` for a string of decimal digits. */
  function ParseNat(s: string): nat
    requires forall i :: 0 <= i < |s| ==> IsDigit(s[i])
  {
    if |s| == 0 then 0 else ParseNat(s[..|s| - 1]) * 10 + DigitValue(s[|s| - 1])
  }

  /** `str.lower()` on one character, ASCII letters only. */
  function LowerChar(c: char): char {
    if 'A' <= c <= 'Z' then (c as int + 32) as char else c
  }

  function Lower(s: string): (r: string)
    ensures |r| == |s|
    ensures forall i :: 0 <= i < |s| ==> r[i] == LowerChar(s[i])
  {
    seq(|s|, i requires 0 <= i < |s| => LowerChar(s[i]))
  }

  /** Sum of a column of reals. */
  function Sum(xs: seq<real>): real {
    if xs == [] then 0.0 else xs[0] + Sum(xs[1..])
  }

  /** Arithmetic mean of a non-empty column. */
  function Mean(xs: seq<real>): real
    requires |xs| > 0
  {
    Sum(xs) / (|xs| as real)
  }

  lemma {:induction false} SumAppend(a: seq<real>, b: seq<real>)
    ensures Sum(a + b) == Sum(a) + Sum(b)
  {
    if a == [] {
      assert a + b == b;
    } else {
      assert (a + b)[1..] == a[1..] + b;
      SumAppend(a[1..], b);
    }
  }

  /** A sum of non-negative values is non-negative. */
  lemma {:induction false} SumNonNegative(xs: seq<real>)
    requires forall i :: 0 <= i < |xs| ==> xs[i] >= 0.0
    ensures Sum(xs) >= 0.0
  {
    if xs != [] {
      SumNonNegative(xs[1..]);
    }
  }

  /** A sum of non-negative values with one positive value is positive. */
  lemma {:induction false} SumPositive(xs: seq<real>, k: nat)
    requires forall i :: 0 <= i < |xs| ==> xs[i] >= 0.0
    requires k < |xs| && xs[k] > 0.0
    ensures Sum(xs) > 0.0
  {
    if k == 0 {
      SumNonNegative(xs[1..]);
    } else {
      SumPositive(xs[1..], k - 1);
    }
  }

  /** A sum of non-negative values that is zero has only zero terms. */
  lemma SumZeroAllZero(xs: seq<real>, k: nat)
    requires forall i :: 0 <= i < |xs| ==> xs[i] >= 0.0
    requires Sum(xs) == 0.0 && k < |xs|
    ensures xs[k] == 0.0
  {
    if xs[k] != 0.0 {
      SumPositive(xs, k);
    }
  }

  /** Every element of `xs`, shifted by `c`. */
  function Shift(xs: seq<real>, c: real): (r: seq<real>)
    ensures |r| == |xs|
    ensures forall i :: 0 <= i < |xs| ==> r[i] == xs[i] - c
  {
    seq(|xs|, i requires 0 <= i < |xs| => xs[i] - c)
  }

  lemma {:induction false} SumShift(xs: seq<real>, c: real)
    ensures Sum(Shift(xs, c)) == Sum(xs) - (|xs| as real) * c
  {
    if xs != [] {
      assert Shift(xs, c)[1..] == Shift(xs[1..], c);
      SumShift(xs[1..], c);
    }
  }

  /** Deviations from the mean sum to zero. */
  lemma DeviationsSumToZero(xs: seq<real>)
    requires |xs| > 0
    ensures Sum(Shift(xs, Mean(xs))) == 0.0
  {
    SumShift(xs, Mean(xs));
  }

  /** Every element of `xs`, scaled by `c`. */
  function Scale(xs: seq<real>, c: real): (r: seq<real>)
    ensures |r| == |xs|
    ensures forall i :: 0 <= i < |xs| ==> r[i] == c * xs[i]
  {
    seq(|xs|, i requires 0 <= i < |xs| => c * xs[i])
  }

  lemma {:induction false} SumScale(xs: seq<real>, c: real)
    ensures Sum(Scale(xs, c)) == c * Sum(xs)
  {
    if xs != [] {
      ScaleTail(xs, c);
      SumScale(xs[1..], c);
      Distribute(c, xs[0], Sum(xs[1..]));
    }
  }

  lemma ScaleTail(xs: seq<real>, c: real)
    requires xs != []
    ensures Scale(xs, c)[1..] == Scale(xs[1..], c)
  {
    assert forall i :: 0 <= i < |xs| - 1 ==> Scale(xs, c)[1..][i] == Scale(xs[1..], c)[i];
  }

  lemma Distribute(c: real, a: real, b: real)
    ensures c * (a + b) == c * a + c * b
  {
  }

  /** Pointwise sum of two columns of the same length. */
  function AddCols(a: seq<real>, b: seq<real>): (r: seq<real>)
    requires |a| == |b|
    ensures |r| == |a|
    ensures forall i :: 0 <= i < |a| ==> r[i] == a[i] + b[i]
  {
    seq(|a|, i requires 0 <= i < |a| => a[i] + b[i])
  }

  lemma {:induction false} SumAddCols(a: seq<real>, b: seq<real>)
    requires |a| == |b|
    ensures Sum(AddCols(a, b)) == Sum(a) + Sum(b)
  {
    if a != [] {
      assert AddCols(a, b)[1..] == AddCols(a[1..], b[1..]);
      SumAddCols(a[1..], b[1..]);
    }
  }

  /** Smallest and largest element of a non-empty column. */
  function MinOf(xs: seq<real>): (m: real)
    requires |xs| > 0
    ensures forall i :: 0 <= i < |xs| ==> m <= xs[i]
    ensures exists i :: 0 <= i < |xs| && xs[i] == m
  {
    if |xs| == 1 then xs[0]
    else
      var rest := MinOf(xs[1..]);
      assert forall i :: 1 <= i < |xs| ==> xs[i] == xs[1..][i - 1];
      if xs[0] <= rest then xs[0] else rest
  }

  function MaxOf(xs: seq<real>): (m: real)
    requires |xs| > 0
    ensures forall i :: 0 <= i < |xs| ==> xs[i] <= m
    ensures exists i :: 0 <= i < |xs| && xs[i] == m
  {
    if |xs| == 1 then xs[0]
    else
      var rest := MaxOf(xs[1..]);
      assert forall i :: 1 <= i < |xs| ==> xs[i] == xs[1..][i - 1];
      if xs[0] >= rest then xs[0] else rest
  }

  /** The values that are present, in order (pandas' skipna). */
  function Present(xs: seq<Option<real>>): (r: seq<real>)
    ensures |r| <= |xs|
  {
    if xs == [] then []
    else if xs[0].Some? then [xs[0].value] + Present(xs[1..])
    else Present(xs[1..])
  }

  /** A value is kept exactly when it occurs present in the column. */
  lemma {:induction false} PresentMembers(xs: seq<Option<real>>)
    ensures forall v :: v in Present(xs) <==> Some(v) in xs
  {
    if xs != [] {
      PresentMembers(xs[1..]);
      assert forall o :: o in xs <==> o == xs[0] || o in xs[1..];
    }
  }
}
