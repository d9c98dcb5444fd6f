/**
 * Positional shifting of one column (pandas `Series.shift`) and the joint
 * alignment of two shifted columns (`pd.concat([y, x], axis=1).dropna()`).
 * A column is a sequence of optional observations over the table's time
 * index; `None` stands for NaN.
 */
module ShiftAlign {
  import opened Optional
  import opened Numbers

  type Series<T> = seq<Option<T>>

  /** A column of m missing values. */
  function Missing<T>(m: nat): Series<T>
  {
    seq(m, _ => None)
  }

  /**
   * Shift by k positions, keeping the length: for k > 0 the first k positions
   * become missing and the tail is dropped; for k < 0 the head is dropped and
   * the last -k positions become missing.
   */
  function Shift<T>(s: Series<T>, k: int): (r: Series<T>)
    ensures |r| == |s|
    ensures forall i :: 0 <= i < |s| ==> r[i] == if 0 <= i - k < |s| then s[i - k] else None
  {
    if k >= 0 then
      if k >= |s| then Missing(|s|) else Missing(k) + s[..|s| - k]
    else
      if -k >= |s| then Missing(|s|) else s[-k..] + Missing(-k)
  }

  lemma ShiftZeroIsIdentity<T>(s: Series<T>)
    ensures Shift(s, 0) == s
  {
  }

  /** A shift at least as long as the column leaves nothing defined. */
  lemma ShiftBeyondLength<T>(s: Series<T>, k: int)
    requires Abs(k) >= |s|
    ensures Shift(s, k) == Missing(|s|)
  {
  }

  /** Shifting by k and then by -k restores every position that stayed inside the index. */
  lemma ShiftRoundTrip<T>(s: Series<T>, k: int)
    ensures |Shift(Shift(s, k), -k)| == |s|
    ensures forall i :: 0 <= i < |s| && 0 <= i + k < |s| ==> Shift(Shift(s, k), -k)[i] == s[i]
  {
  }

  /** Both columns hold a value at row i (so the row survives `dropna`). */
  predicate BothDefined<T>(y: Series<T>, x: Series<T>, i: int)
  {
    0 <= i < |y| && 0 <= i < |x| && y[i].Some? && x[i].Some?
  }

  datatype AlignedPair<T> = AlignedPair(ys: seq<T>, xs: seq<T>)

  /**
   * The rows from i on of the two columns side by side, with every row that
   * has a missing value in either column dropped. Rows past the shorter
   * column are missing in that column, as in an outer join on the index.
   */
  function AlignFrom<T>(y: Series<T>, x: Series<T>, i: nat): (r: AlignedPair<T>)
    requires i <= Min(|y|, |x|)
    ensures |r.ys| == |r.xs| <= Min(|y|, |x|) - i
    decreases Min(|y|, |x|) - i
  {
    if i == Min(|y|, |x|) then AlignedPair([], [])
    else
      var rest := AlignFrom(y, x, i + 1);
      if y[i].Some? && x[i].Some? then AlignedPair([y[i].value] + rest.ys, [x[i].value] + rest.xs)
      else rest
  }

  function Align<T>(y: Series<T>, x: Series<T>): (r: AlignedPair<T>)
    ensures |r.ys| == |r.xs| <= Min(|y|, |x|)
  {
    AlignFrom(y, x, 0)
  }

  /**
   * Reference definition of what alignment keeps: the positions from i on,
   * in increasing order, at which both columns are defined, and no others.
   */
  function KeptRowsFrom<T>(y: Series<T>, x: Series<T>, i: nat): (r: seq<nat>)
    requires i <= Min(|y|, |x|)
    ensures forall k :: 0 <= k < |r| ==> i <= r[k] && BothDefined(y, x, r[k])
    ensures forall k, l :: 0 <= k < l < |r| ==> r[k] < r[l]
    ensures forall j :: i <= j && BothDefined(y, x, j) ==> j in r
    decreases Min(|y|, |x|) - i
  {
    if i == Min(|y|, |x|) then []
    else if BothDefined(y, x, i) then [i] + KeptRowsFrom(y, x, i + 1)
    else KeptRowsFrom(y, x, i + 1)
  }

  function KeptRows<T>(y: Series<T>, x: Series<T>): seq<nat>
  {
    KeptRowsFrom(y, x, 0)
  }

  lemma {:induction false} AlignFromIsKeptRows<T>(y: Series<T>, x: Series<T>, i: nat)
    requires i <= Min(|y|, |x|)
    ensures |AlignFrom(y, x, i).ys| == |KeptRowsFrom(y, x, i)|
    ensures forall k :: 0 <= k < |KeptRowsFrom(y, x, i)| ==>
              AlignFrom(y, x, i).ys[k] == y[KeptRowsFrom(y, x, i)[k]].value &&
              AlignFrom(y, x, i).xs[k] == x[KeptRowsFrom(y, x, i)[k]].value
    decreases Min(|y|, |x|) - i
  {
    if i < Min(|y|, |x|) {
      AlignFromIsKeptRows(y, x, i + 1);
      var r, rest := AlignFrom(y, x, i), AlignFrom(y, x, i + 1);
      var kept, keptRest := KeptRowsFrom(y, x, i), KeptRowsFrom(y, x, i + 1);
      if BothDefined(y, x, i) {
        assert kept == [i] + keptRest;
        assert r.ys == [y[i].value] + rest.ys && r.xs == [x[i].value] + rest.xs;
        forall k | 0 < k < |kept|
          ensures r.ys[k] == y[kept[k]].value && r.xs[k] == x[kept[k]].value
        {
          assert kept[k] == keptRest[k - 1];
        }
      } else {
        assert kept == keptRest && r == rest;
      }
    }
  }

  /**
   * Alignment returns, in time order, exactly the values of the rows where
   * both columns are defined: a row missing in either column is gone from both.
   */
  lemma AlignSelectsJointlyDefinedRows<T>(y: Series<T>, x: Series<T>)
    ensures |Align(y, x).ys| == |Align(y, x).xs| == |KeptRows(y, x)|
    ensures forall k :: 0 <= k < |KeptRows(y, x)| ==>
              Align(y, x).ys[k] == y[KeptRows(y, x)[k]].value &&
              Align(y, x).xs[k] == x[KeptRows(y, x)[k]].value
    ensures forall j :: j in KeptRows(y, x) <==> BothDefined(y, x, j)
    ensures forall k, l :: 0 <= k < l < |KeptRows(y, x)| ==> KeptRows(y, x)[k] < KeptRows(y, x)[l]
  {
    AlignFromIsKeptRows(y, x, 0);
  }

  /** The column has no missing value. */
  predicate NoMissing<T>(s: Series<T>)
  {
    forall i :: 0 <= i < |s| ==> s[i].Some?
  }

  function Values<T>(s: Series<T>): seq<T>
    requires NoMissing(s)
  {
    seq(|s|, i requires 0 <= i < |s| => s[i].value)
  }

  lemma {:induction false} AlignFromNoMissing<T>(y: Series<T>, x: Series<T>, i: nat)
    requires NoMissing(y) && NoMissing(x) && |y| == |x|
    requires i <= |y|
    ensures AlignFrom(y, x, i) == AlignedPair(Values(y)[i..], Values(x)[i..])
    decreases |y| - i
  {
    if i < |y| {
      AlignFromNoMissing(y, x, i + 1);
      assert Values(y)[i..] == [y[i].value] + Values(y)[i + 1..];
      assert Values(x)[i..] == [x[i].value] + Values(x)[i + 1..];
    }
  }

  /** Two complete columns of equal length align to their own values. */
  lemma AlignNoMissing<T>(y: Series<T>, x: Series<T>)
    requires NoMissing(y) && NoMissing(x) && |y| == |x|
    ensures Align(y, x) == AlignedPair(Values(y), Values(x))
  {
    AlignFromNoMissing(y, x, 0);
  }

  /** Aligning a complete column with itself, both unshifted, gives it back twice. */
  lemma AlignSelfUnshifted<T>(s: Series<T>)
    requires NoMissing(s)
    ensures Align(Shift(s, 0), Shift(s, 0)) == AlignedPair(Values(s), Values(s))
  {
    ShiftZeroIsIdentity(s);
    AlignNoMissing(s, s);
  }

  /** The number of kept rows when the jointly defined rows form the interval [lo, hi). */
  lemma {:induction false} KeptRowsInInterval<T>(y: Series<T>, x: Series<T>, i: nat, lo: int, hi: int)
    requires i <= Min(|y|, |x|)
    requires forall j :: i <= j < Min(|y|, |x|) ==> (BothDefined(y, x, j) <==> lo <= j < hi)
    ensures |KeptRowsFrom(y, x, i)| == Max(0, Min(Min(|y|, |x|), hi) - Max(i, lo))
    decreases Min(|y|, |x|) - i
  {
    if i < Min(|y|, |x|) {
      KeptRowsInInterval(y, x, i + 1, lo, hi);
    }
  }

  lemma ShiftedDefinedAt<T>(s: Series<T>, k: int, j: int)
    requires NoMissing(s) && 0 <= j < |s|
    ensures Shift(s, k)[j].Some? <==> 0 <= j - k < |s|
  {
  }

  /**
   * For two complete columns of length n, the aligned length after shifting
   * by a and b is the size of the overlap of the two shifted windows; hence
   * at most n - |a| and n - |b|, and zero once either shift reaches n.
   */
  lemma AlignedLengthNoMissing<T>(y: Series<T>, x: Series<T>, a: int, b: int)
    requires NoMissing(y) && NoMissing(x) && |y| == |x|
    ensures |Align(Shift(y, a), Shift(x, b)).ys|
            == Max(0, Min(|y|, Min(|y| + a, |y| + b)) - Max(0, Max(a, b)))
    ensures |Align(Shift(y, a), Shift(x, b)).ys| <= Max(0, |y| - Abs(a))
    ensures |Align(Shift(y, a), Shift(x, b)).ys| <= Max(0, |y| - Abs(b))
    ensures Abs(a) >= |y| || Abs(b) >= |y| ==> |Align(Shift(y, a), Shift(x, b)).ys| == 0
  {
    var n := |y|;
    var sy, sx := Shift(y, a), Shift(x, b);
    var lo, hi := Max(0, Max(a, b)), Min(n, Min(n + a, n + b));
    forall j | 0 <= j < n
      ensures BothDefined(sy, sx, j) <==> lo <= j < hi
    {
      ShiftedDefinedAt(y, a, j);
      ShiftedDefinedAt(x, b, j);
    }
    KeptRowsInInterval(sy, sx, 0, lo, hi);
    AlignFromIsKeptRows(sy, sx, 0);
  }
}
