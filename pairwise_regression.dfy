/**
 * The regression section of the page: one shift per displayed variable,
 * then every pair of displayed variables shifted, aligned and either skipped
 * (too few rows) or fitted and labelled. The least-squares fit itself is a
 * foreign call and enters as the parameter `fit`.
 */
module PairwiseRegression {
  import opened Optional
  import opened Numbers
  import opened ShiftAlign
  import opened LagLabel
  import opened Combinations

  /** Fewer aligned rows than this and a pair is not fitted. */
  const MinObservations: nat := 10

  /** What the section shows for one pair (Y the earlier variable, X the later one). */
  datatype PairOutcome<F> =
    | Skipped(yName: string, xName: string, observations: nat)
    | Fitted(yName: string, xName: string, observations: nat, header: string, fit: F)

  /** The whole section: a notice when fewer than two variables are shown, else one outcome per pair. */
  datatype Report<F> = TooFewVariables | Results(outcomes: seq<PairOutcome<F>>)

  /** Fills the shift map, one entry per displayed variable, from what its input field holds. */
  method BuildShiftMap(displayed: seq<string>, chosen: string -> int) returns (shifts: map<string, int>)
    ensures forall v :: v in shifts <==> v in displayed
    ensures forall v :: v in shifts ==> shifts[v] == chosen(v)
  {
    shifts := map[];
    for i := 0 to |displayed|
      invariant forall v :: v in shifts <==> v in displayed[..i]
      invariant forall v :: v in shifts ==> shifts[v] == chosen(v)
    {
      shifts := shifts[displayed[i] := chosen(displayed[i])];
    }
  }

  /** One pair: shift both columns, align them, gate on the row count, fit and label. */
  function EvaluatePair<T, F>(yName: string, y: Series<T>, yShift: int,
                              xName: string, x: Series<T>, xShift: int,
                              fit: (seq<T>, seq<T>) -> F): (r: PairOutcome<F>)
    ensures r.yName == yName && r.xName == xName
    ensures r.observations == |KeptRows(Shift(y, yShift), Shift(x, xShift))|
    ensures r.Fitted? <==> r.observations >= MinObservations
  {
    AlignSelectsJointlyDefinedRows(Shift(y, yShift), Shift(x, xShift));
    var data := Align(Shift(y, yShift), Shift(x, xShift));
    if |data.ys| < MinObservations then Skipped(yName, xName, |data.ys|)
    else Fitted(yName, xName, |data.ys|, Header(yName, yShift, xName, xShift), fit(data.ys, data.xs))
  }

  /** A fitted pair is fitted on exactly the aligned rows and carries the header of its two shifts. */
  lemma FittedUsesAlignedRows<T, F>(yName: string, y: Series<T>, yShift: int,
                                   xName: string, x: Series<T>, xShift: int,
                                   fit: (seq<T>, seq<T>) -> F)
    requires EvaluatePair(yName, y, yShift, xName, x, xShift, fit).Fitted?
    ensures var r := EvaluatePair(yName, y, yShift, xName, x, xShift, fit);
            var data := Align(Shift(y, yShift), Shift(x, xShift));
            r.fit == fit(data.ys, data.xs) && r.header == Header(yName, yShift, xName, xShift)
            && forall k :: 0 <= k < |data.ys| ==>
                 data.ys[k] == Shift(y, yShift)[KeptRows(Shift(y, yShift), Shift(x, xShift))[k]].value &&
                 data.xs[k] == Shift(x, xShift)[KeptRows(Shift(y, yShift), Shift(x, xShift))[k]].value
  {
    AlignSelectsJointlyDefinedRows(Shift(y, yShift), Shift(x, xShift));
  }

  /**
   * For two complete columns of length n the gate depends only on the
   * shifts: the pair is fitted exactly when the shifted windows overlap in at
   * least 10 rows, which needs n >= 10 + |yShift| and n >= 10 + |xShift|.
   */
  lemma GateOnCompleteColumns<T, F>(yName: string, y: Series<T>, yShift: int,
                                   xName: string, x: Series<T>, xShift: int,
                                   fit: (seq<T>, seq<T>) -> F)
    requires NoMissing(y) && NoMissing(x) && |y| == |x|
    ensures var n := |y|;
            EvaluatePair(yName, y, yShift, xName, x, xShift, fit).Fitted?
            <==> Min(n, Min(n + yShift, n + xShift)) - Max(0, Max(yShift, xShift)) >= MinObservations
    ensures EvaluatePair(yName, y, yShift, xName, x, xShift, fit).Fitted?
            ==> |y| >= MinObservations + Abs(yShift) && |y| >= MinObservations + Abs(xShift)
  {
    AlignedLengthNoMissing(y, x, yShift, xShift);
    AlignSelectsJointlyDefinedRows(Shift(y, yShift), Shift(x, xShift));
  }

  /** A column with a value in every row. */
  function Complete(vs: seq<int>): (r: Series<int>)
    ensures |r| == |vs| && NoMissing(r)
  {
    seq(|vs|, i requires 0 <= i < |vs| => Some(vs[i]))
  }

  lemma HeaderOfShiftTwo()
    ensures Header("B", 0, "A", 2) == "B(t) ~ A(t+2)"
  {
    assert Decimal(2) == "2";
    assert Label(0) == "t";
    assert Label(2) == "t+2";
  }

  /**
   * Twelve complete rows, Y unshifted and X shifted by 2: ten rows remain, the
   * pair is fitted, and the header reads `B(t) ~ A(t+2)`.
   */
  lemma TwelveRowsShiftedByTwo(fit: (seq<int>, seq<int>) -> int)
    ensures var a := Complete([1, 2, 3, 4, 5, 6, 7, 8, 9, 10, 11, 12]);
            var b := Complete([2, 4, 6, 8, 10, 12, 14, 16, 18, 20, 22, 24]);
            var r := EvaluatePair("B", b, 0, "A", a, 2, fit);
            r.Fitted? && r.observations == 10 && r.header == "B(t) ~ A(t+2)"
  {
    var a := Complete([1, 2, 3, 4, 5, 6, 7, 8, 9, 10, 11, 12]);
    var b := Complete([2, 4, 6, 8, 10, 12, 14, 16, 18, 20, 22, 24]);
    AlignedLengthNoMissing(b, a, 0, 2);
    AlignSelectsJointlyDefinedRows(Shift(b, 0), Shift(a, 2));
    var r := EvaluatePair("B", b, 0, "A", a, 2, fit);
    assert r.observations == 10;
    FittedUsesAlignedRows("B", b, 0, "A", a, 2, fit);
    HeaderOfShiftTwo();
  }

  /** Two complete five-row columns, unshifted: five rows align and the pair is skipped. */
  lemma FiveRowsSkipped(fit: (seq<int>, seq<int>) -> int)
    ensures var a := Complete([1, 2, 3, 4, 5]);
            var r := EvaluatePair("B", a, 0, "A", a, 0, fit);
            r.Skipped? && r.observations == 5
  {
    var a := Complete([1, 2, 3, 4, 5]);
    AlignedLengthNoMissing(a, a, 0, 0);
    AlignSelectsJointlyDefinedRows(Shift(a, 0), Shift(a, 0));
  }

  /**
   * Runs every pair of `combinations(displayed, 2)` in order; a pair with too
   * few rows is recorded as skipped and the loop goes on with the next one.
   */
  method RunPairwise<T, F>(df: map<string, Series<T>>, displayed: seq<string>,
                           shifts: map<string, int>, fit: (seq<T>, seq<T>) -> F)
    returns (outcomes: seq<PairOutcome<F>>)
    requires forall v :: v in displayed ==> v in df && v in shifts
    ensures 2 * |outcomes| == |displayed| * (|displayed| - 1)
    ensures |outcomes| == |Pairs(displayed)|
    ensures forall q :: 0 <= q < |outcomes| ==>
              var (y, x) := Pairs(displayed)[q];
              outcomes[q] == EvaluatePair(y, df[y], shifts[y], x, df[x], shifts[x], fit)
  {
    var pairs := Pairs(displayed);
    outcomes := [];
    var m := 0;
    while m < |pairs|
      invariant 0 <= m <= |pairs|
      invariant |outcomes| == m
      invariant forall q :: 0 <= q < m ==>
                  var (y, x) := pairs[q];
                  outcomes[q] == EvaluatePair(y, df[y], shifts[y], x, df[x], shifts[x], fit)
    {
      var (yCol, xCol) := pairs[m];
      var yShift, xShift := shifts[yCol], shifts[xCol];
      var yData := Shift(df[yCol], yShift);
      var xData := Shift(df[xCol], xShift);
      var data := Align(yData, xData);
      if |data.ys| < MinObservations {
        outcomes := outcomes + [Skipped(yCol, xCol, |data.ys|)];
        m := m + 1;
        continue;
      }
      var fitted := fit(data.ys, data.xs);
      outcomes := outcomes + [Fitted(yCol, xCol, |data.ys|, Header(yCol, yShift, xCol, xShift), fitted)];
      m := m + 1;
    }
    assert 2 * |pairs| == |displayed| * (|displayed| - 1) by {
      IndexPairsSpec(|displayed|);
    }
  }

  /**
   * The section as a whole: shifts come from the per-variable inputs; with
   * fewer than two variables only the notice is produced, otherwise every pair
   * (displayed[i], displayed[j]) with i < j is evaluated, in lexicographic
   * (i, j) order, the earlier variable as Y.
   */
  method RegressionSection<T, F>(df: map<string, Series<T>>, displayed: seq<string>,
                                 chosen: string -> int, fit: (seq<T>, seq<T>) -> F)
    returns (report: Report<F>)
    requires forall v :: v in displayed ==> v in df
    ensures report.TooFewVariables? <==> |displayed| < 2
    ensures report.Results? ==>
              2 * |report.outcomes| == |displayed| * (|displayed| - 1) &&
              |report.outcomes| == |IndexPairs(|displayed|)| &&
              forall q :: 0 <= q < |report.outcomes| ==>
                var (i, j) := IndexPairs(|displayed|)[q];
                var (y, x) := (displayed[i], displayed[j]);
                report.outcomes[q] == EvaluatePair(y, df[y], chosen(y), x, df[x], chosen(x), fit)
  {
    var shifts := BuildShiftMap(displayed, chosen);
    if |displayed| < 2 {
      report := TooFewVariables;
      return;
    }
    var outcomes := RunPairwise(df, displayed, shifts, fit);
    report := Results(outcomes);
  }
}
