# Pairwise lagged regression: shift, align, pair, gate, label

This project models the regression section of a time-series exploration
page (`app.py`). The analyst picks a set of displayed series and gives each
an integer shift in months. For every unordered pair of displayed series
the page shifts both columns positionally (pandas `Series.shift`) and joins
them side by side. It drops every row with a missing value
(`pd.concat(..., axis=1).dropna()`). A pair with fewer than 10 remaining
rows is skipped with a warning. Any other pair is fitted by ordinary least
squares, and its header shows each series with its lag, as in
`B(t) ~ A(t+2)`.

Modules:

- `Optional` (optional.dfy): `Option`, where `None` stands for a NaN cell.
- `Numbers` (numbers.dfy): `Abs`, `Min`, `Max`.
- `ShiftAlign` (shift_align.dfy): the positional shift and the joint
  alignment, as pure functions over `seq<Option<T>>`. `KeptRowsFrom` is a
  reference definition of which rows survive.
- `LagLabel` (lag_label.dfy): the lag annotation and the pair header.
  `ParseLabel` inverts `Label`: it reads the shift back, and only the
  annotation of a shift parses to that shift (`LabelParseIff`).
- `Combinations` (combinations.dfy): `itertools.combinations(v, 2)`,
  defined over index pairs.
- `PairwiseRegression` (pairwise_regression.dfy): the loop that fills the
  shift map, the per-pair gate, and the batch loop. The batch loop records
  `Skipped` or `Fitted` for each pair and then continues with the next
  pair.

Observations have an abstract type `T`. The least-squares fit is the
parameter `fit: (seq<T>, seq<T>) -> F`, applied to the aligned Y and X
columns. The number a user entered for a variable's shift is the parameter
`chosen: string -> int`.

Points where the code's behaviour is easy to misread:

- A positive shift `s` is written `t+s`, although the shifted column then
  holds the value from `s` steps earlier. So `B` at shift 0 against `A` at
  shift 2 has the header `B(t) ~ A(t+2)` (`TwelveRowsShiftedByTwo`).
- A constant X column gets no special case: every pair with at least 10
  aligned rows goes to `fit`.
- A displayed name must be a column of the table (a `requires`). The shift
  map always holds every displayed name because it is built from that same
  list.

## Model

| member | source | states |
|---|---|---|
| `ShiftAlign.Shift` | app.py:24-25 | the shift keeps the length; position i holds the original value at i - k when 0 <= i - k < n, and is missing otherwise |
| `ShiftAlign.ShiftZeroIsIdentity` | app.py:24-25 | shifting by 0 returns the column unchanged |
| `ShiftAlign.ShiftBeyondLength` | app.py:24-25 | a shift whose magnitude is at least the length leaves every position missing |
| `ShiftAlign.ShiftRoundTrip` | app.py:24-25 | shifting by k and then by -k restores every position i with 0 <= i + k < n |
| `ShiftAlign.ShiftedDefinedAt` | app.py:24-25 | in a complete column shifted by k, position j is defined exactly when 0 <= j - k < n |
| `ShiftAlign.AlignFrom` | app.py:27-28 | the aligned Y and X columns have equal length, at most the number of rows scanned |
| `ShiftAlign.Align` | app.py:27-28 | the aligned Y and X columns have equal length, at most the shorter input's length |
| `ShiftAlign.KeptRowsFrom` | app.py:27 | reference for `dropna`: strictly increasing positions, each defined in both columns, and every jointly defined position is included |
| `ShiftAlign.AlignFromIsKeptRows` | app.py:27-28 | the k-th aligned pair holds the values of y and x at the k-th kept position |
| `ShiftAlign.AlignSelectsJointlyDefinedRows` | app.py:27-28 | alignment returns, in time order, exactly the rows where both columns are defined, so a row missing in either column is dropped from both |
| `ShiftAlign.AlignFromNoMissing` | app.py:27-28 | for complete columns of equal length, alignment from row i returns both value suffixes unchanged |
| `ShiftAlign.AlignNoMissing` | app.py:27-28 | two complete columns of equal length align to their own values |
| `ShiftAlign.AlignSelfUnshifted` | app.py:24-28 | a complete column aligned with itself, both at shift 0, comes back twice unchanged |
| `ShiftAlign.KeptRowsInInterval` | app.py:27 | when the jointly defined rows form an interval, the number of kept rows is the size of its overlap with the scanned range |
| `ShiftAlign.AlignedLengthNoMissing` | app.py:24-27 | for complete columns of length n, the aligned length is the overlap of the two shifted windows; it is at most n - \|a\| and n - \|b\|, and it is 0 once either shift's magnitude reaches n |
| `LagLabel.Decimal` | app.py:38 | Python's decimal text of a natural number: nonempty digits, no leading zero, and it starts with '0' only for 0 |
| `LagLabel.DecimalRoundTrip` | app.py:38 | reading the decimal text back gives the number |
| `LagLabel.CanonicalRoundTrip` | app.py:38 | every digit string without a leading zero is the decimal text of its value |
| `LagLabel.Label` | app.py:38 | a lag annotation starts with 't' and holds only 't', '+', '-' and digits |
| `LagLabel.LabelShape` | app.py:38 | shift 0 renders as `t`; a nonzero shift renders as `t`, its sign, then the decimal text of its magnitude (`t+3`, `t-3`) |
| `LagLabel.LabelRoundTrip` | app.py:38 | parsing an annotation gives back its shift |
| `LagLabel.ParsedLabelIsCanonical` | app.py:38 | any text that parses to a shift is exactly that shift's annotation |
| `LagLabel.LabelParseIff` | app.py:38 | text parses to shift s if and only if it is the annotation of s |
| `LagLabel.LabelInjective` | app.py:38 | distinct shifts get distinct annotations |
| `LagLabel.Header` | app.py:38 | the header is the y name, "(", its annotation, ") ~ ", the x name, "(", its annotation, ")", with each piece at its stated position; for fixed names it determines both shifts (HeaderDeterminesShifts) |
| `LagLabel.HeaderDeterminesShifts` | app.py:38 | for given series names, the header `y(label) ~ x(label)` determines both shifts |
| `Combinations.IndexPairsFrom` | app.py:20 | every index pair produced from first index i on satisfies i <= first < second < k |
| `Combinations.IndexPairsFromComplete` | app.py:20 | every pair a < b < k with a >= i is produced |
| `Combinations.IndexPairsFromSorted` | app.py:20 | the pairs come in strictly increasing lexicographic order, so none repeats |
| `Combinations.IndexPairsFromCount` | app.py:20 | there are (k - i)(k - i - 1)/2 of them |
| `Combinations.IndexPairsSpec` | app.py:20 | the pairs of k items are exactly the pairs i < j < k, each once, in lexicographic order, k(k-1)/2 in all |
| `Combinations.Pairs` | app.py:20 | the m-th pair is (v[i], v[j]) for the m-th index pair (i, j), so the earlier element is Y |
| `Combinations.NoPairsBelowTwo` | app.py:16-20 | fewer than two items give no pair |
| `PairwiseRegression.BuildShiftMap` | app.py:7-13 | the shift map's keys are exactly the displayed variables, and each maps to the value entered for it |
| `PairwiseRegression.EvaluatePair` | app.py:21-38 | the outcome names Y and X; its row count is the number of jointly defined rows after shifting; the pair is fitted exactly when that count is at least 10 |
| `PairwiseRegression.FittedUsesAlignedRows` | app.py:27-38 | a fitted pair is fitted on exactly the aligned rows, and its header is built from the two names and shifts |
| `PairwiseRegression.GateOnCompleteColumns` | app.py:24-33 | for complete columns, a pair is fitted exactly when the shifted windows overlap in at least 10 rows, which needs n >= 10 + \|shift\| for both shifts |
| `PairwiseRegression.HeaderOfShiftTwo` | app.py:38 | the header for B at shift 0 against A at shift 2 is `B(t) ~ A(t+2)` |
| `PairwiseRegression.TwelveRowsShiftedByTwo` | app.py:24-38 | with 12 complete rows and X shifted by 2, 10 rows remain, the pair is fitted, and the header is `B(t) ~ A(t+2)` |
| `PairwiseRegression.FiveRowsSkipped` | app.py:24-33 | two complete 5-row columns at shift 0 align to 5 rows, and the pair is skipped |
| `PairwiseRegression.RunPairwise` | app.py:20-45 | one outcome per pair of `combinations(displayed, 2)`, k(k-1)/2 in all and in the same order; each outcome is the gated evaluation of its pair, and a skip does not stop the batch |
| `PairwiseRegression.RegressionSection` | app.py:7-45 | with fewer than two variables only the notice is produced; otherwise pair q is (displayed[i], displayed[j]) for the q-th index pair i < j, evaluated with the entered shifts |

## Left out

- Streamlit widgets, markdown, the info and warning texts, and the page layout (app.py:3-4, 9, 11-12, 17, 19, 31-32, 38-45). These are presentation. The header of a fitted pair is modelled as the text inside the backticks on line 38. The `y ~ x` heading of a skipped pair (line 31) is not modelled.
- The number-input bounds [-12, 12] (app.py:12). The widget enforces them, and the model accepts any integer shift.
- The statsmodels OLS fit and its p-value, R², intercept and slope (app.py:35-36, 40-44). These are floating-point numerics in a foreign library. The fit is the opaque parameter `fit`.
- The 4-decimal number formatting (app.py:41-44). This is float printing.
- Failures of the fit or of printing its statistics (app.py:35-44). The model assumes `fit` and the formatting never raise, so `RunPairwise` gives an outcome for every pair. In the code such an exception ends the script run, and the pairs after it are never shown. One likely case is an X column that is constant and non-zero over at least 10 aligned rows: `sm.add_constant` then adds no intercept column, and `model.params[1]` at line 42 is out of range.
- Loading `df` and `displayed_vars`, which are defined outside this file. Only the `shift`, `concat` and `dropna` behaviour of pandas is modelled.
- The `Skipped` outcome records the aligned row count, which the page does not print. The count is kept so that the gate can be stated on the outcome itself.
