# drygas-csv-tool comparison and validation core, in Dafny

`app.py` compares an edited master CSV with a test CSV and checks the master
against three validation rules. This project models the logic of that script
without its Streamlit page, and proves what the comparison report and the
validation report contain.

- **Alignment.** Rows are paired by a key column, but only when the selected
  key is a real column of both tables. Otherwise rows are paired by position.
- **Columns and labels.** The columns of both sides are united and both sides
  are reindexed onto the union. The row labels are united the same way.
- **Diff report.** The comparison loop visits every (label, column) pair. It
  emits a `{Key, Column, Master, Test}` record when the two cells differ:
  - two nulls are equal;
  - a null and a value differ;
  - two values differ when their texts differ.
- **Summary.** The summary counts the records and the rows they touch.
- **Validation.** Each master row is checked in order:
  - DriveTorque must be within [-1, 1];
  - DriveSpeed must not be negative;
  - every column whose name contains `Flow` must not be negative.

  A null cell is skipped. A cell that does not convert with `float()` gives a
  "Non-numeric" issue.

Modules:

- `Wrappers`: `Option`.
- `Ordering`: strict total orders and first-occurrence lookup.
  - `IndexUnion` is `pd.Index.union` with its default `sort=None`. It returns
    the receiver unchanged when the other operand is empty or equal to it, and
    the other operand when the receiver is empty. Otherwise it returns the
    sorted, deduplicated union.
  - `StrLt` is Python's order on `str`.
- `Tables`: tables, cells, row labels, `set_index`, `reset_index`,
  `reindex`, the alignment branch, and the column and label unions.
- `Diff`: the cell rule, the comparison loop as methods, the specification
  functions the methods are proved against, and the summary.
- `Numbers`: `ParseNum`, Python's `float()` on plain decimal literals over
  exact `real`s.
- `Validation`: the three rules, the validation loop as methods, and their
  specification.
  - The specification functions take the text-to-number conversion as a
    parameter, a `Converter`. The membership, ordering and size lemmas hold
    for any conversion.
  - `ValidationReport` and the `Validate` method use `ParseNum`.

Both loops are methods whose postconditions equal a specification function:
`Diff.Compare`/`Diff.CompareCells`/`Diff.CompareRow` and
`Validation.Validate`/`Validation.ValidateRow`/`Validation.FlowChecks`. The
loop invariants relate the partial list to the specification of the prefix
already visited. The lemmas then state, for the specification, exactly which
records or issues appear and in which order.

The three rules are the inline rules of `app.py`. Columns and labels are
united by `pd.Index.union`. A duplicated key is not resolved.

## Model

| member | source | states |
|---|---|---|
| Ordering.IndexOf | app.py:86-87 | a label or column is looked up at its first occurrence; the result is below the length exactly when it occurs |
| Ordering.IndexUnion | app.py:76 | `Index.union`: every element of either operand and nothing else, duplicate-free when both operands are; the receiver itself when the other operand is empty or equal to it, the other operand when the receiver is empty, and sorted otherwise |
| Ordering.IndexUnionSymmetric | app.py:76 | the union is the same whichever operand is the receiver |
| Ordering.IndexUnionOfSorted | app.py:83 | on sorted operands every path of the union yields the sorted union |
| Ordering.SortedUnique | app.py:76 | two strictly sorted sequences with the same elements are equal |
| Ordering.StrLtIsStrictTotalOrder | app.py:76 | Python's `str` order is irreflexive, transitive and total, so sorting column names is well defined |
| Tables.KeyLtIsStrictTotalOrder | app.py:83 | the order used to sort row labels is a strict total order |
| Tables.Positions | app.py:71-72 | `reset_index(drop=True)` labels row `i` with position `i` |
| Tables.Without | app.py:67-68 | `set_index(key)` removes exactly the key column from the columns, keeps them unique, and keeps the remaining columns in header order |
| Tables.KeyLabels | app.py:67-68 | under `set_index(key)` row `i` is labelled by its key cell |
| Tables.FrameCell | app.py:86-87 | a cell reads as null unless its column is a column of the frame and its label one of the frame's labels |
| Tables.SetIndex | app.py:67-68 | `set_index(key)` keeps the rows, labels row `i` by its key cell, keeps exactly the other columns, and with unique key values finds each row's cell under its own label |
| Tables.ResetIndex | app.py:71-72 | `reset_index(drop=True)` keeps columns and rows, the cell under position `i` is row `i`'s cell, and a position past the end reads as null |
| Tables.Reindex | app.py:77-78 | `reindex(columns=cols)` gives exactly the columns `cols` and keeps the labels and the number of rows; a kept column reads as before and an added one as null |
| Tables.Align | app.py:66-73 | key alignment exactly when the key is a real column of both tables; the rows are kept; positional alignment keeps both column lists, key alignment removes the key from both |
| Tables.ReindexCell | app.py:77-78 | after `reindex(columns=...)` a kept column reads as before and an added column reads as null |
| Tables.AlignByPosition | app.py:66-73 | when the key is `(Index)` or missing from a side, rows are paired by position; a position past a table's end reads as null |
| Tables.AlignByKey | app.py:66-69 | key alignment happens only for a real column of both tables; the key leaves both column lists; with unique key values a row is found under its own key |
| Tables.ColumnUnion | app.py:76 | the compared columns are exactly those of either side, each once; the master's columns unchanged when the headers are equal or the test side has none, the test's when the master has none, and sorted otherwise |
| Tables.KeyUnion | app.py:83 | the visited labels are exactly those of either side, each once; the master's labels unchanged when the label lists are equal or the test side has none, the test's when the master has none, and sorted otherwise |
| Tables.PositionsUnion | app.py:71-83 | positional labels of both sides unite to `0 .. max(n, m) - 1` |
| Diff.CellsDiffer | app.py:89-91 | the three-way null rule is exactly inequality of the optional texts |
| Diff.CellEquivalence | app.py:89-91 | two nulls never differ, a null and a value always differ, and two values differ exactly when their texts do |
| Diff.TextualComparison | app.py:91 | there is no numeric normalisation: `"1"` and `"1.0"` differ |
| Diff.Compare | app.py:66-92 | the whole comparison yields exactly the specified report, and reports whether key alignment was used |
| Diff.CompareCells | app.py:81-92 | the outer loop over the united labels yields the specified records, label by label |
| Diff.CompareRow | app.py:85-92 | the inner loop over the columns yields the records of one label, skipping two nulls |
| Diff.RowDiffsMembership | app.py:85-92 | a record of one label exists exactly for a column whose two cells differ, and carries those cells |
| Diff.DiffsMembership | app.py:84-92 | a record exists exactly for a visited label and column whose cells differ |
| Diff.DiffReportMembership | app.py:66-92 | in terms of the aligned tables: a record exists exactly for a label of either side and a column of either side whose cells differ, a missing label or column reading as null |
| Diff.SelfDiffEmpty | app.py:84-92 | comparing a table with itself reports nothing, under either alignment |
| Diff.MasterOnlyLabel | app.py:86-92 | a label only the master has yields a record for exactly the non-null cells of its master row, each against a null |
| Diff.TestOnlyLabel | app.py:86-92 | a label only the test table has yields a record for exactly the non-null cells of its test row, each against a null |
| Diff.RowDiffsOrdered | app.py:85-92 | within a label, records follow the column order and stay within that label |
| Diff.DiffsOrdered | app.py:84-92 | records are label-major along the united labels, then column-minor |
| Diff.DiffReportOrdered | app.py:83-92 | with unique column names and, under key alignment, unique key values, the report is label-major then column-minor, so no (label, column) pair repeats |
| Diff.SetIndexRowOrderFree | app.py:67-68 | with unique key values, a table with the same columns and its rows in another order has the same columns, the same labels and the same cell under every label after `set_index` |
| Diff.KeyedReportRowOrderFree | app.py:66-92 | under key alignment with unique key values, reordering the rows of either table leaves the set of reported records unchanged |
| Diff.PositionalReportRowOrderDependent | app.py:70-92 | under positional alignment row order matters: a two-row table compared with itself reports nothing, but with its rows swapped it reports a difference |
| Diff.PositionalLabels | app.py:70-83 | positional comparison visits the positions of the longer table in order |
| Diff.KeysOfBound | app.py:98 | no more labels occur in a report than records |
| Diff.DistinctKeyCount | app.py:98 | the rows touched are at most the records, and zero exactly when there are no records |
| Diff.Summarize | app.py:94-98 | the summary's total is the number of records; its row count is at most the total and zero exactly when nothing differs |
| Diff.NUnique | app.py:98 | `nunique()` is at most the number of distinct labels, and equal to it exactly when no record has the null label |
| Diff.NullLabelReport | app.py:66-92 | keyed on a column that is empty in both tables, the one differing cell is reported under the null label |
| Diff.NullLabelUncounted | app.py:98 | the summary as written: a differing row whose key is null is not counted by `nunique()` |
| Numbers.DigitPrefix | app.py:120 | the longest all-digit prefix: all digits, and followed by a non-digit if anything |
| Numbers.TrimStart | app.py:120 | the result is the text with a leading run of whitespace removed, and it does not start with whitespace; so it is the text itself when the text does not start with whitespace |
| Numbers.TrimEnd | app.py:120 | the result is the text with a trailing run of whitespace removed, and it does not end with whitespace; so it is the text itself when the text does not end with whitespace |
| Numbers.TrimUnpadded | app.py:120 | text that neither starts nor ends with whitespace is left unchanged by the stripping |
| Numbers.ParseUnsigned | app.py:120 | an unsigned literal converts, if at all, to a non-negative value |
| Numbers.NoDigitUnsigned | app.py:120 | an unsigned literal without a digit never converts |
| Numbers.ParseSigned | app.py:120 | empty text never converts, and a negative value needs a leading minus sign |
| Numbers.ParseNum | app.py:120-137 | `float()`: blank text never converts, and a negative value needs a minus sign as the first character after the surrounding whitespace |
| Numbers.NoDigitNoNumber | app.py:120-124 | text without a digit (`"abc"`, `"N/A"`, `"."`) never converts |
| Numbers.NatTextValue | app.py:120 | the decimal text of a natural number denotes that number |
| Numbers.ParseDigits | app.py:120 | a run of digits converts to the number it denotes |
| Numbers.NatTextRoundTrip | app.py:120-137 | the text of a non-negative integer converts back to it |
| Numbers.NegTextRoundTrip | app.py:120-137 | the text of a negative integer, a minus sign and digits, converts back to it |
| Numbers.IntTextRoundTrip | app.py:120-137 | the text of every integer converts back to that integer |
| Validation.HasSubstringOccurs | app.py:135 | `"Flow" in col` holds exactly when `Flow` occurs in the name at some offset |
| Validation.NamedColumnsNotFlow | app.py:118-135 | neither DriveTorque nor DriveSpeed falls under the flow rule |
| Validation.Validate | app.py:112-141 | the validation loop yields exactly the specified report, row by row |
| Validation.ValidateRow | app.py:116-141 | one row yields its torque issue, its speed issue, then its flow issues |
| Validation.TorqueCheck | app.py:118-124 | the DriveTorque check yields exactly what the torque rule raises for the row's cell: nothing for a null cell, the text when it does not convert, the value when outside [-1, 1] |
| Validation.SpeedCheck | app.py:126-132 | the DriveSpeed check yields exactly what the speed rule raises for the row's cell: nothing for a null cell, the text when it does not convert, the value when negative |
| Validation.FlowChecks | app.py:134-141 | the pass over the columns yields the flow issues of the row, in column order |
| Validation.FlowCheck | app.py:135-141 | one column yields nothing unless its name contains `Flow`, and otherwise exactly what the flow rule raises for its cell |
| Validation.FlowCellCheck | app.py:135-141 | a flow column's cell yields exactly what the flow rule raises: nothing for a null cell, the text when it does not convert, the value when negative |
| Validation.FlowIssuesStep | app.py:134-141 | the flow issues of one more column are those of the earlier columns followed by that column's |
| Validation.RuleIssuesShape | app.py:118-141 | a rule raises at most one issue per cell, naming that row, column and rule |
| Validation.RuleIssuesMembership | app.py:118-124 | a rule raises an issue for a cell exactly when the cell is non-null and either does not convert, the issue then carrying the text, or converts to an out-of-range value, the issue then carrying the value |
| Validation.FlowIssuesMembership | app.py:134-141 | a flow issue exists exactly for a column whose name contains `Flow` and whose cell is flagged |
| Validation.RowIssuesMembership | app.py:116-141 | a row's issues are exactly the flagged cells of that row under the rule that applies to their column |
| Validation.IssuesMembership | app.py:116-141 | the issues of the first `n` rows are exactly the flagged cells of those rows |
| Validation.ValidationMembership | app.py:112-141 | the report holds exactly the issues the three rules raise |
| Validation.IssuesNameNonNullCells | app.py:118-135 | every issue names a row and column of the table and a non-null cell; it is a non-numeric issue exactly when that cell does not convert |
| Validation.ConvertedCell | app.py:119-139 | a checked cell that converts to `v` is reported with `v` exactly when `v` is out of range, and never as non-numeric |
| Validation.UnconvertedCell | app.py:123-141 | a checked cell that does not convert is reported as non-numeric with its text, and never with a value |
| Validation.IntegerTorque | app.py:118-124 | an integer torque is reported exactly when it lies outside [-1, 1] |
| Validation.IntegerNonNegative | app.py:126-139 | an integer speed or flow value is reported exactly when it is negative |
| Validation.NonNumericReported | app.py:118-141 | a checked cell without a digit is reported as non-numeric with its text |
| Validation.FlowIssuesOrdered | app.py:134-141 | with unique column names, flow issues follow the column order |
| Validation.RowIssuesOrdered | app.py:116-141 | within a row, the torque issue comes first, then the speed issue, then the flow issues in column order |
| Validation.IssuesOrdered | app.py:116-141 | the issues of the first `n` rows come row by row, each row in rule order |
| Validation.ValidationOrdered | app.py:112-141 | with unique column names the report is row-major then rule-ordered; no issue repeats; no (row, rule, column) has two issues |
| Validation.FlowColumnCountBound | app.py:118-135 | the flow columns and the two named columns together are at most all the columns |
| Validation.FlowIssuesBound | app.py:134-141 | the flow pass raises at most one issue per flow column |
| Validation.RowIssuesBound | app.py:116-141 | one row raises at most one issue per column, since no named column contains `Flow` |
| Validation.IssuesBound | app.py:116-141 | the first `n` rows raise at most `n` times the number of columns issues |
| Validation.ValidationBound | app.py:112-141 | the report has at most one issue per cell of the table |

## Left out

- The Streamlit page is not modelled: page setup, uploaders, `data_editor`, the tables and messages shown, and the download button. The model returns the report lists and the summary numbers instead.
- CSV reading and writing is not modelled, including the default master file and the fallback used when `key_choice` is unset. A table arrives as column names and rows of cells. A cell holds the `str()` text of the value `read_csv` parsed, or null for NaN/NA. `read_csv`'s type inference happens before the model.
- Tables.Row: a row is a map from column name to cell, so two columns with the same name collapse into one. pandas would instead return a Series from `row.get`, and `pd.notna` on it would raise. The ordering lemmas assume unique column names.
- Tables.FrameCell: a label that occurs twice resolves to its first row. pandas `.at` on a duplicated label returns a Series, and the comparison then raises. The lemmas about key alignment assume unique key values.
- Tables.KeyLt: key labels are ordered as text, with null last. pandas orders an integer or float key column numerically, so for such a column the model can visit the labels in a different order. Labels of mixed types that pandas cannot sort are not modelled.
- Tables.Key: labels are matched by their text, not by their value. When a key column is read as integers in one table and as floats in the other (a float column arises, for one, from an empty key cell), pandas converts both indexes to floats and pairs the key `1` with `1.0`. The model keeps the labels `"1"` and `"1.0"` apart and reports that row once as master-only and once as test-only.
- Numbers.ParseNum: this is `float()` on decimal literals only: whitespace, a sign, digits with an optional point, and an optional exponent. `inf`, `nan` and underscores between digits are not accepted. Python's whitespace separators U+001C to U+001F, non-ASCII whitespace and non-ASCII decimal digits are also rejected here, though `float()` accepts them. `float()` is applied to the cell's text, not to the parsed value: a column `read_csv` parses as booleans converts in Python (`float(True) == 1.0`), but here `"True"` does not convert, so such a column whose name contains `Flow` gets a "Non-numeric" issue in every row. Values are exact `real`s, with no binary rounding and no overflow to infinity.
- Validation.Validate: the `"Row"` of an issue is the row's position. `iterrows` yields the frame's index label, which equals the position for a freshly read table. Labels that `data_editor` leaves after adding or deleting rows are not modelled.
- The validation is skipped when no master is loaded, and the script fails when a test CSV is uploaded without a master. Both are UI control flow, outside the model.
- The per-cell comparison of texts uses the cell texts the model is given. pandas' own `str()` of floats, such as `1.0`, and of other dtypes happens before the model.
- sim.py is not part of this model. It only writes a Word document.

## Findings

| source | as written | input that shows it | evidently intended | confidence | as-written member | corrected member |
|---|---|---|---|---|---|---|
| app.py:98 | the row count in the summary is `diff_df['Key'].nunique()`, and `nunique()` drops NaN labels | key column `id` empty in both tables, other column `A` = `1` in the master and `2` in the test: one difference is reported "across 0 rows" | every row with a difference is counted, a null key included, so the count is 0 only when nothing differs | medium; not executed | Diff.NUnique, Diff.NullLabelUncounted | Diff.DistinctKeyCount, Diff.Summarize |
