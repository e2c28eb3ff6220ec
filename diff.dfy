/**
 * The master/test comparison of app.py: the cell equivalence rule, the diff
 * records emitted key-major then column-minor over the united labels and
 * columns, and the summary line shown above the report.
 */
module Diff {
  import opened Wrappers
  import opened Ordering
  import opened Tables

  /** One report line: `{"Key", "Column", "Master", "Test"}`. */
  datatype DiffRecord = DiffRecord(key: Key, column: string, master: Cell, test: Cell)

  /**
   * The test of the comparison loop: two nulls agree, a null and a value
   * differ, and two values differ when their texts do.
   */
  function CellsDiffer(a: Cell, b: Cell): (r: bool)
    ensures r <==> a != b
  {
    if a.None? && b.None? then false
    else (a.None? && b.Some?) || (a.Some? && b.None?) || a.value != b.value
  }

  /** The three cases of the rule, read off its equivalence with inequality. */
  lemma CellEquivalence(a: Cell, b: Cell)
    ensures a.None? && b.None? ==> !CellsDiffer(a, b)
    ensures a.None? != b.None? ==> CellsDiffer(a, b)
    ensures a.Some? && b.Some? ==> (CellsDiffer(a, b) <==> a.value != b.value)
  {
  }

  /** No numeric normalisation: "1" and "1.0" are a difference. */
  lemma TextualComparison()
    ensures CellsDiffer(Some("1"), Some("1.0"))
    ensures !CellsDiffer(Some("1.0"), Some("1.0"))
  {
  }

  /** The record for one (label, column) pair, if its cells differ. */
  function CellDiff(k: Key, c: string, left: Frame, right: Frame): seq<DiffRecord> {
    var a := FrameCell(left, k, c);
    var b := FrameCell(right, k, c);
    if CellsDiffer(a, b) then [DiffRecord(k, c, a, b)] else []
  }

  /** The records of one label, column by column. */
  function RowDiffs(k: Key, cols: seq<string>, left: Frame, right: Frame): seq<DiffRecord>
    decreases |cols|
  {
    if cols == [] then []
    else RowDiffs(k, cols[..|cols| - 1], left, right) + CellDiff(k, cols[|cols| - 1], left, right)
  }

  /** The records of all labels, label by label. */
  function Diffs(keys: seq<Key>, cols: seq<string>, left: Frame, right: Frame): seq<DiffRecord>
    decreases |keys|
  {
    if keys == [] then []
    else Diffs(keys[..|keys| - 1], cols, left, right) + RowDiffs(keys[|keys| - 1], cols, left, right)
  }

  /** Everything the comparison loop iterates over. */
  datatype Comparison = Comparison(byKey: bool, columns: seq<string>, keys: seq<Key>, left: Frame, right: Frame)

  /** Alignment, column union and reindexing, and the union of the labels. */
  function Prepare(master: Table, test: Table, keyChoice: string): Comparison {
    var a := Align(master, test, keyChoice);
    var cols := ColumnUnion(a.left.columns, a.right.columns);
    var left := Reindex(a.left, cols);
    var right := Reindex(a.right, cols);
    Comparison(a.byKey, cols, KeyUnion(left.index, right.index), left, right)
  }

  /** The diff report of the comparison of `master` with `test`. */
  function DiffReport(master: Table, test: Table, keyChoice: string): seq<DiffRecord> {
    var p := Prepare(master, test, keyChoice);
    Diffs(p.keys, p.columns, p.left, p.right)
  }

  /**
   * The comparison as app.py runs it: align, unite and reindex the columns,
   * unite the labels, then run the comparison loop.
   */
  method Compare(master: Table, test: Table, keyChoice: string) returns (byKey: bool, diffs: seq<DiffRecord>)
    ensures byKey == KeyAligned(master, test, keyChoice)
    ensures diffs == DiffReport(master, test, keyChoice)
  {
    var left, right;
    if keyChoice != IndexChoice && keyChoice in master.columns && keyChoice in test.columns {
      left, right := SetIndex(master, keyChoice), SetIndex(test, keyChoice);
      byKey := true;
    } else {
      left, right := ResetIndex(master), ResetIndex(test);
      byKey := false;
    }
    var allCols := ColumnUnion(left.columns, right.columns);
    left := Reindex(left, allCols);
    right := Reindex(right, allCols);
    var allIndex := KeyUnion(left.index, right.index);
    diffs := CompareCells(allIndex, allCols, left, right);
  }

  /**
   * The comparison loop: for each label of the united index, the records of
   * its row, in order.
   */
  method CompareCells(allIndex: seq<Key>, allCols: seq<string>, left: Frame, right: Frame) returns (diffs: seq<DiffRecord>)
    ensures diffs == Diffs(allIndex, allCols, left, right)
  {
    diffs := [];
    for i := 0 to |allIndex|
      invariant diffs == Diffs(allIndex[..i], allCols, left, right)
    {
      var found := CompareRow(allIndex[i], allCols, left, right);
      diffs := diffs + found;
      assert allIndex[..i + 1][..i] == allIndex[..i];
    }
    assert allIndex[..|allIndex|] == allIndex;
  }

  /**
   * One iteration of the comparison loop: fetch the two cells of label
   * `idx` under each column, skip two nulls, record a difference.
   */
  method CompareRow(idx: Key, allCols: seq<string>, left: Frame, right: Frame) returns (found: seq<DiffRecord>)
    ensures found == RowDiffs(idx, allCols, left, right)
  {
    found := [];
    for j := 0 to |allCols|
      invariant found == RowDiffs(idx, allCols[..j], left, right)
    {
      var col := allCols[j];
      var a := FrameCell(left, idx, col);
      var b := FrameCell(right, idx, col);
      assert allCols[..j + 1][..j] == allCols[..j];
      if a.None? && b.None? {
        continue;
      }
      if (a.None? && b.Some?) || (a.Some? && b.None?) || a.value != b.value {
        found := found + [DiffRecord(idx, col, a, b)];
      }
    }
    assert allCols[..|allCols|] == allCols;
  }

  /** A record of the grid `keys` x `cols`: the pair's two cells, which differ. */
  ghost predicate IsDiff(d: DiffRecord, keys: seq<Key>, cols: seq<string>, left: Frame, right: Frame) {
    && d.key in keys
    && d.column in cols
    && d.master == FrameCell(left, d.key, d.column)
    && d.test == FrameCell(right, d.key, d.column)
    && d.master != d.test
  }

  lemma {:induction false} RowDiffsMembership(k: Key, cols: seq<string>, left: Frame, right: Frame, d: DiffRecord)
    ensures d in RowDiffs(k, cols, left, right) <==> d.key == k && IsDiff(d, [k], cols, left, right)
    decreases |cols|
  {
    if cols != [] {
      var init, last := cols[..|cols| - 1], cols[|cols| - 1];
      RowDiffsMembership(k, init, left, right, d);
      CellEquivalence(FrameCell(left, k, last), FrameCell(right, k, last));
      assert cols == init + [last];
      assert forall c :: c in cols <==> c in init || c == last;
    }
  }

  /** A record is emitted exactly for a label and a column whose cells differ. */
  lemma {:induction false} DiffsMembership(keys: seq<Key>, cols: seq<string>, left: Frame, right: Frame, d: DiffRecord)
    ensures d in Diffs(keys, cols, left, right) <==> IsDiff(d, keys, cols, left, right)
    decreases |keys|
  {
    if keys != [] {
      var init, last := keys[..|keys| - 1], keys[|keys| - 1];
      DiffsMembership(init, cols, left, right, d);
      RowDiffsMembership(last, cols, left, right, d);
      assert keys == init + [last];
      assert forall k :: k in keys <==> k in init || k == last;
    }
  }

  /**
   * The report holds exactly one record per label of either side and column
   * of either side whose two cells differ; a side lacking the label or the
   * column contributes a null.
   */
  lemma DiffReportMembership(master: Table, test: Table, keyChoice: string, d: DiffRecord)
    ensures var a := Align(master, test, keyChoice);
      d in DiffReport(master, test, keyChoice) <==>
        && (d.key in a.left.index || d.key in a.right.index)
        && (d.column in a.left.columns || d.column in a.right.columns)
        && d.master == FrameCell(a.left, d.key, d.column)
        && d.test == FrameCell(a.right, d.key, d.column)
        && d.master != d.test
  {
    var a := Align(master, test, keyChoice);
    var p := Prepare(master, test, keyChoice);
    DiffsMembership(p.keys, p.columns, p.left, p.right, d);
    ReindexCell(a.left, p.columns, d.key, d.column);
    ReindexCell(a.right, p.columns, d.key, d.column);
  }

  /** Comparing a table with itself reports nothing, whatever the key choice. */
  lemma SelfDiffEmpty(t: Table, keyChoice: string)
    ensures DiffReport(t, t, keyChoice) == []
  {
    var ds := DiffReport(t, t, keyChoice);
    if ds != [] {
      DiffReportMembership(t, t, keyChoice, ds[0]);
      assert false;
    }
  }

  /**
   * A label only the master has yields a record for exactly the non-null
   * cells of its master row, each against a null test cell.
   */
  lemma MasterOnlyLabel(master: Table, test: Table, keyChoice: string, k: Key)
    requires k in Align(master, test, keyChoice).left.index
    requires k !in Align(master, test, keyChoice).right.index
    ensures var a := Align(master, test, keyChoice);
      forall c :: c in Prepare(master, test, keyChoice).columns ==>
        (DiffRecord(k, c, FrameCell(a.left, k, c), None) in DiffReport(master, test, keyChoice) <==>
          FrameCell(a.left, k, c).Some?)
    ensures forall d :: d in DiffReport(master, test, keyChoice) && d.key == k ==> d.master.Some? && d.test.None?
  {
    var a := Align(master, test, keyChoice);
    var p := Prepare(master, test, keyChoice);
    forall c | c in p.columns {
      DiffReportMembership(master, test, keyChoice, DiffRecord(k, c, FrameCell(a.left, k, c), None));
    }
    forall d | d in DiffReport(master, test, keyChoice) && d.key == k {
      DiffReportMembership(master, test, keyChoice, d);
    }
  }

  /**
   * A label only the test table has yields a record for exactly the non-null
   * cells of its test row, each against a null master cell.
   */
  lemma TestOnlyLabel(master: Table, test: Table, keyChoice: string, k: Key)
    requires k !in Align(master, test, keyChoice).left.index
    requires k in Align(master, test, keyChoice).right.index
    ensures var a := Align(master, test, keyChoice);
      forall c :: c in Prepare(master, test, keyChoice).columns ==>
        (DiffRecord(k, c, None, FrameCell(a.right, k, c)) in DiffReport(master, test, keyChoice) <==>
          FrameCell(a.right, k, c).Some?)
    ensures forall d :: d in DiffReport(master, test, keyChoice) && d.key == k ==> d.master.None? && d.test.Some?
  {
    var a := Align(master, test, keyChoice);
    var p := Prepare(master, test, keyChoice);
    forall c | c in p.columns {
      DiffReportMembership(master, test, keyChoice, DiffRecord(k, c, None, FrameCell(a.right, k, c)));
    }
    forall d | d in DiffReport(master, test, keyChoice) && d.key == k {
      DiffReportMembership(master, test, keyChoice, d);
    }
  }

  /**
   * Records come label by label in the order of `keys` and, within a label,
   * column by column in the order of `cols`; so no (label, column) pair
   * appears twice.
   */
  ghost predicate KeyMajor(ds: seq<DiffRecord>, keys: seq<Key>, cols: seq<string>) {
    forall p, q :: 0 <= p < q < |ds| ==>
      || IndexOf(keys, ds[p].key) < IndexOf(keys, ds[q].key)
      || (ds[p].key == ds[q].key && IndexOf(cols, ds[p].column) < IndexOf(cols, ds[q].column))
  }

  /** Every record carries label `k` and a column among the first `j` of `cols`. */
  ghost predicate WithinRow(ds: seq<DiffRecord>, k: Key, cols: seq<string>, j: nat) {
    forall p :: 0 <= p < |ds| ==> ds[p].key == k && IndexOf(cols, ds[p].column) < j
  }

  /** Records appear in the order of their columns in `cols`. */
  ghost predicate ColumnOrdered(ds: seq<DiffRecord>, cols: seq<string>) {
    forall p, q :: 0 <= p < q < |ds| ==> IndexOf(cols, ds[p].column) < IndexOf(cols, ds[q].column)
  }

  /** Every record carries one of the first `i` labels of `keys`. */
  ghost predicate WithinLabels(ds: seq<DiffRecord>, keys: seq<Key>, i: nat) {
    forall p :: 0 <= p < |ds| ==> IndexOf(keys, ds[p].key) < i
  }

  lemma {:induction false} RowDiffsOrdered(k: Key, cols: seq<string>, j: nat, left: Frame, right: Frame)
    requires Distinct(cols) && j <= |cols|
    ensures WithinRow(RowDiffs(k, cols[..j], left, right), k, cols, j)
    ensures ColumnOrdered(RowDiffs(k, cols[..j], left, right), cols)
    decreases j
  {
    if j > 0 {
      RowDiffsOrdered(k, cols, j - 1, left, right);
      assert cols[..j][..j - 1] == cols[..j - 1];
      IndexOfDistinct(cols, j - 1);
      var prev := RowDiffs(k, cols[..j - 1], left, right);
      var cur := CellDiff(k, cols[j - 1], left, right);
      var ds := RowDiffs(k, cols[..j], left, right);
      assert ds == prev + cur;
      assert forall p :: 0 <= p < |cur| ==> cur[p].key == k && IndexOf(cols, cur[p].column) == j - 1;
      forall p | 0 <= p < |ds| ensures ds[p].key == k && IndexOf(cols, ds[p].column) < j {
        if p >= |prev| {
          assert ds[p] == cur[p - |prev|];
        } else {
          assert ds[p] == prev[p];
        }
      }
      forall p, q | 0 <= p < q < |ds| ensures IndexOf(cols, ds[p].column) < IndexOf(cols, ds[q].column) {
        if q >= |prev| {
          assert ds[q] == cur[q - |prev|];
          assert p < |prev| && ds[p] == prev[p];
        } else {
          assert ds[p] == prev[p] && ds[q] == prev[q];
        }
      }
    }
  }

  /** Appending the records of a label that comes after every label of `a` keeps the order. */
  lemma AppendLabel(a: seq<DiffRecord>, b: seq<DiffRecord>, keys: seq<Key>, cols: seq<string>, k: Key, i: nat)
    requires KeyMajor(a, keys, cols) && WithinLabels(a, keys, i)
    requires WithinRow(b, k, cols, |cols|) && ColumnOrdered(b, cols) && IndexOf(keys, k) == i
    ensures KeyMajor(a + b, keys, cols) && WithinLabels(a + b, keys, i + 1)
  {
    var ds := a + b;
    forall p | 0 <= p < |ds| ensures IndexOf(keys, ds[p].key) < i + 1 {
      if p >= |a| {
        assert ds[p] == b[p - |a|];
      } else {
        assert ds[p] == a[p];
      }
    }
    forall p, q | 0 <= p < q < |ds|
      ensures || IndexOf(keys, ds[p].key) < IndexOf(keys, ds[q].key)
              || (ds[p].key == ds[q].key && IndexOf(cols, ds[p].column) < IndexOf(cols, ds[q].column))
    {
      if q >= |a| {
        assert ds[q] == b[q - |a|];
        if p >= |a| {
          assert ds[p] == b[p - |a|];
        } else {
          assert ds[p] == a[p];
        }
      } else {
        assert ds[p] == a[p] && ds[q] == a[q];
      }
    }
  }

  lemma {:induction false} DiffsOrdered(keys: seq<Key>, cols: seq<string>, i: nat, left: Frame, right: Frame)
    requires Distinct(keys) && Distinct(cols) && i <= |keys|
    ensures WithinLabels(Diffs(keys[..i], cols, left, right), keys, i)
    ensures KeyMajor(Diffs(keys[..i], cols, left, right), keys, cols)
    decreases i
  {
    if i > 0 {
      DiffsOrdered(keys, cols, i - 1, left, right);
      assert keys[..i][..i - 1] == keys[..i - 1];
      IndexOfDistinct(keys, i - 1);
      RowDiffsOrdered(keys[i - 1], cols, |cols|, left, right);
      assert cols[..|cols|] == cols;
      var prev := Diffs(keys[..i - 1], cols, left, right);
      var cur := RowDiffs(keys[i - 1], cols, left, right);
      assert Diffs(keys[..i], cols, left, right) == prev + cur;
      AppendLabel(prev, cur, keys, cols, keys[i - 1], i - 1);
    }
  }

  /**
   * With unique column names and, under key alignment, unique key values on
   * each side, the report is ordered label-major and column-minor along the
   * united labels and columns.
   */
  lemma DiffReportOrdered(master: Table, test: Table, keyChoice: string)
    requires Distinct(master.columns) && Distinct(test.columns)
    requires KeyAligned(master, test, keyChoice) ==>
      Distinct(KeyLabels(master, keyChoice)) && Distinct(KeyLabels(test, keyChoice))
    ensures var p := Prepare(master, test, keyChoice);
      KeyMajor(DiffReport(master, test, keyChoice), p.keys, p.columns)
  {
    var a := Align(master, test, keyChoice);
    assert Distinct(a.left.columns) && Distinct(a.right.columns);
    assert Distinct(a.left.index) && Distinct(a.right.index);
    var p := Prepare(master, test, keyChoice);
    assert Distinct(p.columns) && Distinct(p.keys);
    DiffsOrdered(p.keys, p.columns, |p.keys|, p.left, p.right);
    assert p.keys[..|p.keys|] == p.keys;
  }

  /**
   * Under key alignment a table's row order does not matter: `set_index`
   * finds a unique key's row wherever it sits, so a table with the same
   * columns and the same rows in another order has the same labels and the
   * same cell under every label.
   */
  lemma SetIndexRowOrderFree(t: Table, t2: Table, key: string, k: Key, c: string)
    requires t2.columns == t.columns && multiset(t2.rows) == multiset(t.rows)
    requires Distinct(KeyLabels(t, key))
    ensures SetIndex(t2, key).columns == SetIndex(t, key).columns
    ensures k in SetIndex(t2, key).index <==> k in SetIndex(t, key).index
    ensures FrameCell(SetIndex(t2, key), k, c) == FrameCell(SetIndex(t, key), k, c)
  {
    var f, f2 := SetIndex(t, key), SetIndex(t2, key);
    if k in f.index {
      var i := IndexOf(f.index, k);
      assert t.rows[i] in multiset(t2.rows);
      var j :| 0 <= j < |t2.rows| && t2.rows[j] == t.rows[i];
      assert f2.index[j] == k;
    }
    if k in f2.index {
      var j := IndexOf(f2.index, k);
      assert t2.rows[j] in multiset(t.rows);
      var i :| 0 <= i < |t.rows| && t.rows[i] == t2.rows[j];
      assert f.index[i] == k;
      if c != key {
        assert c in f2.columns <==> c in t.columns;
        assert FrameCell(f2, k, c) == TableCell(t, i, c) == FrameCell(f, k, c);
      } else {
        assert c !in f.columns && c !in f2.columns;
      }
    } else {
      assert FrameCell(f2, k, c) == None == FrameCell(f, k, c);
    }
  }

  /**
   * With key alignment and unique key values, reordering the rows of either
   * table leaves the set of reported records unchanged.
   */
  lemma KeyedReportRowOrderFree(master: Table, test: Table, master2: Table, test2: Table, key: string, d: DiffRecord)
    requires KeyAligned(master, test, key)
    requires master2.columns == master.columns && multiset(master2.rows) == multiset(master.rows)
    requires test2.columns == test.columns && multiset(test2.rows) == multiset(test.rows)
    requires Distinct(KeyLabels(master, key)) && Distinct(KeyLabels(test, key))
    ensures d in DiffReport(master2, test2, key) <==> d in DiffReport(master, test, key)
  {
    assert KeyAligned(master2, test2, key);
    SetIndexRowOrderFree(master, master2, key, d.key, d.column);
    SetIndexRowOrderFree(test, test2, key, d.key, d.column);
    DiffReportMembership(master, test, key, d);
    DiffReportMembership(master2, test2, key, d);
  }

  /**
   * Positional alignment does depend on row order: a table compared with
   * itself reports nothing, but with its two rows swapped it reports a
   * difference.
   */
  lemma PositionalReportRowOrderDependent()
    ensures var master := Table(["A"], [map["A" := Some("1")], map["A" := Some("2")]]);
      var swapped := Table(["A"], [map["A" := Some("2")], map["A" := Some("1")]]);
      && multiset(swapped.rows) == multiset(master.rows)
      && DiffReport(master, master, IndexChoice) == []
      && DiffReport(swapped, master, IndexChoice) != []
  {
    var master := Table(["A"], [map["A" := Some("1")], map["A" := Some("2")]]);
    var swapped := Table(["A"], [map["A" := Some("2")], map["A" := Some("1")]]);
    assert swapped.rows == [master.rows[1], master.rows[0]];
    assert multiset(swapped.rows) == multiset(master.rows);
    SelfDiffEmpty(master, IndexChoice);
    var rec := DiffRecord(Pos(0), "A", Some("2"), Some("1"));
    AlignByPosition(swapped, master, IndexChoice, 0, "A");
    var a := Align(swapped, master, IndexChoice);
    assert a.left.index[0] == Pos(0);
    assert FrameCell(a.left, Pos(0), "A") == Some("2") && FrameCell(a.right, Pos(0), "A") == Some("1");
    DiffReportMembership(swapped, master, IndexChoice, rec);
    assert rec in DiffReport(swapped, master, IndexChoice);
  }

  /** Positional comparison walks the positions of the longer table, in order. */
  lemma PositionalLabels(master: Table, test: Table, keyChoice: string)
    requires !KeyAligned(master, test, keyChoice)
    ensures Prepare(master, test, keyChoice).keys
         == Positions(if |master.rows| < |test.rows| then |test.rows| else |master.rows|)
  {
    PositionsUnion(|master.rows|, |test.rows|);
  }

  /** The warning line: number of records and number of rows they touch. */
  datatype DiffSummary = DiffSummary(total: nat, rows: nat)

  /** The labels that occur in a report. */
  function KeysOf(ds: seq<DiffRecord>): set<Key> {
    set d | d in ds :: d.key
  }

  lemma {:induction false} KeysOfBound(ds: seq<DiffRecord>)
    ensures |KeysOf(ds)| <= |ds|
    decreases |ds|
  {
    if ds != [] {
      var init, last := ds[..|ds| - 1], ds[|ds| - 1];
      KeysOfBound(init);
      assert ds == init + [last];
      assert KeysOf(ds) == KeysOf(init) + {last.key};
    }
  }

  /** Number of distinct labels among the records, a null label included. */
  function DistinctKeyCount(ds: seq<DiffRecord>): (n: nat)
    ensures n <= |ds|
    ensures n == 0 <==> ds == []
  {
    KeysOfBound(ds);
    assert ds != [] ==> ds[0].key in KeysOf(ds);
    |KeysOf(ds)|
  }

  /**
   * `diff_df['Key'].nunique()` as written: NaN labels are not counted, so it
   * falls one short of the distinct labels exactly when a record has the
   * null label.
   */
  function NUnique(ds: seq<DiffRecord>): (n: nat)
    ensures n <= DistinctKeyCount(ds)
    ensures n == DistinctKeyCount(ds) <==> forall d :: d in ds ==> d.key != Label(None)
  {
    var labels := set d | d in ds && d.key != Label(None) :: d.key;
    assert labels == KeysOf(ds) - {Label(None)};
    assert (exists d :: d in ds && d.key == Label(None)) <==> Label(None) in KeysOf(ds);
    |labels|
  }

  /** The summary: record count and rows touched, zero exactly when nothing differs. */
  function Summarize(ds: seq<DiffRecord>): (s: DiffSummary)
    ensures s.total == |ds|
    ensures s.rows <= s.total
    ensures s.rows == 0 <==> ds == []
  {
    DiffSummary(|ds|, DistinctKeyCount(ds))
  }

  /**
   * Keyed on a column whose value is empty in both tables, the one row pair
   * sits under the null label and its one differing cell is reported.
   */
  lemma NullLabelReport()
    ensures var master := Table(["id", "A"], [map["id" := None, "A" := Some("1")]]);
      var test := Table(["id", "A"], [map["id" := None, "A" := Some("2")]]);
      DiffReport(master, test, "id") == [DiffRecord(Label(None), "A", Some("1"), Some("2"))]
  {
    var master := Table(["id", "A"], [map["id" := None, "A" := Some("1")]]);
    var test := Table(["id", "A"], [map["id" := None, "A" := Some("2")]]);
    var a := Align(master, test, "id");
    assert KeyAligned(master, test, "id");
    assert a.left.columns == ["A"] == a.right.columns;
    assert a.left.index == [Label(None)] == a.right.index;
    var p := Prepare(master, test, "id");
    assert p.columns == ["A"];
    assert p.keys == [Label(None)];
    assert FrameCell(p.left, Label(None), "A") == Some("1");
    assert FrameCell(p.right, Label(None), "A") == Some("2");
  }

  /**
   * In that case one differing cell is reported while `nunique()` counts no
   * row at all.
   */
  lemma NullLabelUncounted()
    ensures var master := Table(["id", "A"], [map["id" := None, "A" := Some("1")]]);
      var test := Table(["id", "A"], [map["id" := None, "A" := Some("2")]]);
      var ds := DiffReport(master, test, "id");
      |ds| == 1 && NUnique(ds) == 0 && Summarize(ds).rows == 1
  {
    NullLabelReport();
    var ds := [DiffRecord(Label(None), "A", Some("1"), Some("2"))];
    assert (set d | d in ds && d.key != Label(None) :: d.key) == {};
  }
}
