/**
 * Tables as the comparator sees them after CSV parsing, and the row
 * alignment of app.py: by a key column (`set_index`) when the chosen key is a
 * column of both tables, otherwise by row position (`reset_index`), followed
 * by reindexing both sides onto the union of their columns.
 */
module Tables {
  import opened Wrappers
  import opened Ordering

  /** A cell: `None` is pandas NA/NaN, `Some(s)` holds the text `str()` gives for the value. */
  type Cell = Option<string>

  /** A row maps a column name to its cell. */
  type Row = map<string, Cell>

  /** A parsed CSV: its column names in header order and its rows in file order. */
  datatype Table = Table(columns: seq<string>, rows: seq<Row>)

  /** A row label: a position under `reset_index`, a key cell under `set_index`. */
  datatype Key = Pos(n: nat) | Label(cell: Cell)

  /**
   * A table once its index is set: the remaining columns, one label per row,
   * and the rows themselves.
   */
  datatype Frame = Frame(columns: seq<string>, index: seq<Key>, rows: seq<Row>)

  /** The selectbox entry that asks for comparison by position. */
  const IndexChoice: string := "(Index)"

  /** What a row holds under a column; a column the row lacks reads as null. */
  function At(row: Row, c: string): Cell {
    if c in row then row[c] else None
  }

  /** Cell `c` of row `i`, null when `c` is not a column of the table. */
  function TableCell(t: Table, i: nat, c: string): Cell
    requires i < |t.rows|
  {
    if c in t.columns then At(t.rows[i], c) else None
  }

  /**
   * `f.at[k, c]` guarded as app.py guards it: null unless `c` is a column of
   * the frame and `k` one of its labels. A repeated label resolves to its
   * first row.
   */
  function FrameCell(f: Frame, k: Key, c: string): (r: Cell)
    ensures r.Some? ==> c in f.columns && k in f.index
  {
    var p := IndexOf(f.index, k);
    if c in f.columns && p < |f.index| && p < |f.rows| then At(f.rows[p], c) else None
  }

  /** Order on cells used to sort labels: strings as Python orders them, NaN last. */
  predicate CellLt(a: Cell, b: Cell) {
    a.Some? && (b.None? || StrLt(a.value, b.value))
  }

  /** Order on row labels; positions and key cells are never mixed in one index. */
  predicate KeyLt(a: Key, b: Key) {
    if a.Pos? && b.Pos? then a.n < b.n
    else if a.Pos? then true
    else if b.Pos? then false
    else CellLt(a.cell, b.cell)
  }

  lemma KeyLtIsStrictTotalOrder()
    ensures StrictTotalOrder(KeyLt)
  {
    StrLtIsStrictTotalOrder();
    forall a, b, c | KeyLt(a, b) && KeyLt(b, c) ensures KeyLt(a, c) {
      if a.Label? {
        assert b.Label? && c.Label?;
        if c.cell.Some? {
          assert StrLt(a.cell.value, b.cell.value) && StrLt(b.cell.value, c.cell.value);
        }
      }
    }
    forall a, b | a != b ensures KeyLt(a, b) || KeyLt(b, a) {
      if a.Label? && b.Label? && a.cell.Some? && b.cell.Some? {
        assert a.cell.value != b.cell.value;
      }
    }
  }

  /** The labels `0 .. n-1` of a `RangeIndex`. */
  function Positions(n: nat): (r: seq<Key>)
    ensures |r| == n
    ensures forall i :: 0 <= i < n ==> r[i] == Pos(i)
  {
    seq(n, i requires 0 <= i < n => Pos(i))
  }

  /** The column list with `key` taken out, in header order, as `set_index(key)` leaves it. */
  function Without(cols: seq<string>, key: string): (r: seq<string>)
    ensures forall c :: c in r <==> c in cols && c != key
    ensures Distinct(cols) ==> Distinct(r)
    ensures Distinct(cols) ==> forall i, j :: 0 <= i < j < |r| ==> IndexOf(cols, r[i]) < IndexOf(cols, r[j])
  {
    if cols == [] then []
    else
      var rest := Without(cols[1..], key);
      assert forall c :: c in cols <==> c == cols[0] || c in cols[1..] by {
        assert cols == [cols[0]] + cols[1..];
      }
      assert Distinct(cols) ==> cols[0] !in cols[1..];
      assert forall c :: c in cols[1..] && c != cols[0] ==> IndexOf(cols, c) == 1 + IndexOf(cols[1..], c);
      if cols[0] == key then rest else [cols[0]] + rest
  }

  /** The values of column `key`, row by row, as labels. */
  function KeyLabels(t: Table, key: string): (r: seq<Key>)
    ensures |r| == |t.rows|
    ensures forall i :: 0 <= i < |t.rows| ==> r[i] == Label(At(t.rows[i], key))
  {
    seq(|t.rows|, i requires 0 <= i < |t.rows| => Label(At(t.rows[i], key)))
  }

  /** `t.set_index(key)`: the key column becomes the index and leaves the columns. */
  function SetIndex(t: Table, key: string): (f: Frame)
    ensures f.rows == t.rows && |f.index| == |t.rows|
    ensures forall i :: 0 <= i < |t.rows| ==> f.index[i] == Label(At(t.rows[i], key))
    ensures forall c :: c in f.columns <==> c in t.columns && c != key
    ensures Distinct(KeyLabels(t, key)) ==> forall i, c :: 0 <= i < |t.rows| && c != key ==>
      FrameCell(f, Label(At(t.rows[i], key)), c) == TableCell(t, i, c)
  {
    var f := Frame(Without(t.columns, key), KeyLabels(t, key), t.rows);
    assert Distinct(f.index) ==> forall i :: 0 <= i < |t.rows| ==> IndexOf(f.index, f.index[i]) == i by {
      if Distinct(f.index) {
        forall i | 0 <= i < |t.rows| ensures IndexOf(f.index, f.index[i]) == i {
          IndexOfDistinct(f.index, i);
        }
      }
    }
    f
  }

  /**
   * `t.reset_index(drop=True)`: rows are labelled by position, so row `i`
   * is found under `Pos(i)` and a position past the last row reads as null.
   */
  function ResetIndex(t: Table): (f: Frame)
    ensures f.columns == t.columns && f.rows == t.rows
    ensures forall i: nat, c :: FrameCell(f, Pos(i), c) == if i < |t.rows| then TableCell(t, i, c) else None
  {
    var f := Frame(t.columns, Positions(|t.rows|), t.rows);
    assert forall i :: 0 <= i < |t.rows| ==> IndexOf(f.index, f.index[i]) == i by {
      forall i | 0 <= i < |t.rows| ensures IndexOf(f.index, f.index[i]) == i {
        IndexOfDistinct(f.index, i);
      }
    }
    f
  }

  /** `f.reindex(columns=cols)`: exactly `cols`, a column new to `f` filled with NaN. */
  function Reindex(f: Frame, cols: seq<string>): (r: Frame)
    ensures r.columns == cols && r.index == f.index && |r.rows| == |f.rows|
    ensures forall i, c :: 0 <= i < |f.rows| && c in cols ==>
      At(r.rows[i], c) == if c in f.columns then At(f.rows[i], c) else None
  {
    Frame(cols, f.index,
      seq(|f.rows|, i requires 0 <= i < |f.rows| =>
        map c | c in cols :: if c in f.columns then At(f.rows[i], c) else None))
  }

  /** Key alignment is chosen only for a real column present in both tables. */
  predicate KeyAligned(master: Table, test: Table, keyChoice: string) {
    keyChoice != IndexChoice && keyChoice in master.columns && keyChoice in test.columns
  }

  /** The two frames being compared and whether they are keyed or positional. */
  datatype Alignment = Alignment(byKey: bool, left: Frame, right: Frame)

  /** The alignment branch of the comparison. */
  function Align(master: Table, test: Table, keyChoice: string): (a: Alignment)
    ensures a.byKey == KeyAligned(master, test, keyChoice)
    ensures a.left.rows == master.rows && a.right.rows == test.rows
    ensures !a.byKey ==> a.left.columns == master.columns && a.right.columns == test.columns
    ensures a.byKey ==> forall c :: (c in a.left.columns <==> c in master.columns && c != keyChoice)
                                 && (c in a.right.columns <==> c in test.columns && c != keyChoice)
  {
    if keyChoice != IndexChoice && keyChoice in master.columns && keyChoice in test.columns then
      Alignment(true, SetIndex(master, keyChoice), SetIndex(test, keyChoice))
    else
      Alignment(false, ResetIndex(master), ResetIndex(test))
  }

  /** Reindexing keeps the cells of kept columns and reads every added column as null. */
  lemma ReindexCell(f: Frame, cols: seq<string>, k: Key, c: string)
    ensures FrameCell(Reindex(f, cols), k, c) == if c in cols then FrameCell(f, k, c) else None
  {
  }

  /**
   * Under positional alignment row `i` of a table is found under `Pos(i)`,
   * and a position past its last row reads as null.
   */
  lemma AlignByPosition(master: Table, test: Table, keyChoice: string, i: nat, c: string)
    requires !KeyAligned(master, test, keyChoice)
    ensures !Align(master, test, keyChoice).byKey
    ensures Align(master, test, keyChoice).left.columns == master.columns
    ensures Align(master, test, keyChoice).right.columns == test.columns
    ensures FrameCell(Align(master, test, keyChoice).left, Pos(i), c)
         == if i < |master.rows| then TableCell(master, i, c) else None
    ensures FrameCell(Align(master, test, keyChoice).right, Pos(i), c)
         == if i < |test.rows| then TableCell(test, i, c) else None
  {
    var a := Align(master, test, keyChoice);
    if i < |master.rows| {
      IndexOfDistinct(a.left.index, i);
    }
    if i < |test.rows| {
      IndexOfDistinct(a.right.index, i);
    }
  }

  /**
   * Under key alignment the key column leaves both column lists and, when a
   * table's key values are unique, row `i` is found under its own key value.
   */
  lemma AlignByKey(master: Table, test: Table, key: string, i: nat, c: string)
    requires KeyAligned(master, test, key)
    ensures Align(master, test, key).byKey
    ensures forall x :: x in Align(master, test, key).left.columns <==> x in master.columns && x != key
    ensures forall x :: x in Align(master, test, key).right.columns <==> x in test.columns && x != key
    ensures i < |master.rows| && Distinct(KeyLabels(master, key)) && c != key ==>
      FrameCell(Align(master, test, key).left, Label(At(master.rows[i], key)), c) == TableCell(master, i, c)
    ensures i < |test.rows| && Distinct(KeyLabels(test, key)) && c != key ==>
      FrameCell(Align(master, test, key).right, Label(At(test.rows[i], key)), c) == TableCell(test, i, c)
  {
    var a := Align(master, test, key);
    if i < |master.rows| && Distinct(KeyLabels(master, key)) {
      IndexOfDistinct(a.left.index, i);
    }
    if i < |test.rows| && Distinct(KeyLabels(test, key)) {
      IndexOfDistinct(a.right.index, i);
    }
  }

  /**
   * `pd.Index(a).union(b)` on column names: every column of either side
   * exactly once; sorted by name unless one side is empty or both are equal.
   */
  function ColumnUnion(a: seq<string>, b: seq<string>): (r: seq<string>)
    ensures forall c :: c in r <==> c in a || c in b
    ensures Distinct(a) && Distinct(b) ==> Distinct(r)
    ensures a != [] && b != [] && a != b ==> StrictlySorted(r, StrLt)
    ensures b == [] || a == b ==> r == a
    ensures a == [] && b != [] ==> r == b
  {
    StrLtIsStrictTotalOrder();
    IndexUnion(a, b, StrLt)
  }

  /** `pd.Index(a).union(b)` on row labels. */
  function KeyUnion(a: seq<Key>, b: seq<Key>): (r: seq<Key>)
    ensures forall k :: k in r <==> k in a || k in b
    ensures Distinct(a) && Distinct(b) ==> Distinct(r)
    ensures a != [] && b != [] && a != b ==> StrictlySorted(r, KeyLt)
    ensures b == [] || a == b ==> r == a
    ensures a == [] && b != [] ==> r == b
  {
    KeyLtIsStrictTotalOrder();
    IndexUnion(a, b, KeyLt)
  }

  /** Positional labels of both sides unite to the positions of the longer table. */
  lemma PositionsUnion(n: nat, m: nat)
    ensures KeyUnion(Positions(n), Positions(m)) == Positions(if n < m then m else n)
  {
    KeyLtIsStrictTotalOrder();
    var hi := if n < m then m else n;
    assert forall k :: k in Positions(hi) <==> k in Positions(n) || k in Positions(m) by {
      forall k ensures k in Positions(hi) <==> k in Positions(n) || k in Positions(m) {
        if k in Positions(n) || k in Positions(m) {
          assert k.Pos? && k.n < hi;
          assert Positions(hi)[k.n] == k;
        }
      }
    }
    IndexUnionOfSorted(Positions(n), Positions(m), KeyLt);
    SortedUnique(KeyUnion(Positions(n), Positions(m)), Positions(hi), KeyLt);
  }
}
