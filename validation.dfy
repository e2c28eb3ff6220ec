/**
 * The validation pass of app.py over the (edited) master table: row by row,
 * the DriveTorque rule, the DriveSpeed rule, then every column whose name
 * contains "Flow", each skipping null cells and reporting a non-numeric value
 * or a value outside the rule's range.
 */
module Validation {
  import opened Wrappers
  import opened Ordering
  import opened Tables
  import opened Numbers

  /** The three rules, in the order a row is checked against them. */
  datatype Rule = TorqueRule | SpeedRule | FlowRule

  datatype IssueKind =
    | TorqueOutOfRange | NonNumericTorque
    | NegativeSpeed | NonNumericSpeed
    | NegativeFlow | NonNumericFlow

  /** The `"Value"` of an issue: the converted number, or the raw text that failed to convert. */
  datatype IssueValue = Number(number: real) | Text(text: string)

  /** One report line: `{"Row", "Column", "Value", "Issue"}`. */
  datatype Issue = Issue(row: nat, column: string, value: IssueValue, kind: IssueKind)

  /** The `"Issue"` text of each kind. */
  function Message(k: IssueKind): string {
    match k
    case TorqueOutOfRange => "Torque out of expected range (-1 to 1)"
    case NonNumericTorque => "Non-numeric DriveTorque"
    case NegativeSpeed => "Negative DriveSpeed"
    case NonNumericSpeed => "Non-numeric DriveSpeed"
    case NegativeFlow => "Negative flow value"
    case NonNumericFlow => "Non-numeric flow value"
  }

  function RuleOf(k: IssueKind): Rule {
    match k
    case TorqueOutOfRange | NonNumericTorque => TorqueRule
    case NegativeSpeed | NonNumericSpeed => SpeedRule
    case NegativeFlow | NonNumericFlow => FlowRule
  }

  predicate IsNonNumericKind(k: IssueKind) {
    k == NonNumericTorque || k == NonNumericSpeed || k == NonNumericFlow
  }

  function RangeKind(r: Rule): IssueKind {
    match r
    case TorqueRule => TorqueOutOfRange
    case SpeedRule => NegativeSpeed
    case FlowRule => NegativeFlow
  }

  function ParseKind(r: Rule): IssueKind {
    match r
    case TorqueRule => NonNumericTorque
    case SpeedRule => NonNumericSpeed
    case FlowRule => NonNumericFlow
  }

  /** Accepted values: torque within [-1, 1], speed and flow not negative. */
  predicate InRange(r: Rule, v: real) {
    match r
    case TorqueRule => -1.0 <= v <= 1.0
    case SpeedRule => !(v < 0.0)
    case FlowRule => !(v < 0.0)
  }

  /** Python's `p in s` on strings: `p` occurs somewhere in `s`. */
  predicate HasSubstring(s: string, p: string)
    decreases |s|
  {
    p <= s || (s != [] && HasSubstring(s[1..], p))
  }

  /** `p` occurs in `s` starting at offset `i`. */
  predicate OccursAt(s: string, p: string, i: int) {
    0 <= i <= |s| - |p| && s[i..i + |p|] == p
  }

  /** An occurrence in `s` past its first character is an occurrence in `s[1..]`, one place earlier. */
  lemma OccursShift(s: string, p: string, i: int)
    requires s != [] && 0 <= i
    ensures OccursAt(s, p, i + 1) <==> OccursAt(s[1..], p, i)
  {
    if i + |p| <= |s[1..]| {
      var a, b := s[i + 1..i + 1 + |p|], s[1..][i..i + |p|];
      forall k | 0 <= k < |p| ensures a[k] == b[k] {
        assert s[1..][i + k] == s[i + 1 + k];
      }
      assert a == b;
    }
  }

  /** The search agrees with the definition of an occurrence at some offset. */
  lemma {:induction false} HasSubstringOccurs(s: string, p: string)
    ensures HasSubstring(s, p) <==> exists i :: OccursAt(s, p, i)
    decreases |s|
  {
    if p <= s {
      assert OccursAt(s, p, 0);
    } else if s != [] {
      HasSubstringOccurs(s[1..], p);
      assert !OccursAt(s, p, 0);
      forall i | OccursAt(s, p, i) ensures OccursAt(s[1..], p, i - 1) {
        OccursShift(s, p, i - 1);
      }
      forall i | OccursAt(s[1..], p, i) ensures OccursAt(s, p, i + 1) {
        OccursShift(s, p, i);
      }
    }
  }

  /** A string without the first character of `p` does not contain `p`. */
  lemma {:induction false} MissingFirstChar(s: string, p: string)
    requires p != [] && p[0] !in s
    ensures !HasSubstring(s, p)
    decreases |s|
  {
    if s != [] {
      assert p[0] != s[0];
      assert s[1..] <= s[1..] && forall c :: c in s[1..] ==> c in s;
      MissingFirstChar(s[1..], p);
    }
  }

  /** Neither named column falls under the "Flow" rule. */
  lemma NamedColumnsNotFlow()
    ensures !HasSubstring("DriveTorque", "Flow") && !HasSubstring("DriveSpeed", "Flow")
  {
    MissingFirstChar("DriveTorque", "Flow");
    MissingFirstChar("DriveSpeed", "Flow");
  }

  /** A rule applies to a column: the two named columns, and every column containing "Flow". */
  predicate Applies(t: Table, r: Rule, col: string) {
    col in t.columns &&
    match r
    case TorqueRule => col == "DriveTorque"
    case SpeedRule => col == "DriveSpeed"
    case FlowRule => HasSubstring(col, "Flow")
  }

  /**
   * A conversion of cell text to a number, `None` where it fails. The rules
   * below are stated for any conversion; the report uses `float()` as
   * `ParseNum` models it.
   */
  type Converter = string -> Option<real>

  /** The issue, if any, a non-null cell raises under a rule. */
  function CheckCell(i: nat, col: string, text: string, r: Rule, conv: Converter): seq<Issue> {
    match conv(text)
    case None => [Issue(i, col, Text(text), ParseKind(r))]
    case Some(v) => if InRange(r, v) then [] else [Issue(i, col, Number(v), RangeKind(r))]
  }

  /** A rule on one cell of row `i`: nothing when the cell is null or not a column. */
  function RuleIssues(t: Table, i: nat, col: string, r: Rule, conv: Converter): seq<Issue>
    requires i < |t.rows|
  {
    match TableCell(t, i, col)
    case None => []
    case Some(text) => CheckCell(i, col, text, r, conv)
  }

  /** The "Flow" rule over the columns `cols`, in their order. */
  function FlowIssues(t: Table, i: nat, cols: seq<string>, conv: Converter): seq<Issue>
    requires i < |t.rows|
    decreases |cols|
  {
    if cols == [] then []
    else
      var col := cols[|cols| - 1];
      FlowIssues(t, i, cols[..|cols| - 1], conv)
        + (if HasSubstring(col, "Flow") then RuleIssues(t, i, col, FlowRule, conv) else [])
  }

  /** All issues of row `i`: torque, then speed, then the flow columns. */
  function RowIssues(t: Table, i: nat, conv: Converter): seq<Issue>
    requires i < |t.rows|
  {
    RuleIssues(t, i, "DriveTorque", TorqueRule, conv)
      + RuleIssues(t, i, "DriveSpeed", SpeedRule, conv)
      + FlowIssues(t, i, t.columns, conv)
  }

  /** The issues of the first `n` rows, row by row. */
  function Issues(t: Table, n: nat, conv: Converter): seq<Issue>
    requires n <= |t.rows|
  {
    if n == 0 then [] else Issues(t, n - 1, conv) + RowIssues(t, n - 1, conv)
  }

  function ValidationReport(t: Table): seq<Issue> {
    Issues(t, |t.rows|, ParseNum)
  }

  /**
   * The validation loop: every row of the table in order, each checked as
   * `ValidateRow` checks it.
   */
  method Validate(t: Table) returns (issues: seq<Issue>)
    ensures issues == ValidationReport(t)
  {
    issues := [];
    for i := 0 to |t.rows|
      invariant issues == Issues(t, i, ParseNum)
    {
      var found := ValidateRow(t, i);
      issues := issues + found;
    }
  }

  /**
   * One iteration of the validation loop: the DriveTorque and DriveSpeed
   * checks, then a pass over the columns for those containing "Flow".
   */
  method ValidateRow(t: Table, i: nat) returns (found: seq<Issue>)
    requires i < |t.rows|
    ensures found == RowIssues(t, i, ParseNum)
  {
    found := TorqueCheck(t, i);
    var speed := SpeedCheck(t, i);
    found := found + speed;
    var flows := FlowChecks(t, i);
    found := found + flows;
  }

  /** The DriveTorque check of row `i`: skipped for a null cell, else within [-1, 1]. */
  method TorqueCheck(t: Table, i: nat) returns (issue: seq<Issue>)
    requires i < |t.rows|
    ensures issue == RuleIssues(t, i, "DriveTorque", TorqueRule, ParseNum)
  {
    issue := [];
    var row := t.rows[i];
    if "DriveTorque" in t.columns && At(row, "DriveTorque").Some? {
      var text := At(row, "DriveTorque").value;
      match ParseNum(text) {
        case Some(v) =>
          if !(-1.0 <= v <= 1.0) {
            issue := [Issue(i, "DriveTorque", Number(v), TorqueOutOfRange)];
          }
        case None =>
          issue := [Issue(i, "DriveTorque", Text(text), NonNumericTorque)];
      }
      assert issue == CheckCell(i, "DriveTorque", text, TorqueRule, ParseNum);
    }
  }

  /** The DriveSpeed check of row `i`: skipped for a null cell, else not negative. */
  method SpeedCheck(t: Table, i: nat) returns (issue: seq<Issue>)
    requires i < |t.rows|
    ensures issue == RuleIssues(t, i, "DriveSpeed", SpeedRule, ParseNum)
  {
    issue := [];
    var row := t.rows[i];
    if "DriveSpeed" in t.columns && At(row, "DriveSpeed").Some? {
      var text := At(row, "DriveSpeed").value;
      match ParseNum(text) {
        case Some(v) =>
          if v < 0.0 {
            issue := [Issue(i, "DriveSpeed", Number(v), NegativeSpeed)];
          }
        case None =>
          issue := [Issue(i, "DriveSpeed", Text(text), NonNumericSpeed)];
      }
      assert issue == CheckCell(i, "DriveSpeed", text, SpeedRule, ParseNum);
    }
  }

  /** The pass over the columns of row `i` that applies the "Flow" rule. */
  method FlowChecks(t: Table, i: nat) returns (found: seq<Issue>)
    requires i < |t.rows|
    ensures found == FlowIssues(t, i, t.columns, ParseNum)
  {
    found := [];
    for j := 0 to |t.columns|
      invariant found == FlowIssues(t, i, t.columns[..j], ParseNum)
    {
      FlowIssuesStep(t, i, t.columns, j, ParseNum);
      var issue := FlowCheck(t, i, t.columns[j]);
      found := found + issue;
    }
    assert t.columns[..|t.columns|] == t.columns;
  }

  /** The flow issues of one more column are those of the column appended. */
  lemma FlowIssuesStep(t: Table, i: nat, cols: seq<string>, j: nat, conv: Converter)
    requires i < |t.rows| && j < |cols|
    ensures FlowIssues(t, i, cols[..j + 1], conv)
         == FlowIssues(t, i, cols[..j], conv)
            + (if HasSubstring(cols[j], "Flow") then RuleIssues(t, i, cols[j], FlowRule, conv) else [])
  {
    assert cols[..j + 1][..j] == cols[..j];
  }

  /** One column of that pass: checked only when its name contains "Flow". */
  method FlowCheck(t: Table, i: nat, col: string) returns (issue: seq<Issue>)
    requires i < |t.rows| && col in t.columns
    ensures issue == if HasSubstring(col, "Flow") then RuleIssues(t, i, col, FlowRule, ParseNum) else []
  {
    issue := [];
    if HasSubstring(col, "Flow") {
      issue := FlowCellCheck(t, i, col);
    }
  }

  /** The flow check of one cell: skipped when null, else numeric and not negative. */
  method FlowCellCheck(t: Table, i: nat, col: string) returns (issue: seq<Issue>)
    requires i < |t.rows| && col in t.columns
    ensures issue == RuleIssues(t, i, col, FlowRule, ParseNum)
  {
    issue := [];
    var row := t.rows[i];
    if At(row, col).Some? {
      var text := At(row, col).value;
      match ParseNum(text) {
        case Some(fv) =>
          if fv < 0.0 {
            issue := [Issue(i, col, Number(fv), NegativeFlow)];
          }
        case None =>
          issue := [Issue(i, col, Text(text), NonNumericFlow)];
      }
      assert issue == CheckCell(i, col, text, FlowRule, ParseNum);
    }
  }

  /**
   * What makes `iss` the issue cell `col` of row `i` raises under rule `r`:
   * the cell is not null and either fails to convert (the issue carries the
   * text) or converts to a value outside the rule's range (it carries the value).
   */
  ghost predicate CellFlag(t: Table, i: nat, col: string, r: Rule, iss: Issue, conv: Converter)
    requires i < |t.rows|
  {
    && iss.row == i && iss.column == col && RuleOf(iss.kind) == r
    && match TableCell(t, i, col)
       case None => false
       case Some(text) =>
         match conv(text)
         case None => iss.kind == ParseKind(r) && iss.value == Text(text)
         case Some(v) => !InRange(r, v) && iss.kind == RangeKind(r) && iss.value == Number(v)
  }

  /** An issue the validation rules raise for the table. */
  ghost predicate Flagged(t: Table, iss: Issue, conv: Converter) {
    && iss.row < |t.rows|
    && Applies(t, RuleOf(iss.kind), iss.column)
    && CellFlag(t, iss.row, iss.column, RuleOf(iss.kind), iss, conv)
  }

  lemma RuleIssuesMembership(t: Table, i: nat, col: string, r: Rule, iss: Issue, conv: Converter)
    requires i < |t.rows|
    ensures iss in RuleIssues(t, i, col, r, conv) <==> CellFlag(t, i, col, r, iss, conv)
  {
  }

  lemma {:induction false} FlowIssuesMembership(t: Table, i: nat, cols: seq<string>, iss: Issue, conv: Converter)
    requires i < |t.rows|
    ensures iss in FlowIssues(t, i, cols, conv) <==>
      iss.column in cols && HasSubstring(iss.column, "Flow") && CellFlag(t, i, iss.column, FlowRule, iss, conv)
    decreases |cols|
  {
    if cols != [] {
      var pre := cols[..|cols| - 1];
      var col := cols[|cols| - 1];
      FlowIssuesMembership(t, i, pre, iss, conv);
      RuleIssuesMembership(t, i, col, FlowRule, iss, conv);
      assert cols == pre + [col];
      assert iss.column in cols <==> iss.column in pre || iss.column == col;
    }
  }

  lemma RowIssuesMembership(t: Table, i: nat, iss: Issue, conv: Converter)
    requires i < |t.rows|
    ensures iss in RowIssues(t, i, conv) <==> iss.row == i && Flagged(t, iss, conv)
  {
    var torque := RuleIssues(t, i, "DriveTorque", TorqueRule, conv);
    var speed := RuleIssues(t, i, "DriveSpeed", SpeedRule, conv);
    var flow := FlowIssues(t, i, t.columns, conv);
    assert RowIssues(t, i, conv) == torque + speed + flow;
    RuleIssuesMembership(t, i, "DriveTorque", TorqueRule, iss, conv);
    RuleIssuesMembership(t, i, "DriveSpeed", SpeedRule, iss, conv);
    FlowIssuesMembership(t, i, t.columns, iss, conv);
  }

  /** Every issue of row `i` names row `i`. */
  lemma RowIssuesRow(t: Table, i: nat, iss: Issue, conv: Converter)
    requires i < |t.rows|
    ensures iss in RowIssues(t, i, conv) ==> iss.row == i
  {
    RowIssuesMembership(t, i, iss, conv);
  }

  /** The issues of each of the first `n` rows, one part per row. */
  ghost function RowParts(t: Table, n: nat, conv: Converter): (parts: seq<seq<Issue>>)
    requires n <= |t.rows|
    ensures |parts| == n
    ensures forall i :: 0 <= i < n ==> parts[i] == RowIssues(t, i, conv)
  {
    seq(n, i requires 0 <= i < n => RowIssues(t, i, conv))
  }

  /** The parts laid end to end, in order. */
  ghost function Flatten(parts: seq<seq<Issue>>): seq<Issue>
    decreases |parts|
  {
    if parts == [] then [] else Flatten(parts[..|parts| - 1]) + parts[|parts| - 1]
  }

  /** The report of the first `n` rows is the issues of those rows laid end to end. */
  lemma {:induction false} IssuesFlatten(t: Table, n: nat, conv: Converter)
    requires n <= |t.rows|
    ensures Issues(t, n, conv) == Flatten(RowParts(t, n, conv))
    decreases n
  {
    if n > 0 {
      IssuesFlatten(t, n - 1, conv);
      assert RowParts(t, n, conv)[..n - 1] == RowParts(t, n - 1, conv);
    }
  }

  /** Every issue in part `k` names row `k`. */
  ghost predicate Tagged(parts: seq<seq<Issue>>) {
    forall k, x :: 0 <= k < |parts| && x in parts[k] ==> x.row == k
  }

  lemma {:induction false} FlattenMembership(parts: seq<seq<Issue>>, x: Issue)
    requires Tagged(parts)
    ensures x in Flatten(parts) <==> x.row < |parts| && x in parts[x.row]
    decreases |parts|
  {
    if parts != [] {
      var init := parts[..|parts| - 1];
      assert forall k :: 0 <= k < |init| ==> init[k] == parts[k];
      FlattenMembership(init, x);
    }
  }

  lemma IssuesMembership(t: Table, n: nat, iss: Issue, conv: Converter)
    requires n <= |t.rows|
    ensures iss in Issues(t, n, conv) <==> iss.row < n && Flagged(t, iss, conv)
  {
    IssuesFlatten(t, n, conv);
    var parts := RowParts(t, n, conv);
    forall k: nat, x: Issue | k < n && x in parts[k] ensures x.row == k {
      RowIssuesRow(t, k, x, conv);
    }
    FlattenMembership(parts, iss);
    if iss.row < n {
      RowIssuesMembership(t, iss.row, iss, conv);
    }
  }

  /**
   * The report holds exactly the issues the rules raise: a non-null cell of
   * an applicable column that is non-numeric, or numeric and out of range.
   */
  lemma ValidationMembership(t: Table, iss: Issue)
    ensures iss in ValidationReport(t) <==> Flagged(t, iss, ParseNum)
  {
    IssuesMembership(t, |t.rows|, iss, ParseNum);
  }

  /** A null cell never raises an issue, and every issue names a column of the table. */
  lemma IssuesNameNonNullCells(t: Table, iss: Issue)
    requires iss in ValidationReport(t)
    ensures iss.row < |t.rows| && iss.column in t.columns
    ensures TableCell(t, iss.row, iss.column).Some?
    ensures IsNonNumericKind(iss.kind) <==> ParseNum(TableCell(t, iss.row, iss.column).value) == None
  {
    ValidationMembership(t, iss);
  }

  /**
   * A checked cell whose text converts to `v` is reported, with `v`, exactly
   * when `v` is outside the rule's range, and never as non-numeric.
   */
  lemma ConvertedCell(t: Table, i: nat, col: string, r: Rule, text: string, v: real, conv: Converter)
    requires i < |t.rows| && Applies(t, r, col)
    requires At(t.rows[i], col) == Some(text) && conv(text) == Some(v)
    ensures Issue(i, col, Number(v), RangeKind(r)) in Issues(t, |t.rows|, conv) <==> !InRange(r, v)
    ensures forall k :: Issue(i, col, Text(text), k) !in Issues(t, |t.rows|, conv)
  {
    IssuesMembership(t, |t.rows|, Issue(i, col, Number(v), RangeKind(r)), conv);
    forall k ensures Issue(i, col, Text(text), k) !in Issues(t, |t.rows|, conv) {
      IssuesMembership(t, |t.rows|, Issue(i, col, Text(text), k), conv);
    }
  }

  /**
   * A checked cell whose text does not convert is reported as non-numeric,
   * with its text, and never with a value.
   */
  lemma UnconvertedCell(t: Table, i: nat, col: string, r: Rule, text: string, conv: Converter)
    requires i < |t.rows| && Applies(t, r, col)
    requires At(t.rows[i], col) == Some(text) && conv(text) == None
    ensures Issue(i, col, Text(text), ParseKind(r)) in Issues(t, |t.rows|, conv)
    ensures forall v, k :: Issue(i, col, Number(v), k) !in Issues(t, |t.rows|, conv)
  {
    assert RuleOf(ParseKind(r)) == r;
    IssuesMembership(t, |t.rows|, Issue(i, col, Text(text), ParseKind(r)), conv);
    forall v, k ensures Issue(i, col, Number(v), k) !in Issues(t, |t.rows|, conv) {
      IssuesMembership(t, |t.rows|, Issue(i, col, Number(v), k), conv);
    }
  }

  /**
   * A torque written as an integer is reported exactly when it lies outside
   * [-1, 1], and then with its value.
   */
  lemma IntegerTorque(t: Table, i: nat, x: int)
    requires i < |t.rows| && "DriveTorque" in t.columns
    requires At(t.rows[i], "DriveTorque") == Some(IntText(x))
    ensures Issue(i, "DriveTorque", Number(x as real), TorqueOutOfRange) in ValidationReport(t) <==> x < -1 || x > 1
    ensures forall k :: Issue(i, "DriveTorque", Text(IntText(x)), k) !in ValidationReport(t)
  {
    IntTextRoundTrip(x);
    ConvertedCell(t, i, "DriveTorque", TorqueRule, IntText(x), x as real, ParseNum);
  }

  /** A speed or flow written as an integer is reported exactly when it is negative. */
  lemma IntegerNonNegative(t: Table, i: nat, col: string, r: Rule, x: int)
    requires r != TorqueRule && i < |t.rows| && Applies(t, r, col)
    requires At(t.rows[i], col) == Some(IntText(x))
    ensures Issue(i, col, Number(x as real), RangeKind(r)) in ValidationReport(t) <==> x < 0
  {
    IntTextRoundTrip(x);
    ConvertedCell(t, i, col, r, IntText(x), x as real, ParseNum);
  }

  /** A cell without a digit in a checked column is reported as non-numeric, with its text. */
  lemma NonNumericReported(t: Table, i: nat, col: string, r: Rule, text: string)
    requires i < |t.rows| && Applies(t, r, col)
    requires At(t.rows[i], col) == Some(text)
    requires forall k :: 0 <= k < |text| ==> !IsDigit(text[k])
    ensures Issue(i, col, Text(text), ParseKind(r)) in ValidationReport(t)
    ensures forall v, k :: Issue(i, col, Number(v), k) !in ValidationReport(t)
  {
    NoDigitNoNumber(text);
    UnconvertedCell(t, i, col, r, text, ParseNum);
  }

  /** Where an issue sits within its row: torque, speed, then the flow columns in header order. */
  function Rank(t: Table, iss: Issue): nat {
    match RuleOf(iss.kind)
    case TorqueRule => 0
    case SpeedRule => 1
    case FlowRule => 2 + IndexOf(t.columns, iss.column)
  }

  /** `x` comes before `y` in the loop order. */
  predicate Precedes(t: Table, x: Issue, y: Issue) {
    x.row < y.row || (x.row == y.row && Rank(t, x) < Rank(t, y))
  }

  /** Issues come row by row and, within a row, in strictly increasing rank. */
  ghost predicate RowMajor(t: Table, ds: seq<Issue>) {
    forall p, q :: 0 <= p < q < |ds| ==> Precedes(t, ds[p], ds[q])
  }

  /** Every issue of `a` comes before every issue of `b`. */
  ghost predicate AllPrecede(t: Table, a: seq<Issue>, b: seq<Issue>) {
    forall p, q :: 0 <= p < |a| && 0 <= q < |b| ==> Precedes(t, a[p], b[q])
  }

  lemma ConcatRowMajor(t: Table, a: seq<Issue>, b: seq<Issue>)
    requires RowMajor(t, a) && RowMajor(t, b) && AllPrecede(t, a, b)
    ensures RowMajor(t, a + b)
  {
    var ds := a + b;
    forall p, q | 0 <= p < q < |ds| ensures Precedes(t, ds[p], ds[q]) {
      if q < |a| {
        assert ds[p] == a[p] && ds[q] == a[q];
      } else if p < |a| {
        assert ds[p] == a[p] && ds[q] == b[q - |a|];
      } else {
        assert ds[p] == b[p - |a|] && ds[q] == b[q - |a|];
      }
    }
  }

  /** Every issue is a flow issue of row `i` in one of the first `j` columns. */
  ghost predicate FlowWithin(t: Table, ds: seq<Issue>, i: nat, j: nat) {
    forall p :: 0 <= p < |ds| ==>
      ds[p].row == i && RuleOf(ds[p].kind) == FlowRule && IndexOf(t.columns, ds[p].column) < j
  }

  /** Every issue belongs to row `i`. */
  ghost predicate InRow(ds: seq<Issue>, i: nat) {
    forall p :: 0 <= p < |ds| ==> ds[p].row == i
  }

  lemma RuleIssuesShape(t: Table, i: nat, col: string, r: Rule, conv: Converter)
    requires i < |t.rows|
    ensures |RuleIssues(t, i, col, r, conv)| <= 1
    ensures forall p :: 0 <= p < |RuleIssues(t, i, col, r, conv)| ==>
      var iss := RuleIssues(t, i, col, r, conv)[p];
      iss.row == i && iss.column == col && RuleOf(iss.kind) == r
  {
  }

  /** Appending at most one flow issue of column `j` keeps the flow issues ordered. */
  lemma AppendFlow(t: Table, prev: seq<Issue>, cur: seq<Issue>, i: nat, j: nat)
    requires FlowWithin(t, prev, i, j) && RowMajor(t, prev) && |cur| <= 1
    requires forall q :: 0 <= q < |cur| ==>
      cur[q].row == i && RuleOf(cur[q].kind) == FlowRule && IndexOf(t.columns, cur[q].column) == j
    ensures FlowWithin(t, prev + cur, i, j + 1) && RowMajor(t, prev + cur)
  {
    ConcatRowMajor(t, prev, cur);
    forall p | 0 <= p < |prev + cur|
      ensures (prev + cur)[p].row == i && RuleOf((prev + cur)[p].kind) == FlowRule
      ensures IndexOf(t.columns, (prev + cur)[p].column) < j + 1
    {
      if p >= |prev| {
        assert (prev + cur)[p] == cur[p - |prev|];
      } else {
        assert (prev + cur)[p] == prev[p];
      }
    }
  }

  lemma {:induction false} FlowIssuesOrdered(t: Table, i: nat, j: nat, conv: Converter)
    requires i < |t.rows| && j <= |t.columns| && Distinct(t.columns)
    ensures FlowWithin(t, FlowIssues(t, i, t.columns[..j], conv), i, j)
    ensures RowMajor(t, FlowIssues(t, i, t.columns[..j], conv))
    decreases j
  {
    if j > 0 {
      FlowIssuesOrdered(t, i, j - 1, conv);
      assert t.columns[..j][..j - 1] == t.columns[..j - 1];
      IndexOfDistinct(t.columns, j - 1);
      var col := t.columns[j - 1];
      var prev := FlowIssues(t, i, t.columns[..j - 1], conv);
      var cur := if HasSubstring(col, "Flow") then RuleIssues(t, i, col, FlowRule, conv) else [];
      RuleIssuesShape(t, i, col, FlowRule, conv);
      assert FlowIssues(t, i, t.columns[..j], conv) == prev + cur;
      AppendFlow(t, prev, cur, i, j - 1);
    }
  }

  lemma ConcatInRow(a: seq<Issue>, b: seq<Issue>, i: nat)
    requires InRow(a, i) && InRow(b, i)
    ensures InRow(a + b, i)
  {
    forall p | 0 <= p < |a + b| ensures (a + b)[p].row == i {
      if p < |a| {
        assert (a + b)[p] == a[p];
      } else {
        assert (a + b)[p] == b[p - |a|];
      }
    }
  }

  /** Issues of the two named rules come before the flow issues of the same row. */
  lemma NamedBeforeFlow(t: Table, a: seq<Issue>, flow: seq<Issue>, i: nat)
    requires InRow(a, i) && forall p :: 0 <= p < |a| ==> RuleOf(a[p].kind) != FlowRule
    requires FlowWithin(t, flow, i, |t.columns|)
    ensures AllPrecede(t, a, flow)
  {
  }

  lemma RowIssuesOrdered(t: Table, i: nat, conv: Converter)
    requires i < |t.rows| && Distinct(t.columns)
    ensures InRow(RowIssues(t, i, conv), i)
    ensures RowMajor(t, RowIssues(t, i, conv))
  {
    FlowIssuesOrdered(t, i, |t.columns|, conv);
    assert t.columns[..|t.columns|] == t.columns;
    var torque := RuleIssues(t, i, "DriveTorque", TorqueRule, conv);
    var speed := RuleIssues(t, i, "DriveSpeed", SpeedRule, conv);
    var flow := FlowIssues(t, i, t.columns, conv);
    RuleIssuesShape(t, i, "DriveTorque", TorqueRule, conv);
    RuleIssuesShape(t, i, "DriveSpeed", SpeedRule, conv);
    ConcatRowMajor(t, torque, speed);
    ConcatInRow(torque, speed, i);
    var named := torque + speed;
    assert forall p :: 0 <= p < |named| ==> RuleOf(named[p].kind) != FlowRule by {
      forall p | 0 <= p < |named| ensures RuleOf(named[p].kind) != FlowRule {
        if p < |torque| {
          assert named[p] == torque[p];
        } else {
          assert named[p] == speed[p - |torque|];
        }
      }
    }
    NamedBeforeFlow(t, named, flow, i);
    ConcatRowMajor(t, named, flow);
    ConcatInRow(named, flow, i);
    assert RowIssues(t, i, conv) == named + flow;
  }

  /** Every issue comes from one of the first `n` rows. */
  ghost predicate RowsBelow(ds: seq<Issue>, n: nat) {
    forall p :: 0 <= p < |ds| ==> ds[p].row < n
  }

  lemma {:induction false} FlattenOrdered(t: Table, parts: seq<seq<Issue>>)
    requires forall k :: 0 <= k < |parts| ==> InRow(parts[k], k) && RowMajor(t, parts[k])
    ensures RowsBelow(Flatten(parts), |parts|)
    ensures RowMajor(t, Flatten(parts))
    decreases |parts|
  {
    if parts != [] {
      var n := |parts|;
      var init := parts[..n - 1];
      assert forall k :: 0 <= k < |init| ==> init[k] == parts[k];
      FlattenOrdered(t, init);
      var prev := Flatten(init);
      var cur := parts[n - 1];
      ConcatRowMajor(t, prev, cur);
      forall p | 0 <= p < |prev + cur| ensures (prev + cur)[p].row < n {
        if p >= |prev| {
          assert (prev + cur)[p] == cur[p - |prev|];
        } else {
          assert (prev + cur)[p] == prev[p];
        }
      }
    }
  }

  lemma IssuesOrdered(t: Table, n: nat, conv: Converter)
    requires n <= |t.rows| && Distinct(t.columns)
    ensures RowsBelow(Issues(t, n, conv), n)
    ensures RowMajor(t, Issues(t, n, conv))
  {
    IssuesFlatten(t, n, conv);
    var parts := RowParts(t, n, conv);
    forall k | 0 <= k < n ensures InRow(parts[k], k) && RowMajor(t, parts[k]) {
      RowIssuesOrdered(t, k, conv);
    }
    FlattenOrdered(t, parts);
  }

  /**
   * With unique column names the report follows the loop order: rows in
   * order, and within a row torque, speed, then the flow columns in header
   * order; so no cell is reported twice under one rule.
   */
  lemma ValidationOrdered(t: Table)
    requires Distinct(t.columns)
    ensures RowMajor(t, ValidationReport(t))
    ensures Distinct(ValidationReport(t))
    ensures forall p, q :: 0 <= p < q < |ValidationReport(t)| ==>
      var x, y := ValidationReport(t)[p], ValidationReport(t)[q];
      !(x.row == y.row && x.column == y.column && RuleOf(x.kind) == RuleOf(y.kind))
  {
    IssuesOrdered(t, |t.rows|, ParseNum);
  }

  /** How many of `cols` contain "Flow". */
  function FlowColumnCount(cols: seq<string>): nat
    decreases |cols|
  {
    if cols == [] then 0
    else FlowColumnCount(cols[..|cols| - 1]) + (if HasSubstring(cols[|cols| - 1], "Flow") then 1 else 0)
  }

  /** The flow columns and the two named columns are different columns. */
  lemma {:induction false} FlowColumnCountBound(cols: seq<string>)
    ensures FlowColumnCount(cols)
      + (if "DriveTorque" in cols then 1 else 0)
      + (if "DriveSpeed" in cols then 1 else 0) <= |cols|
    decreases |cols|
  {
    if cols != [] {
      var pre := cols[..|cols| - 1];
      var last := cols[|cols| - 1];
      FlowColumnCountBound(pre);
      assert cols == pre + [last];
      assert forall c :: c in cols <==> c in pre || c == last;
      if last == "DriveTorque" || last == "DriveSpeed" {
        NamedColumnsNotFlow();
        assert FlowColumnCount(cols) == FlowColumnCount(pre);
      } else {
        assert ("DriveTorque" in cols <==> "DriveTorque" in pre) && ("DriveSpeed" in cols <==> "DriveSpeed" in pre);
      }
    }
  }

  /** The flow pass raises at most one issue per flow column. */
  lemma {:induction false} FlowIssuesBound(t: Table, i: nat, cols: seq<string>, conv: Converter)
    requires i < |t.rows|
    ensures |FlowIssues(t, i, cols, conv)| <= FlowColumnCount(cols)
    decreases |cols|
  {
    if cols != [] {
      FlowIssuesBound(t, i, cols[..|cols| - 1], conv);
      RuleIssuesShape(t, i, cols[|cols| - 1], FlowRule, conv);
    }
  }

  /** One row raises at most one issue per column. */
  lemma RowIssuesBound(t: Table, i: nat, conv: Converter)
    requires i < |t.rows|
    ensures |RowIssues(t, i, conv)| <= |t.columns|
  {
    FlowIssuesBound(t, i, t.columns, conv);
    FlowColumnCountBound(t.columns);
    RuleIssuesShape(t, i, "DriveTorque", TorqueRule, conv);
    RuleIssuesShape(t, i, "DriveSpeed", SpeedRule, conv);
    assert RuleIssues(t, i, "DriveTorque", TorqueRule, conv) != [] ==> "DriveTorque" in t.columns;
    assert RuleIssues(t, i, "DriveSpeed", SpeedRule, conv) != [] ==> "DriveSpeed" in t.columns;
  }

  lemma {:induction false} FlattenBound(parts: seq<seq<Issue>>, m: nat)
    requires forall k :: 0 <= k < |parts| ==> |parts[k]| <= m
    ensures |Flatten(parts)| <= |parts| * m
    decreases |parts|
  {
    if parts != [] {
      var init := parts[..|parts| - 1];
      assert forall k :: 0 <= k < |init| ==> init[k] == parts[k];
      FlattenBound(init, m);
      assert |init| * m + m == |parts| * m;
    }
  }

  lemma IssuesBound(t: Table, n: nat, conv: Converter)
    requires n <= |t.rows|
    ensures |Issues(t, n, conv)| <= n * |t.columns|
  {
    IssuesFlatten(t, n, conv);
    var parts := RowParts(t, n, conv);
    forall k | 0 <= k < n ensures |parts[k]| <= |t.columns| {
      RowIssuesBound(t, k, conv);
    }
    FlattenBound(parts, |t.columns|);
  }

  /** Each row raises at most one issue per column. */
  lemma ValidationBound(t: Table)
    ensures |ValidationReport(t)| <= |t.rows| * |t.columns|
  {
    IssuesBound(t, |t.rows|, ParseNum);
  }
}
