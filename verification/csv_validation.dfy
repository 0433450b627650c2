/**
 * `validate_csv_format` (Streamlit_Feedback_agent_ui.py:41-67): the checks an
 * uploaded assessment CSV must pass before the feedback agent runs, in their
 * order, each with its message. The frame is the parsed table: its column
 * labels and its rows, a cell being None where pandas reads a missing value.
 */
module CsvValidation {
  import opened Wrappers
  import opened PyStr

  datatype Frame = Frame(columns: seq<string>, rows: seq<seq<Option<string>>>)

  /** Line 43, in this order. */
  const Required: seq<string> := ["student_id", "teacher_id", "objective", "question", "answer"]

  /** Every row has one cell per column, as in any parsed frame. */
  predicate Rectangular(f: Frame) {
    forall i :: 0 <= i < |f.rows| ==> |f.rows[i]| == |f.columns|
  }

  /** The cell of `row` in column `j`; missing when the row is short. */
  function Cell(row: seq<Option<string>>, j: nat): Option<string> {
    if j < |row| then row[j] else None
  }

  /** Line 46: `df.empty`, true when the frame has no rows or no columns. */
  predicate IsEmpty(f: Frame) {
    |f.rows| == 0 || |f.columns| == 0
  }

  /** Line 50 over the labels `wanted`: those not among `columns`, in the order of `wanted`. */
  function MissingFrom(wanted: seq<string>, columns: seq<string>): (r: seq<string>)
    ensures forall c :: c in r <==> c in wanted && c !in columns
    ensures Subsequence(r, wanted)
  {
    if wanted == [] then []
    else if wanted[0] in columns then MissingFrom(wanted[1..], columns)
    else [wanted[0]] + MissingFrom(wanted[1..], columns)
  }

  /** Line 50: the required columns absent from the frame, in the order of `Required`. */
  function MissingColumns(columns: seq<string>): (r: seq<string>)
    ensures forall c :: c in r <==> c in Required && c !in columns
    ensures Subsequence(r, Required)
    ensures r == [] <==> forall c :: c in Required ==> c in columns
  {
    var r := MissingFrom(Required, columns);
    assert r != [] ==> r[0] in r;
    r
  }

  /** Line 55: `dropna(how='all')` drops a row whose every cell is missing. */
  predicate AllMissing(columns: seq<string>, row: seq<Option<string>>) {
    forall j :: 0 <= j < |columns| ==> Cell(row, j).None?
  }

  /** Line 58: the row has a missing cell in some required column. */
  predicate Incomplete(columns: seq<string>, row: seq<Option<string>>) {
    exists j :: 0 <= j < |columns| && columns[j] in Required && Cell(row, j).None?
  }

  /** Line 67: `len(df_clean)`, the rows `dropna` keeps. */
  function CountKept(columns: seq<string>, rows: seq<seq<Option<string>>>): (n: nat)
    ensures n <= |rows|
  {
    if rows == [] then 0
    else (if AllMissing(columns, rows[0]) then 0 else 1) + CountKept(columns, rows[1..])
  }

  /** Line 58: `empty_rows`, the kept rows with a missing required cell. */
  function CountIncomplete(columns: seq<string>, rows: seq<seq<Option<string>>>): (n: nat)
    ensures n <= CountKept(columns, rows)
  {
    if rows == [] then 0
    else
      var here := if !AllMissing(columns, rows[0]) && Incomplete(columns, rows[0]) then 1 else 0;
      here + CountIncomplete(columns, rows[1..])
  }

  /** A kept row lacks a required value. */
  predicate HasIncompleteRow(columns: seq<string>, rows: seq<seq<Option<string>>>) {
    exists i :: 0 <= i < |rows| && !AllMissing(columns, rows[i]) && Incomplete(columns, rows[i])
  }

  /** The count at line 58 is zero exactly when no kept row lacks a required value. */
  lemma {:induction false} CountIncompleteZero(columns: seq<string>, rows: seq<seq<Option<string>>>)
    ensures CountIncomplete(columns, rows) == 0 <==> !HasIncompleteRow(columns, rows)
    decreases |rows|
  {
    if rows != [] {
      CountIncompleteZero(columns, rows[1..]);
      if HasIncompleteRow(columns, rows[1..]) {
        var i :| 0 <= i < |rows[1..]| && !AllMissing(columns, rows[1..][i]) && Incomplete(columns, rows[1..][i]);
        assert rows[i + 1] == rows[1..][i];
      }
      if HasIncompleteRow(columns, rows) {
        var i :| 0 <= i < |rows| && !AllMissing(columns, rows[i]) && Incomplete(columns, rows[i]);
        if i > 0 {
          assert rows[1..][i - 1] == rows[i];
        }
      }
    }
  }

  /** Line 63: columns neither required nor pandas' "Unnamed: n" placeholders. */
  function ExtraColumns(columns: seq<string>): (r: seq<string>)
    ensures forall c :: c in r <==> c in columns && c !in Required && !StartsWith(c, "Unnamed")
    ensures Subsequence(r, columns)
    ensures forall c :: multiset(r)[c] == if c !in Required && !StartsWith(c, "Unnamed") then multiset(columns)[c] else 0
  {
    if columns == [] then []
    else
      Uncons(columns);
      var rest := ExtraColumns(columns[1..]);
      if columns[0] !in Required && !StartsWith(columns[0], "Unnamed") then [columns[0]] + rest
      else rest
  }

  const EmptyMessage: string := "CSV file is empty"

  function MissingMessage(missing: seq<string>): string {
    "Missing required columns: " + Join(missing, ", ")
  }

  function IncompleteMessage(n: nat): string {
    "Found " + NatToString(n) + " rows with empty values in required columns"
  }

  function ValidMessage(n: nat): string {
    "CSV format is valid. Found " + NatToString(n) + " valid records."
  }

  /**
   * `validate_csv_format`: the checks in order (empty frame, missing columns,
   * kept rows lacking a required value) and the message of the first that
   * fails. The verdict is True exactly when the frame is non-empty, has every
   * required column and no kept row lacks a required value; a failure on
   * values reports how many kept rows lack one, at least one; success
   * reports the number of kept rows.
   */
  function ValidateCsvFormat(f: Frame): (r: (bool, string))
    ensures IsEmpty(f) ==> r == (false, EmptyMessage)
    ensures !IsEmpty(f) && MissingColumns(f.columns) != [] ==> r == (false, MissingMessage(MissingColumns(f.columns)))
    ensures r.0 <==> !IsEmpty(f) && (forall c :: c in Required ==> c in f.columns) && !HasIncompleteRow(f.columns, f.rows)
    ensures !IsEmpty(f) && MissingColumns(f.columns) == [] && !r.0 ==>
      exists n: nat :: n > 0 && n == CountIncomplete(f.columns, f.rows) && r.1 == IncompleteMessage(n)
    ensures r.0 ==> r.1 == ValidMessage(CountKept(f.columns, f.rows))
  {
    if IsEmpty(f) then (false, EmptyMessage)
    else
      var missing := MissingColumns(f.columns);
      if missing != [] then (false, MissingMessage(missing))
      else
        var emptyRows := CountIncomplete(f.columns, f.rows);
        CountIncompleteZero(f.columns, f.rows);
        if emptyRows > 0 then (false, IncompleteMessage(emptyRows))
        else (true, ValidMessage(CountKept(f.columns, f.rows)))
  }

  /** A row that is missing every value, as `dropna(how='all')` removes. */
  function BlankRow(width: nat): (row: seq<Option<string>>)
    ensures |row| == width
    ensures forall columns: seq<string> :: AllMissing(columns, row)
  {
    seq(width, _ => None)
  }

  lemma {:induction false} CountsAppend(columns: seq<string>, a: seq<seq<Option<string>>>, b: seq<seq<Option<string>>>)
    ensures CountKept(columns, a + b) == CountKept(columns, a) + CountKept(columns, b)
    ensures CountIncomplete(columns, a + b) == CountIncomplete(columns, a) + CountIncomplete(columns, b)
    decreases |a|
  {
    if a == [] {
      assert a + b == b;
    } else {
      CountsAppend(columns, a[1..], b);
      assert (a + b)[0] == a[0] && (a + b)[1..] == a[1..] + b;
    }
  }

  /**
   * Lines 55-60: inserting a row with every value missing anywhere into a
   * frame that has rows changes neither the verdict nor the message.
   */
  lemma BlankRowIgnored(f: Frame, i: nat, width: nat)
    requires i <= |f.rows| && |f.rows| > 0
    ensures ValidateCsvFormat(Frame(f.columns, f.rows[..i] + [BlankRow(width)] + f.rows[i..]))
         == ValidateCsvFormat(f)
  {
    var blank := [BlankRow(width)];
    var before, after := f.rows[..i], f.rows[i..];
    CountsAppend(f.columns, before + blank, after);
    CountsAppend(f.columns, before, blank);
    CountsAppend(f.columns, before, after);
    BlankCounts(f.columns, width);
    assert before + after == f.rows;
    SameCountsSameVerdict(Frame(f.columns, before + blank + after), f);
  }

  /** A row with every value missing is neither kept nor counted as incomplete. */
  lemma BlankCounts(columns: seq<string>, width: nat)
    ensures CountKept(columns, [BlankRow(width)]) == 0
    ensures CountIncomplete(columns, [BlankRow(width)]) == 0
  {
    var rows := [BlankRow(width)];
    assert AllMissing(columns, rows[0]);
    assert rows[1..] == [];
  }

  /** The verdict and message depend only on emptiness, the missing columns and the two counts. */
  lemma SameCountsSameVerdict(f: Frame, g: Frame)
    requires IsEmpty(f) == IsEmpty(g)
    requires MissingColumns(f.columns) == MissingColumns(g.columns)
    requires CountKept(f.columns, f.rows) == CountKept(g.columns, g.rows)
    requires CountIncomplete(f.columns, f.rows) == CountIncomplete(g.columns, g.rows)
    ensures ValidateCsvFormat(f) == ValidateCsvFormat(g)
  {
  }

  /** The frame with one more column `name`, whose cell in row `i` is `cells[i]`. */
  function AddColumn(f: Frame, name: string, cells: seq<Option<string>>): Frame
    requires |cells| == |f.rows|
  {
    Frame(f.columns + [name], seq(|f.rows|, i requires 0 <= i < |f.rows| => f.rows[i] + [cells[i]]))
  }

  lemma ExtendedRow(columns: seq<string>, row: seq<Option<string>>, name: string, c: Option<string>)
    requires |row| == |columns| && name !in Required
    ensures AllMissing(columns + [name], row + [c]) <==> AllMissing(columns, row) && c.None?
    ensures Incomplete(columns + [name], row + [c]) <==> Incomplete(columns, row)
  {
    var cols, r := columns + [name], row + [c];
    assert forall j :: 0 <= j < |columns| ==> Cell(r, j) == Cell(row, j) && cols[j] == columns[j];
    assert Cell(r, |columns|) == c;
    if Incomplete(cols, r) {
      var j :| 0 <= j < |cols| && cols[j] in Required && Cell(r, j).None?;
      assert j < |columns|;
    }
  }

  lemma {:induction false} ExtendedCounts(columns: seq<string>, rows: seq<seq<Option<string>>>, name: string,
                                          cells: seq<Option<string>>, rows': seq<seq<Option<string>>>)
    requires |cells| == |rows| == |rows'| && name !in Required
    requires forall i :: 0 <= i < |rows| ==> |rows[i]| == |columns| && rows'[i] == rows[i] + [cells[i]]
    requires forall i :: 0 <= i < |rows| && AllMissing(columns, rows[i]) ==> cells[i].None?
    ensures CountKept(columns + [name], rows') == CountKept(columns, rows)
    ensures CountIncomplete(columns + [name], rows') == CountIncomplete(columns, rows)
    decreases |rows|
  {
    if rows != [] {
      ExtendedRow(columns, rows[0], name, cells[0]);
      ExtendedCounts(columns, rows[1..], name, cells[1..], rows'[1..]);
    }
  }

  /**
   * Lines 62-65: a further column that is not required only draws a warning.
   * It leaves the verdict and the message unchanged as long as it does not
   * give a value to a row that was missing every value (such a row would
   * otherwise no longer be dropped at line 55).
   */
  lemma ExtraColumnKeepsVerdict(f: Frame, name: string, cells: seq<Option<string>>)
    requires Rectangular(f) && |f.columns| > 0 && name !in Required && |cells| == |f.rows|
    requires forall i :: 0 <= i < |f.rows| && AllMissing(f.columns, f.rows[i]) ==> cells[i].None?
    ensures ValidateCsvFormat(AddColumn(f, name, cells)) == ValidateCsvFormat(f)
  {
    var g := AddColumn(f, name, cells);
    ExtendedCounts(f.columns, f.rows, name, cells, g.rows);
    MissingAppend(Required, f.columns, name);
    SameCountsSameVerdict(g, f);
  }

  lemma {:induction false} MissingAppend(wanted: seq<string>, columns: seq<string>, name: string)
    requires name !in wanted
    ensures MissingFrom(wanted, columns + [name]) == MissingFrom(wanted, columns)
    decreases |wanted|
  {
    if wanted != [] {
      MissingAppend(wanted[1..], columns, name);
    }
  }

  /** A frame with the required columns, one full row and one blank row. */
  function SampleFrame(): (f: Frame)
    ensures ValidateCsvFormat(f).0
  {
    var f := Frame(Required, [seq(5, _ => Some("x")), BlankRow(5)]);
    assert MissingColumns(f.columns) == [] by {
      assert forall c :: c in Required ==> c in f.columns;
    }
    assert !HasIncompleteRow(f.columns, f.rows) by {
      forall i | 0 <= i < |f.rows| && !AllMissing(f.columns, f.rows[i])
        ensures !Incomplete(f.columns, f.rows[i])
      {
        assert i == 0;
      }
    }
    f
  }

  /**
   * Without that proviso the verdict can change: a "notes" value on the
   * otherwise blank row keeps the row, which then lacks every required value.
   */
  lemma ExtraColumnCanChangeVerdict()
    ensures ValidateCsvFormat(SampleFrame()).0
    ensures !ValidateCsvFormat(AddColumn(SampleFrame(), "notes", [None, Some("see p. 2")])).0
  {
    var g := AddColumn(SampleFrame(), "notes", [None, Some("see p. 2")]);
    assert g.columns == Required + ["notes"];
    assert MissingColumns(g.columns) == [] by {
      assert forall c :: c in Required ==> c in g.columns;
    }
    var row := g.rows[1];
    assert row == BlankRow(5) + [Some("see p. 2")];
    assert Cell(row, 5) == Some("see p. 2");
    assert g.columns[0] in Required && Cell(row, 0).None?;
    assert !AllMissing(g.columns, row) && Incomplete(g.columns, row);
  }
}
