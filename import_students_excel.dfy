/**
 * The spreadsheet import script `import_students_excel.py`: the header lookup
 * `find_student_id_column` and the row loop of `main` that keeps the rows whose id
 * is a digit string.
 *
 * The workbook rows are a parameter. `find_student_id_column` is modelled over the
 * header cell values, as its body reads them.
 */
module ImportStudentsExcel {
  import opened Wrappers
  import opened Text
  import opened Cells

  const STUDENT_ID_HEADERS: set<string> := {"学号", "student_id", "studentid", "id"}
  const INITIAL_PASSWORD: string := "123456"

  /** `str(v).strip() if v is not None else ''`. */
  function CellText(c: Cell): (r: string)
    ensures c.Empty? ==> r == []
    ensures Stripped(r)
  {
    match c
    case Empty => []
    case Value(shown, _) => Strip(shown)
  }

  function FindFrom(header: seq<Cell>, i: nat): (r: Option<nat>)
    requires i <= |header|
    ensures r.Some? ==> i <= r.value < |header| && Lower(CellText(header[r.value])) in STUDENT_ID_HEADERS
    ensures r.Some? ==> forall j :: i <= j < r.value ==> Lower(CellText(header[j])) !in STUDENT_ID_HEADERS
    ensures r.None? ==> forall j :: i <= j < |header| ==> Lower(CellText(header[j])) !in STUDENT_ID_HEADERS
    decreases |header| - i
  {
    if i == |header| then None
    else if Lower(CellText(header[i])) in STUDENT_ID_HEADERS then Some(i)
    else FindFrom(header, i + 1)
  }

  /** `find_student_id_column`: the first header whose stripped, lowercased text is one
    * of the id headers. */
  function FindStudentIdColumn(header: seq<Cell>): (r: Option<nat>)
    ensures r.Some? ==> r.value < |header| && Lower(CellText(header[r.value])) in STUDENT_ID_HEADERS
    ensures r.Some? ==> forall j :: 0 <= j < r.value ==> Lower(CellText(header[j])) !in STUDENT_ID_HEADERS
    ensures r.None? <==> forall j :: 0 <= j < |header| ==> Lower(CellText(header[j])) !in STUDENT_ID_HEADERS
  {
    FindFrom(header, 0)
  }

  /** The records kept from the data rows, or None when a non-empty row is too short
    * to hold the id column (the IndexError that aborts the import). Empty rows are
    * skipped; a row is kept iff its id text passes `isdigit()`. */
  function Kept(rows: seq<seq<Cell>>, idx: nat): (r: Option<seq<(string, string)>>)
    ensures r.Some? ==> |r.value| <= |rows|
  {
    if rows == [] then Some([])
    else
      match Kept(rows[..|rows| - 1], idx)
      case None => None
      case Some(data) =>
        var row := rows[|rows| - 1];
        if row == [] then Some(data)
        else if idx >= |row| then None
        else if IsDigitString(CellText(row[idx])) then Some(data + [(CellText(row[idx]), INITIAL_PASSWORD)])
        else Some(data)
  }

  /** One more data row: a failed prefix stays failed; otherwise the row is skipped,
    * fails the import, or adds its record. */
  lemma KeptStep(rows: seq<seq<Cell>>, i: nat, idx: nat)
    requires 1 <= i < |rows|
    ensures Kept(rows[1..i + 1], idx) ==
      match Kept(rows[1..i], idx)
      case None => None
      case Some(data) =>
        if rows[i] == [] then Some(data)
        else if idx >= |rows[i]| then None
        else if IsDigitString(CellText(rows[i][idx])) then Some(data + [(CellText(rows[i][idx]), INITIAL_PASSWORD)])
        else Some(data)
  {
    var prefix := rows[1..i + 1];
    assert prefix[..|prefix| - 1] == rows[1..i];
    assert prefix[|prefix| - 1] == rows[i];
  }

  /** Every kept record is (digit-string id, "123456"), in row order. */
  lemma {:induction false} KeptShape(rows: seq<seq<Cell>>, idx: nat)
    requires Kept(rows, idx).Some?
    ensures forall rec :: rec in Kept(rows, idx).value ==> IsDigitString(rec.0) && rec.1 == INITIAL_PASSWORD
  {
    if rows != [] {
      KeptShape(rows[..|rows| - 1], idx);
    }
  }

  /** An empty id and an id read from a float cell ("20230001.0") are rejected. */
  lemma RejectedIds()
    ensures !IsDigitString(CellText(Empty))
    ensures !IsDigitString(CellText(TextCell("   ")))
    ensures !IsDigitString("20230001.0")
  {
    assert "20230001.0"[8] == '.';
    var blank := "   ";
    SpaceIsSpace();
    assert TrimLeft(blank) == [];
  }

  datatype Outcome =
    | EmptyFile
    | MissingIdColumn
    | ShortRow
    | NoData
    | Inserted(data: seq<(string, string)>)

  /** The body of `main` after reading the sheet. A missing id column raises before any
    * row is read; a short row aborts the whole import (rolled back); nothing is inserted
    * when no row is kept. */
  method Import(rows: seq<seq<Cell>>) returns (outcome: Outcome)
    ensures rows == [] <==> outcome == EmptyFile
    ensures rows != [] ==> (outcome == MissingIdColumn <==> FindStudentIdColumn(rows[0]).None?)
    ensures rows != [] && FindStudentIdColumn(rows[0]).Some? ==>
      var kept := Kept(rows[1..], FindStudentIdColumn(rows[0]).value);
      (kept.None? ==> outcome == ShortRow) &&
      (kept == Some([]) ==> outcome == NoData) &&
      (kept.Some? && kept.value != [] ==> outcome == Inserted(kept.value))
  {
    if rows == [] {
      return EmptyFile;
    }
    var idx := FindStudentIdColumn(rows[0]);
    if idx.None? {
      return MissingIdColumn;
    }
    var data: seq<(string, string)> := [];
    var i := 1;
    while i < |rows|
      invariant 1 <= i <= |rows|
      invariant Kept(rows[1..i], idx.value) == Some(data)
    {
      KeptStep(rows, i, idx.value);
      ghost var next := Kept(rows[1..i + 1], idx.value);
      var row := rows[i];
      if row != [] {
        if idx.value >= |row| {
          assert next.None?;
          assert rows[1..][..i] == rows[1..i + 1];
          KeptStaysFailed(rows[1..], idx.value, i);
          return ShortRow;
        }
        var studentId := CellText(row[idx.value]);
        if IsDigitString(studentId) {
          data := data + [(studentId, INITIAL_PASSWORD)];
        }
      }
      assert next == Some(data);
      i := i + 1;
      assert next == Kept(rows[1..i], idx.value);
    }
    assert rows[1..i] == rows[1..];
    if data == [] {
      return NoData;
    }
    return Inserted(data);
  }

  /** Once a prefix has failed, every longer prefix fails. */
  lemma {:induction false} KeptStaysFailed(rows: seq<seq<Cell>>, idx: nat, n: nat)
    requires n <= |rows| && Kept(rows[..n], idx).None?
    ensures Kept(rows, idx).None?
    decreases |rows| - n
  {
    if n < |rows| {
      assert rows[..n + 1][..n] == rows[..n];
      KeptStaysFailed(rows, idx, n + 1);
    } else {
      assert rows[..n] == rows;
    }
  }
}
