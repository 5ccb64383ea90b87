/**
 * The CSV import script `student.py`: the header line is consumed, then every row
 * with an all-digit id and a non-empty name becomes one account record.
 *
 * The CSV file is a parameter (its rows, each a list of fields), and so is the
 * password hash computed once before the loop.
 */
module StudentCsv {
  import opened Wrappers
  import opened Text

  datatype Student = Student(id: string, name: string, passwordHash: string)

  /** What one row contributes: rows with fewer than two fields are ignored; the id and
    * name are stripped, and the row is kept iff the id is all digits and the name is
    * not empty. */
  function Accepted(row: seq<string>, hash: string): Option<Student>
  {
    if |row| > 1 then
      var id := Strip(row[0]);
      var name := Strip(row[1]);
      if id != [] && IsDigitString(id) && name != [] then Some(Student(id, name, hash)) else None
    else None
  }

  /** The records of the data rows, in file order. */
  function Students(rows: seq<seq<string>>, hash: string): (r: seq<Student>)
    ensures |r| <= |rows|
  {
    if rows == [] then []
    else
      Students(rows[..|rows| - 1], hash) +
      match Accepted(rows[|rows| - 1], hash)
      case Some(st) => [st]
      case None => []
  }

  /** Every record has an all-digit id, a non-empty stripped name and the one shared
    * password hash. */
  lemma {:induction false} StudentsShape(rows: seq<seq<string>>, hash: string)
    ensures forall st :: st in Students(rows, hash) ==>
      IsDigitString(st.id) && st.name != [] && Stripped(st.name) &&
      st.passwordHash == hash
  {
    if rows != [] {
      StudentsShape(rows[..|rows| - 1], hash);
    }
  }

  /** A row is kept exactly when it has two fields whose stripped forms are an all-digit
    * id and a non-empty name. */
  lemma AcceptedIff(row: seq<string>, hash: string)
    ensures Accepted(row, hash).Some? <==>
      |row| > 1 && IsDigitString(Strip(row[0])) && Strip(row[1]) != []
  {
  }

  /** The script: the first row is always discarded as a header (an empty file reads
    * as no rows), then the loop collects the records. */
  method Import(lines: seq<seq<string>>, hash: string) returns (data: seq<Student>)
    ensures data == Students(if lines == [] then [] else lines[1..], hash)
  {
    data := [];
    if lines == [] {
      return;
    }
    var i := 1;
    while i < |lines|
      invariant 1 <= i <= |lines|
      invariant data == Students(lines[1..i], hash)
    {
      assert lines[1..i + 1] == lines[1..i] + [lines[i]];
      var row := lines[i];
      if row != [] && |row| > 1 {
        var studentId := Strip(row[0]);
        var studentName := Strip(row[1]);
        if studentId != [] && IsDigitString(studentId) && studentName != [] {
          data := data + [Student(studentId, studentName, hash)];
        }
      }
      i := i + 1;
    }
    assert lines[1..i] == lines[1..];
  }
}
