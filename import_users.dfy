/**
 * The student-account import script `import_users.py`: cleaning of the student-id
 * cell, header normalisation and lookup, and the row loop that builds the batch of
 * rows passed to `executemany`.
 *
 * The workbook rows are a parameter. `int(float(s))` is an oracle `parseSci` (None
 * when it raises). The `RESET_PASSWORD` switch of the configuration section is a
 * parameter `reset`.
 */
module ImportUsers {
  import opened Wrappers
  import opened Text
  import opened Cells

  const DEFAULT_PASSWORD: string := "123456"
  /** The header names `main` looks for; `Import` takes them as parameters. */
  const ID_HEADERS: set<string> :=
    {"学号", "学生学号", "学号(必填)", "student_id", "studentid", "id", "账号", "用户名", "username"}
  const NAME_HEADERS: set<string> := {"姓名", "名字", "name", "student_name"}

  type SciParser = string -> Option<int>

  /** `re.fullmatch(r"\d+\.0", s)`. */
  predicate PointZero(s: string)
  {
    |s| >= 3 && s[|s| - 2..] == ".0" && AllDigits(s[..|s| - 2])
  }

  /** `"e" in s.lower()`. */
  predicate HasExponent(s: string)
  {
    'e' in Lower(s)
  }

  /** The scientific-notation step: `str(int(float(s)))`, None when the conversion
    * raises; strings without an exponent pass unchanged. */
  function ExpandExponent(s: string, parseSci: SciParser): Option<string>
  {
    if !HasExponent(s) then Some(s)
    else
      match parseSci(s)
      case Some(n) => Some(IntToString(n))
      case None => None
  }

  /** The ".0" step: `s[:-2]` when `s` is digits followed by ".0". */
  function DropPointZero(s: string): (r: string)
    ensures PointZero(s) ==> r == s[..|s| - 2]
    ensures !PointZero(s) ==> r == s
  {
    if PointZero(s) then s[..|s| - 2] else s
  }

  /** The last two steps, `re.sub(r"\s+", "", s)` then `re.sub(r"\D", "", s)`, and the
    * final emptiness test. */
  function DigitsOf(t: string): (r: Option<string>)
    ensures r.None? <==> forall i :: 0 <= i < |t| ==> !IsDigit(t[i])
    ensures r.Some? ==> IsDigitString(r.value) && r.value == KeepDigits(t)
  {
    KeepDigitsRemoveSpaces(t);
    KeepDigitsEmpty(t);
    var digits := KeepDigits(RemoveSpaces(t));
    if digits == [] then None else Some(digits)
  }

  /** `clean_student_id`. */
  function CleanStudentId(value: Cell, parseSci: SciParser): (r: Option<string>)
    ensures r.Some? ==> IsDigitString(r.value)
    ensures value.Empty? ==> r.None?
    ensures value.Value? && Strip(value.shown) == [] ==> r.None?
  {
    match value
    case Empty => None
    case Value(shown, _) =>
      var s := Strip(shown);
      if s == [] then None
      else
        match ExpandExponent(DropPointZero(s), parseSci)
        case None => None
        case Some(t) => DigitsOf(t)
  }

  /** A digit string has no ".0" suffix, no exponent mark, and keeps all its digits. */
  lemma DigitsPass(d: string, parseSci: SciParser)
    requires IsDigitString(d)
    ensures DropPointZero(d) == d
    ensures ExpandExponent(d, parseSci) == Some(d)
    ensures DigitsOf(d) == Some(d)
  {
    if |d| >= 3 {
      assert d[|d| - 2..][0] == d[|d| - 2];
    }
    assert !PointZero(d);
    LowerDigits(d);
    assert !HasExponent(d);
    assert KeepDigits(RemoveSpaces(d)) == d;
  }

  /** A cell whose stripped text passes every later step unchanged cleans to that text. */
  lemma CleanUnchanged(v: Cell, d: string, parseSci: SciParser)
    requires v.Value? && Strip(v.shown) == d && d != []
    requires ExpandExponent(DropPointZero(d), parseSci) == Some(d) && DigitsOf(d) == Some(d)
    ensures CleanStudentId(v, parseSci) == Some(d)
  {
  }

  /** A digit string goes through every step unchanged. */
  lemma CleanDigitString(v: Cell, parseSci: SciParser)
    requires v.Value? && IsDigitString(v.shown)
    ensures CleanStudentId(v, parseSci) == Some(v.shown)
  {
    var d := v.shown;
    StripDigits(d);
    DigitsPass(d, parseSci);
    CleanUnchanged(v, d, parseSci);
  }

  /** A number read back from a float cell loses its trailing ".0". */
  lemma CleanPointZero(d: string, falsy: bool, parseSci: SciParser)
    requires IsDigitString(d)
    ensures CleanStudentId(Value(d + ".0", falsy), parseSci) == Some(d)
  {
    var s := d + ".0";
    PrintableNotSpace(s[0]);
    PrintableNotSpace(s[|s| - 1]);
    StripNoOp(s);
    assert s[..|s| - 2] == d && s[|s| - 2..] == ".0";
    assert DropPointZero(s) == d;
    DigitsPass(d, parseSci);
  }

  /** A string with an exponent mark never has the ".0" shape. */
  lemma ExponentNotPointZero(s: string)
    requires HasExponent(s)
    ensures DropPointZero(s) == s
  {
    var e :| 0 <= e < |s| && Lower(s)[e] == 'e';
    LowerAt(s, e);
    LowerCharFacts(s[e]);
    if |s| >= 3 && s[|s| - 2..] == ".0" {
      assert s[|s| - 2] == '.' && s[|s| - 1] == '0' by {
        assert s[|s| - 2] == s[|s| - 2..][0] && s[|s| - 1] == s[|s| - 2..][1];
      }
      assert e < |s| - 2;
      var body := s[..|s| - 2];
      assert body[e] == s[e] && !IsDigit(s[e]);
    }
  }

  /** A value with an exponent mark whose float conversion fails is rejected, whatever
    * digits it holds. */
  lemma CleanFailedExponent(shown: string, falsy: bool, parseSci: SciParser)
    requires Strip(shown) != [] && HasExponent(Strip(shown)) && parseSci(Strip(shown)).None?
    ensures CleanStudentId(Value(shown, falsy), parseSci).None?
  {
    ExponentNotPointZero(Strip(shown));
  }

  /** An id written as two digit groups around one separator, such as "2023-0001" or
    * "2023 0001", cleans to the digits alone, "20230001". The separator may be any
    * character other than a digit, '.', 'e' or 'E'. */
  lemma CleanSeparatedDigits(a: string, sep: char, b: string, falsy: bool, parseSci: SciParser)
    requires IsDigitString(a) && IsDigitString(b)
    requires !IsDigit(sep) && sep != '.' && sep != 'e' && sep != 'E'
    ensures CleanStudentId(Value(a + [sep] + b, falsy), parseSci) == Some(a + b)
  {
    var s := a + [sep] + b;
    assert s[0] == a[0] && s[|s| - 1] == b[|b| - 1];
    PrintableNotSpace(s[0]);
    PrintableNotSpace(s[|s| - 1]);
    StripNoOp(s);
    assert s[|s| - 2] == (if |b| == 1 then sep else b[|b| - 2]);
    assert s[|s| - 2..][0] == s[|s| - 2] != '.';
    assert !PointZero(s);
    forall i | 0 <= i < |s|
      ensures Lower(s)[i] != 'e'
    {
      LowerAt(s, i);
      LowerCharFacts(s[i]);
      assert s[i] == sep || IsDigit(s[i]);
    }
    assert !HasExponent(s);
    KeepDigitsAppend(a + [sep], b);
    KeepDigitsAppend(a, [sep]);
    KeepDigitsChar(sep);
    assert KeepDigits(s) == a + b;
  }

  /** Cleaning is idempotent: a cleaned id, read back as a string cell, comes out
    * unchanged. */
  lemma CleanIdempotent(value: Cell, parseSci: SciParser)
    requires CleanStudentId(value, parseSci).Some?
    ensures var r := CleanStudentId(value, parseSci).value;
      CleanStudentId(TextCell(r), parseSci) == Some(r)
  {
    var r := CleanStudentId(value, parseSci).value;
    CleanDigitString(TextCell(r), parseSci);
  }

  /** `normalize`: falsy values become "", anything else its stripped, lowercased `str`. */
  function Normalize(c: Cell): string
  {
    match c
    case Empty => []
    case Value(shown, falsy) => if falsy then [] else Lower(Strip(shown))
  }

  /** A normalised header has no surrounding whitespace and no capital letter; a falsy
    * one is empty. */
  lemma NormalizeShape(c: Cell)
    ensures (c.Empty? || c.falsy) ==> Normalize(c) == []
    ensures Stripped(Normalize(c)) && NoCapitals(Normalize(c))
  {
    if c.Value? && !c.falsy {
      var t := Strip(c.shown);
      StripIdempotent(c.shown);
      StripLower(t);
      LowerNoCapital(t);
    }
  }

  /** Normalising a normalised header changes nothing. */
  lemma NormalizeIdempotent(c: Cell)
    ensures Normalize(TextCell(Normalize(c))) == Normalize(c)
  {
    var r := Normalize(c);
    NormalizeShape(c);
    if r != [] {
      StripNoOp(r);
      LowerNoCapitals(r);
    }
  }

  /** Header texts that differ only in letter case normalise alike. */
  lemma NormalizeIgnoresCase(a: string, b: string)
    requires Lower(a) == Lower(b)
    ensures Normalize(TextCell(a)) == Normalize(TextCell(b))
  {
    StripLower(a);
    StripLower(b);
  }

  /** Surrounding whitespace does not matter to a header text. */
  lemma NormalizeIgnoresSpaces(s: string)
    ensures Normalize(TextCell(Strip(s))) == Normalize(TextCell(s))
  {
    StripIdempotent(s);
  }

  /** The normalised candidate names, `{normalize(x) for x in candidates}`. */
  function NormalizedSet(candidates: set<string>): set<string>
  {
    set x | x in candidates :: Normalize(TextCell(x))
  }

  function FindColFrom(header: seq<Cell>, wanted: set<string>, i: nat): (r: Option<nat>)
    requires i <= |header|
    ensures r.Some? ==> i <= r.value < |header| && Normalize(header[r.value]) in wanted
    ensures r.Some? ==> forall j :: i <= j < r.value ==> Normalize(header[j]) !in wanted
    ensures r.None? ==> forall j :: i <= j < |header| ==> Normalize(header[j]) !in wanted
    decreases |header| - i
  {
    if i == |header| then None
    else if Normalize(header[i]) in wanted then Some(i)
    else FindColFrom(header, wanted, i + 1)
  }

  /** `find_col`: the first header whose normalised form is a normalised candidate. */
  function FindCol(header: seq<Cell>, candidates: set<string>): (r: Option<nat>)
    ensures r.Some? ==> r.value < |header| && Normalize(header[r.value]) in NormalizedSet(candidates)
    ensures r.Some? ==> forall j :: 0 <= j < r.value ==> Normalize(header[j]) !in NormalizedSet(candidates)
    ensures r.None? <==> forall j :: 0 <= j < |header| ==> Normalize(header[j]) !in NormalizedSet(candidates)
  {
    FindColFrom(header, NormalizedSet(candidates), 0)
  }

  /** A header cell that normalises like some candidate is found: the column found is
    * that one or an earlier one. */
  lemma FindColFindsMatch(header: seq<Cell>, candidates: set<string>, i: nat, x: string)
    requires i < |header| && x in candidates && Normalize(header[i]) == Normalize(TextCell(x))
    ensures FindCol(header, candidates).Some? && FindCol(header, candidates).value <= i
  {
    assert Normalize(header[i]) in NormalizedSet(candidates);
  }

  /** One row of the batch, as `executemany` receives it. */
  datatype Record =
    | WithPassword(sid: string, password: string, name: string)
    | NameOnly(sid: string, name: string)

  /** The name column of a row: "" when there is none, the row is short or the value
    * is falsy. */
  function NameOf(row: seq<Cell>, nameIdx: Option<nat>): (name: string)
    ensures nameIdx.None? || nameIdx.value >= |row| ==> name == []
    ensures Stripped(name)
  {
    if nameIdx.Some? && nameIdx.value < |row| then
      match row[nameIdx.value]
      case Empty => []
      case Value(shown, falsy) => if falsy then [] else Strip(shown)
    else []
  }

  /** What one data row contributes: nothing when its id does not clean (including a
    * row too short to have one). */
  function RowRecord(row: seq<Cell>, idIdx: nat, nameIdx: Option<nat>, reset: bool, parseSci: SciParser)
    : Option<Record>
  {
    match CleanStudentId(if idIdx < |row| then row[idIdx] else Empty, parseSci)
    case None => None
    case Some(sid) =>
      var name := NameOf(row, nameIdx);
      Some(if reset then WithPassword(sid, DEFAULT_PASSWORD, name) else NameOnly(sid, name))
  }

  /** The batch built from data rows, in row order. */
  function Batch(rows: seq<seq<Cell>>, idIdx: nat, nameIdx: Option<nat>, reset: bool, parseSci: SciParser)
    : (b: seq<Record>)
    ensures |b| <= |rows|
  {
    if rows == [] then []
    else
      Batch(rows[..|rows| - 1], idIdx, nameIdx, reset, parseSci) +
      match RowRecord(rows[|rows| - 1], idIdx, nameIdx, reset, parseSci)
      case Some(rec) => [rec]
      case None => []
  }

  /** Every batch row carries a cleaned (non-empty, all-digit) id and a stripped name;
    * with `reset` every row is (sid, DEFAULT_PASSWORD, name), otherwise (sid, name). */
  lemma {:induction false} BatchShape(rows: seq<seq<Cell>>, idIdx: nat, nameIdx: Option<nat>, reset: bool,
                                      parseSci: SciParser)
    ensures forall rec :: rec in Batch(rows, idIdx, nameIdx, reset, parseSci) ==>
      IsDigitString(rec.sid) &&
      Stripped(rec.name) &&
      (reset ==> rec.WithPassword? && rec.password == DEFAULT_PASSWORD) &&
      (!reset ==> rec.NameOnly?)
  {
    if rows != [] {
      BatchShape(rows[..|rows| - 1], idIdx, nameIdx, reset, parseSci);
    }
  }

  /** One more data row adds its record, if any, at the end of the batch. */
  lemma BatchStep(rows: seq<seq<Cell>>, i: nat, idIdx: nat, nameIdx: Option<nat>, reset: bool,
                  parseSci: SciParser)
    requires 1 <= i < |rows|
    ensures Batch(rows[1..i + 1], idIdx, nameIdx, reset, parseSci) ==
      Batch(rows[1..i], idIdx, nameIdx, reset, parseSci) +
      match RowRecord(rows[i], idIdx, nameIdx, reset, parseSci)
      case Some(rec) => [rec]
      case None => []
  {
    var prefix := rows[1..i + 1];
    assert prefix[..|prefix| - 1] == rows[1..i];
    assert prefix[|prefix| - 1] == rows[i];
  }

  datatype Outcome =
    | EmptySheet
    | NoIdColumn
    | NothingToImport(skipped: nat)
    | Imported(batch: seq<Record>, skipped: nat)

  /** The body of the row loop of `main` for one row: the cleaned id, then the name,
    * then the record in the shape `reset` asks for. */
  method RowStep(r: seq<Cell>, idIdx: nat, nameIdx: Option<nat>, reset: bool, parseSci: SciParser)
    returns (rec: Option<Record>)
    ensures rec == RowRecord(r, idIdx, nameIdx, reset, parseSci)
    ensures rec.Some? ==> IsDigitString(rec.value.sid) && Stripped(rec.value.name)
  {
    var sid := CleanStudentId(if idIdx < |r| then r[idIdx] else Empty, parseSci);
    if sid.None? {
      return None;
    }
    var name := NameOf(r, nameIdx);
    if reset {
      rec := Some(WithPassword(sid.value, DEFAULT_PASSWORD, name));
    } else {
      rec := Some(NameOnly(sid.value, name));
    }
  }

  /** The row loop of `main`: every data row is either skipped or adds its record to
    * the batch, in row order. */
  method CollectBatch(rows: seq<seq<Cell>>, idIdx: nat, nameIdx: Option<nat>, reset: bool,
                      parseSci: SciParser)
    returns (batch: seq<Record>, skipped: nat)
    requires |rows| >= 1
    ensures batch == Batch(rows[1..], idIdx, nameIdx, reset, parseSci)
    ensures |batch| + skipped == |rows| - 1
  {
    batch := [];
    skipped := 0;
    var i := 1;
    while i < |rows|
      invariant 1 <= i <= |rows|
      invariant batch == Batch(rows[1..i], idIdx, nameIdx, reset, parseSci)
      invariant |batch| + skipped == i - 1
    {
      BatchStep(rows, i, idIdx, nameIdx, reset, parseSci);
      var rec := RowStep(rows[i], idIdx, nameIdx, reset, parseSci);
      if rec.None? {
        skipped := skipped + 1;
      } else {
        batch := batch + [rec.value];
      }
      i := i + 1;
    }
    assert rows[1..i] == rows[1..];
  }

  /** The body of `main` between reading the sheet and `executemany`; `main` passes
    * `ID_HEADERS` and `NAME_HEADERS`. */
  method Import(rows: seq<seq<Cell>>, idHeaders: set<string>, nameHeaders: set<string>, reset: bool,
                parseSci: SciParser)
    returns (outcome: Outcome)
    ensures rows == [] <==> outcome == EmptySheet
    ensures rows != [] ==> (outcome == NoIdColumn <==> FindCol(rows[0], idHeaders).None?)
    ensures rows != [] && FindCol(rows[0], idHeaders).Some? ==>
      var b := Batch(rows[1..], FindCol(rows[0], idHeaders).value, FindCol(rows[0], nameHeaders), reset, parseSci);
      (b == [] ==> outcome == NothingToImport(|rows| - 1)) &&
      (b != [] ==> outcome == Imported(b, |rows| - 1 - |b|))
  {
    if rows == [] {
      return EmptySheet;
    }
    var header := rows[0];
    var idIdx := FindCol(header, idHeaders);
    var nameIdx := FindCol(header, nameHeaders);
    if idIdx.None? {
      return NoIdColumn;
    }
    var batch, skipped := CollectBatch(rows, idIdx.value, nameIdx, reset, parseSci);
    if batch == [] {
      return NothingToImport(skipped);
    }
    return Imported(batch, skipped);
  }
}
