/** The roster parser (`parseCSV`): comma-separated text with a header line
    becomes an ordered list of student records. There is no quoting and no
    escaping: every comma separates two cells. */
module Roster {
  import opened Text

  /** One roster record (`CSVRow`). */
  datatype Row = Row(studentName: string, courseName: string, date: string)

  /** A value, or the message of the exception the source throws. */
  datatype Result<T> = Ok(value: T) | Err(message: string)

  const SchemaMessage := "CSV must contain columns for student name, course name, and date"

  /** The three columns the parser looks for. */
  datatype Column = NameColumn | CourseColumn | DateColumn

  /** The two keywords that identify a column; a header names the column when
      it contains either one. */
  function Keywords(c: Column): (string, string) {
    match c
    case NameColumn => ("name", "student")
    case CourseColumn => ("course", "subject")
    case DateColumn => ("date", "completion")
  }

  predicate HeaderMatches(c: Column, header: string) {
    Contains(header, Keywords(c).0) || Contains(header, Keywords(c).1)
  }

  /** A header cell as compared: trimmed, then lower-cased. */
  function NormalizeHeader(cell: string): string {
    ToLower(Trim(cell))
  }

  /** The lines of the input: the whole text trimmed, then split on `'\n'`.
      There is always at least one, the header line. */
  function Lines(text: string): (lines: seq<string>)
    ensures |lines| >= 1
  {
    Split(Trim(text), '\n')
  }

  /** The normalized header cells of the header line. */
  function Headers(headerLine: string): (headers: seq<string>)
    ensures |headers| == |Split(headerLine, ',')|
  {
    NormalizeHeaders(Split(headerLine, ','))
  }

  /** `cells.map(h => h.trim().toLowerCase())`. */
  function NormalizeHeaders(cells: seq<string>): (headers: seq<string>)
    ensures |headers| == |cells|
  {
    seq(|cells|, k requires 0 <= k < |cells| => NormalizeHeader(cells[k]))
  }

  /** `headers.findIndex(...)` for column `c`, starting at `from`: the index
      of a header at or after `from`, or -1. */
  function FindColumnFrom(headers: seq<string>, c: Column, from: nat): (r: int)
    requires from <= |headers|
    ensures r == -1 || from <= r < |headers|
    decreases |headers| - from
  {
    if from == |headers| then -1
    else if HeaderMatches(c, headers[from]) then from
    else FindColumnFrom(headers, c, from + 1)
  }

  /** The search from `from` finds the first matching header at or after
      `from`, and reports -1 exactly when there is none. */
  lemma {:induction false} FindColumnFromFirst(headers: seq<string>, c: Column, from: nat)
    requires from <= |headers|
    ensures var r := FindColumnFrom(headers, c, from);
      && (r == -1 <==> forall j :: from <= j < |headers| ==> !HeaderMatches(c, headers[j]))
      && (r != -1 ==> HeaderMatches(c, headers[r]))
      && (r != -1 ==> forall j :: from <= j < r ==> !HeaderMatches(c, headers[j]))
    decreases |headers| - from
  {
    if from < |headers| && !HeaderMatches(c, headers[from]) {
      FindColumnFromFirst(headers, c, from + 1);
    }
  }

  /** `headers.findIndex(...)` for column `c`: an index of `headers`, or -1. */
  function FindColumn(headers: seq<string>, c: Column): (r: int)
    ensures -1 <= r < |headers|
  {
    FindColumnFrom(headers, c, 0)
  }

  /** First match wins: `FindColumn` gives the index of the first header
      naming column `c`, or -1 exactly when no header names it. */
  lemma FindColumnFirst(headers: seq<string>, c: Column)
    ensures var r := FindColumn(headers, c);
      && (r == -1 <==> forall j :: 0 <= j < |headers| ==> !HeaderMatches(c, headers[j]))
      && (r != -1 ==> HeaderMatches(c, headers[r]))
      && (r != -1 ==> forall j :: 0 <= j < r ==> !HeaderMatches(c, headers[j]))
  {
    FindColumnFromFirst(headers, c, 0);
  }

  /** The column indices of a header line whose three columns were all found. */
  datatype Columns = Columns(name: nat, course: nat, date: nat)

  /** The value a data line gives for the column at index `col`: the trimmed
      cell, or `""` when the line has too few cells. */
  function Cell(line: string, col: nat): (v: string)
    ensures Trimmed(v)
  {
    var values := Split(line, ',');
    if col < |values| then Trim(values[col]) else ""
  }

  function ExtractRow(line: string, cols: Columns): (row: Row)
    ensures Trimmed(row.studentName) && Trimmed(row.courseName) && Trimmed(row.date)
  {
    Row(Cell(line, cols.name), Cell(line, cols.course), Cell(line, cols.date))
  }

  /** `lines.map(line => ...)`: the record read from each data line. */
  function ExtractRows(lines: seq<string>, cols: Columns): (rows: seq<Row>)
    ensures |rows| == |lines|
    ensures AllTrimmed(rows)
  {
    seq(|lines|, k requires 0 <= k < |lines| => ExtractRow(lines[k], cols))
  }

  /** A record the parser keeps: no field is empty. */
  predicate Complete(row: Row) {
    row.studentName != "" && row.courseName != "" && row.date != ""
  }

  /** A record as the parser returns it: complete, and no field has leading or
      trailing whitespace. */
  predicate WellFormed(row: Row) {
    Complete(row) && Trimmed(row.studentName) && Trimmed(row.courseName) && Trimmed(row.date)
  }

  /** Every record is one the parser can return. */
  predicate AllWellFormed(rows: seq<Row>) {
    forall row :: row in rows ==> WellFormed(row)
  }

  predicate AllTrimmed(rows: seq<Row>) {
    forall row :: row in rows ==> Trimmed(row.studentName) && Trimmed(row.courseName) && Trimmed(row.date)
  }

  /** `rows.filter(row => row.studentName && row.courseName && row.date)`. */
  function KeepComplete(rows: seq<Row>): (kept: seq<Row>)
    ensures |kept| <= |rows|
    ensures forall row :: row in kept ==> row in rows && Complete(row)
  {
    if rows == [] then []
    else
      var last := rows[|rows| - 1];
      KeepComplete(rows[..|rows| - 1]) + (if Complete(last) then [last] else [])
  }

  /** The indices of the complete rows, in increasing order: the reference
      definition the filter is proved against. */
  function CompleteIndices(rows: seq<Row>): seq<nat> {
    if rows == [] then []
    else
      var n := |rows| - 1;
      CompleteIndices(rows[..n]) + (if Complete(rows[n]) then [n] else [])
  }

  /** The indices of the complete rows are in range, strictly increasing,
      and name every complete row and no other. */
  lemma {:induction false} CompleteIndicesExact(rows: seq<Row>)
    ensures var idx := CompleteIndices(rows);
      && (forall k :: 0 <= k < |idx| ==> idx[k] < |rows|)
      && (forall k, l :: 0 <= k < l < |idx| ==> idx[k] < idx[l])
      && (forall j :: 0 <= j < |rows| ==> (j in idx <==> Complete(rows[j])))
  {
    if rows != [] {
      var n := |rows| - 1;
      var init := rows[..n];
      CompleteIndicesExact(init);
      var idx0 := CompleteIndices(init);
      var idx := CompleteIndices(rows);
      assert forall j :: 0 <= j < n ==> init[j] == rows[j];
      if Complete(rows[n]) {
        assert idx == idx0 + [n];
        forall j | 0 <= j < |rows| ensures j in idx <==> Complete(rows[j]) {
          if j < n {
            assert j in idx <==> j in idx0;
          }
        }
      } else {
        assert idx == idx0;
        forall j | 0 <= j < |rows| ensures j in idx <==> Complete(rows[j]) {
          if j == n {
            assert n !in idx0;
          }
        }
      }
    }
  }

  /** The `k`-th record the filter keeps is the row at the `k`-th complete
      index. */
  lemma {:induction false} KeepCompleteAt(rows: seq<Row>)
    ensures var idx := CompleteIndices(rows);
      && |KeepComplete(rows)| == |idx|
      && (forall k :: 0 <= k < |idx| ==> idx[k] < |rows| && KeepComplete(rows)[k] == rows[idx[k]])
  {
    if rows != [] {
      var n := |rows| - 1;
      var init := rows[..n];
      KeepCompleteAt(init);
      CompleteIndicesExact(init);
      var idx0, kept0 := CompleteIndices(init), KeepComplete(init);
      var extra := if Complete(rows[n]) then [rows[n]] else [];
      var extraIdx := if Complete(rows[n]) then [n] else [];
      var idx, kept := idx0 + extraIdx, kept0 + extra;
      assert CompleteIndices(rows) == idx;
      assert KeepComplete(rows) == kept;
      forall k | 0 <= k < |idx|
        ensures idx[k] < |rows| && kept[k] == rows[idx[k]]
      {
        if k < |idx0| {
          assert idx[k] == idx0[k] && kept[k] == kept0[k];
          assert init[idx0[k]] == rows[idx0[k]];
        }
      }
    }
  }

  /** The filter keeps exactly the complete rows, each once and in their
      original order. */
  lemma KeepCompleteSelects(rows: seq<Row>)
    ensures var idx := CompleteIndices(rows);
      && |KeepComplete(rows)| == |idx|
      && (forall k :: 0 <= k < |idx| ==> idx[k] < |rows| && KeepComplete(rows)[k] == rows[idx[k]])
      && (forall k, l :: 0 <= k < l < |idx| ==> idx[k] < idx[l])
      && (forall j :: 0 <= j < |rows| ==> (j in idx <==> Complete(rows[j])))
  {
    CompleteIndicesExact(rows);
    KeepCompleteAt(rows);
  }

  /** Every record the filter keeps comes from its input, so trimmed fields
      stay trimmed. */
  lemma KeepCompleteTrimmed(rows: seq<Row>)
    requires AllTrimmed(rows)
    ensures AllWellFormed(KeepComplete(rows))
  {
  }

  /** `parseCSV`: find the three columns in the header line, then read every
      further line and keep the complete records. */
  function ParseCSV(text: string): (r: Result<seq<Row>>)
    ensures r.Err? ==> r.message == SchemaMessage
    ensures r.Ok? ==> |r.value| <= |Lines(text)| - 1
    ensures r.Ok? ==> AllWellFormed(r.value)
  {
    var lines := Lines(text);
    var headers := Headers(lines[0]);
    var nameIndex := FindColumn(headers, NameColumn);
    var courseIndex := FindColumn(headers, CourseColumn);
    var dateIndex := FindColumn(headers, DateColumn);
    if nameIndex == -1 || courseIndex == -1 || dateIndex == -1 then
      Err(SchemaMessage)
    else
      var rows := ExtractRows(lines[1..], Columns(nameIndex, courseIndex, dateIndex));
      KeepCompleteTrimmed(rows);
      Ok(KeepComplete(rows))
  }

  /** `ParseCSV` fails exactly when some column is named by no header. */
  lemma ParseFailsIffColumnMissing(text: string)
    ensures var headers := Headers(Lines(text)[0]);
      ParseCSV(text).Err? <==>
        || (forall j :: 0 <= j < |headers| ==> !HeaderMatches(NameColumn, headers[j]))
        || (forall j :: 0 <= j < |headers| ==> !HeaderMatches(CourseColumn, headers[j]))
        || (forall j :: 0 <= j < |headers| ==> !HeaderMatches(DateColumn, headers[j]))
  {
    var headers := Headers(Lines(text)[0]);
    FindColumnFirst(headers, NameColumn);
    FindColumnFirst(headers, CourseColumn);
    FindColumnFirst(headers, DateColumn);
  }

  /** The columns `ParseCSV` reads, when it finds all three: for each, the
      first header that names it. */
  function ParsedColumns(text: string): (cols: Columns)
    requires ParseCSV(text).Ok?
    ensures var headers := Headers(Lines(text)[0]);
      && cols.name < |headers| && cols.course < |headers| && cols.date < |headers|
      && HeaderMatches(NameColumn, headers[cols.name])
      && HeaderMatches(CourseColumn, headers[cols.course])
      && HeaderMatches(DateColumn, headers[cols.date])
      && (forall j :: 0 <= j < cols.name ==> !HeaderMatches(NameColumn, headers[j]))
      && (forall j :: 0 <= j < cols.course ==> !HeaderMatches(CourseColumn, headers[j]))
      && (forall j :: 0 <= j < cols.date ==> !HeaderMatches(DateColumn, headers[j]))
  {
    var headers := Headers(Lines(text)[0]);
    FindColumnFirst(headers, NameColumn);
    FindColumnFirst(headers, CourseColumn);
    FindColumnFirst(headers, DateColumn);
    Columns(FindColumn(headers, NameColumn), FindColumn(headers, CourseColumn),
            FindColumn(headers, DateColumn))
  }

  /** Reading data lines with fixed columns and filtering keeps, in order,
      exactly the lines whose three cells are all non-empty; each field is
      the trimmed cell of its column, or empty when the line is too short. */
  lemma {:induction false} ReadLinesKeepsCompleteLines(data: seq<string>, cols: Columns)
    ensures var rows := KeepComplete(ExtractRows(data, cols));
      var idx := CompleteIndices(ExtractRows(data, cols));
      && |rows| == |idx|
      && (forall k, l :: 0 <= k < l < |idx| ==> idx[k] < idx[l])
      && (forall k :: 0 <= k < |idx| ==>
            && idx[k] < |data|
            && rows[k].studentName == Cell(data[idx[k]], cols.name)
            && rows[k].courseName == Cell(data[idx[k]], cols.course)
            && rows[k].date == Cell(data[idx[k]], cols.date))
      && (forall j :: 0 <= j < |data| ==>
            (j in idx <==>
               (Cell(data[j], cols.name) != "" && Cell(data[j], cols.course) != ""
                && Cell(data[j], cols.date) != "")))
  {
    var extracted := ExtractRows(data, cols);
    var rows := KeepComplete(extracted);
    var idx := CompleteIndices(extracted);
    KeepCompleteSelects(extracted);
    forall k | 0 <= k < |idx|
      ensures idx[k] < |data| && rows[k] == ExtractRow(data[idx[k]], cols)
    {
    }
    forall j | 0 <= j < |data|
      ensures j in idx <==> Complete(ExtractRow(data[j], cols))
    {
      assert extracted[j] == ExtractRow(data[j], cols);
    }
  }

  /** On success, the records `ParseCSV` returns are, in order, exactly the
      lines after the header whose three cells (at the columns the header
      line names) are all non-empty after trimming; each field is that
      trimmed cell. */
  lemma ParseKeepsCompleteDataLines(text: string)
    requires ParseCSV(text).Ok?
    ensures var rows := ParseCSV(text).value;
      var data := Lines(text)[1..];
      var cols := ParsedColumns(text);
      var idx := CompleteIndices(ExtractRows(data, cols));
      && |rows| == |idx|
      && (forall k, l :: 0 <= k < l < |idx| ==> idx[k] < idx[l])
      && (forall k :: 0 <= k < |idx| ==>
            && idx[k] < |data|
            && rows[k].studentName == Cell(data[idx[k]], cols.name)
            && rows[k].courseName == Cell(data[idx[k]], cols.course)
            && rows[k].date == Cell(data[idx[k]], cols.date))
      && (forall j :: 0 <= j < |data| ==>
            (j in idx <==>
               (Cell(data[j], cols.name) != "" && Cell(data[j], cols.course) != ""
                && Cell(data[j], cols.date) != "")))
  {
    var data := Lines(text)[1..];
    var cols := ParsedColumns(text);
    assert ParseCSV(text).value == KeepComplete(ExtractRows(data, cols));
    ReadLinesKeepsCompleteLines(data, cols);
  }

  /** Example: first match wins. In `student_name,name2,course,date` the name
      column is `student_name` (index 0), not `name2`. */
  lemma FirstMatchExample()
    ensures FindColumn(["student_name", "name2", "course", "date"], NameColumn) == 0
  {
    assert HeaderMatches(NameColumn, "student_name") by {
      ContainsAt("student_name", "name", 8);
    }
  }
}
