/**
 * `StudentsController`: creating a student with a freshly allocated NIM,
 * exporting the store as CSV rows and importing rows from an uploaded CSV
 * file, over a repository that holds the stored students.
 */
module StudentsController {
  import opened Wrappers
  import opened Text
  import opened NimAllocator
  import opened Csv
  import opened Entities
  import opened Reconciliation

  /** The fields of `CreateStudentRequest`. */
  datatype CreateRequest = CreateRequest(
    firstName: string,
    lastName: string,
    dateOfBirth: Date,
    facultyCode: string,
    jenjangCode: string,
    prodiCode: string,
    angkatan: string)

  /** An uploaded file: its length in bytes and the lines `ReadLineAsync` yields. */
  datatype Upload = Upload(length: nat, lines: seq<string>)

  /** The answers of `Import`. */
  datatype ImportResponse = BadRequest(message: string) | Ok(imported: nat, duplicates: nat, invalid: nat)

  const FileRequired := "A CSV file is required."

  /** The NIMs of the stored students, in store order. */
  function Nims(records: seq<Student>): (nims: seq<string>)
    ensures |nims| == |records| && forall i :: 0 <= i < |records| ==> nims[i] == records[i].nim
  {
    if records == [] then [] else [records[0].nim] + Nims(records[1..])
  }

  /**
   * The repository: the stored students in iteration order, and the number
   * of bulk inserts (`AddManyAsync`) performed.
   */
  class StudentStore {
    var records: seq<Student>
    var bulkInserts: nat

    constructor (records: seq<Student>)
      ensures this.records == records && bulkInserts == 0
    {
      this.records := records;
      bulkInserts := 0;
    }

    /** `GetLastNomorIndukAsync`: the ordinal greatest NIM that starts with `prefix`. */
    function GetLastNomorInduk(prefix: string): Option<string>
      reads this
    {
      LastNomorInduk(Nims(records), prefix)
    }

    /** `AddAsync`. */
    method Add(student: Student)
      modifies this
      ensures records == old(records) + [student] && bulkInserts == old(bulkInserts)
    {
      records := records + [student];
    }

    /** `AddManyAsync`: one bulk insert of all of `students`. */
    method AddMany(students: seq<Student>)
      modifies this
      ensures records == old(records) + students && bulkInserts == old(bulkInserts) + 1
    {
      records := records + students;
      bulkInserts := bulkInserts + 1;
    }
  }

  // ---------------------------------------------------------------------
  // Export rows
  // ---------------------------------------------------------------------

  /** The header row that `Export` writes first. */
  const ExportHeader := "NomorIndukMahasiswa,FirstName,LastName,DateOfBirth"

  /** A rendered date holds no character that needs quoting. */
  lemma DateNeedsNoQuoting(d: Date)
    ensures !HasSpecial(RenderDate(d)) && EscapeForCsv(Some(RenderDate(d))) == RenderDate(d)
  {
    var r := RenderDate(d);
    RenderDateFields(d);
    EscapeForCsvFacts(Some(r));
    assert forall i :: 0 <= i < |r| ==> !NeedsQuoting(r[i]) by {
      forall i | 0 <= i < |r| ensures !NeedsQuoting(r[i]) {
        if i < 4 { assert r[i] == r[..4][i]; }
        else if 4 < i < 7 { assert r[i] == r[5..7][i - 5]; }
        else if 7 < i { assert r[i] == r[8..][i - 8]; }
      }
    }
  }

  /**
   * One exported row: NIM, first name and last name escaped, the date
   * rendered as yyyy-MM-dd, joined by commas.
   */
  function ExportRow(s: Student): string {
    JoinFields([EscapeForCsv(Some(s.nim)), EscapeForCsv(Some(s.firstName)), EscapeForCsv(s.lastName), RenderDate(s.dateOfBirth)])
  }

  /** Splitting an exported row gives back the four values, an absent last name as "". */
  lemma ExportRowSplits(s: Student)
    ensures Split(ExportRow(s)) == [s.nim, s.firstName, CellText(s.lastName), RenderDate(s.dateOfBirth)]
  {
    var date := RenderDate(s.dateOfBirth);
    var cells := [Some(s.nim), Some(s.firstName), s.lastName, Some(date)];
    DateNeedsNoQuoting(s.dateOfBirth);
    SplitJoinEscaped(cells);
    EscapeAllIndex(cells);
    assert EscapeAll(cells) == [EscapeForCsv(Some(s.nim)), EscapeForCsv(Some(s.firstName)), EscapeForCsv(s.lastName), date];
    assert CellTexts(cells) == [s.nim, s.firstName, CellText(s.lastName), date];
  }

  /** One exported row per student, in store order. */
  function ExportRows(students: seq<Student>): (rows: seq<string>)
    ensures |rows| == |students|
  {
    if students == [] then []
    else ExportRows(students[..|students| - 1]) + [ExportRow(students[|students| - 1])]
  }

  /** Row i of the export is the row of student i. */
  lemma {:induction false} ExportRowsIndex(students: seq<Student>, i: nat)
    requires i < |students|
    ensures ExportRows(students)[i] == ExportRow(students[i])
  {
    var n := |students| - 1;
    if i < n {
      ExportRowsIndex(students[..n], i);
    }
  }

  /** The lines of an export of `students`: the header, then one row per student in store order. */
  function ExportLines(students: seq<Student>): seq<string> {
    [ExportHeader] + ExportRows(students)
  }

  // ---------------------------------------------------------------------
  // Export, then import: the round trip
  // ---------------------------------------------------------------------

  /** No carriage return or line feed (the import reads the file line by line). */
  predicate SingleLine(s: string) {
    forall i :: 0 <= i < |s| ==> s[i] != '\n' && s[i] != '\r'
  }

  /**
   * A student that survives export and import unchanged: the fields the
   * import would accept as they are, each on one line, and a date of birth
   * that the date parser reads back from its yyyy-MM-dd rendering.
   */
  predicate Exportable(s: Student, parseDate: string -> Option<Date>) {
    && WellFormed(s.nim, s.firstName, s.lastName)
    && SingleLine(s.nim) && SingleLine(s.firstName)
    && (s.lastName.Some? ==> SingleLine(s.lastName.value))
    && parseDate(RenderDate(s.dateOfBirth)) == Some(s.dateOfBirth)
  }

  /** The header row that `Export` writes is the header `Import` skips on line 1. */
  lemma ExportHeaderSkipped()
    ensures IsSkipped(1, ExportHeader)
  {
    assert ExportHeader[..|HeaderToken|] == HeaderToken;
    ContainsPrefixIgnoreCase(ExportHeader, HeaderToken);
  }

  /** An exported row holds a comma, so it is never blank. */
  lemma ExportRowNotBlank(s: Student)
    ensures !IsBlank(ExportRow(s))
  {
    var cells := [EscapeForCsv(Some(s.nim)), EscapeForCsv(Some(s.firstName)), EscapeForCsv(s.lastName), RenderDate(s.dateOfBirth)];
    var rest := JoinFields(cells[1..]);
    assert ExportRow(s) == cells[0] + "," + rest;
    assert ExportRow(s)[|cells[0]|] == ',';
  }

  /** A rendered date starts and ends with a digit, so trimming leaves it alone. */
  lemma RenderedDateTrimmed(d: Date)
    ensures Trimmed(RenderDate(d)) && Trim(RenderDate(d)) == RenderDate(d)
  {
    var r := RenderDate(d);
    RenderDateFields(d);
    assert r[0] == r[..4][0] && r[9] == r[8..][1];
    TrimOfTrimmed(r);
  }

  /** The row import builds from a student's fields. */
  function RowOf(s: Student): Row {
    Row(s.nim, s.firstName, s.lastName, s.dateOfBirth)
  }

  /** The exported row of an exportable student validates to that student's fields. */
  lemma ExportRowParses(s: Student, parseDate: string -> Option<Date>)
    requires Exportable(s, parseDate)
    ensures ParseRow(ExportRow(s), parseDate) == Some(RowOf(s))
  {
    var columns := Split(ExportRow(s));
    ExportRowSplits(s);
    assert columns == [s.nim, s.firstName, CellText(s.lastName), RenderDate(s.dateOfBirth)];
    TrimOfTrimmed(s.nim);
    TrimOfTrimmed(s.firstName);
    TrimmedBlank(s.nim);
    TrimmedBlank(s.firstName);
    RenderedDateTrimmed(s.dateOfBirth);
    if s.lastName.Some? {
      TrimOfTrimmed(s.lastName.value);
      TrimmedBlank(s.lastName.value);
    } else {
      assert CellText(s.lastName) == [];
      assert Trim([]) == [];
    }
  }

  /** Past line 1, the exported row of an exportable student is a valid data line holding its fields. */
  lemma ExportRowView(s: Student, lineNumber: nat, parseDate: string -> Option<Date>)
    requires Exportable(s, parseDate) && lineNumber >= 2
    ensures View(lineNumber, ExportRow(s), parseDate) == LineView(false, Some(RowOf(s)))
  {
    ExportRowNotBlank(s);
    ExportRowParses(s, parseDate);
  }

  /** Line i + 2 of an export is the valid data line of student i. */
  lemma ExportLineView(students: seq<Student>, parseDate: string -> Option<Date>, i: nat)
    requires i < |students| && Exportable(students[i], parseDate)
    ensures Views(ExportLines(students), parseDate)[i + 1] == LineView(false, Some(RowOf(students[i])))
  {
    var lines := ExportLines(students);
    var row := ExportRow(students[i]);
    ExportRowsIndex(students, i);
    assert lines[i + 1] == row;
    assert Views(lines, parseDate)[i + 1] == View(i + 2, row, parseDate);
    ExportRowView(students[i], i + 2, parseDate);
  }

  /** The rows import builds from `students`, in order. */
  function RowsOf(students: seq<Student>): (rows: seq<Row>)
    ensures |rows| == |students|
  {
    seq(|students|, i requires 0 <= i < |students| => RowOf(students[i]))
  }

  /** Accepting the rows of `students` rebuilds them under ids newId(0), newId(1), ... */
  lemma AdmitRowsOf(students: seq<Student>, newId: nat -> string, i: nat)
    requires i < |students|
    ensures Admit(RowsOf(students), 0, newId)[i] == students[i].(id := newId(i))
  {
    AdmitIndex(RowsOf(students), 0, newId, i);
  }

  /**
   * Export, then import into a store that holds none of the exported NIMs:
   * the header is skipped, no line is a duplicate or invalid, and the
   * records created are the exported students in order, each under a new
   * id. The NIMs must be pairwise distinct under case folding, as the store
   * that `Create` and `Import` fill keeps them.
   */
  lemma ExportImportRoundTrip(students: seq<Student>, existing: seq<Student>,
                              parseDate: string -> Option<Date>, newId: nat -> string)
    requires forall i :: 0 <= i < |students| ==> Exportable(students[i], parseDate)
    requires forall i, j :: 0 <= i < j < |students| ==> Fold(students[i].nim) != Fold(students[j].nim)
    requires forall i :: 0 <= i < |students| ==> Fold(students[i].nim) !in FoldedNims(existing)
    ensures var r := Reconcile(ExportLines(students), existing, parseDate, newId);
            && r.invalidLines == [] && r.duplicateLines == []
            && |r.imported| == |students|
            && forall i :: 0 <= i < |students| ==> r.imported[i] == students[i].(id := newId(i))
  {
    var lines := ExportLines(students);
    var views := Views(lines, parseDate)[1..];
    var rows := RowsOf(students);
    ExportHeaderSkipped();
    forall i | 0 <= i < |rows| ensures views[i] == LineView(false, Some(rows[i])) {
      ExportLineView(students, parseDate, i);
    }
    assert FreshRows(views, rows, FoldedNims(existing));
    ReconcileAcceptsAll(lines, rows, existing, parseDate, newId);
    forall i | 0 <= i < |students| ensures Admit(rows, 0, newId)[i] == students[i].(id := newId(i)) {
      AdmitRowsOf(students, newId, i);
    }
  }

  // ---------------------------------------------------------------------
  // The controller
  // ---------------------------------------------------------------------

  class Controller {
    const repository: StudentStore

    constructor (repository: StudentStore)
      ensures this.repository == repository
    {
      this.repository := repository;
    }

    /**
     * `Create`: builds the prefix from the request's codes, derives the next
     * sequence number from the store's last NIM for that prefix, and stores
     * the new student under `newId`.
     */
    method Create(request: CreateRequest, newId: string) returns (student: Student)
      modifies repository
      ensures var prefix := Prefix(request.facultyCode, request.jenjangCode, request.prodiCode, request.angkatan);
              student == Student(newId, AllocateNim(prefix, Nims(old(repository.records))),
                                 request.firstName, Some(request.lastName), request.dateOfBirth)
      ensures repository.records == old(repository.records) + [student]
      ensures repository.bulkInserts == old(repository.bulkInserts)
    {
      var prefix := request.facultyCode + request.jenjangCode + request.prodiCode + request.angkatan;
      var lastId := repository.GetLastNomorInduk(prefix);
      var sequence := 1;
      if lastId.Some? && |lastId.value| >= 9 {
        var lastSeq := TryParseInt32(lastId.value[|lastId.value| - 4..]);
        if lastSeq.Some? {
          sequence := lastSeq.value + 1;
        }
      }
      assert sequence == NextSequence(lastId);
      AllocateFromSequence(prefix, Nims(repository.records), sequence);
      var newNim := prefix + FormatD4(sequence);
      student := Student(newId, newNim, request.firstName, Some(request.lastName), request.dateOfBirth);
      repository.Add(student);
    }

    /** `Export`: the header row, then one row per stored student in store order. */
    method Export() returns (lines: seq<string>)
      ensures lines == ExportLines(repository.records)
    {
      var students := repository.records;
      var header := ExportHeader;
      lines := [header];
      var i := 0;
      while i < |students|
        invariant 0 <= i <= |students|
        invariant lines == [header] + ExportRows(students[..i])
      {
        var student := students[i];
        var cells := [
          EscapeForCsv(Some(student.nim)),
          EscapeForCsv(Some(student.firstName)),
          EscapeForCsv(student.lastName),
          RenderDate(student.dateOfBirth)
        ];
        assert JoinFields(cells) == ExportRow(student);
        assert students[..i + 1][..i] == students[..i];
        lines := lines + [JoinFields(cells)];
        i := i + 1;
      }
      assert students[..i] == students;
    }

    /**
     * `Import`: rejects a missing or empty file; otherwise classifies every
     * line, bulk-inserts the accepted records when there are any, and
     * answers the three counts.
     */
    method Import(file: Option<Upload>, parseDate: string -> Option<Date>, newId: nat -> string)
      returns (response: ImportResponse)
      modifies repository
      ensures file.None? || file.value.length == 0 ==>
                && response == BadRequest(FileRequired)
                && repository.records == old(repository.records)
                && repository.bulkInserts == old(repository.bulkInserts)
      ensures file.Some? && file.value.length != 0 ==>
                var r := Reconcile(file.value.lines, old(repository.records), parseDate, newId);
                && response == Ok(|r.imported|, |r.duplicateLines|, |r.invalidLines|)
                && repository.records == old(repository.records) + r.imported
                && repository.bulkInserts == old(repository.bulkInserts) + (if r.imported == [] then 0 else 1)
    {
      if file.None? || file.value.length == 0 {
        return BadRequest(FileRequired);
      }
      var lines := file.value.lines;
      var stored := repository.records;
      var existingNims := FoldedNims(stored);
      var imported: seq<Student> := [];
      var duplicateLines: seq<nat> := [];
      var invalidLines: seq<nat> := [];
      ghost var acceptedLines: seq<nat> := [];
      ghost var views := Views(lines, parseDate);
      var lineNumber := 0;
      while lineNumber < |lines|
        invariant 0 <= lineNumber <= |lines|
        invariant repository.records == stored && repository.bulkInserts == old(repository.bulkInserts)
        invariant Run(views[lineNumber..], lineNumber,
                      Progress(existingNims, imported, duplicateLines, invalidLines, acceptedLines), newId)
                  == Reconcile(lines, stored, parseDate, newId)
      {
        var rawLine := lines[lineNumber];
        ghost var before := Progress(existingNims, imported, duplicateLines, invalidLines, acceptedLines);
        RunUnfold(views, lineNumber, before, newId);
        assert views[lineNumber] == View(lineNumber + 1, rawLine, parseDate);
        lineNumber := lineNumber + 1;

        if IsBlank(rawLine) {
          StepSkipped(before, lineNumber, rawLine, parseDate, newId);
          continue;
        }
        if lineNumber == 1 && ContainsIgnoreCase(rawLine, HeaderToken) {
          StepSkipped(before, lineNumber, rawLine, parseDate, newId);
          continue;
        }

        var columns := SplitCsvLine(rawLine);
        if |columns| < 4 {
          StepInvalid(before, lineNumber, rawLine, parseDate, newId);
          invalidLines := invalidLines + [lineNumber];
          continue;
        }

        var nim := Trim(columns[0]);
        var firstName := Trim(columns[1]);
        var lastName := Trim(columns[2]);
        var dobValue := Trim(columns[3]);
        var dob := parseDate(dobValue);
        if IsBlank(nim) || IsBlank(firstName) || dob.None? {
          StepInvalid(before, lineNumber, rawLine, parseDate, newId);
          invalidLines := invalidLines + [lineNumber];
          continue;
        }

        var row := Row(nim, firstName, if IsBlank(lastName) then None else Some(lastName), dob.value);
        if Fold(nim) in existingNims {
          StepDuplicate(before, lineNumber, rawLine, row, parseDate, newId);
          duplicateLines := duplicateLines + [lineNumber];
          continue;
        }

        StepAccepted(before, lineNumber, rawLine, row, parseDate, newId);

        imported := imported + [Student(newId(|imported|), nim, firstName, row.lastName, dob.value)];
        acceptedLines := acceptedLines + [lineNumber];
        existingNims := existingNims + {Fold(nim)};
      }
      assert views[lineNumber..] == [];

      if |imported| > 0 {
        repository.AddMany(imported);
      }
      response := Ok(|imported|, |duplicateLines|, |invalidLines|);
    }
  }

  /** A skipped line leaves the progress as it is. */
  lemma StepSkipped(p: Progress, lineNumber: nat, rawLine: string, parseDate: string -> Option<Date>, newId: nat -> string)
    requires IsSkipped(lineNumber, rawLine)
    ensures Step(p, lineNumber, View(lineNumber, rawLine, parseDate), newId) == p
  {
  }

  /**
   * A line that is not skipped and splits into fewer than four fields, or
   * has a blank NIM or first name or an unparseable date, is recorded as
   * invalid.
   */
  lemma StepInvalid(p: Progress, lineNumber: nat, rawLine: string, parseDate: string -> Option<Date>, newId: nat -> string)
    requires !IsSkipped(lineNumber, rawLine)
    requires var columns := Split(rawLine);
             || |columns| < 4
             || IsBlank(Trim(columns[0])) || IsBlank(Trim(columns[1])) || parseDate(Trim(columns[3])).None?
    ensures Step(p, lineNumber, View(lineNumber, rawLine, parseDate), newId) == p.(invalidLines := p.invalidLines + [lineNumber])
  {
    assert ParseRow(rawLine, parseDate).None?;
  }

  /** A line whose fields pass validation parses to the row built from them. */
  predicate ValidLine(rawLine: string, row: Row, parseDate: string -> Option<Date>) {
    var columns := Split(rawLine);
    && |columns| >= 4
    && !IsBlank(Trim(columns[0])) && !IsBlank(Trim(columns[1])) && parseDate(Trim(columns[3])).Some?
    && var lastName := Trim(columns[2]);
    && row == Row(Trim(columns[0]), Trim(columns[1]), if IsBlank(lastName) then None else Some(lastName),
                  parseDate(Trim(columns[3])).value)
  }

  /** A valid line whose NIM was seen is recorded as a duplicate. */
  lemma StepDuplicate(p: Progress, lineNumber: nat, rawLine: string, row: Row,
                      parseDate: string -> Option<Date>, newId: nat -> string)
    requires !IsSkipped(lineNumber, rawLine) && ValidLine(rawLine, row, parseDate)
    requires Fold(row.nim) in p.seen
    ensures Step(p, lineNumber, View(lineNumber, rawLine, parseDate), newId) == p.(duplicateLines := p.duplicateLines + [lineNumber])
  {
    assert ParseRow(rawLine, parseDate) == Some(row);
  }

  /** A valid line with an unseen NIM adds a record, with the next id, and its case-folded NIM. */
  lemma StepAccepted(p: Progress, lineNumber: nat, rawLine: string, row: Row,
                     parseDate: string -> Option<Date>, newId: nat -> string)
    requires !IsSkipped(lineNumber, rawLine) && ValidLine(rawLine, row, parseDate)
    requires Fold(row.nim) !in p.seen
    ensures Step(p, lineNumber, View(lineNumber, rawLine, parseDate), newId)
            == p.(seen := p.seen + {Fold(row.nim)},
                  imported := p.imported + [Student(newId(|p.imported|), row.nim, row.firstName, row.lastName, row.dateOfBirth)],
                  acceptedLines := p.acceptedLines + [lineNumber])
  {
    assert ParseRow(rawLine, parseDate) == Some(row);
  }
}
