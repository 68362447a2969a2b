/**
 * Worked scenarios on concrete values: the allocator on a small store, the
 * import reconciliation on short files, and the CSV escaper on a last name
 * with a comma and quotes. The date parser stays abstract; each scenario
 * states only what it needs of it.
 */
module Scenarios {
  import opened Wrappers
  import opened Text
  import opened NimAllocator
  import opened Csv
  import opened Entities
  import opened Reconciliation

  // ---------------------------------------------------------------------
  // Allocation
  // ---------------------------------------------------------------------

  /** In an empty store the first NIM of cohort "C1423" is "C14230001". */
  lemma FirstNimOfCohort()
    ensures AllocateNim("C1423", []) == "C14230001"
  {
    AllocateStartsAtOne("C1423", []);
  }

  /** A store holding one NIM of the cohort answers that NIM. */
  lemma SingleNimLast(nim: string, prefix: string)
    requires prefix <= nim
    ensures LastNomorInduk([nim], prefix) == Some(nim)
  {
  }

  lemma SevenAndEightFormatted()
    ensures FormatD4(7) == "0007" && FormatD4(8) == "0008"
  {
    assert PadLeft(7, 1) == "7" && PadLeft(8, 1) == "8";
    assert PadLeft(7, 2) == "07" && PadLeft(8, 2) == "08";
    assert PadLeft(7, 3) == "007" && PadLeft(8, 3) == "008";
  }

  /** With "C14230007" the cohort's greatest NIM, the next one is "C14230008". */
  lemma NimAfterSeven()
    ensures AllocateNim("C1423", ["C14230007"]) == "C14230008"
  {
    SevenAndEightFormatted();
    var last := Numbered("C1423", 7);
    assert last == "C14230007";
    NumberedSuffix("C1423", 7);
    SingleNimLast(last, "C1423");
    AllocateIncrements("C1423", [last], last);
  }

  /**
   * A last NIM "C1423-001" ends in "-001", which parses as -1: the next NIM
   * is "C14230000".
   */
  lemma NegativeSuffixGivesZero()
    ensures AllocateNim("C1423", ["C1423-001"]) == "C14230000"
  {
    var last := "C1423-001";
    SingleNimLast(last, "C1423");
    MinusOneParsed(last);
    ZeroFormatted();
    AllocateParsed("C1423", [last], last, -1);
  }

  lemma MinusOneParsed(last: string)
    requires last == "C1423-001"
    ensures |last| >= 9 && TryParseInt32(last[|last| - 4..]) == Some(-1)
  {
    assert |last| == 9 && last[5..] == "-001";
    MinusOneSuffix();
  }

  lemma MinusOneSuffix()
    ensures TryParseInt32("-001") == Some(-1)
  {
    assert "-001" == "-" + "001";
    ParseNegative("001");
  }

  lemma ZeroFormatted()
    ensures FormatD4(0) == "0000"
  {
    assert PadLeft(0, 1) == "0" && PadLeft(0, 2) == "00" && PadLeft(0, 3) == "000";
  }

  /**
   * A short prefix also matches longer NIMs of other cohorts: for "A12" the
   * stored "A12230001" is the ordinal maximum, and its suffix 0001 gives
   * "A120002".
   */
  lemma ShortPrefixBorrowsSequence(nims: seq<string>)
    requires nims == ["A120001", "A12230001"]
    ensures AllocateNim("A12", nims) == "A120002"
  {
    BorrowedLast(nims);
    FormatD4One();
    assert Numbered("A1223", 1) == "A1223" + "0001" == "A12230001";
    BorrowedStep(nims, "A12230001");
  }

  lemma BorrowedStep(nims: seq<string>, last: string)
    requires LastNomorInduk(nims, "A12") == Some(last) && last == Numbered("A1223", 1)
    ensures AllocateNim("A12", nims) == "A120002"
  {
    NumberedSuffix("A1223", 1);
    AllocateIncrements("A12", nims, last);
    TwoFormatted();
    A12Joined();
  }

  lemma A12Joined()
    ensures "A12" + "0002" == "A120002"
  {
    assert ("A12" + "0002")[3..] == "0002";
  }

  lemma BorrowedLast(nims: seq<string>)
    requires nims == ["A120001", "A12230001"]
    ensures LastNomorInduk(nims, "A12") == Some("A12230001")
  {
    assert !OrdinalLe(nims[1], nims[0]);
  }

  lemma TwoFormatted()
    ensures FormatD4(2) == "0002"
  {
    assert PadLeft(2, 1) == "2" && PadLeft(2, 2) == "02" && PadLeft(2, 3) == "002";
  }

  /** A malformed legacy NIM "C1423", shorter than 9, is ignored: numbering starts at "C14230001". */
  lemma ShortLegacyNimIgnored()
    ensures AllocateNim("C1423", ["C1423"]) == "C14230001"
  {
    assert LastNomorInduk(["C1423"], "C1423") == Some("C1423");
    AllocateStartsAtOne("C1423", ["C1423"]);
  }

  // ---------------------------------------------------------------------
  // Import
  // ---------------------------------------------------------------------

  const JaneDob := Date(2001, 5, 4)

  /**
   * Characters that need no CSV quoting, are not whitespace, and do not fold
   * to 'K' (so a line made of them cannot contain the header token).
   */
  predicate PlainChar(c: char) {
    ('0' <= c <= '9') || ('A' <= c <= 'Z' && c != 'K') || ('a' <= c <= 'z' && c != 'k') || c == '-'
  }

  predicate PlainText(s: string) {
    forall i :: 0 <= i < |s| ==> PlainChar(s[i])
  }

  /** No character of `line` folds to 'K', the tenth letter of the header token. */
  predicate WithoutK(line: string) {
    forall i :: 0 <= i < |line| ==> FoldChar(line[i]) != 'K'
  }

  lemma PlainTextFacts(s: string)
    requires PlainText(s)
    ensures !HasSpecial(s) && Trimmed(s) && WithoutK(s)
  {
    if s != [] {
      assert PlainChar(s[0]) && PlainChar(s[|s| - 1]);
    }
  }

  lemma {:induction false} JoinWithoutK(fields: seq<string>)
    requires forall i :: 0 <= i < |fields| ==> WithoutK(fields[i])
    ensures WithoutK(JoinFields(fields))
  {
    if |fields| > 1 {
      JoinWithoutK(fields[1..]);
      assert WithoutK(fields[0]);
    }
  }

  lemma Join3(a: string, b: string, c: string)
    ensures JoinFields([a, b, c]) == a + "," + b + "," + c
  {
    assert [a, b, c][1..] == [b, c];
    assert [b, c][1..] == [c];
    assert JoinFields([b, c]) == b + "," + c;
  }

  lemma Join4(a: string, b: string, c: string, d: string)
    ensures JoinFields([a, b, c, d]) == a + "," + b + "," + c + "," + d
  {
    assert [a, b, c, d][1..] == [b, c, d];
    Join3(b, c, d);
  }

  /** A joined line starts with the first character of its first field. */
  lemma JoinHead(fields: seq<string>)
    requires |fields| >= 1 && fields[0] != []
    ensures var line := JoinFields(fields); line != [] && line[0] == fields[0][0]
  {
    if |fields| > 1 {
      assert JoinFields(fields) == fields[0] + ("," + JoinFields(fields[1..]));
    }
  }

  /** A line that starts with a plain character and has no character folding to 'K' is not skipped. */
  lemma NotSkipped(lineNumber: nat, line: string)
    requires line != [] && PlainChar(line[0]) && WithoutK(line)
    ensures !IsSkipped(lineNumber, line)
  {
    NotContainsIgnoreCase(line, HeaderToken, 9);
  }

  lemma AllPlainFacts(fields: seq<string>)
    requires forall i :: 0 <= i < |fields| ==> PlainText(fields[i])
    ensures forall i :: 0 <= i < |fields| ==> !HasSpecial(fields[i]) && Trimmed(fields[i]) && WithoutK(fields[i])
  {
    forall i | 0 <= i < |fields| ensures !HasSpecial(fields[i]) && Trimmed(fields[i]) && WithoutK(fields[i]) {
      PlainTextFacts(fields[i]);
    }
  }

  /**
   * A line of plain fields whose first field is non-empty is neither blank
   * nor a header, wherever it stands, and splits back into its fields.
   */
  lemma PlainLine(lineNumber: nat, fields: seq<string>, parseDate: string -> Option<Date>)
    requires |fields| >= 1 && fields[0] != []
    requires forall i :: 0 <= i < |fields| ==> PlainText(fields[i])
    ensures View(lineNumber, JoinFields(fields), parseDate) == LineView(false, ParseRow(JoinFields(fields), parseDate))
    ensures Split(JoinFields(fields)) == fields
    ensures forall i :: 0 <= i < |fields| ==> !HasSpecial(fields[i]) && Trimmed(fields[i])
  {
    AllPlainFacts(fields);
    JoinWithoutK(fields);
    SplitPlainRow(fields);
    JoinHead(fields);
    assert PlainText(fields[0]);
    NotSkipped(lineNumber, JoinFields(fields));
  }

  /** A one-line file is one step from the initial progress. */
  lemma ReconcileOne(lines: seq<string>, existing: seq<Student>, v: LineView,
                     parseDate: string -> Option<Date>, newId: nat -> string)
    requires |lines| == 1 && View(1, lines[0], parseDate) == v
    ensures Reconcile(lines, existing, parseDate, newId) == Step(Initial(existing), 1, v, newId)
  {
    var p := Initial(existing);
    assert Views(lines, parseDate) == [v];
    assert [v][1..] == [];
    assert Run([v], 0, p, newId) == Run([], 1, Step(p, 1, v, newId), newId);
  }

  /** A one-line file whose line is a row with a NIM not yet stored imports exactly that row. */
  lemma ReconcileOneAccepted(lines: seq<string>, existing: seq<Student>, row: Row,
                             parseDate: string -> Option<Date>, newId: nat -> string)
    requires |lines| == 1 && View(1, lines[0], parseDate) == LineView(false, Some(row))
    requires Fold(row.nim) !in FoldedNims(existing)
    ensures var r := Reconcile(lines, existing, parseDate, newId);
            && r.imported == [Student(newId(0), row.nim, row.firstName, row.lastName, row.dateOfBirth)]
            && r.duplicateLines == [] && r.invalidLines == []
  {
    ReconcileOne(lines, existing, LineView(false, Some(row)), parseDate, newId);
  }

  /** A one-line file whose line is a row with a stored NIM is a duplicate. */
  lemma ReconcileOneDuplicate(lines: seq<string>, existing: seq<Student>, row: Row,
                              parseDate: string -> Option<Date>, newId: nat -> string)
    requires |lines| == 1 && View(1, lines[0], parseDate) == LineView(false, Some(row))
    requires Fold(row.nim) in FoldedNims(existing)
    ensures var r := Reconcile(lines, existing, parseDate, newId);
            && r.imported == [] && r.duplicateLines == [1] && r.invalidLines == []
  {
    ReconcileOne(lines, existing, LineView(false, Some(row)), parseDate, newId);
  }

  /** A one-line file whose line does not validate is one invalid line. */
  lemma ReconcileOneInvalid(lines: seq<string>, existing: seq<Student>,
                            parseDate: string -> Option<Date>, newId: nat -> string)
    requires |lines| == 1 && View(1, lines[0], parseDate) == LineView(false, None)
    ensures var r := Reconcile(lines, existing, parseDate, newId);
            && r.imported == [] && r.duplicateLines == [] && r.invalidLines == [1]
  {
    ReconcileOne(lines, existing, LineView(false, None), parseDate, newId);
  }

  /** A line of four plain fields with a NIM, a first name, a last name and a parseable date is a row. */
  lemma AcceptedLine(line: string, fields: seq<string>, parseDate: string -> Option<Date>, lineNumber: nat)
    requires |fields| == 4 && line == JoinFields(fields)
    requires forall i :: 0 <= i < 4 ==> PlainText(fields[i])
    requires fields[0] != [] && fields[1] != [] && fields[2] != [] && parseDate(fields[3]).Some?
    ensures View(lineNumber, line, parseDate)
            == LineView(false, Some(Row(fields[0], fields[1], Some(fields[2]), parseDate(fields[3]).value)))
  {
    PlainLine(lineNumber, fields, parseDate);
    PlainRowAccepted(fields, parseDate);
  }

  /** A line of four plain fields with no NIM, no first name or no parseable date is invalid. */
  lemma RejectedLine(line: string, fields: seq<string>, parseDate: string -> Option<Date>, lineNumber: nat)
    requires |fields| == 4 && line == JoinFields(fields)
    requires forall i :: 0 <= i < 4 ==> PlainText(fields[i])
    requires fields[0] != [] && (fields[1] == [] || parseDate(fields[3]).None?)
    ensures View(lineNumber, line, parseDate) == LineView(false, None)
  {
    PlainLine(lineNumber, fields, parseDate);
    PlainRowRejected(fields, parseDate);
  }

  /** A line of fewer than four plain fields is invalid. */
  lemma ShortLine(line: string, fields: seq<string>, parseDate: string -> Option<Date>, lineNumber: nat)
    requires 1 <= |fields| < 4 && line == JoinFields(fields)
    requires forall i :: 0 <= i < |fields| ==> PlainText(fields[i])
    requires fields[0] != []
    ensures View(lineNumber, line, parseDate) == LineView(false, None)
  {
    PlainLine(lineNumber, fields, parseDate);
  }

  lemma JaneFields()
    ensures PlainText("A1230001") && PlainText("Jane") && PlainText("Doe") && PlainText("2001-05-04")
  {
  }

  lemma HeaderFields()
    ensures PlainText("NIM") && PlainText("FirstName") && PlainText("LastName") && PlainText("DOB")
  {
  }

  lemma JaneJoin()
    ensures JoinFields(["A1230001", "Jane", "Doe", "2001-05-04"]) == "A1230001,Jane,Doe,2001-05-04"
  {
    Join4("A1230001", "Jane", "Doe", "2001-05-04");
  }

  lemma JohnJoin()
    ensures JoinFields(["A1230001", "John", "Roe", "2001-05-04"]) == "A1230001,John,Roe,2001-05-04"
  {
    Join4("A1230001", "John", "Roe", "2001-05-04");
  }

  lemma HeaderJoin()
    ensures JoinFields(["NIM", "FirstName", "LastName", "DOB"]) == "NIM,FirstName,LastName,DOB"
  {
    Join4("NIM", "FirstName", "LastName", "DOB");
  }

  lemma ThreeJoin()
    ensures JoinFields(["A1230001", "Jane", "Doe"]) == "A1230001,Jane,Doe"
  {
    Join3("A1230001", "Jane", "Doe");
  }

  lemma NoFirstNameJoin()
    ensures JoinFields(["A1230001", "", "Doe", "2001-05-04"]) == "A1230001,,Doe,2001-05-04"
  {
    Join4("A1230001", "", "Doe", "2001-05-04");
  }

  lemma SameNimFolded()
    ensures Fold("A1230001") == Fold("a1230001")
  {
  }

  lemma JaneLine(line: string, parseDate: string -> Option<Date>)
    requires line == "A1230001,Jane,Doe,2001-05-04" && parseDate("2001-05-04") == Some(JaneDob)
    ensures View(1, line, parseDate) == LineView(false, Some(Row("A1230001", "Jane", Some("Doe"), JaneDob)))
  {
    JaneJoin();
    JaneFields();
    AcceptedLine(line, ["A1230001", "Jane", "Doe", "2001-05-04"], parseDate, 1);
  }

  lemma JohnLine(line: string, parseDate: string -> Option<Date>)
    requires line == "A1230001,John,Roe,2001-05-04" && parseDate("2001-05-04") == Some(JaneDob)
    ensures View(1, line, parseDate) == LineView(false, Some(Row("A1230001", "John", Some("Roe"), JaneDob)))
  {
    JohnJoin();
    JaneFields();
    assert PlainText("John") && PlainText("Roe");
    AcceptedLine(line, ["A1230001", "John", "Roe", "2001-05-04"], parseDate, 1);
  }

  lemma HeaderLine(line: string, parseDate: string -> Option<Date>)
    requires line == "NIM,FirstName,LastName,DOB" && parseDate("DOB").None?
    ensures View(1, line, parseDate) == LineView(false, None)
  {
    HeaderJoin();
    HeaderFields();
    RejectedLine(line, ["NIM", "FirstName", "LastName", "DOB"], parseDate, 1);
  }

  lemma ThreeFieldLine(line: string, parseDate: string -> Option<Date>)
    requires line == "A1230001,Jane,Doe"
    ensures View(1, line, parseDate) == LineView(false, None)
  {
    ThreeJoin();
    JaneFields();
    ShortLine(line, ["A1230001", "Jane", "Doe"], parseDate, 1);
  }

  lemma NoFirstNameLine(line: string, parseDate: string -> Option<Date>)
    requires line == "A1230001,,Doe,2001-05-04"
    ensures View(1, line, parseDate) == LineView(false, None)
  {
    NoFirstNameJoin();
    JaneFields();
    RejectedLine(line, ["A1230001", "", "Doe", "2001-05-04"], parseDate, 1);
  }

  /** A well-formed line with a new NIM becomes a record with the first generated id. */
  lemma JaneImported(lines: seq<string>, parseDate: string -> Option<Date>, newId: nat -> string)
    requires lines == ["A1230001,Jane,Doe,2001-05-04"] && parseDate("2001-05-04") == Some(JaneDob)
    ensures var r := Reconcile(lines, [], parseDate, newId);
            && r.imported == [Student(newId(0), "A1230001", "Jane", Some("Doe"), JaneDob)]
            && r.duplicateLines == [] && r.invalidLines == []
  {
    JaneLine(lines[0], parseDate);
    ReconcileOneAccepted(lines, [], Row("A1230001", "Jane", Some("Doe"), JaneDob), parseDate, newId);
  }

  /**
   * The header "NIM,FirstName,LastName,DOB" holds no "NomorIndukMahasiswa",
   * so on line 1 it is not skipped: with a date parser that rejects "DOB" it
   * is an invalid line.
   */
  lemma ShortHeaderIsData(lines: seq<string>, parseDate: string -> Option<Date>, newId: nat -> string)
    requires lines == ["NIM,FirstName,LastName,DOB"] && parseDate("DOB").None?
    ensures var r := Reconcile(lines, [], parseDate, newId);
            && r.imported == [] && r.duplicateLines == [] && r.invalidLines == [1]
  {
    HeaderLine(lines[0], parseDate);
    ReconcileOneInvalid(lines, [], parseDate, newId);
  }

  /** A line whose NIM differs only in case from a stored one is a duplicate. */
  lemma CaseInsensitiveDuplicate(lines: seq<string>, existing: seq<Student>, parseDate: string -> Option<Date>,
                                 newId: nat -> string)
    requires lines == ["A1230001,John,Roe,2001-05-04"] && parseDate("2001-05-04") == Some(JaneDob)
    requires existing == [Student("s1", "a1230001", "Jane", Some("Doe"), JaneDob)]
    ensures var r := Reconcile(lines, existing, parseDate, newId);
            && r.imported == [] && r.duplicateLines == [1] && r.invalidLines == []
  {
    JohnLine(lines[0], parseDate);
    SameNimFolded();
    assert Fold("a1230001") in FoldedNims(existing) by {
      assert existing[0].nim == "a1230001";
    }
    ReconcileOneDuplicate(lines, existing, Row("A1230001", "John", Some("Roe"), JaneDob), parseDate, newId);
  }

  /** A line with only three fields is invalid and nothing is imported. */
  lemma ThreeFieldsInvalid(lines: seq<string>, parseDate: string -> Option<Date>, newId: nat -> string)
    requires lines == ["A1230001,Jane,Doe"]
    ensures var r := Reconcile(lines, [], parseDate, newId);
            && r.imported == [] && r.duplicateLines == [] && r.invalidLines == [1]
  {
    ThreeFieldLine(lines[0], parseDate);
    ReconcileOneInvalid(lines, [], parseDate, newId);
  }

  /** A line with an empty first name is invalid. */
  lemma EmptyFirstNameInvalid(lines: seq<string>, parseDate: string -> Option<Date>, newId: nat -> string)
    requires lines == ["A1230001,,Doe,2001-05-04"]
    ensures var r := Reconcile(lines, [], parseDate, newId);
            && r.imported == [] && r.duplicateLines == [] && r.invalidLines == [1]
  {
    NoFirstNameLine(lines[0], parseDate);
    ReconcileOneInvalid(lines, [], parseDate, newId);
  }

  // ---------------------------------------------------------------------
  // Escaping
  // ---------------------------------------------------------------------

  lemma SmithParts()
    ensures QuoteCount("Smith, ") == 0 && QuoteCount("Jr.") == 0 && DoubleQuotes("\"") == "\"\""
  {
  }

  /** Doubling the quotes of `name"inner"` when neither part holds a quote. */
  lemma DoubleQuotesAround(name: string, inner: string)
    requires QuoteCount(name) == 0 && QuoteCount(inner) == 0
    ensures DoubleQuotes(name + "\"" + inner + "\"") == name + "\"\"" + inner + "\"\""
  {
    var q := "\"";
    assert DoubleQuotes(q) == "\"\"";
    DoubleQuotesAppend(name + q + inner, q);
    DoubleQuotesAppend(name + q, inner);
    DoubleQuotesAppend(name, q);
    DoubleQuotesFacts(name);
    DoubleQuotesFacts(inner);
  }

  lemma SmithDoubled(v: string)
    requires v == "Smith, \"Jr.\""
    ensures DoubleQuotes(v) == "Smith, \"\"Jr.\"\""
  {
    SmithParts();
    assert v == "Smith, " + "\"" + "Jr." + "\"";
    DoubleQuotesAround("Smith, ", "Jr.");
  }

  /** A value that needs quoting is written as its doubled form between quotes. */
  lemma EscapeQuoted(v: string)
    requires HasSpecial(v)
    ensures EscapeForCsv(Some(v)) == "\"" + DoubleQuotes(v) + "\""
  {
    DoubleQuotesFacts(v);
  }

  lemma SmithSpecial(v: string)
    requires v == "Smith, \"Jr.\""
    ensures HasSpecial(v)
  {
    assert NeedsQuoting(v[5]);
  }

  /** The last name `Smith, "Jr."` is written quoted, with its quotes doubled (it reads back by `SplitEscapedCell`). */
  lemma EscapeSmithJunior(v: string)
    requires v == "Smith, \"Jr.\""
    ensures EscapeForCsv(Some(v)) == "\"Smith, \"\"Jr.\"\"\""
  {
    SmithSpecial(v);
    EscapeQuoted(v);
    SmithDoubled(v);
  }
}
