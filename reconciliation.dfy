/**
 * The reconciliation that `StudentsController.Import` performs over the
 * lines of an uploaded CSV file, written as a fold: every line read bumps
 * the line number; blank lines and a line-1 header are skipped; every
 * other line is invalid, a duplicate (its NIM, compared case-insensitively,
 * is already in the store or was accepted on an earlier line) or accepted.
 */
module Reconciliation {
  import opened Wrappers
  import opened Text
  import opened Csv
  import opened Entities

  /** The column name whose presence on line 1 marks the header row. */
  const HeaderToken := "NomorIndukMahasiswa"

  /** Lines that fall into no category: blank lines and a header on line 1. */
  predicate IsSkipped(lineNumber: nat, rawLine: string) {
    IsBlank(rawLine) || (lineNumber == 1 && ContainsIgnoreCase(rawLine, HeaderToken))
  }

  /** The validated fields of one data line. */
  datatype Row = Row(nim: string, firstName: string, lastName: Option<string>, dateOfBirth: Date)

  /**
   * What import guarantees of every record it builds: NIM and first name
   * trimmed and non-empty, the last name absent or trimmed and non-empty.
   */
  predicate WellFormed(nim: string, firstName: string, lastName: Option<string>) {
    && nim != [] && Trimmed(nim)
    && firstName != [] && Trimmed(firstName)
    && (lastName.Some? ==> lastName.value != [] && Trimmed(lastName.value))
  }

  /** A trimmed string is blank exactly when it is empty. */
  lemma TrimmedBlank(s: string)
    requires Trimmed(s)
    ensures IsBlank(s) <==> s == []
  {
    if s != [] {
      assert !IsWhiteSpace(s[0]);
    }
  }

  /**
   * Field extraction and validation of a non-skipped line: split with CSV
   * quoting, at least four fields, trimmed NIM and first name non-blank,
   * trimmed date parseable; a blank last name becomes absent.
   */
  function ParseRow(rawLine: string, parseDate: string -> Option<Date>): (r: Option<Row>)
    ensures var columns := Split(rawLine);
            r.None? <==> || |columns| < 4
                         || IsBlank(columns[0])
                         || IsBlank(columns[1])
                         || parseDate(Trim(columns[3])).None?
    ensures r.Some? ==> WellFormed(r.value.nim, r.value.firstName, r.value.lastName)
    ensures r.Some? ==> (r.value.lastName.None? <==> IsBlank(Split(rawLine)[2]))
  {
    var columns := Split(rawLine);
    if |columns| < 4 then None
    else
      var nim := Trim(columns[0]);
      var firstName := Trim(columns[1]);
      var lastName := Trim(columns[2]);
      var dob := parseDate(Trim(columns[3]));
      TrimFacts(columns[0]);
      TrimFacts(columns[1]);
      TrimFacts(columns[2]);
      TrimmedBlank(nim);
      TrimmedBlank(firstName);
      TrimmedBlank(lastName);
      if IsBlank(nim) || IsBlank(firstName) || dob.None? then None
      else Some(Row(nim, firstName, if IsBlank(lastName) then None else Some(lastName), dob.value))
  }

  /** Four plain, trimmed fields with a NIM, a first name, a last name and a parseable date validate to a row. */
  lemma PlainRowAccepted(fields: seq<string>, parseDate: string -> Option<Date>)
    requires |fields| == 4
    requires forall i :: 0 <= i < 4 ==> !HasSpecial(fields[i]) && Trimmed(fields[i])
    requires fields[0] != [] && fields[1] != [] && fields[2] != [] && parseDate(fields[3]).Some?
    ensures ParseRow(JoinFields(fields), parseDate)
            == Some(Row(fields[0], fields[1], Some(fields[2]), parseDate(fields[3]).value))
  {
    PlainFields(fields);
    TrimmedBlank(fields[0]);
    TrimmedBlank(fields[1]);
    TrimmedBlank(fields[2]);
  }

  /** Four plain, trimmed fields with no NIM, no first name or no parseable date are rejected. */
  lemma PlainRowRejected(fields: seq<string>, parseDate: string -> Option<Date>)
    requires |fields| == 4
    requires forall i :: 0 <= i < 4 ==> !HasSpecial(fields[i]) && Trimmed(fields[i])
    requires fields[0] == [] || fields[1] == [] || parseDate(fields[3]).None?
    ensures ParseRow(JoinFields(fields), parseDate).None?
  {
    PlainFields(fields);
    TrimmedBlank(fields[0]);
    TrimmedBlank(fields[1]);
  }

  lemma PlainFields(fields: seq<string>)
    requires |fields| == 4
    requires forall i :: 0 <= i < 4 ==> !HasSpecial(fields[i]) && Trimmed(fields[i])
    ensures Split(JoinFields(fields)) == fields
    ensures forall i :: 0 <= i < 4 ==> Trim(fields[i]) == fields[i]
  {
    SplitPlainRow(fields);
    forall i | 0 <= i < 4 ensures Trim(fields[i]) == fields[i] {
      TrimOfTrimmed(fields[i]);
    }
  }

  /**
   * What a line says on its own, before the NIMs seen so far are consulted:
   * whether it is skipped, and its validated fields when it has them.
   */
  datatype LineView = LineView(skipped: bool, parsed: Option<Row>)

  function View(lineNumber: nat, rawLine: string, parseDate: string -> Option<Date>): LineView {
    LineView(IsSkipped(lineNumber, rawLine), ParseRow(rawLine, parseDate))
  }

  /** The views of `lines`, numbered from 1. */
  function Views(lines: seq<string>, parseDate: string -> Option<Date>): (views: seq<LineView>)
    ensures |views| == |lines|
  {
    seq(|lines|, i requires 0 <= i < |lines| => View(i + 1, lines[i], parseDate))
  }

  /** The views of a prefix of the file are a prefix of its views. */
  lemma ViewsPrefix(lines: seq<string>, j: nat, parseDate: string -> Option<Date>)
    requires j <= |lines|
    ensures Views(lines, parseDate)[..j] == Views(lines[..j], parseDate)
  {
  }

  /** A view that passed validation holds a well-formed row. */
  predicate Sound(v: LineView) {
    v.parsed.Some? ==> WellFormed(v.parsed.value.nim, v.parsed.value.firstName, v.parsed.value.lastName)
  }

  lemma ViewsSound(lines: seq<string>, parseDate: string -> Option<Date>)
    ensures forall i :: 0 <= i < |lines| ==> Sound(Views(lines, parseDate)[i])
  {
  }

  /** The category of one line. */
  datatype Outcome = Skipped | Invalid | Duplicate | Accepted(row: Row)

  /** The category of a line from its view and the (case-folded) NIMs seen before it. */
  function Judge(v: LineView, seen: set<string>): Outcome {
    if v.skipped then Skipped
    else match v.parsed
      case None => Invalid
      case Some(row) => if Fold(row.nim) in seen then Duplicate else Accepted(row)
  }

  /** The category of line `lineNumber`, given the NIMs seen before it. */
  function Classify(lineNumber: nat, rawLine: string, seen: set<string>, parseDate: string -> Option<Date>): Outcome {
    Judge(View(lineNumber, rawLine, parseDate), seen)
  }

  /**
   * The state of the pass: the case-folded NIMs seen (the `HashSet` with
   * `OrdinalIgnoreCase`), the records built, and the line numbers of each
   * category (accepted line numbers are kept for the proofs only).
   */
  datatype Progress = Progress(
    seen: set<string>,
    imported: seq<Student>,
    duplicateLines: seq<nat>,
    invalidLines: seq<nat>,
    acceptedLines: seq<nat>)

  function FoldedNims(records: seq<Student>): set<string> {
    set i | 0 <= i < |records| :: Fold(records[i].nim)
  }

  function Initial(existing: seq<Student>): Progress {
    Progress(FoldedNims(existing), [], [], [], [])
  }

  /** Records the outcome of line `lineNumber`; a new record's id is `newId(number accepted so far)`. */
  function Apply(p: Progress, lineNumber: nat, o: Outcome, newId: nat -> string): Progress {
    match o
    case Skipped => p
    case Invalid => p.(invalidLines := p.invalidLines + [lineNumber])
    case Duplicate => p.(duplicateLines := p.duplicateLines + [lineNumber])
    case Accepted(row) =>
      var student := Student(newId(|p.imported|), row.nim, row.firstName, row.lastName, row.dateOfBirth);
      p.(seen := p.seen + {Fold(row.nim)},
         imported := p.imported + [student],
         acceptedLines := p.acceptedLines + [lineNumber])
  }

  /** One iteration of the loop, on line `lineNumber` whose view is `v`. */
  function Step(p: Progress, lineNumber: nat, v: LineView, newId: nat -> string): Progress {
    Apply(p, lineNumber, Judge(v, p.seen), newId)
  }

  /** The rest of the pass, after `read` lines have been read. */
  function Run(views: seq<LineView>, read: nat, p: Progress, newId: nat -> string): Progress
    decreases |views|
  {
    if views == [] then p
    else Run(views[1..], read + 1, Step(p, read + 1, views[0], newId), newId)
  }

  lemma RunUnfold(views: seq<LineView>, i: nat, p: Progress, newId: nat -> string)
    requires i < |views|
    ensures Run(views[i..], i, p, newId) == Run(views[i + 1..], i + 1, Step(p, i + 1, views[i], newId), newId)
  {
    assert views[i..][1..] == views[i + 1..];
  }

  /** The whole pass over a file against the records already in the store. */
  function Reconcile(lines: seq<string>, existing: seq<Student>,
                     parseDate: string -> Option<Date>, newId: nat -> string): Progress
  {
    Run(Views(lines, parseDate), 0, Initial(existing), newId)
  }

  // ---------------------------------------------------------------------
  // Reference definitions, independent of the order of the pass
  // ---------------------------------------------------------------------

  /** The case-folded NIM a line contributes when it is a valid data line. */
  function NimOf(v: LineView): set<string> {
    if v.skipped || v.parsed.None? then {} else {Fold(v.parsed.value.nim)}
  }

  /** The case-folded NIMs of all valid data lines among `views`. */
  function ValidNims(views: seq<LineView>): set<string> {
    if views == [] then {} else NimOf(views[0]) + ValidNims(views[1..])
  }

  /** The number of skipped lines among `views`. */
  function SkippedLines(views: seq<LineView>): nat {
    if views == [] then 0 else (if views[0].skipped then 1 else 0) + SkippedLines(views[1..])
  }

  // ---------------------------------------------------------------------
  // The accepted records
  // ---------------------------------------------------------------------

  /**
   * The seen set is the store's NIMs plus the accepted ones; accepted NIMs
   * are new and pairwise distinct under case folding; every record is
   * well formed.
   */
  predicate Consistent(p: Progress, existing: set<string>) {
    && p.seen == existing + FoldedNims(p.imported)
    && |p.imported| == |p.acceptedLines|
    && (forall i :: 0 <= i < |p.imported| ==>
          && Fold(p.imported[i].nim) !in existing
          && WellFormed(p.imported[i].nim, p.imported[i].firstName, p.imported[i].lastName))
    && (forall i, j :: 0 <= i < j < |p.imported| ==> Fold(p.imported[i].nim) != Fold(p.imported[j].nim))
  }

  lemma FoldedNimsAppend(records: seq<Student>, s: Student)
    ensures FoldedNims(records + [s]) == FoldedNims(records) + {Fold(s.nim)}
  {
    var all := records + [s];
    forall x | x in FoldedNims(records) ensures x in FoldedNims(all) {
      var i :| 0 <= i < |records| && x == Fold(records[i].nim);
      assert all[i] == records[i];
    }
    assert all[|records|] == s;
  }

  lemma ApplyConsistent(p: Progress, existing: set<string>, lineNumber: nat, o: Outcome, newId: nat -> string)
    requires Consistent(p, existing)
    requires o.Accepted? ==> Fold(o.row.nim) !in p.seen && WellFormed(o.row.nim, o.row.firstName, o.row.lastName)
    ensures Consistent(Apply(p, lineNumber, o, newId), existing)
  {
    if o.Accepted? {
      AcceptConsistent(p, existing, lineNumber, o.row, newId);
    }
  }

  /** Accepting a well-formed row whose folded NIM is new keeps the progress consistent. */
  lemma AcceptConsistent(p: Progress, existing: set<string>, lineNumber: nat, row: Row, newId: nat -> string)
    requires Consistent(p, existing)
    requires Fold(row.nim) !in p.seen && WellFormed(row.nim, row.firstName, row.lastName)
    ensures Consistent(Apply(p, lineNumber, Accepted(row), newId), existing)
  {
    var s := Student(newId(|p.imported|), row.nim, row.firstName, row.lastName, row.dateOfBirth);
    var q := Apply(p, lineNumber, Accepted(row), newId);
    assert q.imported == p.imported + [s];
    FoldedNimsAppend(p.imported, s);
    assert q.seen == existing + FoldedNims(q.imported);
    forall i | 0 <= i < |q.imported|
      ensures Fold(q.imported[i].nim) !in existing && WellFormed(q.imported[i].nim, q.imported[i].firstName, q.imported[i].lastName)
    {
      if i < |p.imported| {
        assert q.imported[i] == p.imported[i];
      }
    }
    forall i, j | 0 <= i < j < |q.imported| ensures Fold(q.imported[i].nim) != Fold(q.imported[j].nim) {
      assert q.imported[i] == p.imported[i];
      if j < |p.imported| {
        assert q.imported[j] == p.imported[j];
      } else {
        assert Fold(p.imported[i].nim) in FoldedNims(p.imported);
      }
    }
  }

  lemma {:induction false} RunConsistent(views: seq<LineView>, read: nat, p: Progress, existing: set<string>,
                                         newId: nat -> string)
    requires Consistent(p, existing)
    requires forall i :: 0 <= i < |views| ==> Sound(views[i])
    ensures Consistent(Run(views, read, p, newId), existing)
    decreases |views|
  {
    if views != [] {
      assert Sound(views[0]);
      ApplyConsistent(p, existing, read + 1, Judge(views[0], p.seen), newId);
      assert forall i :: 0 <= i < |views[1..]| ==> Sound(views[1..][i]) by {
        forall i | 0 <= i < |views[1..]| ensures Sound(views[1..][i]) {
          assert views[1..][i] == views[i + 1];
        }
      }
      RunConsistent(views[1..], read + 1, Step(p, read + 1, views[0], newId), existing, newId);
    }
  }

  /**
   * After the pass, the seen set is the store's NIMs together with the
   * accepted ones; accepted NIMs are pairwise distinct under case folding,
   * none was already in the store, and every record is well formed.
   */
  lemma ReconcileImported(lines: seq<string>, existing: seq<Student>,
                          parseDate: string -> Option<Date>, newId: nat -> string)
    ensures var r := Reconcile(lines, existing, parseDate, newId);
            && r.seen == FoldedNims(existing) + FoldedNims(r.imported)
            && |r.imported| == |r.acceptedLines|
            && (forall i :: 0 <= i < |r.imported| ==>
                  && Fold(r.imported[i].nim) !in FoldedNims(existing)
                  && WellFormed(r.imported[i].nim, r.imported[i].firstName, r.imported[i].lastName))
            && (forall i, j :: 0 <= i < j < |r.imported| ==> Fold(r.imported[i].nim) != Fold(r.imported[j].nim))
  {
    assert FoldedNims([]) == {};
    ViewsSound(lines, parseDate);
    RunConsistent(Views(lines, parseDate), 0, Initial(existing), FoldedNims(existing), newId);
  }

  // ---------------------------------------------------------------------
  // The seen set
  // ---------------------------------------------------------------------

  /** One step adds to the seen set exactly the NIM its line contributes. */
  lemma StepSeen(p: Progress, lineNumber: nat, v: LineView, newId: nat -> string)
    ensures Step(p, lineNumber, v, newId).seen == p.seen + NimOf(v)
  {
  }

  lemma {:induction false} RunSeen(views: seq<LineView>, read: nat, p: Progress, newId: nat -> string)
    ensures Run(views, read, p, newId).seen == p.seen + ValidNims(views)
    decreases |views|
  {
    if views != [] {
      StepSeen(p, read + 1, views[0], newId);
      RunSeen(views[1..], read + 1, Step(p, read + 1, views[0], newId), newId);
    }
  }

  /** After the pass, the seen set is the store's NIMs plus those of every valid line. */
  lemma ReconcileSeen(lines: seq<string>, existing: seq<Student>,
                      parseDate: string -> Option<Date>, newId: nat -> string)
    ensures Reconcile(lines, existing, parseDate, newId).seen
            == FoldedNims(existing) + ValidNims(Views(lines, parseDate))
  {
    RunSeen(Views(lines, parseDate), 0, Initial(existing), newId);
  }

  // ---------------------------------------------------------------------
  // Line numbers and categories
  // ---------------------------------------------------------------------

  datatype Category = InvalidLine | DuplicateLine | AcceptedLine

  function LinesOf(p: Progress, c: Category): seq<nat> {
    match c
    case InvalidLine => p.invalidLines
    case DuplicateLine => p.duplicateLines
    case AcceptedLine => p.acceptedLines
  }

  predicate InCategory(o: Outcome, c: Category) {
    match c
    case InvalidLine => o.Invalid?
    case DuplicateLine => o.Duplicate?
    case AcceptedLine => o.Accepted?
  }

  /**
   * `after` is `before` followed by strictly increasing line numbers in
   * (`read`, `last`].
   */
  predicate Extends(before: seq<nat>, after: seq<nat>, read: nat, last: nat) {
    && |before| <= |after| && after[..|before|] == before
    && (forall i :: |before| <= i < |after| ==> read < after[i] <= last)
    && (forall i, j :: |before| <= i < j < |after| ==> after[i] < after[j])
  }

  lemma ExtendsTransitive(a: seq<nat>, b: seq<nat>, c: seq<nat>, lo: nat, mid: nat, hi: nat)
    requires lo <= mid <= hi
    requires Extends(a, b, lo, mid) && Extends(b, c, mid, hi)
    ensures Extends(a, c, lo, hi)
  {
    assert c[..|a|] == c[..|b|][..|a|];
    forall i, j | |a| <= i < j < |c| ensures c[i] < c[j] {
      if i < |b| && j >= |b| {
        assert c[i] == c[..|b|][i] == b[i];
      } else if i < |b| {
        assert c[i] == c[..|b|][i] == b[i] && c[j] == c[..|b|][j] == b[j];
      }
    }
    forall i | |a| <= i < |c| ensures lo < c[i] <= hi {
      if i < |b| { assert c[i] == c[..|b|][i] == b[i]; }
    }
  }

  lemma StepLines(p: Progress, lineNumber: nat, v: LineView, c: Category, newId: nat -> string)
    ensures LinesOf(Step(p, lineNumber, v, newId), c)
            == LinesOf(p, c) + (if InCategory(Judge(v, p.seen), c) then [lineNumber] else [])
  {
  }

  lemma {:induction false} RunExtends(views: seq<LineView>, read: nat, p: Progress, c: Category, newId: nat -> string)
    ensures Extends(LinesOf(p, c), LinesOf(Run(views, read, p, newId), c), read, read + |views|)
    decreases |views|
  {
    var before := LinesOf(p, c);
    if views == [] {
      assert before[..|before|] == before;
    } else {
      var p1 := Step(p, read + 1, views[0], newId);
      StepLines(p, read + 1, views[0], c, newId);
      var mid := LinesOf(p1, c);
      assert mid[..|before|] == before;
      assert Extends(before, mid, read, read + 1);
      RunExtends(views[1..], read + 1, p1, c, newId);
      ExtendsTransitive(before, mid, LinesOf(Run(views, read, p, newId), c), read, read + 1, read + |views|);
    }
  }

  /**
   * Line `read + j + 1` lands in category `c` exactly when its view, judged
   * against the NIMs of the valid lines before it, falls in `c`.
   */
  lemma {:induction false} RunClassifies(views: seq<LineView>, read: nat, p: Progress, c: Category, j: nat,
                                         newId: nat -> string)
    requires forall i :: 0 <= i < |LinesOf(p, c)| ==> LinesOf(p, c)[i] <= read
    requires j < |views|
    ensures (read + j + 1 in LinesOf(Run(views, read, p, newId), c))
            <==> InCategory(Judge(views[j], p.seen + ValidNims(views[..j])), c)
    decreases j
  {
    var p1 := Step(p, read + 1, views[0], newId);
    assert Run(views, read, p, newId) == Run(views[1..], read + 1, p1, newId);
    if j == 0 {
      assert views[..0] == [];
      RunClassifiesFirst(views, read, p, c, newId);
    } else {
      var seen := p.seen + ValidNims(views[..j]);
      StepLines(p, read + 1, views[0], c, newId);
      StepSeen(p, read + 1, views[0], newId);
      ValidNimsCons(views, j);
      assert p1.seen + ValidNims(views[1..][..j - 1]) == seen;
      assert views[1..][j - 1] == views[j];
      RunClassifies(views[1..], read + 1, p1, c, j - 1, newId);
    }
  }

  lemma ValidNimsCons(views: seq<LineView>, j: nat)
    requires 1 <= j <= |views|
    ensures ValidNims(views[..j]) == NimOf(views[0]) + ValidNims(views[1..][..j - 1])
  {
    assert views[..j][0] == views[0];
    assert views[..j][1..] == views[1..][..j - 1];
  }

  lemma RunClassifiesFirst(views: seq<LineView>, read: nat, p: Progress, c: Category, newId: nat -> string)
    requires forall i :: 0 <= i < |LinesOf(p, c)| ==> LinesOf(p, c)[i] <= read
    requires views != []
    ensures (read + 1 in LinesOf(Run(views, read, p, newId), c)) <==> InCategory(Judge(views[0], p.seen), c)
  {
    var p1 := Step(p, read + 1, views[0], newId);
    var after := LinesOf(Run(views[1..], read + 1, p1, newId), c);
    assert Run(views, read, p, newId) == Run(views[1..], read + 1, p1, newId);
    StepLines(p, read + 1, views[0], c, newId);
    RunExtends(views[1..], read + 1, p1, c, newId);
    FirstLineCategory(LinesOf(p, c), LinesOf(p1, c), after, read);
  }

  lemma FirstLineCategory(before: seq<nat>, mid: seq<nat>, after: seq<nat>, read: nat)
    requires forall i :: 0 <= i < |before| ==> before[i] <= read
    requires mid == before || mid == before + [read + 1]
    requires |mid| <= |after| && after[..|mid|] == mid
    requires forall i :: |mid| <= i < |after| ==> read + 1 < after[i]
    ensures read + 1 in after <==> mid != before
  {
    if read + 1 in after {
      var i :| 0 <= i < |after| && after[i] == read + 1;
      assert i < |mid|;
      assert mid[i] == read + 1;
    }
    if mid != before {
      assert after[|before|] == mid[|before|];
    }
  }

  /** Line `j + 1` is listed under `c` exactly when its own verdict, against the NIMs before it, is `c`. */
  lemma LineClassified(lines: seq<string>, existing: seq<Student>,
                       parseDate: string -> Option<Date>, newId: nat -> string, c: Category, j: nat)
    requires j < |lines|
    ensures var o := Classify(j + 1, lines[j], FoldedNims(existing) + ValidNims(Views(lines[..j], parseDate)), parseDate);
            (j + 1 in LinesOf(Reconcile(lines, existing, parseDate, newId), c)) <==> InCategory(o, c)
  {
    var p := Initial(existing);
    LineClassifiedFrom(lines, p, parseDate, newId, c, j);
    assert Reconcile(lines, existing, parseDate, newId) == Run(Views(lines, parseDate), 0, p, newId);
  }

  /** The same, for a pass that starts from progress `p` with nothing yet listed under `c`. */
  lemma LineClassifiedFrom(lines: seq<string>, p: Progress, parseDate: string -> Option<Date>,
                           newId: nat -> string, c: Category, j: nat)
    requires j < |lines| && LinesOf(p, c) == []
    ensures var o := Classify(j + 1, lines[j], p.seen + ValidNims(Views(lines[..j], parseDate)), parseDate);
            (j + 1 in LinesOf(Run(Views(lines, parseDate), 0, p, newId), c)) <==> InCategory(o, c)
  {
    var views := Views(lines, parseDate);
    RunClassifies(views, 0, p, c, j, newId);
    SeenBefore(lines, p, j, parseDate);
    ClassifyView(lines, j, p.seen + ValidNims(views[..j]), parseDate);
  }

  /** The NIMs a pass has seen before line `j + 1` depend only on the lines before it. */
  lemma SeenBefore(lines: seq<string>, p: Progress, j: nat, parseDate: string -> Option<Date>)
    requires j < |lines|
    ensures p.seen + ValidNims(Views(lines, parseDate)[..j]) == p.seen + ValidNims(Views(lines[..j], parseDate))
  {
    ViewsPrefix(lines, j, parseDate);
  }

  lemma ClassifyView(lines: seq<string>, j: nat, seen: set<string>, parseDate: string -> Option<Date>)
    requires j < |lines|
    ensures Classify(j + 1, lines[j], seen, parseDate) == Judge(Views(lines, parseDate)[j], seen)
  {
    ViewsAt(lines, j, parseDate);
  }

  lemma ViewsAt(lines: seq<string>, j: nat, parseDate: string -> Option<Date>)
    requires j < |lines|
    ensures Views(lines, parseDate)[j] == View(j + 1, lines[j], parseDate)
  {
  }

  /**
   * Each line lands in exactly the category that its own content and the
   * NIMs of the valid lines before it determine.
   */
  lemma ReconcileClassifies(lines: seq<string>, existing: seq<Student>,
                            parseDate: string -> Option<Date>, newId: nat -> string)
    ensures var r := Reconcile(lines, existing, parseDate, newId);
            forall j :: 0 <= j < |lines| ==>
              var o := Classify(j + 1, lines[j], FoldedNims(existing) + ValidNims(Views(lines[..j], parseDate)), parseDate);
              && (j + 1 in r.invalidLines <==> o.Invalid?)
              && (j + 1 in r.duplicateLines <==> o.Duplicate?)
              && (j + 1 in r.acceptedLines <==> o.Accepted?)
  {
    forall j | 0 <= j < |lines|
      ensures var o := Classify(j + 1, lines[j], FoldedNims(existing) + ValidNims(Views(lines[..j], parseDate)), parseDate);
              var r := Reconcile(lines, existing, parseDate, newId);
              && (j + 1 in r.invalidLines <==> o.Invalid?)
              && (j + 1 in r.duplicateLines <==> o.Duplicate?)
              && (j + 1 in r.acceptedLines <==> o.Accepted?)
    {
      LineClassified(lines, existing, parseDate, newId, InvalidLine, j);
      LineClassified(lines, existing, parseDate, newId, DuplicateLine, j);
      LineClassified(lines, existing, parseDate, newId, AcceptedLine, j);
    }
  }

  /** Each list of line numbers is strictly increasing and holds only numbers of lines read. */
  lemma ReconcileOrdered(lines: seq<string>, existing: seq<Student>,
                         parseDate: string -> Option<Date>, newId: nat -> string)
    ensures var r := Reconcile(lines, existing, parseDate, newId);
            && Extends([], r.invalidLines, 0, |lines|)
            && Extends([], r.duplicateLines, 0, |lines|)
            && Extends([], r.acceptedLines, 0, |lines|)
  {
    var views := Views(lines, parseDate);
    var p := Initial(existing);
    RunExtends(views, 0, p, InvalidLine, newId);
    RunExtends(views, 0, p, DuplicateLine, newId);
    RunExtends(views, 0, p, AcceptedLine, newId);
  }

  // ---------------------------------------------------------------------
  // Counts
  // ---------------------------------------------------------------------

  lemma {:induction false} RunCounts(views: seq<LineView>, read: nat, p: Progress, newId: nat -> string)
    requires |p.imported| == |p.acceptedLines|
    ensures var r := Run(views, read, p, newId);
            && |r.imported| == |r.acceptedLines|
            && |r.imported| + |r.duplicateLines| + |r.invalidLines| + SkippedLines(views)
               == |p.imported| + |p.duplicateLines| + |p.invalidLines| + |views|
    decreases |views|
  {
    if views != [] {
      RunCounts(views[1..], read + 1, Step(p, read + 1, views[0], newId), newId);
    }
  }

  /**
   * Every line read is counted once: skipped, or imported, duplicate or
   * invalid; the import count is the number of accepted lines.
   */
  lemma ReconcileCounts(lines: seq<string>, existing: seq<Student>,
                        parseDate: string -> Option<Date>, newId: nat -> string)
    ensures var r := Reconcile(lines, existing, parseDate, newId);
            && |r.imported| == |r.acceptedLines|
            && |r.imported| + |r.duplicateLines| + |r.invalidLines| + SkippedLines(Views(lines, parseDate)) == |lines|
  {
    RunCounts(Views(lines, parseDate), 0, Initial(existing), newId);
  }

  // ---------------------------------------------------------------------
  // A file of fresh, valid rows is imported whole
  // ---------------------------------------------------------------------

  /** The records built from `rows` when all are accepted, the first getting id `newId(base)`. */
  function Admit(rows: seq<Row>, base: nat, newId: nat -> string): (students: seq<Student>)
    ensures |students| == |rows|
  {
    if rows == [] then []
    else [Student(newId(base), rows[0].nim, rows[0].firstName, rows[0].lastName, rows[0].dateOfBirth)]
         + Admit(rows[1..], base + 1, newId)
  }

  /** Record i of `Admit` carries row i's fields and id `newId(base + i)`. */
  lemma {:induction false} AdmitIndex(rows: seq<Row>, base: nat, newId: nat -> string, i: nat)
    requires i < |rows|
    ensures Admit(rows, base, newId)[i]
            == Student(newId(base + i), rows[i].nim, rows[i].firstName, rows[i].lastName, rows[i].dateOfBirth)
    decreases i
  {
    if i > 0 {
      AdmitIndex(rows[1..], base + 1, newId, i - 1);
    }
  }

  /**
   * Every view is the valid data line of the matching row, and the rows'
   * NIMs are absent from `seen` and pairwise distinct under case folding.
   */
  predicate FreshRows(views: seq<LineView>, rows: seq<Row>, seen: set<string>) {
    && |views| == |rows|
    && (forall i :: 0 <= i < |views| ==> views[i] == LineView(false, Some(rows[i])))
    && (forall i :: 0 <= i < |rows| ==> Fold(rows[i].nim) !in seen)
    && (forall i, j :: 0 <= i < j < |rows| ==> Fold(rows[i].nim) != Fold(rows[j].nim))
  }

  lemma FreshRowsTail(views: seq<LineView>, rows: seq<Row>, seen: set<string>)
    requires FreshRows(views, rows, seen) && views != []
    ensures FreshRows(views[1..], rows[1..], seen + {Fold(rows[0].nim)})
  {
    var vs, rs, seen' := views[1..], rows[1..], seen + {Fold(rows[0].nim)};
    forall i | 0 <= i < |vs| ensures vs[i] == LineView(false, Some(rs[i])) && Fold(rs[i].nim) !in seen' {
      assert vs[i] == views[i + 1] && rs[i] == rows[i + 1];
    }
    forall i, j | 0 <= i < j < |rs| ensures Fold(rs[i].nim) != Fold(rs[j].nim) {
      assert rs[i] == rows[i + 1] && rs[j] == rows[j + 1];
    }
  }

  /** A valid data line with a new NIM is accepted: seen, records and accepted lines grow. */
  lemma StepAccepts(p: Progress, lineNumber: nat, row: Row, newId: nat -> string)
    requires Fold(row.nim) !in p.seen
    ensures var s := Student(newId(|p.imported|), row.nim, row.firstName, row.lastName, row.dateOfBirth);
            Step(p, lineNumber, LineView(false, Some(row)), newId)
            == p.(seen := p.seen + {Fold(row.nim)}, imported := p.imported + [s],
                  acceptedLines := p.acceptedLines + [lineNumber])
  {
  }

  /**
   * When every view is a valid data line and their NIMs are new and pairwise
   * distinct under case folding, the pass accepts every line in order and
   * reports no duplicate and no invalid line.
   */
  lemma {:induction false} RunAccepts(views: seq<LineView>, rows: seq<Row>, read: nat, p: Progress,
                                      newId: nat -> string)
    requires FreshRows(views, rows, p.seen)
    ensures var r := Run(views, read, p, newId);
            && r.invalidLines == p.invalidLines
            && r.duplicateLines == p.duplicateLines
            && r.imported == p.imported + Admit(rows, |p.imported|, newId)
    decreases |views|
  {
    if views != [] {
      var row := rows[0];
      assert views[0] == LineView(false, Some(row));
      assert Fold(row.nim) !in p.seen;
      var s := Student(newId(|p.imported|), row.nim, row.firstName, row.lastName, row.dateOfBirth);
      StepAccepts(p, read + 1, row, newId);
      var p1 := Step(p, read + 1, views[0], newId);
      FreshRowsTail(views, rows, p.seen);
      RunAccepts(views[1..], rows[1..], read + 1, p1, newId);
      assert Admit(rows, |p.imported|, newId) == [s] + Admit(rows[1..], |p.imported| + 1, newId);
      assert p.imported + [s] + Admit(rows[1..], |p.imported| + 1, newId)
             == p.imported + Admit(rows, |p.imported|, newId);
    }
  }

  /**
   * A file whose first line is skipped and whose other lines are valid data
   * lines with new, pairwise distinct NIMs is imported whole: every data
   * line is accepted in order and none is a duplicate or invalid.
   */
  lemma ReconcileAcceptsAll(lines: seq<string>, rows: seq<Row>, existing: seq<Student>,
                            parseDate: string -> Option<Date>, newId: nat -> string)
    requires lines != [] && IsSkipped(1, lines[0])
    requires FreshRows(Views(lines, parseDate)[1..], rows, FoldedNims(existing))
    ensures var r := Reconcile(lines, existing, parseDate, newId);
            && r.invalidLines == [] && r.duplicateLines == []
            && r.imported == Admit(rows, 0, newId)
  {
    var views := Views(lines, parseDate);
    var p := Initial(existing);
    assert views[0].skipped;
    assert Run(views, 0, p, newId) == Run(views[1..], 1, p, newId);
    RunAccepts(views[1..], rows, 1, p, newId);
  }
}
