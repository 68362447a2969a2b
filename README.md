# Student registry: NIM allocation, CSV import/export and the analytics panel

This project models the core of a small student-registry application. The
application has a .NET Web API (`StudentsController` over a student
repository) and a Vue client that shows code tables and an analytics panel.
The model is written in Dafny, and the properties below are proved about it.

**What is modelled**

- **Allocating an enrollment number (NIM) in `Create`.** The prefix is
  faculty + level (jenjang) + program (prodi) + cohort year (angkatan).
  - The repository's "last NIM with this prefix" query is an ordinal
    maximum.
  - The last four characters go through .NET `int.TryParse`, modelled
    exactly: whitespace, sign, 32-bit range, trailing NULs.
  - The next number is formatted with `ToString("D4")`.
  - The store is a `class` whose `Add`/`AddMany` methods append records.
    `Controller.Create` is proved to store a student carrying exactly the
    allocated NIM.
- **`Export`.** It writes a header, then one escaped row per stored student
  in store order. `Controller.Export` is a loop proved to produce the same
  lines as a specification function. Two CSV helpers are modelled:
  - `EscapeForCsv`;
  - `SplitCsvLine`, as a method with a loop proved against a recursive
    specification (`Csv.Scan`).
- **`Import`, written as a fold over the file's lines.** It skips blank
  lines and a line-1 header, and splits each other line with
  `SplitCsvLine`. Each line is then one of:
  - invalid: fewer than four fields, a blank NIM or first name, or a date
    that does not parse;
  - a duplicate: the NIM is already stored or was accepted earlier,
    compared with `OrdinalIgnoreCase`;
  - accepted.

  `Controller.Import` has the source's loop. It is proved to return the
  counts of the fold and to bulk-insert the accepted records once, and only
  when there are any. A missing or empty file gets `BadRequest`.
- **The client's code tables and lookups** (`studentData.ts`):
  - faculty, level and program names;
  - the Humaniora faculty, whose code changed from `A` to `H` with the 2023
    intake;
  - cohort labels;
  - `decodeNimMetadata`.

  One lemma connects the server and the client (`NimDecode.DecodeAllocated`).
  For a well-formed cohort, the client decodes every NIM that `Create`
  allocates back to the cohort it was built from.
- **The analytics panel** (`useStudentAnalytics.ts`):
  - the per-dimension `forEach` tally, modelled as a method with a loop;
  - `toAnalyticsItems`, a stable sort by descending count;
  - the top five programs;
  - the age buckets and the first three populated buckets;
  - each section's `maxCount`.

**Modules** (one file each): `Wrappers`, `Text`, `Entities`, `NimAllocator`,
`Csv`, `Reconciliation`, `StudentsController`, `StudentData`, `NimDecode`,
`Histogram`, `StudentAnalytics`, `Scenarios`. The last one holds worked
examples on concrete values.

**Inputs modelled as parameters:**
- `DateTime.TryParse` is a `parseDate: string -> Option<Date>` parameter.
- `Guid.NewGuid()` is a `newId` parameter.
- The current year, which `resolveHumanioraFacultyCode` reads from the
  clock, is a `fallbackYear` parameter.

**Behaviour of the code as written.** Each of these is proved rather than
corrected:
- **Number 10000 is handed out repeatedly.** Once a cohort reaches number
  9999, the next NIM has five suffix digits: `prefix10000`. It sorts below
  `prefix9999` in ordinal order. So, for a prefix of five or more
  characters and while every stored NIM with the prefix is one of numbers
  1..10000, the allocator hands out `prefix10000` again
  (`NimAllocator.AllocateRepeatsAfterOverflow`). A stored NIM with the
  prefix that sorts above `prefix9999`, such as `C1423ZZZZ`, changes the
  answer: its suffix does not parse and numbering restarts at 0001.
- **Short prefixes do not advance on their own.** With a prefix of at most
  four characters, every allocated NIM is shorter than the length-9 guard.
  While no stored NIM of nine or more characters starts with the prefix,
  the allocator keeps returning `prefix0001`
  (`NimAllocator.ShortPrefixRepeats`). The prefix test also matches longer
  NIMs of other cohorts that begin with the short prefix (for `A12`, a
  stored `A12230001`); when one of those is the ordinal maximum, the
  sequence is taken from it (`Scenarios.ShortPrefixBorrowsSequence`).
- **A `NIM,FirstName,LastName,DOB` header is not skipped.** The code skips
  line 1 only when it contains `NomorIndukMahasiswa`, ignoring case, so this
  header is a data line: it is invalid unless the date parser accepts `DOB`
  (`Scenarios.ShortHeaderIsData`).
- **The first age-bucket label is mojibake.** It is the UTF-8 encoding of
  "≤" read back as Windows-1252. It is kept as the source spells it.
- **`topAgeSegment` is not the largest age segment.** It is the first
  populated bucket in bucket order, that is, the youngest.

## Model

Source paths are relative to the repository root.

| member | source | states |
|---|---|---|
| NimAllocator.LastNomorInduk | api/StudentApp.Infrastructure/Repositories/StudentRepository.cs:29-36 | None exactly when no stored NIM starts with the prefix; otherwise a stored NIM with the prefix that is ordinally at least every other one with the prefix |
| NimAllocator.TryParseInt32 | api/StudentApp.Api/Controllers/StudentsController.cs:62 | a successful parse yields a value in the 32-bit range |
| NimAllocator.ParseFormatD4 | api/StudentApp.Api/Controllers/StudentsController.cs:62-69 | parsing the D4 text of any 32-bit number gives that number back (format/parse round trip) |
| NimAllocator.ParseNeedsDigit | api/StudentApp.Api/Controllers/StudentsController.cs:62 | a suffix with no digit fails to parse |
| NimAllocator.ParseUnsigned | api/StudentApp.Api/Controllers/StudentsController.cs:62 | a run of digits whose value fits in 32 bits parses to its decimal value |
| NimAllocator.ParseNegative | api/StudentApp.Api/Controllers/StudentsController.cs:62 | a '-' followed by digits parses to the negated value |
| NimAllocator.FormatD4Facts | api/StudentApp.Api/Controllers/StudentsController.cs:69 | D4 text is a '-' exactly for negative numbers, then the digits of the magnitude: four digits up to 9999, the shortest form above |
| NimAllocator.AllocateNim | api/StudentApp.Api/Controllers/StudentsController.cs:53-69 | the allocated NIM starts with the prefix and has at least four more characters |
| NimAllocator.AllocateStartsAtOne | api/StudentApp.Api/Controllers/StudentsController.cs:58-69 | with no last NIM, a last NIM shorter than 9, or an unparseable suffix, the NIM is prefix + "0001" |
| NimAllocator.AllocateParsed | api/StudentApp.Api/Controllers/StudentsController.cs:58-69 | with a last NIM of length at least 9 whose last four characters parse as n (signs and leading spaces included), the NIM is prefix + D4(n + 1) |
| NimAllocator.AllocateIncrements | api/StudentApp.Api/Controllers/StudentsController.cs:59-69 | with a last NIM of length at least 9 ending in four digits n, the NIM is prefix + D4(n + 1), four digits wide unless n is 9999 |
| NimAllocator.NumberedOrder | api/StudentApp.Infrastructure/Repositories/StudentRepository.cs:33 | within a cohort, ordinal order of four-digit NIMs is numeric order of their sequence numbers (both directions) |
| NimAllocator.SequentialAllocation | api/StudentApp.Api/Controllers/StudentsController.cs:53-69 | for a prefix of five or more characters and 1 <= k <= 9999: when every stored NIM with the prefix is one of numbers 1..k, with k present, the next NIM is number k + 1 |
| NimAllocator.SequentialRun | api/StudentApp.Api/Controllers/StudentsController.cs:50-82 | for a prefix of five or more characters and k <= 9999: k successive Create calls in a cohort with no stored NIM store numbers 0001..k in order |
| NimAllocator.NextInCohort | api/StudentApp.Api/Controllers/StudentsController.cs:53-69 | for a prefix of five or more characters and k < 9999: after numbers 1..k of a cohort with no other stored NIM, the next allocated NIM is number k + 1 |
| NimAllocator.CohortMembers | api/StudentApp.Api/Controllers/StudentsController.cs:53-69 | in a store of foreign NIMs plus numbers 1..k, every NIM with the prefix is one of numbers 1..k |
| NimAllocator.TopOfCohort | api/StudentApp.Infrastructure/Repositories/StudentRepository.cs:29-36 | for 1 <= k <= 9999: the last-NIM query answers number k when the cohort's NIMs are numbers 1..k; when they are numbers 1..10000 it answers number 9999, because the five-digit 10000 sorts below 9999 |
| NimAllocator.AllocateRepeatsAfterOverflow | api/StudentApp.Api/Controllers/StudentsController.cs:59-69 | for a prefix of five or more characters: once numbers 9999 and 10000 are stored, while every stored NIM with the prefix is one of numbers 1..10000, the allocator returns number 10000 again, a NIM already in the store |
| NimAllocator.WidenedSortsBelow | api/StudentApp.Infrastructure/Repositories/StudentRepository.cs:33 | prefix10000 is ordinally below prefix9999 |
| NimAllocator.ShortPrefixRepeats | api/StudentApp.Api/Controllers/StudentsController.cs:59 | with a prefix of at most four characters, while prefix0001 is stored and no stored NIM of nine or more characters starts with the prefix, the allocator returns prefix0001 again although it is already stored |
| NimDecode.DecodeAllocated | client/src/utils/studentData.ts:115-126 | for a cohort of one letter, two digits and a two-digit year, any NIM Create allocates decodes to that cohort, with the faculty letter upper-cased |
| NimDecode.DecodeAllocatedUpper | client/src/utils/studentData.ts:115-126 | with an upper-case faculty letter, decoding an allocated NIM gives back exactly the request's four codes |
| Entities.FixedDigitsValue | api/StudentApp.Api/Controllers/StudentsController.cs:119 | a number below 10^width reads back from its zero-padded width-digit text |
| Entities.RenderDateFields | api/StudentApp.Api/Controllers/StudentsController.cs:119 | a yyyy-MM-dd rendering is ten characters whose digit groups read back as year, month and day |
| Csv.DoubleQuotesFacts | api/StudentApp.Api/Controllers/StudentsController.cs:231 | Replace adds one character per quote, doubles the quote count, changes nothing without quotes, and keeps the need for quoting |
| Csv.EscapeForCsvFacts | api/StudentApp.Api/Controllers/StudentsController.cs:224-238 | the result is empty exactly for a null or empty value; a value with no comma, quote or line break is written as is; otherwise it is wrapped in quotes around its quote-doubled text |
| Csv.SplitCsvLine | api/StudentApp.Api/Controllers/StudentsController.cs:240-274 | the loop's fields equal the recursive splitter specification Split(line) |
| Csv.SplitFieldCount | api/StudentApp.Api/Controllers/StudentsController.cs:240-274 | a line splits into one field more than its commas outside quotes |
| Csv.SplitQuoteBound | api/StudentApp.Api/Controllers/StudentsController.cs:249-259 | the fields hold at most half of the line's quotes, so a line without quotes gives fields without quotes |
| Csv.SplitUnquoted | api/StudentApp.Api/Controllers/StudentsController.cs:240-274 | a line without quotes splits at every comma (agrees with a plain comma split) |
| Csv.SplitJoinEscaped | api/StudentApp.Api/Controllers/StudentsController.cs:114-121 | splitting comma-joined escaped cells gives back every cell, a null one as "" (escape/split round trip) |
| Csv.SplitEscapedCell | api/StudentApp.Api/Controllers/StudentsController.cs:224-274 | any single escaped value splits back into that value |
| Csv.SplitPlainRow | api/StudentApp.Api/Controllers/StudentsController.cs:240-274 | fields without commas, quotes or line breaks, joined by commas, split back into themselves |
| Text.TrimFacts | api/StudentApp.Api/Controllers/StudentsController.cs:173-176 | Trim returns a substring with no whitespace at either end, empty exactly when the input is blank |
| Text.TrimOfTrimmed | api/StudentApp.Api/Controllers/StudentsController.cs:173-176 | trimming a string without edge whitespace leaves it unchanged |
| Text.ContainsPrefixIgnoreCase | api/StudentApp.Api/Controllers/StudentsController.cs:161 | a line that starts with the header token contains it, ignoring case |
| Text.NotContainsIgnoreCase | api/StudentApp.Api/Controllers/StudentsController.cs:161 | a line none of whose characters folds to one of the token's does not contain the token |
| Text.OrdinalLeTotal | api/StudentApp.Infrastructure/Repositories/StudentRepository.cs:33 | ordinal order is total |
| Text.OrdinalLeTransitive | api/StudentApp.Infrastructure/Repositories/StudentRepository.cs:33 | ordinal order is transitive |
| Text.OrdinalLeAntisymmetric | api/StudentApp.Infrastructure/Repositories/StudentRepository.cs:33 | ordinal order is antisymmetric, so the maximum is unique |
| Text.OrdinalLeDigits | api/StudentApp.Infrastructure/Repositories/StudentRepository.cs:33 | for digit strings of one length, ordinal order is numeric order |
| Text.PadLeftFacts | api/StudentApp.Api/Controllers/StudentsController.cs:69 | zero-padding denotes the same number, is exactly the width when the number is shorter, and is the plain decimal otherwise |
| Reconciliation.ParseRow | api/StudentApp.Api/Controllers/StudentsController.cs:166-183 | a line is rejected exactly when it has fewer than four fields, a blank NIM or first name, or an unparseable trimmed date; an accepted row has trimmed non-empty NIM and first name, and its last name is absent exactly when the third field is blank |
| Reconciliation.PlainRowAccepted | api/StudentApp.Api/Controllers/StudentsController.cs:166-198 | four plain trimmed fields with a NIM, a first name, a last name and a parseable date validate to exactly those values |
| Reconciliation.PlainRowRejected | api/StudentApp.Api/Controllers/StudentsController.cs:178-183 | four plain fields missing the NIM or the first name, or with an unparseable date, are rejected |
| Reconciliation.ReconcileImported | api/StudentApp.Api/Controllers/StudentsController.cs:136-201 | after the pass, the seen set is the store's NIMs plus the accepted ones; no accepted NIM was stored, accepted NIMs are pairwise distinct ignoring case, and every record is well formed |
| Reconciliation.ReconcileSeen | api/StudentApp.Api/Controllers/StudentsController.cs:136-200 | after the pass, the seen set is the store's NIMs plus those of every valid line |
| Reconciliation.ReconcileClassifies | api/StudentApp.Api/Controllers/StudentsController.cs:146-201 | line j is listed as invalid, duplicate or accepted exactly when its own content, judged against the NIMs of the valid lines before it, puts it in that category |
| Reconciliation.ReconcileOrdered | api/StudentApp.Api/Controllers/StudentsController.cs:141-201 | each category's line numbers are strictly increasing and lie between 1 and the number of lines |
| Reconciliation.ReconcileCounts | api/StudentApp.Api/Controllers/StudentsController.cs:146-213 | every line read is counted exactly once: skipped, imported, duplicate or invalid |
| Reconciliation.ReconcileAcceptsAll | api/StudentApp.Api/Controllers/StudentsController.cs:146-201 | a file with a skipped first line and valid lines carrying new, pairwise distinct NIMs is imported whole, in order, with no duplicate or invalid line |
| Reconciliation.AdmitIndex | api/StudentApp.Api/Controllers/StudentsController.cs:191-198 | accepted record i carries row i's fields and the (base + i)-th new id |
| StudentsController.StudentStore.Add | api/StudentApp.Infrastructure/Repositories/StudentRepository.cs:38-42 | appends the student and performs no bulk insert |
| StudentsController.StudentStore.AddMany | api/StudentApp.Api/Controllers/StudentsController.cs:203-206 | appends the students in order as one bulk insert |
| StudentsController.Controller.Create | api/StudentApp.Api/Controllers/StudentsController.cs:50-82 | stores and returns a student with the new id, the NIM allocated from the store's NIMs before the call, and the request's names and date |
| StudentsController.Controller.Export | api/StudentApp.Api/Controllers/StudentsController.cs:105-126 | the loop's lines are the header followed by one row per stored student, in store order |
| StudentsController.Controller.Import | api/StudentApp.Api/Controllers/StudentsController.cs:128-214 | a missing or empty file gets BadRequest and changes nothing; otherwise the answer carries the fold's three counts, the accepted records are appended, and one bulk insert happens exactly when some were accepted |
| StudentsController.DateNeedsNoQuoting | api/StudentApp.Api/Controllers/StudentsController.cs:119-121 | a rendered date needs no quoting and escaping leaves it unchanged |
| StudentsController.ExportRowSplits | api/StudentApp.Api/Controllers/StudentsController.cs:114-121 | splitting an exported row gives back NIM, first name, last name ("" when absent) and the rendered date |
| StudentsController.ExportRowsIndex | api/StudentApp.Api/Controllers/StudentsController.cs:112-122 | export row i is the row of stored student i |
| StudentsController.ExportHeaderSkipped | api/StudentApp.Api/Controllers/StudentsController.cs:110 | the header that Export writes is the header that Import skips on line 1 |
| StudentsController.ExportRowNotBlank | api/StudentApp.Api/Controllers/StudentsController.cs:121 | an exported row is never blank |
| StudentsController.RenderedDateTrimmed | api/StudentApp.Api/Controllers/StudentsController.cs:119 | a rendered date is left unchanged by Trim |
| StudentsController.ExportRowParses | api/StudentApp.Api/Controllers/StudentsController.cs:114-121 | an exported row of an exportable student validates to that student's fields |
| StudentsController.ExportImportRoundTrip | api/StudentApp.Api/Controllers/StudentsController.cs:105-213 | for date-only birth dates: exporting students whose NIMs are new and pairwise distinct ignoring case, then importing the file, creates exactly those students in order under new ids, with no duplicate or invalid line |
| StudentsController.StepSkipped | api/StudentApp.Api/Controllers/StudentsController.cs:156-164 | a blank line, or a header on line 1, changes nothing |
| StudentsController.StepInvalid | api/StudentApp.Api/Controllers/StudentsController.cs:166-183 | a short line or a line with a blank NIM or first name or an unparseable date adds only its line number to the invalid list |
| StudentsController.StepDuplicate | api/StudentApp.Api/Controllers/StudentsController.cs:185-189 | a valid line whose NIM was seen, ignoring case, adds only its line number to the duplicate list |
| StudentsController.StepAccepted | api/StudentApp.Api/Controllers/StudentsController.cs:191-200 | a valid line with an unseen NIM adds one record with the next id and adds its NIM to the seen set |
| StudentData.NameTable | client/src/utils/studentData.ts:64-67 | the reduce-built record's keys are exactly the option codes |
| StudentData.NameTableLookup | client/src/utils/studentData.ts:64-67 | with distinct codes, the record maps each option's code to its name |
| StudentData.NonHumaniora | client/src/utils/studentData.ts:72-77 | the filter keeps every faculty except A and H, and only options of its input |
| StudentData.NonHumanioraAppend | client/src/utils/studentData.ts:72-77 | the filter keeps the input order: filtering a concatenation is concatenating the filtered parts |
| StudentData.FindCode | client/src/utils/studentData.ts:81 | find answers the first option carrying the code, or nothing when none does |
| StudentData.FormatOptionLabelFacts | client/src/utils/studentData.ts:79-83 | the label is "" for no code or no match, otherwise the name of the first matching option |
| StudentData.FacultyTable | client/src/utils/studentData.ts:3-12 | the faculty codes are distinct and every faculty has a name |
| StudentData.FacultyDisplayAgreesWithList | client/src/utils/studentData.ts:99-102 | the display label from the reduce-built record agrees with a lookup in the list, and is the Humaniora name for A/H |
| StudentData.FacultyDisplayEmpty | client/src/utils/studentData.ts:99-102 | the display label is empty exactly for no code, or an unknown code that is not A/H |
| StudentData.SelectValueIsAnOption | client/src/utils/studentData.ts:72-97 | the picker value of every faculty in the table is one of the picker's options |
| StudentData.SelectValueAmong | client/src/utils/studentData.ts:72-97 | for any option list, the picker value of a non-empty code in the list is one of the options of the picker built from that list |
| StudentData.SelectValueFacts | client/src/utils/studentData.ts:94-97 | the picker value is "" exactly for no code, is the merged Humaniora entry exactly for A, H or that entry itself, and is the code itself for any other code |
| StudentData.ParseIntJsDigits | client/src/utils/studentData.ts:89 | parseInt of a digit run is its decimal value |
| StudentData.ParseIntJsStops | client/src/utils/studentData.ts:89 | parseInt stops at the first non-digit |
| StudentData.ParseIntJsNaN | client/src/utils/studentData.ts:89-90 | with no digit after the whitespace and sign, parseInt is NaN |
| StudentData.ResolveHumanioraFacts | client/src/utils/studentData.ts:87-92 | the code is H exactly when the parsed cohort, or the current year when it does not parse, is at least 23; either way it shows as the merged Humaniora entry and name |
| StudentData.ResolveTwoDigitCohort | client/src/utils/studentData.ts:87-92 | for a two-digit cohort, the code is H exactly from 23 on |
| StudentData.ProgramLabelFacts | client/src/utils/studentData.ts:104-108 | a non-empty program label needs all three codes present and in the program table, and is then the first matching program's name; conversely, with all three codes present and faculty and level in the table, the label is that program's name ("" when no program matches) |
| StudentData.AngkatanLabelFacts | client/src/utils/studentData.ts:110-113 | the label is empty exactly for no cohort, and otherwise is "20" followed by the cohort |
| StudentData.DecodeFacts | client/src/utils/studentData.ts:115-126 | metadata is produced exactly when the NIM starts with a letter and four digits; the codes then re-join to those five characters with the letter upper-cased |
| StudentData.DecodeIgnoresSuffix | client/src/utils/studentData.ts:117 | decoding depends only on the first five characters |
| Histogram.Take | client/src/composables/useStudentAnalytics.ts:64 | slice(0, n) is a prefix of at most n items, and is all of them when there are fewer |
| Histogram.TallySnoc | client/src/composables/useStudentAnalytics.ts:32 | counting one more label bumps it in the record built so far |
| Histogram.BumpCounts | client/src/composables/useStudentAnalytics.ts:32 | one update adds one to that label's count and leaves every other count alone |
| Histogram.BumpLabels | client/src/composables/useStudentAnalytics.ts:32 | one update adds the label to the keys and one to the total |
| Histogram.TallyFacts | client/src/composables/useStudentAnalytics.ts:28-33 | the counts record has one entry per distinct label, each the number of times the label occurred, and every count is positive |
| Histogram.TallyItemCount | client/src/composables/useStudentAnalytics.ts:28-33 | every entry of the counts record carries its label's number of occurrences |
| Histogram.InsertPermutes | client/src/composables/useStudentAnalytics.ts:148 | one insertion step adds exactly the one item |
| Histogram.InsertSorted | client/src/composables/useStudentAnalytics.ts:148 | one insertion step keeps the list sorted by descending count |
| Histogram.ToAnalyticsItemsSorted | client/src/composables/useStudentAnalytics.ts:145-148 | toAnalyticsItems is sorted by descending count and is a permutation of the record's entries |
| Histogram.ToAnalyticsItemsFacts | client/src/composables/useStudentAnalytics.ts:145-148 | toAnalyticsItems keeps the total and the labels, and distinct labels stay distinct |
| Histogram.SortedTallyFacts | client/src/composables/useStudentAnalytics.ts:27-55 | a sorted tally lists each label seen once, with its number of occurrences, largest first |
| Histogram.TakeSortedTally | client/src/composables/useStudentAnalytics.ts:57-65 | the first n entries of a sorted tally are sorted, distinct and positive, carry their labels' numbers of occurrences, and keep every label when fewer than n remain |
| Histogram.TakeDropsLess | client/src/composables/useStudentAnalytics.ts:64 | no label dropped by slice(0, n) from a sorted tally occurs more often than a kept one |
| Histogram.LeadOfSortedTally | client/src/composables/useStudentAnalytics.ts:95 | the first entry exists exactly when there was a label, and no label occurs more often than it |
| Histogram.MaxCountFacts | client/src/composables/useStudentAnalytics.ts:132 | the reduce gives the largest count, attained by some item, and 0 for no items |
| Histogram.MaxCountOfSorted | client/src/composables/useStudentAnalytics.ts:130-133 | on a list sorted by count, maxCount is the first item's count |
| Histogram.PopulatedFacts | client/src/composables/useStudentAnalytics.ts:81 | the filter keeps exactly the items with positive counts, in order, and loses nothing from the total |
| StudentAnalytics.CountLabels | client/src/composables/useStudentAnalytics.ts:28-33 | the forEach loop's record equals the tally of the labels of the counted students |
| StudentAnalytics.TallyOfLabels | client/src/composables/useStudentAnalytics.ts:28-33 | the record's entries are distinct and positive, each label's count is its multiplicity, and the total is the number of counted students |
| StudentAnalytics.ComputeDistribution | client/src/composables/useStudentAnalytics.ts:27-65 | the computed histogram equals the panel's distribution for that dimension |
| StudentAnalytics.LabelsCount | client/src/composables/useStudentAnalytics.ts:29-33 | exactly the counted students contribute a label |
| StudentAnalytics.LabelPresence | client/src/composables/useStudentAnalytics.ts:29-62 | a student gets a label exactly when the histogram counts it, and that label is never empty |
| StudentAnalytics.DistributionFacts | client/src/composables/useStudentAnalytics.ts:27-65 | each histogram lists each label once with its number of students, largest first; apart from programs it lists every label, and its counts add up to the counted students |
| StudentAnalytics.ProgramTopFive | client/src/composables/useStudentAnalytics.ts:57-65 | at most five programs are kept, every program is kept when fewer than five remain, and no dropped program has more students than a kept one |
| StudentAnalytics.FacultyLabelFacts | client/src/composables/useStudentAnalytics.ts:30-31 | a student without a faculty code gives no label; A, H or a code in the faculty table is counted under its non-empty display name; any other code is counted as "Faculty <code>" |
| StudentAnalytics.LevelFallbackLabel | client/src/composables/useStudentAnalytics.ts:40-41 | an unknown level code is counted as "Level <code>" |
| StudentAnalytics.LeadingProgramFacts | client/src/composables/useStudentAnalytics.ts:95 | a leading program exists exactly when some student has a program label; it carries its student count, and no program has more |
| StudentAnalytics.CardMaxCount | client/src/composables/useStudentAnalytics.ts:98-133 | a section shows its histogram, and its maxCount is the first count (0 when empty), which no entry exceeds |
| StudentAnalytics.SectionMaxCounts | client/src/composables/useStudentAnalytics.ts:98-134 | the panel has four sections, each over its dimension's histogram with an agreeing maxCount |
| StudentAnalytics.BucketsPartitionAges | client/src/composables/useStudentAnalytics.ts:69-74 | every age falls into exactly one of the four buckets |
| StudentAnalytics.BucketCountsSum | client/src/composables/useStudentAnalytics.ts:76-80 | the four bucket counts add up to the number of students |
| StudentAnalytics.AgeSegmentsFacts | client/src/composables/useStudentAnalytics.ts:67-82 | no students means no segments; otherwise the segments are the populated buckets in bucket order, and their counts add up to the number of students |
| StudentAnalytics.ProminentFacts | client/src/composables/useStudentAnalytics.ts:94-96 | at most three prominent segments, the first ones in bucket order; a top segment exists exactly when there are students, and it is the youngest populated bucket |
| Scenarios.NimAfterSeven | api/StudentApp.Api/Controllers/StudentsController.cs:53-69 | with "C14230007" stored, the next NIM of cohort C1423 is "C14230008" |
| Scenarios.ShortLegacyNimIgnored | api/StudentApp.Api/Controllers/StudentsController.cs:59 | a stored NIM shorter than 9 is ignored, and numbering starts at 0001 |
| Scenarios.ShortPrefixBorrowsSequence | api/StudentApp.Infrastructure/Repositories/StudentRepository.cs:29-36 | with "A120001" and "A12230001" stored, the prefix "A12" matches both, the longer one is the maximum, and the next NIM is "A120002" |
| Scenarios.NegativeSuffixGivesZero | api/StudentApp.Api/Controllers/StudentsController.cs:59-69 | a last NIM "C1423-001" parses its suffix as -1, so the next NIM is "C14230000" |
| Scenarios.JaneImported | api/StudentApp.Api/Controllers/StudentsController.cs:146-213 | a valid line with a new NIM becomes one record with the first new id |
| Scenarios.ShortHeaderIsData | api/StudentApp.Api/Controllers/StudentsController.cs:161-183 | "NIM,FirstName,LastName,DOB" on line 1 is not a header; with "DOB" unparseable it is one invalid line |
| Scenarios.CaseInsensitiveDuplicate | api/StudentApp.Api/Controllers/StudentsController.cs:136-138 | a NIM that differs from a stored one only in case is a duplicate |
| Scenarios.ThreeFieldsInvalid | api/StudentApp.Api/Controllers/StudentsController.cs:166-171 | a line of three fields is invalid |
| Scenarios.EmptyFirstNameInvalid | api/StudentApp.Api/Controllers/StudentsController.cs:178-183 | a line with an empty first name is invalid |
| Scenarios.EscapeSmithJunior | api/StudentApp.Api/Controllers/StudentsController.cs:224-238 | the last name Smith, "Jr." is written in quotes with its quotes doubled |

## Left out

- **HTTP plumbing and the endpoints around the core.** Routing, status-code
  objects other than the `Import` answers, `CreatedAtAction`, file
  download headers and the export file name are left out. The file name
  depends on the clock. `GetAll` (the full name and `CalculateAge`),
  `GetById`, `Update` and `Delete` are outside the modelled core.
- **Persistence.** The repository is the `StudentStore` class. The
  following are not modelled:
  - Entity Framework change tracking;
  - SQLite itself, and its translation of `StartsWith` and
    `OrderByDescending`. These are taken as a case-sensitive prefix test and
    an ordinal (code point) maximum.
  - two concurrent `Create` calls that both read the same last NIM.
- `StudentsController.StudentStore.AddMany`: the repository class
  (StudentRepository.cs) has no `AddManyAsync`; it is only declared on the
  interface (IStudentRepository.cs:13). Appending the records in order as
  one bulk insert is this model's reading of that interface, not code of the
  source.
- `StudentsController.Controller.Export`: `GetAllAsync`
  (StudentRepository.cs:19-22) runs `ToListAsync()` with no `ORDER BY`, so
  the database does not promise an order. Export's "store order" is this
  model's choice of the insertion order.
- **Byte and line handling.** The upload is given as the lines that
  `StreamReader.ReadLineAsync` yields. These are not modelled:
  - the byte decoding;
  - line splitting at CR, LF or CRLF;
  - the UTF-8 encoding of the export;
  - the line terminators that `AppendLine` writes.

  A value containing a line break therefore has no export/import round
  trip. `ExportImportRoundTrip` requires single-line fields. It also
  requires fields that import keeps as they are: a non-empty NIM and first
  name, no whitespace at either end, and a last name that is absent or
  non-empty.
- **`DateTime.TryParse`** with the invariant culture and `AssumeLocal` is the
  abstract `parseDate` parameter. Calendar validity of a `Date` (for example
  February 30) is left to it. The round trip assumes the parser reads back
  a `yyyy-MM-dd` rendering.
- `Entities.Date` and `StudentsController.ExportImportRoundTrip`: a
  `DateTime`'s time of day and `Kind` are not modelled. `Create` stores the
  request's `DateTime` as given (StudentsController.cs:78), `Export` writes
  only `yyyy-MM-dd` (StudentsController.cs:119) and `Import` reads it back as
  local midnight (StudentsController.cs:179). The round trip is stated for
  date-only values; a birth date with a time of day would come back at
  midnight.
- `NimAllocator.NextSequence`: `lastId.Length >= 9` and
  `Substring(lastId.Length - 4)` (StudentsController.cs:59,62) count UTF-16
  code units, while `|s|` here counts Unicode scalar values. The two differ
  only for NIMs holding characters outside the Basic Multilingual Plane.
- **`undefined` in the client** is modelled as the empty string. Every
  consumer of an optional code in studentData.ts tests it with `!code`, which
  treats `undefined` and `""` alike.
- **`Guid.NewGuid()`** is the `newId` parameter. Ids are not checked for
  uniqueness.
- **`averageAge` and the `percentage` of `ageHighlights`** (floating point and
  `Math.round`) are left out.
  - `StudentAnalytics.ProminentAgeSegments` and
    `StudentAnalytics.TopAgeSegment` return the segments without their
    percentages.
  - The `if (!total) return []` guard is not modelled separately. Every
    segment has a positive count, so it only fires when there are no
    segments.
- `Histogram.ToAnalyticsItems`: equal counts keep first-occurrence order.
  JavaScript enumerates integer-like record keys, such as the year labels
  "2023", in ascending numeric order before the other keys. Among years
  with equal counts the source may therefore order them differently.
- `StudentAnalytics.CountLabels`: a label that coincides with an
  `Object.prototype` member name (such as "constructor") is counted like
  any other. JavaScript would read the inherited member. The same goes for
  `StudentData.GetFacultyDisplayLabel` on such a code.
- `Text.Fold`: `OrdinalIgnoreCase` folding is modelled for ASCII letters
  only. Non-ASCII letters compare case-sensitively here.
- `StudentData.ResolveHumanioraFacultyCode`: the fallback year that the
  source reads from the clock is the `fallbackYear` parameter.
- **Vue reactivity** (`computed`) and theming are left out. Each computed
  value is a function of the students on screen.
- **Culture-sensitive number formats** of `int.TryParse` are not modelled,
  such as a current culture with other sign symbols. The invariant culture's
  `+` and `-` are modelled.
