/**
 * The analytics panel of the client: label histograms over the students on
 * screen, sorted by count, the age buckets, and each section's largest
 * count. The floating-point average age and percentages are not modelled.
 */
module StudentAnalytics {
  import opened Wrappers
  import opened StudentData
  import opened Histogram

  /** The four histograms of the panel. */
  datatype Dimension = Faculty | Level | Year | Program

  // ---------------------------------------------------------------------
  // Labels per dimension
  // ---------------------------------------------------------------------

  /** JavaScript `a || b` on strings: `a` unless it is empty. */
  function OrElse(a: string, b: string): string {
    if a != "" then a else b
  }

  /** The histogram label of one student, `None` when the student is skipped. */
  function LabelOf(d: Dimension, s: StudentDto): Option<string> {
    match d
    case Faculty =>
      if s.facultyCode == "" then None
      else Some(OrElse(GetFacultyDisplayLabel(s.facultyCode), "Faculty " + s.facultyCode))
    case Level =>
      if s.jenjangCode == "" then None
      else Some(OrElse(FormatOptionLabel(Jenjangs(), s.jenjangCode), "Level " + s.jenjangCode))
    case Year =>
      var tag := FormatAngkatanLabel(s.angkatan);
      if tag == "" then None else Some(tag)
    case Program =>
      var tag := GetProgramLabel(s);
      if tag == "" then None else Some(tag)
  }

  /** The labels the `forEach` feeds into `counts`, in student order. */
  function Labels(students: seq<StudentDto>, d: Dimension): seq<string> {
    if students == [] then []
    else
      var tag := LabelOf(d, students[|students| - 1]);
      Labels(students[..|students| - 1], d) + (if tag.Some? then [tag.value] else [])
  }

  /** Which students a histogram counts: those with the code, or with a program label. */
  predicate Counted(d: Dimension, s: StudentDto) {
    match d
    case Faculty => s.facultyCode != ""
    case Level => s.jenjangCode != ""
    case Year => s.angkatan != ""
    case Program => GetProgramLabel(s) != ""
  }

  function CountedStudents(students: seq<StudentDto>, d: Dimension): nat {
    if students == [] then 0
    else CountedStudents(students[..|students| - 1], d) + (if Counted(d, students[|students| - 1]) then 1 else 0)
  }

  /**
   * The `forEach` that fills `counts` for one histogram: skipped students
   * leave it alone, every other student bumps its label.
   */
  method CountLabels(students: seq<StudentDto>, d: Dimension) returns (counts: seq<AnalyticsItem>)
    ensures counts == Tally(Labels(students, d))
  {
    counts := [];
    ghost var seen: seq<string> := [];
    var i := 0;
    while i < |students|
      invariant 0 <= i <= |students|
      invariant seen == Labels(students[..i], d)
      invariant counts == Tally(seen)
    {
      var tag := LabelOf(d, students[i]);
      LabelsPrefix(students, i, d);
      if tag.Some? {
        TallySnoc(seen, tag.value);
        counts := Bump(counts, tag.value);
        seen := seen + [tag.value];
      }
      i := i + 1;
    }
    assert students[..i] == students;
  }

  /** What the tally of one histogram's labels says about the students. */
  lemma TallyOfLabels(students: seq<StudentDto>, d: Dimension)
    ensures var counts := Tally(Labels(students, d));
            && DistinctLabels(counts) && AllPositive(counts)
            && (forall tag :: CountOf(counts, tag) == multiset(Labels(students, d))[tag])
            && Total(counts) == CountedStudents(students, d)
  {
    TallyFacts(Labels(students, d));
    LabelsCount(students, d);
  }

  /** One more student of the prefix adds its label, if it has one, at the end. */
  lemma LabelsPrefix(students: seq<StudentDto>, i: nat, d: Dimension)
    requires i < |students|
    ensures var tag := LabelOf(d, students[i]);
            && (tag.Some? ==> Labels(students[..i + 1], d) == Labels(students[..i], d) + [tag.value])
            && (tag.None? ==> Labels(students[..i + 1], d) == Labels(students[..i], d))
  {
    assert students[..i + 1][..i] == students[..i];
  }

  // ---------------------------------------------------------------------
  // The histograms
  // ---------------------------------------------------------------------

  /** A histogram of the panel; the program histogram keeps its five largest entries. */
  function Distribution(students: seq<StudentDto>, d: Dimension): seq<AnalyticsItem> {
    var items := ToAnalyticsItems(Tally(Labels(students, d)));
    if d == Program then Take(items, 5) else items
  }

  /** The histogram as the panel computes it: the `forEach` tally, then `toAnalyticsItems`. */
  method ComputeDistribution(students: seq<StudentDto>, d: Dimension) returns (items: seq<AnalyticsItem>)
    ensures items == Distribution(students, d)
  {
    var counts := CountLabels(students, d);
    items := ToAnalyticsItems(counts);
    if d == Program {
      items := Take(items, 5);
    }
  }

  /** Only the students a histogram counts contribute a label. */
  lemma {:induction false} LabelsCount(students: seq<StudentDto>, d: Dimension)
    ensures |Labels(students, d)| == CountedStudents(students, d)
  {
    if students != [] {
      LabelsCount(students[..|students| - 1], d);
      LabelPresence(d, students[|students| - 1]);
    }
  }

  /** A student gets a label exactly when the histogram counts it, and the label is never empty. */
  lemma LabelPresence(d: Dimension, s: StudentDto)
    ensures LabelOf(d, s).Some? <==> Counted(d, s)
    ensures LabelOf(d, s).Some? ==> LabelOf(d, s).value != ""
  {
    if d == Year {
      AngkatanLabelFacts(s.angkatan);
    }
  }

  /**
   * Every histogram lists each label once with the number of students that
   * carry it, largest count first; apart from the program histogram, which
   * keeps the five largest, it lists every label, and the counts add up to
   * the number of students the histogram counts.
   */
  lemma DistributionFacts(students: seq<StudentDto>, d: Dimension)
    ensures var r := Distribution(students, d);
            var labels := Labels(students, d);
            && SortedByCount(r) && DistinctLabels(r) && AllPositive(r)
            && (forall i :: 0 <= i < |r| ==> r[i].count == multiset(labels)[r[i].name])
            && (d != Program ==> Total(r) == CountedStudents(students, d))
            && (d != Program ==> forall tag :: tag in labels <==> tag in LabelSet(r))
  {
    var labels := Labels(students, d);
    SortedTallyFacts(labels);
    LabelsCount(students, d);
    if d == Program {
      TakeSortedTally(labels, 5);
    }
  }

  /** The program histogram has at most five entries, each at least as large as any left out. */
  lemma ProgramTopFive(students: seq<StudentDto>)
    ensures var r := Distribution(students, Program);
            var labels := Labels(students, Program);
            && |r| <= 5
            && (|r| < 5 ==> forall tag :: tag in labels <==> tag in LabelSet(r))
            && (forall i, tag :: 0 <= i < |r| && tag in labels && tag !in LabelSet(r)
                  ==> multiset(labels)[tag] <= r[i].count)
  {
    TakeSortedTally(Labels(students, Program), 5);
  }

  /**
   * The faculty label of a student: none without a code; the non-empty
   * display name for A, H or a code in the faculty table; otherwise
   * `"Faculty <code>"`.
   */
  lemma FacultyLabelFacts(s: StudentDto)
    ensures s.facultyCode == "" ==> LabelOf(Faculty, s) == None
    ensures s.facultyCode != "" && (IsHumanioraCode(s.facultyCode) || exists i :: 0 <= i < |Faculties()| && Faculties()[i].code == s.facultyCode)
            ==> GetFacultyDisplayLabel(s.facultyCode) != "" && LabelOf(Faculty, s) == Some(GetFacultyDisplayLabel(s.facultyCode))
    ensures s.facultyCode != "" && !IsHumanioraCode(s.facultyCode) && (forall i :: 0 <= i < |Faculties()| ==> Faculties()[i].code != s.facultyCode)
            ==> LabelOf(Faculty, s) == Some("Faculty " + s.facultyCode)
  {
    FacultyDisplayEmpty(s.facultyCode);
  }

  /** `"Level <code>"` stands in for a level code that is not in the level table. */
  lemma LevelFallbackLabel(s: StudentDto)
    requires s.jenjangCode != ""
    requires forall i :: 0 <= i < |Jenjangs()| ==> Jenjangs()[i].code != s.jenjangCode
    ensures LabelOf(Level, s) == Some("Level " + s.jenjangCode)
  {
    FormatOptionLabelFacts(Jenjangs(), s.jenjangCode);
  }

  /** The leading program: the first entry of the program histogram, if any. */
  function LeadingProgram(students: seq<StudentDto>): Option<AnalyticsItem> {
    var r := Distribution(students, Program);
    if r == [] then None else Some(r[0])
  }

  /** There is a leading program exactly when some student has a program label, and no program has more students. */
  lemma LeadingProgramFacts(students: seq<StudentDto>)
    ensures var lead := LeadingProgram(students);
            var labels := Labels(students, Program);
            && (lead.Some? <==> labels != [])
            && (lead.Some? ==> lead.value.count == multiset(labels)[lead.value.name])
            && (lead.Some? ==> forall tag :: tag in labels ==> multiset(labels)[tag] <= lead.value.count)
  {
    LeadOfSortedTally(Labels(students, Program), 5);
    TakeSortedTally(Labels(students, Program), 5);
  }

  // ---------------------------------------------------------------------
  // Largest count of a section
  // ---------------------------------------------------------------------

  /** One card of the panel. */
  datatype Section = Section(key: string, title: string, description: string,
                             data: seq<AnalyticsItem>, empty: string, maxCount: nat)

  /** A section over one histogram, with the histogram's largest count. */
  function Card(students: seq<StudentDto>, d: Dimension, key: string, title: string, description: string): Section {
    var data := Distribution(students, d);
    Section(key, title, description, data, "No students yet", MaxCount(data))
  }

  /** The dimension, key, title and description of each card, in panel order. */
  datatype CardSpec = CardSpec(dim: Dimension, key: string, title: string, description: string)

  const CardSpecs: seq<CardSpec> :=
    [CardSpec(Faculty, "faculty", "Faculty mix", "Where each cohort sits"),
     CardSpec(Level, "level", "Level breakdown", "S1 vs S2 vs S3 load"),
     CardSpec(Year, "year", "Entry year trend", "How batches spread over time"),
     CardSpec(Program, "program", "Program spotlight", "Top selected study programs")]

  /** `analyticsSections`: the four histograms, each with its largest count. */
  function AnalyticsSections(students: seq<StudentDto>): seq<Section> {
    seq(|CardSpecs|, i requires 0 <= i < |CardSpecs| =>
      Card(students, CardSpecs[i].dim, CardSpecs[i].key, CardSpecs[i].title, CardSpecs[i].description))
  }

  /** `maxCount` is the count of the first entry, or 0 when there is none, and no entry exceeds it. */
  predicate MaxCountAgrees(s: Section) {
    && (s.data == [] ==> s.maxCount == 0)
    && (s.data != [] ==> s.maxCount == s.data[0].count)
    && (forall i :: 0 <= i < |s.data| ==> s.data[i].count <= s.maxCount)
  }

  /** A section over a histogram shows the histogram, and its `maxCount` agrees with it. */
  lemma CardMaxCount(students: seq<StudentDto>, d: Dimension, key: string, title: string, description: string)
    ensures Card(students, d, key, title, description).data == Distribution(students, d)
    ensures MaxCountAgrees(Card(students, d, key, title, description))
  {
    var data := Distribution(students, d);
    DistributionFacts(students, d);
    MaxCountFacts(data);
    if data != [] {
      MaxCountOfSorted(data);
    }
  }

  /** Every section of the panel carries its histogram's largest count. */
  lemma SectionMaxCounts(students: seq<StudentDto>)
    ensures var sections := AnalyticsSections(students);
            && |sections| == 4
            && (forall k :: 0 <= k < 4 ==> sections[k].data == Distribution(students, CardSpecs[k].dim))
            && (forall k :: 0 <= k < 4 ==> MaxCountAgrees(sections[k]))
  {
    var sections := AnalyticsSections(students);
    forall k | 0 <= k < 4 ensures sections[k].data == Distribution(students, CardSpecs[k].dim) && MaxCountAgrees(sections[k]) {
      var spec := CardSpecs[k];
      CardMaxCount(students, spec.dim, spec.key, spec.title, spec.description);
    }
  }

  // ---------------------------------------------------------------------
  // Age buckets
  // ---------------------------------------------------------------------

  /** `student.usia ?? 0`. */
  function AgeOf(s: StudentDto): int {
    s.usia.GetOr(0)
  }

  /**
   * The bucket labels as the source spells them; the first is the UTF-8
   * encoding of "≤" read back as Windows-1252 ("â‰¤").
   */
  const BucketLabels: seq<string> := ["\U{E2}\U{2030}\U{A4} 20 years", "21 - 23 years", "24 - 26 years", "27+ years"]

  /** The test of bucket `k`. */
  predicate InBucket(k: nat, age: int) {
    (k == 0 && age <= 20) || (k == 1 && 21 <= age <= 23) || (k == 2 && 24 <= age <= 26) || (k == 3 && age >= 27)
  }

  /** The number of students whose age passes bucket `k`'s test. */
  function BucketCount(students: seq<StudentDto>, k: nat): nat {
    if students == [] then 0
    else BucketCount(students[..|students| - 1], k) + (if InBucket(k, AgeOf(students[|students| - 1])) then 1 else 0)
  }

  function AllBuckets(students: seq<StudentDto>): seq<AnalyticsItem> {
    [AnalyticsItem(BucketLabels[0], BucketCount(students, 0)),
     AnalyticsItem(BucketLabels[1], BucketCount(students, 1)),
     AnalyticsItem(BucketLabels[2], BucketCount(students, 2)),
     AnalyticsItem(BucketLabels[3], BucketCount(students, 3))]
  }

  /** `ageSegments`: no segments without students, otherwise the populated buckets. */
  function AgeSegments(students: seq<StudentDto>): seq<AnalyticsItem> {
    if students == [] then [] else Populated(AllBuckets(students))
  }

  /** Every age falls into exactly one bucket. */
  lemma BucketsPartitionAges(age: int)
    ensures InBucket(0, age) || InBucket(1, age) || InBucket(2, age) || InBucket(3, age)
    ensures forall j, k :: 0 <= j < k < 4 ==> !(InBucket(j, age) && InBucket(k, age))
  {
  }

  /** Hence the four bucket counts add up to the number of students. */
  lemma {:induction false} BucketCountsSum(students: seq<StudentDto>)
    ensures BucketCount(students, 0) + BucketCount(students, 1) + BucketCount(students, 2) + BucketCount(students, 3) == |students|
  {
    if students != [] {
      BucketCountsSum(students[..|students| - 1]);
      BucketsPartitionAges(AgeOf(students[|students| - 1]));
    }
  }

  /**
   * No students, no segments; otherwise the segments are the populated
   * buckets in bucket order, and their counts add up to the number of
   * students, so none is lost to the filter.
   */
  lemma AgeSegmentsFacts(students: seq<StudentDto>)
    ensures var r := AgeSegments(students);
            && (students == [] ==> r == [])
            && AllPositive(r)
            && Subsequence(r, AllBuckets(students))
            && Total(r) == |students|
            && (students != [] ==> forall k :: 0 <= k < 4 && AllBuckets(students)[k].count > 0 ==> AllBuckets(students)[k] in r)
  {
    var all := AllBuckets(students);
    BucketCountsSum(students);
    PopulatedFacts(all);
    TotalOfFour(all[0], all[1], all[2], all[3]);
    assert all == [all[0], all[1], all[2], all[3]];
  }

  /** `prominentAgeSegments` with the percentages dropped: the first three segments. */
  function ProminentAgeSegments(students: seq<StudentDto>): seq<AnalyticsItem> {
    Take(AgeSegments(students), 3)
  }

  /** `topAgeSegment`: the first prominent segment, if any. */
  function TopAgeSegment(students: seq<StudentDto>): Option<AnalyticsItem> {
    var p := ProminentAgeSegments(students);
    if p == [] then None else Some(p[0])
  }

  /**
   * At most three prominent segments, the first ones in bucket order; there
   * is a top segment exactly when there are students, and it is the
   * youngest populated bucket.
   */
  lemma ProminentFacts(students: seq<StudentDto>)
    ensures var p := ProminentAgeSegments(students);
            var top := TopAgeSegment(students);
            && |p| <= 3 && p == AgeSegments(students)[..|p|]
            && (top.Some? <==> students != [])
            && (top.Some? ==> top.value == AgeSegments(students)[0] && top.value.count > 0)
  {
    AgeSegmentsFacts(students);
    if students != [] {
      assert AgeSegments(students) != [];
    }
  }
}
