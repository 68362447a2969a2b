/**
 * The client's code tables and the lookups over them: faculty, level
 * (jenjang) and study-program (prodi) names, the Humaniora faculty whose
 * code changed from "A" to "H" with the 2023 intake, cohort-year labels,
 * and the decoding of the metadata prefix of an enrollment number (NIM).
 *
 * An optional TypeScript string (`code?: string`) is a `string` here, with
 * "" standing for `undefined`: every lookup tests `!code`, which treats
 * both alike.
 */
module StudentData {
  import opened Wrappers
  import opened Text

  /** One `{ code, name }` entry of an option list. */
  datatype CodeOption = CodeOption(code: string, name: string)

  /** The student as the client receives it; `usia` is the age, `None` when the server sent none. */
  datatype StudentDto = StudentDto(
    id: string,
    nomorIndukMahasiswa: string,
    namaLengkap: string,
    usia: Option<int>,
    facultyCode: string,
    jenjangCode: string,
    prodiCode: string,
    angkatan: string)

  // ---------------------------------------------------------------------
  // Tables
  // ---------------------------------------------------------------------

  function Faculties(): seq<CodeOption> {
    [
      CodeOption("A", "Humaniora dan Industri Kreatif"),
      CodeOption("B", "Teknik Sipil & Perencanaan"),
      CodeOption("C", "Teknologi Industri"),
      CodeOption("D", "School of Business and Management"),
      CodeOption("E", "Seni & Desain"),
      CodeOption("F", "Ilmu Komunikasi"),
      CodeOption("G", "Keguruan dan Ilmu Pendidikan"),
      CodeOption("H", "Humaniora dan Industri Kreatif (2023+)")
    ]
  }

  function Jenjangs(): seq<CodeOption> {
    [
      CodeOption("1", "Strata 1 (S1)"),
      CodeOption("2", "Strata 2 (S2)"),
      CodeOption("3", "Strata 3 (S3)")
    ]
  }

  /** Programs by faculty code, then by level code. */
  function ProdiMap(): map<string, map<string, seq<CodeOption>>> {
    map[
      "A" := map[
        "1" := [CodeOption("1", "Sastra Inggris"), CodeOption("2", "Bahasa Mandarin")],
        "2" := [CodeOption("1", "Magister Sastra")]],
      "B" := map[
        "1" := [CodeOption("1", "Teknik Sipil"), CodeOption("2", "Arsitektur")],
        "2" := [CodeOption("1", "Magister Teknik Sipil"), CodeOption("2", "Magister Arsitektur")],
        "3" := [CodeOption("1", "Doktor Teknik Sipil")]],
      "C" := map[
        "1" := [CodeOption("1", "Teknik Elektro"), CodeOption("2", "Teknik Mesin"),
                CodeOption("3", "Teknik Industri"), CodeOption("4", "Informatika")],
        "2" := [CodeOption("1", "Magister Teknik Industri")]],
      "D" := map[
        "1" := [CodeOption("1", "Manajemen"), CodeOption("2", "Akuntansi")],
        "2" := [CodeOption("1", "Magister Manajemen")]],
      "E" := map[
        "1" := [CodeOption("1", "Desain Interior"), CodeOption("2", "Desain Komunikasi Visual")]],
      "F" := map[
        "1" := [CodeOption("1", "Ilmu Komunikasi")]],
      "G" := map[
        "1" := [CodeOption("1", "PGSD"), CodeOption("2", "PGPAUD")]],
      "H" := map[
        "1" := [CodeOption("1", "Sastra Inggris"), CodeOption("2", "Bahasa Mandarin"),
                CodeOption("3", "Desain Interior"), CodeOption("4", "DKV"), CodeOption("5", "Ilmu Komunikasi")],
        "2" := [CodeOption("1", "Magister Sastra")]]
    ]
  }

  /**
   * The `reduce` that turns an option list into a code-to-name record:
   * entries are written left to right, so a later entry with the same code
   * overwrites an earlier one.
   */
  function NameTable(options: seq<CodeOption>): (table: map<string, string>)
    ensures table.Keys == set i | 0 <= i < |options| :: options[i].code
    decreases |options|
  {
    if options == [] then map[]
    else
      var last := options[|options| - 1];
      var before := options[..|options| - 1];
      assert forall i :: 0 <= i < |before| ==> before[i] == options[i];
      NameTable(before)[last.code := last.name]
  }

  function FacultyNameByCode(): map<string, string> {
    NameTable(Faculties())
  }

  const HumanioraAutoValue := "auto-humaniora"
  const HumanioraDisplayName := "Humaniora dan Industri Kreatif"

  /** The faculty picker: one merged Humaniora entry, then every other faculty. */
  const FacultySelectOptions: seq<CodeOption> := Picker(Faculties())

  /** A picker over `options`: the merged Humaniora entry, then the options other than A and H. */
  function Picker(options: seq<CodeOption>): seq<CodeOption> {
    [CodeOption(HumanioraAutoValue, HumanioraDisplayName)] + NonHumaniora(options)
  }

  /** The `filter` that drops A and H from the faculty list. */
  function NonHumaniora(options: seq<CodeOption>): (r: seq<CodeOption>)
    ensures forall i :: 0 <= i < |r| ==> !IsHumanioraCode(r[i].code)
    ensures forall i :: 0 <= i < |options| && !IsHumanioraCode(options[i].code) ==> options[i] in r
    ensures forall x :: x in r ==> x in options
    ensures |r| <= |options|
  {
    if options == [] then []
    else if IsHumanioraCode(options[0].code) then NonHumaniora(options[1..])
    else [options[0]] + NonHumaniora(options[1..])
  }

  /**
   * The filter works option by option and keeps the order: filtering two
   * lists one after the other is filtering each and joining the results.
   */
  lemma {:induction false} NonHumanioraAppend(a: seq<CodeOption>, b: seq<CodeOption>)
    ensures NonHumaniora(a + b) == NonHumaniora(a) + NonHumaniora(b)
    decreases |a|
  {
    if a != [] {
      assert (a + b)[1..] == a[1..] + b;
      NonHumanioraAppend(a[1..], b);
    } else {
      assert a + b == b;
    }
  }

  predicate DistinctCodes(options: seq<CodeOption>) {
    forall i, j :: 0 <= i < j < |options| ==> options[i].code != options[j].code
  }

  /** Every option carries a non-empty name. */
  predicate Named(options: seq<CodeOption>) {
    forall i :: 0 <= i < |options| ==> options[i].name != ""
  }

  // ---------------------------------------------------------------------
  // Lookups
  // ---------------------------------------------------------------------

  /** `Array.prototype.find` on the code: the index of the first option with `code`. */
  function FindCode(options: seq<CodeOption>, code: string): (r: Option<nat>)
    ensures r.None? <==> forall i :: 0 <= i < |options| ==> options[i].code != code
    ensures r.Some? ==> r.value < |options| && options[r.value].code == code
    ensures r.Some? ==> forall i :: 0 <= i < r.value ==> options[i].code != code
  {
    if options == [] then None
    else if options[0].code == code then Some(0)
    else
      var rest := FindCode(options[1..], code);
      assert forall i :: 1 <= i < |options| ==> options[i] == options[1..][i - 1];
      if rest.None? then None else Some(rest.value + 1)
  }

  /** `formatOptionLabel`: the name of the first option with `code`, "" for no code or no match. */
  function FormatOptionLabel(options: seq<CodeOption>, code: string): string {
    if code == "" then ""
    else
      var found := FindCode(options, code);
      if found.Some? then options[found.value].name else ""
  }

  predicate IsHumanioraCode(code: string) {
    code == "A" || code == "H"
  }

  /** The whitespace `Number.parseInt` skips: ECMAScript's StrWhiteSpaceChar. */
  predicate IsJsWhiteSpace(c: char) {
    var n := c as int;
    (9 <= n <= 13) || n == 0x20 || n == 0xA0 || n == 0x1680 || (0x2000 <= n <= 0x200A)
    || n == 0x2028 || n == 0x2029 || n == 0x202F || n == 0x205F || n == 0x3000 || n == 0xFEFF
  }

  function SkipJsWhiteSpace(s: string): string {
    if s == [] || !IsJsWhiteSpace(s[0]) then s else SkipJsWhiteSpace(s[1..])
  }

  /**
   * `Number.parseInt(s, 10)`: leading whitespace, an optional sign, then the
   * longest run of decimal digits; anything after the run is ignored, and
   * no digit at all gives NaN (`None`).
   */
  function ParseIntJs(s: string): Option<int> {
    var t := SkipJsWhiteSpace(s);
    var signed := t != [] && (t[0] == '-' || t[0] == '+');
    var digits := LeadingDigits(if signed then t[1..] else t);
    if digits == [] then None
    else if signed && t[0] == '-' then Some(-(DigitsValue(digits) as int))
    else Some(DigitsValue(digits))
  }

  /**
   * `resolveHumanioraFacultyCode`: "H" from the 2023 intake on, "A" before;
   * the year is the parsed cohort, or `fallbackYear` (the last two digits of
   * the current year) when the cohort does not parse.
   */
  function ResolveHumanioraFacultyCode(angkatan: string, fallbackYear: int): string {
    var numericYear := ParseIntJs(angkatan);
    var year := if numericYear.None? then fallbackYear else numericYear.value;
    if year >= 23 then "H" else "A"
  }

  /** `getFacultySelectValue`: the picker value of a faculty code. */
  function GetFacultySelectValue(code: string): string {
    if code == "" then ""
    else if IsHumanioraCode(code) then HumanioraAutoValue
    else code
  }

  /** `getFacultyDisplayLabel`: the display name of a faculty code, "" when unknown. */
  function GetFacultyDisplayLabel(code: string): string {
    if code == "" then ""
    else if IsHumanioraCode(code) then HumanioraDisplayName
    else if code in FacultyNameByCode() then FacultyNameByCode()[code]
    else ""
  }

  /** `getProgramLabel`: the program name for the student's three codes, "" when any is missing or unknown. */
  function GetProgramLabel(student: StudentDto): string {
    if student.facultyCode == "" || student.jenjangCode == "" || student.prodiCode == "" then ""
    else if student.facultyCode !in ProdiMap() || student.jenjangCode !in ProdiMap()[student.facultyCode] then ""
    else
      var options := ProdiMap()[student.facultyCode][student.jenjangCode];
      var found := FindCode(options, student.prodiCode);
      if found.Some? then options[found.value].name else ""
  }

  /** `formatAngkatanLabel`: "20" before a two-digit cohort, "" for none. */
  function FormatAngkatanLabel(angkatan: string): string {
    if angkatan == "" then "" else "20" + angkatan
  }

  // ---------------------------------------------------------------------
  // NIM metadata
  // ---------------------------------------------------------------------

  /** The four codes decoded from a NIM; "" for a code that is absent. */
  datatype NimMetadata = NimMetadata(facultyCode: string, jenjangCode: string, prodiCode: string, angkatan: string)

  const NoMetadata := NimMetadata("", "", "", "")

  predicate IsAsciiLetter(c: char) {
    ('A' <= c <= 'Z') || ('a' <= c <= 'z')
  }

  /** The regular expression `^([A-Za-z])(\d)(\d)(\d{2})` matches at the start of `nim`. */
  predicate NimShaped(nim: string) {
    |nim| >= 5 && IsAsciiLetter(nim[0]) && IsDigit(nim[1]) && IsDigit(nim[2]) && IsDigit(nim[3]) && IsDigit(nim[4])
  }

  /** `decodeNimMetadata`: faculty letter (upper-cased), level digit, program digit, two-digit cohort. */
  function DecodeNimMetadata(nim: string): NimMetadata {
    if nim == "" then NoMetadata
    else if !NimShaped(nim) then NoMetadata
    else NimMetadata([FoldChar(nim[0])], nim[1..2], nim[2..3], nim[3..5])
  }

  // ---------------------------------------------------------------------
  // Properties
  // ---------------------------------------------------------------------

  /** `formatOptionLabel` answers the name of the first option carrying the code, and "" otherwise. */
  lemma FormatOptionLabelFacts(options: seq<CodeOption>, code: string)
    ensures code == "" ==> FormatOptionLabel(options, code) == ""
    ensures (forall i :: 0 <= i < |options| ==> options[i].code != code) ==> FormatOptionLabel(options, code) == ""
    ensures forall i :: 0 <= i < |options| && options[i].code == code && code != ""
                        && (forall k :: 0 <= k < i ==> options[k].code != code)
                        ==> FormatOptionLabel(options, code) == options[i].name
  {
    var found := FindCode(options, code);
    forall i | 0 <= i < |options| && options[i].code == code && code != ""
               && (forall k :: 0 <= k < i ==> options[k].code != code)
      ensures FormatOptionLabel(options, code) == options[i].name
    {
      assert found.Some?;
      assert found.value == i;
    }
  }

  /**
   * With distinct codes the record built by `reduce` and the `find` over the
   * list agree: a code in the record names the option carrying it.
   */
  lemma {:induction false} NameTableLookup(options: seq<CodeOption>, i: nat)
    requires DistinctCodes(options) && i < |options|
    ensures NameTable(options)[options[i].code] == options[i].name
    decreases |options|
  {
    var before := options[..|options| - 1];
    if i < |options| - 1 {
      assert before[i] == options[i];
      assert DistinctCodes(before) by {
        forall a, b | 0 <= a < b < |before| ensures before[a].code != before[b].code {
          assert before[a] == options[a] && before[b] == options[b];
        }
      }
      NameTableLookup(before, i);
      assert options[|options| - 1].code != options[i].code;
    }
  }

  lemma FacultyTable()
    ensures DistinctCodes(Faculties()) && Named(Faculties())
  {
  }

  /**
   * `getFacultyDisplayLabel` reads the `reduce`-built record, which for the
   * faculty table says the same as `formatOptionLabel` over the list: the
   * Humaniora name for A/H, the table name for another known code, "" for
   * no code or an unknown one.
   */
  lemma FacultyDisplayAgreesWithList(code: string)
    ensures !IsHumanioraCode(code) ==> GetFacultyDisplayLabel(code) == FormatOptionLabel(Faculties(), code)
    ensures code != "" && IsHumanioraCode(code) ==> GetFacultyDisplayLabel(code) == HumanioraDisplayName
  {
    FacultyTable();
    FormatOptionLabelFacts(Faculties(), code);
    if code != "" && !IsHumanioraCode(code) {
      var found := FindCode(Faculties(), code);
      if found.Some? {
        NameTableLookup(Faculties(), found.value);
      }
    }
  }

  /** A faculty label is empty exactly when the code is empty, or neither Humaniora nor in the table. */
  lemma FacultyDisplayEmpty(code: string)
    ensures GetFacultyDisplayLabel(code) == "" <==>
            code == "" || (!IsHumanioraCode(code) && forall i :: 0 <= i < |Faculties()| ==> Faculties()[i].code != code)
  {
    FacultyDisplayAgreesWithList(code);
    FormatOptionLabelFacts(Faculties(), code);
    FacultyTable();
    if code != "" && !IsHumanioraCode(code) {
      var found := FindCode(Faculties(), code);
      if found.Some? {
        assert Faculties()[found.value].name != "";
      }
    }
  }

  /**
   * The picker value of every faculty code in the table is one of the
   * picker's options: A and H both land on the merged Humaniora entry.
   */
  lemma SelectValueIsAnOption(i: nat)
    requires i < |Faculties()|
    ensures exists k :: 0 <= k < |FacultySelectOptions| && FacultySelectOptions[k].code == GetFacultySelectValue(Faculties()[i].code)
  {
    assert Faculties()[i].code != "";
    SelectValueAmong(Faculties(), i);
  }

  /** The picker value of a non-empty code of `options` is among the picker built from `options`. */
  lemma SelectValueAmong(options: seq<CodeOption>, i: nat)
    requires i < |options| && options[i].code != ""
    ensures exists k :: 0 <= k < |Picker(options)| && Picker(options)[k].code == GetFacultySelectValue(options[i].code)
  {
    var picker := Picker(options);
    if IsHumanioraCode(options[i].code) {
      assert picker[0].code == HumanioraAutoValue == GetFacultySelectValue(options[i].code);
    } else {
      var k :| 0 <= k < |NonHumaniora(options)| && NonHumaniora(options)[k] == options[i];
      assert picker[k + 1].code == options[i].code == GetFacultySelectValue(options[i].code);
    }
  }

  /** `Number.parseInt` of a run of digits is its decimal value. */
  lemma ParseIntJsDigits(d: string)
    requires AllDigits(d) && d != []
    ensures ParseIntJs(d) == Some(DigitsValue(d))
  {
    assert IsDigit(d[0]);
    assert SkipJsWhiteSpace(d) == d;
    LeadingDigitsOfDigits(d);
  }

  /** `Number.parseInt` stops at the first non-digit: "23abc" reads as 23. */
  lemma ParseIntJsStops(d: string, rest: string)
    requires AllDigits(d) && d != [] && (rest == [] || !IsDigit(rest[0]))
    ensures ParseIntJs(d + rest) == Some(DigitsValue(d))
  {
    assert IsDigit((d + rest)[0]);
    assert SkipJsWhiteSpace(d + rest) == d + rest;
    LeadingDigitsAppend(d, rest);
  }

  /** With nothing but whitespace and at most a sign before a non-digit, `Number.parseInt` is NaN. */
  lemma ParseIntJsNaN(s: string)
    ensures var t := SkipJsWhiteSpace(s);
            var u := if t != [] && (t[0] == '-' || t[0] == '+') then t[1..] else t;
            (u == [] || !IsDigit(u[0])) ==> ParseIntJs(s).None?
  {
  }

  /**
   * The Humaniora rule: the code is "H" exactly when the cohort year, or the
   * fallback year when the cohort does not parse, is at least 23; it is
   * always a Humaniora code, so the picker shows the merged entry and the
   * label the Humaniora name.
   */
  lemma ResolveHumanioraFacts(angkatan: string, fallbackYear: int)
    ensures var r := ResolveHumanioraFacultyCode(angkatan, fallbackYear);
            && (ParseIntJs(angkatan).Some? ==> (r == "H" <==> ParseIntJs(angkatan).value >= 23))
            && (ParseIntJs(angkatan).None? ==> (r == "H" <==> fallbackYear >= 23))
            && IsHumanioraCode(r)
            && GetFacultySelectValue(r) == HumanioraAutoValue
            && GetFacultyDisplayLabel(r) == HumanioraDisplayName
  {
  }

  /** For a two-digit cohort the rule is "H" exactly from "23" on, whatever the fallback. */
  lemma ResolveTwoDigitCohort(angkatan: string, fallbackYear: int)
    requires |angkatan| == 2 && AllDigits(angkatan)
    ensures ResolveHumanioraFacultyCode(angkatan, fallbackYear) == "H" <==> DigitsValue(angkatan) >= 23
  {
    ParseIntJsDigits(angkatan);
  }

  /** The picker value is "" for no code, the merged entry for A/H, and the code itself otherwise. */
  lemma SelectValueFacts(code: string)
    ensures GetFacultySelectValue(code) == "" <==> code == ""
    ensures GetFacultySelectValue(code) == HumanioraAutoValue <==> IsHumanioraCode(code) || code == HumanioraAutoValue
    ensures code != "" && !IsHumanioraCode(code) ==> GetFacultySelectValue(code) == code
  {
  }

  /**
   * A program label is non-empty only for three present codes found in the
   * program table, and is then the name of the first matching program;
   * conversely, three present codes whose faculty and level are in the
   * table are labelled with that name ("" when no program matches).
   */
  lemma ProgramLabelFacts(student: StudentDto)
    ensures var r := GetProgramLabel(student);
            r != "" ==> && student.facultyCode != "" && student.jenjangCode != "" && student.prodiCode != ""
                        && student.facultyCode in ProdiMap() && student.jenjangCode in ProdiMap()[student.facultyCode]
                        && r == FormatOptionLabel(ProdiMap()[student.facultyCode][student.jenjangCode], student.prodiCode)
    ensures student.facultyCode != "" && student.jenjangCode != "" && student.prodiCode != ""
            && student.facultyCode in ProdiMap() && student.jenjangCode in ProdiMap()[student.facultyCode]
            ==> GetProgramLabel(student) == FormatOptionLabel(ProdiMap()[student.facultyCode][student.jenjangCode], student.prodiCode)
  {
  }

  /** The cohort label is empty only for an empty cohort, and otherwise reads back the cohort after "20". */
  lemma AngkatanLabelFacts(angkatan: string)
    ensures var r := FormatAngkatanLabel(angkatan);
            && (r == "" <==> angkatan == "")
            && (angkatan != "" ==> |r| == |angkatan| + 2 && r[..2] == "20" && r[2..] == angkatan)
  {
  }

  /**
   * Decoding yields metadata exactly for a NIM that starts with a letter and
   * four digits: then the faculty code is that letter upper-cased, and the
   * codes re-joined give back the NIM's first five characters with the
   * letter upper-cased.
   */
  lemma DecodeFacts(nim: string)
    ensures var m := DecodeNimMetadata(nim);
            && (m == NoMetadata <==> !NimShaped(nim))
            && (NimShaped(nim) ==>
                  && |m.facultyCode| == 1 && 'A' <= m.facultyCode[0] <= 'Z'
                  && |m.jenjangCode| == 1 && |m.prodiCode| == 1 && |m.angkatan| == 2
                  && AllDigits(m.jenjangCode + m.prodiCode + m.angkatan)
                  && m.facultyCode + m.jenjangCode + m.prodiCode + m.angkatan == [FoldChar(nim[0])] + nim[1..5])
  {
    if NimShaped(nim) {
      var m := DecodeNimMetadata(nim);
      assert m.facultyCode != "";
      assert m.jenjangCode + m.prodiCode + m.angkatan == nim[1..5];
    }
  }

  /** Decoding looks only at the first five characters: whatever follows does not matter. */
  lemma DecodeIgnoresSuffix(nim: string, suffix: string)
    requires |nim| >= 5
    ensures DecodeNimMetadata(nim + suffix) == DecodeNimMetadata(nim)
  {
    var s := nim + suffix;
    assert s[..5] == nim[..5];
    assert s[0] == nim[0] && s[1] == nim[1] && s[2] == nim[2] && s[3] == nim[3] && s[4] == nim[4];
    assert s[1..2] == nim[1..2] && s[2..3] == nim[2..3] && s[3..5] == nim[3..5];
  }
}
