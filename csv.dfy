/**
 * The CSV field escaper used by the export and the per-line field splitter
 * used by the import: a single-line subset of the quoting rules of
 * section 2 of RFC 4180 (a doubled quote inside a quoted field stands for
 * one quote; the splitter is lax, so any other quote toggles quoting).
 */
module Csv {
  import opened Wrappers

  // ---------------------------------------------------------------------
  // Escaping (export)
  // ---------------------------------------------------------------------

  /** The characters whose presence makes the escaper wrap a field in quotes. */
  predicate NeedsQuoting(c: char) {
    c == ',' || c == '"' || c == '\n' || c == '\r'
  }

  predicate HasSpecial(s: string) {
    exists i :: 0 <= i < |s| && NeedsQuoting(s[i])
  }

  function QuoteCount(s: string): nat {
    if s == [] then 0 else (if s[0] == '"' then 1 else 0) + QuoteCount(s[1..])
  }

  lemma {:induction false} QuoteCountAppend(a: string, b: string)
    ensures QuoteCount(a + b) == QuoteCount(a) + QuoteCount(b)
  {
    if a == [] {
      assert a + b == b;
    } else {
      assert (a + b)[1..] == a[1..] + b;
      QuoteCountAppend(a[1..], b);
    }
  }

  /** `s.Replace("\"", "\"\"")`: every quote doubled, every other character kept. */
  function DoubleQuotes(s: string): string {
    if s == [] then []
    else (if s[0] == '"' then "\"\"" else [s[0]]) + DoubleQuotes(s[1..])
  }

  /**
   * Doubling adds one character per quote, doubles the number of quotes,
   * changes nothing in a string without quotes, and keeps every comma,
   * quote and line break (so it needs quoting exactly when its input does).
   */
  lemma {:induction false} DoubleQuotesFacts(s: string)
    ensures var r := DoubleQuotes(s);
            && |r| == |s| + QuoteCount(s)
            && QuoteCount(r) == 2 * QuoteCount(s)
            && (QuoteCount(s) == 0 ==> r == s)
            && (HasSpecial(r) <==> HasSpecial(s))
  {
    if s != [] {
      var head := if s[0] == '"' then "\"\"" else [s[0]];
      var tail := DoubleQuotes(s[1..]);
      assert DoubleQuotes(s) == head + tail;
      DoubleQuotesFacts(s[1..]);
      QuoteCountAppend(head, tail);
      SpecialCons(s);
      SpecialAppend(head, tail);
    }
  }

  /** Doubling works character by character, so it distributes over concatenation. */
  lemma {:induction false} DoubleQuotesAppend(a: string, b: string)
    ensures DoubleQuotes(a + b) == DoubleQuotes(a) + DoubleQuotes(b)
  {
    if a != [] {
      var head := if a[0] == '"' then "\"\"" else [a[0]];
      assert (a + b)[0] == a[0] && (a + b)[1..] == a[1..] + b;
      DoubleQuotesAppend(a[1..], b);
      assert DoubleQuotes(a) == head + DoubleQuotes(a[1..]);
      assert DoubleQuotes(a + b) == head + (DoubleQuotes(a[1..]) + DoubleQuotes(b));
    } else {
      assert a + b == b;
    }
  }

  lemma SpecialCons(s: string)
    requires s != []
    ensures HasSpecial(s) <==> NeedsQuoting(s[0]) || HasSpecial(s[1..])
  {
    if HasSpecial(s) && !NeedsQuoting(s[0]) {
      var i :| 0 <= i < |s| && NeedsQuoting(s[i]);
      assert s[1..][i - 1] == s[i];
    }
    if HasSpecial(s[1..]) {
      var i :| 0 <= i < |s[1..]| && NeedsQuoting(s[1..][i]);
      assert s[i + 1] == s[1..][i];
    }
  }

  lemma SpecialAppend(a: string, b: string)
    ensures HasSpecial(a + b) <==> HasSpecial(a) || HasSpecial(b)
  {
    if HasSpecial(a + b) {
      var i :| 0 <= i < |a + b| && NeedsQuoting((a + b)[i]);
      if i >= |a| { assert b[i - |a|] == (a + b)[i]; }
    }
    if HasSpecial(a) {
      var i :| 0 <= i < |a| && NeedsQuoting(a[i]);
      assert (a + b)[i] == a[i];
    }
    if HasSpecial(b) {
      var i :| 0 <= i < |b| && NeedsQuoting(b[i]);
      assert (a + b)[|a| + i] == b[i];
    }
  }

  /**
   * `EscapeForCsv`: "" for a null or empty value; otherwise the value with
   * every quote doubled, wrapped in quotes when the result contains a comma,
   * a quote, a line feed or a carriage return.
   */
  function EscapeForCsv(value: Option<string>): string {
    if value.None? || value.value == [] then ""
    else
      var sanitized := DoubleQuotes(value.value);
      if HasSpecial(sanitized) then "\"" + sanitized + "\"" else sanitized
  }

  /**
   * The escaped text is empty exactly for a null or empty value; a value
   * without special characters is written as it is; a value with one is
   * written in quotes around its quote-doubled text.
   */
  lemma EscapeForCsvFacts(value: Option<string>)
    ensures var r := EscapeForCsv(value);
            && (r == [] <==> value.None? || value.value == [])
            && (value.Some? && value.value != [] && !HasSpecial(value.value) ==> r == value.value)
            && (value.Some? && HasSpecial(value.value) ==>
                  |r| >= 2 && r[0] == '"' && r[|r| - 1] == '"' && r[1..|r| - 1] == DoubleQuotes(value.value))
  {
    if value.Some? && value.value != [] {
      var v := value.value;
      var sanitized := DoubleQuotes(v);
      DoubleQuotesFacts(v);
      if !HasSpecial(v) && QuoteCount(v) != 0 {
        QuotePresent(v);
      }
      if HasSpecial(v) {
        var r := "\"" + sanitized + "\"";
        assert r[1..|r| - 1] == sanitized;
      }
    }
  }

  lemma {:induction false} QuotePresent(s: string)
    requires QuoteCount(s) != 0
    ensures HasSpecial(s)
  {
    SpecialCons(s);
    if s[0] != '"' { QuotePresent(s[1..]); }
  }

  /** `string.Join(',', fields)`. */
  function JoinFields(fields: seq<string>): string {
    if fields == [] then ""
    else if |fields| == 1 then fields[0]
    else fields[0] + "," + JoinFields(fields[1..])
  }

  function EscapeAll(cells: seq<Option<string>>): (r: seq<string>)
    ensures |r| == |cells|
  {
    if cells == [] then [] else [EscapeForCsv(cells[0])] + EscapeAll(cells[1..])
  }

  lemma {:induction false} EscapeAllIndex(cells: seq<Option<string>>)
    ensures forall i :: 0 <= i < |cells| ==> EscapeAll(cells)[i] == EscapeForCsv(cells[i])
  {
    if cells != [] {
      EscapeAllIndex(cells[1..]);
      assert forall i :: 1 <= i < |cells| ==> cells[1..][i - 1] == cells[i];
    }
  }

  /** What a cell reads back as: a null cell is exported as, and read back as, "". */
  function CellText(cell: Option<string>): string {
    cell.GetOr("")
  }

  function CellTexts(cells: seq<Option<string>>): (r: seq<string>)
    ensures |r| == |cells| && forall i :: 0 <= i < |cells| ==> r[i] == CellText(cells[i])
  {
    if cells == [] then [] else [CellText(cells[0])] + CellTexts(cells[1..])
  }

  // ---------------------------------------------------------------------
  // Splitting (import)
  // ---------------------------------------------------------------------

  /** The splitter's state: the fields finished so far, the field being built, and the quote flag. */
  datatype Scanner = Scanner(fields: seq<string>, current: string, inQuotes: bool)

  const Start := Scanner([], [], false)

  /** Runs the splitter over the characters `s` from state `st`. */
  function Scan(s: string, st: Scanner): Scanner
    decreases |s|
  {
    if s == [] then st
    else if s[0] == '"' then
      if st.inQuotes && |s| > 1 && s[1] == '"' then Scan(s[2..], st.(current := st.current + ['"']))
      else Scan(s[1..], st.(inQuotes := !st.inQuotes))
    else if s[0] == ',' && !st.inQuotes then Scan(s[1..], st.(fields := st.fields + [st.current], current := []))
    else Scan(s[1..], st.(current := st.current + [s[0]]))
  }

  /** The fields `SplitCsvLine` returns for `line`. */
  function Split(line: string): (fields: seq<string>)
    ensures |fields| >= 1
  {
    var st := Scan(line, Start);
    st.fields + [st.current]
  }

  /** `SplitCsvLine`: one pass over the line with a field buffer and a quote flag. */
  method SplitCsvLine(line: string) returns (fields: seq<string>)
    ensures fields == Split(line)
  {
    fields := [];
    var current: string := [];
    var inQuotes := false;
    var i := 0;
    while i < |line|
      invariant 0 <= i <= |line|
      invariant Scan(line[i..], Scanner(fields, current, inQuotes)) == Scan(line, Start)
    {
      var character := line[i];
      if character == '"' {
        if inQuotes && i + 1 < |line| && line[i + 1] == '"' {
          current := current + ['"'];
          i := i + 1;
          assert line[i - 1..][2..] == line[i + 1..];
        } else {
          inQuotes := !inQuotes;
        }
      } else if character == ',' && !inQuotes {
        fields := fields + [current];
        current := [];
      } else {
        current := current + [character];
      }
      i := i + 1;
    }
    fields := fields + [current];
  }

  // ---------------------------------------------------------------------
  // Field count
  // ---------------------------------------------------------------------

  /** The commas of `s` that separate fields: those met outside quotes. */
  function Separators(s: string, inQuotes: bool): nat
    decreases |s|
  {
    if s == [] then 0
    else if s[0] == '"' then
      if inQuotes && |s| > 1 && s[1] == '"' then Separators(s[2..], inQuotes)
      else Separators(s[1..], !inQuotes)
    else if s[0] == ',' && !inQuotes then 1 + Separators(s[1..], inQuotes)
    else Separators(s[1..], inQuotes)
  }

  lemma {:induction false} ScanCountsSeparators(s: string, st: Scanner)
    ensures |Scan(s, st).fields| == |st.fields| + Separators(s, st.inQuotes)
    decreases |s|
  {
    if s == [] {
    } else if s[0] == '"' {
      if st.inQuotes && |s| > 1 && s[1] == '"' {
        ScanCountsSeparators(s[2..], st.(current := st.current + ['"']));
      } else {
        ScanCountsSeparators(s[1..], st.(inQuotes := !st.inQuotes));
      }
    } else if s[0] == ',' && !st.inQuotes {
      ScanCountsSeparators(s[1..], st.(fields := st.fields + [st.current], current := []));
    } else {
      ScanCountsSeparators(s[1..], st.(current := st.current + [s[0]]));
    }
  }

  /** The line splits into one field more than it has commas outside quotes. */
  lemma SplitFieldCount(line: string)
    ensures |Split(line)| == 1 + Separators(line, false)
  {
    ScanCountsSeparators(line, Start);
  }

  // ---------------------------------------------------------------------
  // Where quotes in the output come from
  // ---------------------------------------------------------------------

  function Concat(fields: seq<string>): string {
    if fields == [] then [] else Concat(fields[..|fields| - 1]) + fields[|fields| - 1]
  }

  function Output(st: Scanner): string {
    Concat(st.fields) + st.current
  }

  lemma {:induction false} ScanQuoteBound(s: string, st: Scanner)
    ensures 2 * QuoteCount(Output(Scan(s, st))) <= 2 * QuoteCount(Output(st)) + QuoteCount(s)
    decreases |s|
  {
    if s == [] {
    } else if s[0] == '"' {
      assert s == [s[0]] + s[1..];
      QuoteCountAppend([s[0]], s[1..]);
      if st.inQuotes && |s| > 1 && s[1] == '"' {
        var st' := st.(current := st.current + ['"']);
        assert s[1..] == [s[1]] + s[2..];
        QuoteCountAppend([s[1]], s[2..]);
        assert Output(st') == Output(st) + ['"'];
        QuoteCountAppend(Output(st), ['"']);
        ScanQuoteBound(s[2..], st');
      } else {
        ScanQuoteBound(s[1..], st.(inQuotes := !st.inQuotes));
      }
    } else if s[0] == ',' && !st.inQuotes {
      var st' := st.(fields := st.fields + [st.current], current := []);
      assert Concat(st'.fields) == Concat(st.fields) + st.current by {
        assert st'.fields[..|st'.fields| - 1] == st.fields;
      }
      assert Output(st') == Output(st);
      ScanQuoteBound(s[1..], st');
      assert s == [s[0]] + s[1..];
      QuoteCountAppend([s[0]], s[1..]);
    } else {
      var st' := st.(current := st.current + [s[0]]);
      assert Output(st') == Output(st) + [s[0]];
      QuoteCountAppend(Output(st), [s[0]]);
      assert s == [s[0]] + s[1..];
      QuoteCountAppend([s[0]], s[1..]);
      ScanQuoteBound(s[1..], st');
    }
  }

  /**
   * The fields hold at most half of the line's quotes (a quote survives only
   * as one of a doubled pair inside quotes); in particular a line without
   * quotes yields fields without quotes.
   */
  lemma SplitQuoteBound(line: string)
    ensures 2 * QuoteCount(Concat(Split(line))) <= QuoteCount(line)
  {
    var st := Scan(line, Start);
    ScanQuoteBound(line, Start);
    assert Split(line)[..|Split(line)| - 1] == st.fields;
    assert Concat(Split(line)) == Output(st);
    assert Output(Start) == [];
  }

  // ---------------------------------------------------------------------
  // Without quotes the splitter is a plain comma split
  // ---------------------------------------------------------------------

  /** Splitting at every comma (a reference definition without quoting). */
  function CommaSplit(s: string): (r: seq<string>)
    ensures |r| >= 1
  {
    if s == [] then [[]]
    else
      var rest := CommaSplit(s[1..]);
      if s[0] == ',' then [[]] + rest else [[s[0]] + rest[0]] + rest[1..]
  }

  lemma {:induction false} ScanUnquoted(s: string, fs: seq<string>, cur: string)
    requires QuoteCount(s) == 0
    ensures var st := Scan(s, Scanner(fs, cur, false));
            st.fields + [st.current] == fs + [cur + CommaSplit(s)[0]] + CommaSplit(s)[1..]
    decreases |s|
  {
    if s != [] {
      assert s[0] != '"';
      if s[0] == ',' {
        ScanUnquoted(s[1..], fs + [cur], []);
        assert [] + CommaSplit(s[1..])[0] == CommaSplit(s[1..])[0];
      } else {
        ScanUnquoted(s[1..], fs, cur + [s[0]]);
        assert cur + [s[0]] + CommaSplit(s[1..])[0] == cur + ([s[0]] + CommaSplit(s[1..])[0]);
      }
    } else {
      assert cur + [] == cur;
    }
  }

  /** A line with no quote characters splits at every comma. */
  lemma SplitUnquoted(line: string)
    requires QuoteCount(line) == 0
    ensures Split(line) == CommaSplit(line)
  {
    var c := CommaSplit(line);
    ScanUnquoted(line, [], []);
    var noChars: string, noFields: seq<string> := [], [];
    assert noChars + c[0] == c[0];
    assert noFields + [c[0]] + c[1..] == c;
  }

  // ---------------------------------------------------------------------
  // Round trip: splitting a joined row of escaped cells gives the cells back
  // ---------------------------------------------------------------------

  /** A field with no comma and no quote is copied as it is. */
  lemma {:induction false} ScanPlain(v: string, rest: string, fs: seq<string>, cur: string)
    requires !HasSpecial(v)
    ensures Scan(v + rest, Scanner(fs, cur, false)) == Scan(rest, Scanner(fs, cur + v, false))
    decreases |v|
  {
    if v == [] {
      assert v + rest == rest && cur + v == cur;
    } else {
      SpecialCons(v);
      assert (v + rest)[0] == v[0] && (v + rest)[1..] == v[1..] + rest;
      ScanPlain(v[1..], rest, fs, cur + [v[0]]);
      assert cur + [v[0]] + v[1..] == cur + v;
    }
  }

  /** Inside quotes, the doubled-quote body and the closing quote decode to the value. */
  lemma {:induction false} ScanQuotedBody(v: string, rest: string, fs: seq<string>, cur: string)
    requires rest == [] || rest[0] != '"'
    ensures Scan(DoubleQuotes(v) + "\"" + rest, Scanner(fs, cur, true)) == Scan(rest, Scanner(fs, cur + v, false))
    decreases |v|
  {
    var st := Scanner(fs, cur, true);
    if v == [] {
      assert DoubleQuotes(v) + "\"" + rest == "\"" + rest;
      ScanClosingQuote(rest, st);
      assert cur + v == cur;
    } else {
      var head := if v[0] == '"' then "\"\"" else [v[0]];
      var tail := DoubleQuotes(v[1..]) + "\"" + rest;
      assert DoubleQuotes(v) + "\"" + rest == head + tail;
      if v[0] == '"' {
        ScanDoubledQuote(tail, st);
      } else {
        ScanOrdinary(v[0], tail, st);
      }
      ScanQuotedBody(v[1..], rest, fs, cur + [v[0]]);
      AppendCons(cur, v);
    }
  }

  lemma AppendCons(cur: string, v: string)
    requires v != []
    ensures cur + [v[0]] + v[1..] == cur + v
  {
  }

  /** A quote outside quotes opens a quoted section. */
  lemma ScanOpeningQuote(s: string, st: Scanner)
    requires !st.inQuotes
    ensures Scan("\"" + s, st) == Scan(s, st.(inQuotes := true))
  {
    assert ("\"" + s)[1..] == s;
  }

  /** A quote inside quotes that is not doubled closes the quoted section. */
  lemma ScanClosingQuote(s: string, st: Scanner)
    requires st.inQuotes && (s == [] || s[0] != '"')
    ensures Scan("\"" + s, st) == Scan(s, st.(inQuotes := false))
  {
    assert ("\"" + s)[1..] == s;
  }

  /** A doubled quote inside quotes stands for one quote of the field. */
  lemma ScanDoubledQuote(s: string, st: Scanner)
    requires st.inQuotes
    ensures Scan("\"\"" + s, st) == Scan(s, st.(current := st.current + ['"']))
  {
    assert ("\"\"" + s)[2..] == s;
  }

  /** Any other character that is not a separating comma joins the current field. */
  lemma ScanOrdinary(c: char, s: string, st: Scanner)
    requires c != '"' && (c != ',' || st.inQuotes)
    ensures Scan([c] + s, st) == Scan(s, st.(current := st.current + [c]))
  {
    assert ([c] + s)[1..] == s;
  }

  /** An escaped cell, followed by the end of the row or a comma, reads back as its text. */
  lemma EscapedCellScan(cell: Option<string>, rest: string, fs: seq<string>)
    requires rest == [] || rest[0] == ','
    ensures Scan(EscapeForCsv(cell) + rest, Scanner(fs, [], false)) == Scan(rest, Scanner(fs, CellText(cell), false))
  {
    if cell.None? || cell.value == [] {
      EscapeForCsvFacts(cell);
      assert EscapeForCsv(cell) + rest == rest;
    } else if !HasSpecial(cell.value) {
      PlainCellScan(cell.value, rest, fs);
    } else {
      QuotedCellScan(cell.value, rest, fs);
    }
  }

  lemma PlainCellScan(v: string, rest: string, fs: seq<string>)
    requires v != [] && !HasSpecial(v)
    ensures Scan(EscapeForCsv(Some(v)) + rest, Scanner(fs, [], false)) == Scan(rest, Scanner(fs, v, false))
  {
    EscapeForCsvFacts(Some(v));
    ScanPlain(v, rest, fs, []);
    assert [] + v == v;
  }

  lemma QuotedCellScan(v: string, rest: string, fs: seq<string>)
    requires HasSpecial(v) && (rest == [] || rest[0] == ',')
    ensures Scan(EscapeForCsv(Some(v)) + rest, Scanner(fs, [], false)) == Scan(rest, Scanner(fs, v, false))
  {
    var e := EscapeForCsv(Some(v));
    var body := DoubleQuotes(v);
    EscapeForCsvFacts(Some(v));
    assert e == "\"" + body + "\"";
    assert e + rest == "\"" + (body + "\"" + rest);
    ScanOpeningQuote(body + "\"" + rest, Scanner(fs, [], false));
    ScanQuotedBody(v, rest, fs, []);
    assert [] + v == v;
  }

  lemma {:induction false} ScanJoined(cells: seq<Option<string>>, fs: seq<string>)
    requires |cells| >= 1
    ensures var texts := CellTexts(cells);
            Scan(JoinFields(EscapeAll(cells)), Scanner(fs, [], false))
              == Scanner(fs + texts[..|texts| - 1], texts[|texts| - 1], false)
    decreases |cells|
  {
    var texts := CellTexts(cells);
    var escaped := EscapeAll(cells);
    if |cells| == 1 {
      assert escaped[0] + [] == escaped[0];
      EscapedCellScan(cells[0], [], fs);
      assert texts[..0] == [] && fs + [] == fs;
    } else {
      var tail := EscapeAll(cells[1..]);
      var rest := JoinFields(tail);
      var texts' := CellTexts(cells[1..]);
      assert JoinFields(escaped) == escaped[0] + ("," + rest) by {
        assert escaped[1..] == tail;
      }
      assert Scan(escaped[0] + ("," + rest), Scanner(fs, [], false))
                    == Scan(rest, Scanner(fs + [texts[0]], [], false)) by {
        EscapedCellScan(cells[0], "," + rest, fs);
        CommaStep(rest, fs, texts[0]);
      }
      assert Scan(rest, Scanner(fs + [texts[0]], [], false))
                     == Scanner(fs + [texts[0]] + texts'[..|texts'| - 1], texts'[|texts'| - 1], false) by {
        ScanJoined(cells[1..], fs + [texts[0]]);
      }
      assert Scanner(fs + [texts[0]] + texts'[..|texts'| - 1], texts'[|texts'| - 1], false)
                    == Scanner(fs + texts[..|texts| - 1], texts[|texts| - 1], false) by {
        assert texts' == texts[1..];
        ShiftField(fs, texts);
      }
    }
  }

  lemma CommaStep(rest: string, fs: seq<string>, cur: string)
    ensures Scan("," + rest, Scanner(fs, cur, false)) == Scan(rest, Scanner(fs + [cur], [], false))
  {
    assert ("," + rest)[1..] == rest;
  }

  /**
   * Export/import round trip of one row: splitting the comma-joined escaped
   * cells gives back every cell, a null cell as "".
   */
  lemma SplitJoinEscaped(cells: seq<Option<string>>)
    requires |cells| >= 1
    ensures Split(JoinFields(EscapeAll(cells))) == CellTexts(cells)
  {
    var line := JoinFields(EscapeAll(cells));
    var texts := CellTexts(cells);
    var noFields: seq<string> := [];
    ScanJoined(cells, noFields);
    assert Start == Scanner(noFields, [], false);
    var st := Scan(line, Start);
    assert st == Scanner(noFields + texts[..|texts| - 1], texts[|texts| - 1], false);
    assert Split(line) == st.fields + [st.current];
    Reassemble(texts);
  }

  /** One escaped cell, whatever its value, splits back into that value. */
  lemma SplitEscapedCell(v: string)
    ensures Split(EscapeForCsv(Some(v))) == [v]
  {
    SplitJoinEscaped([Some(v)]);
    assert EscapeAll([Some(v)]) == [EscapeForCsv(Some(v))];
    assert CellTexts([Some(v)]) == [v];
  }

  /** A row of fields without commas, quotes or line breaks splits back into those fields. */
  lemma SplitPlainRow(fields: seq<string>)
    requires |fields| >= 1
    requires forall i :: 0 <= i < |fields| ==> !HasSpecial(fields[i])
    ensures Split(JoinFields(fields)) == fields
  {
    var cells := Present(fields);
    EscapeAllPlain(fields);
    assert CellTexts(cells) == fields;
    SplitJoinEscaped(cells);
  }

  /** Every field present (non-null). */
  function Present(fields: seq<string>): (cells: seq<Option<string>>)
    ensures |cells| == |fields|
  {
    seq(|fields|, i requires 0 <= i < |fields| => Some(fields[i]))
  }

  lemma EscapeAllPlain(fields: seq<string>)
    requires forall i :: 0 <= i < |fields| ==> !HasSpecial(fields[i])
    ensures EscapeAll(Present(fields)) == fields
  {
    var cells := Present(fields);
    EscapeAllIndex(cells);
    forall i | 0 <= i < |fields| ensures EscapeAll(cells)[i] == fields[i] {
      EscapeForCsvFacts(cells[i]);
    }
  }

  lemma Reassemble(texts: seq<string>)
    requires |texts| >= 1
    ensures [] + texts[..|texts| - 1] + [texts[|texts| - 1]] == texts
  {
  }

  lemma ShiftField(fs: seq<string>, texts: seq<string>)
    requires |texts| >= 2
    ensures fs + [texts[0]] + texts[1..][..|texts| - 2] == fs + texts[..|texts| - 1]
  {
  }
}
