/**
 * The persisted student record and the calendar date it carries.
 */
module Entities {
  import opened Wrappers
  import opened Text

  /** The ranges of a .NET `DateTime`'s date fields. */
  type Year = y: nat | 1 <= y <= 9999 witness 1
  type Month = m: nat | 1 <= m <= 12 witness 1
  type Day = d: nat | 1 <= d <= 31 witness 1

  /** A calendar date (the date part of a .NET `DateTime`). */
  datatype Date = Date(year: Year, month: Month, day: Day)

  /**
   * A student: an opaque id, the enrollment number (NIM), a required first
   * name, an optional last name and a date of birth.
   */
  datatype Student = Student(
    id: string,
    nim: string,
    firstName: string,
    lastName: Option<string>,
    dateOfBirth: Date)

  /**
   * `DateTime.ToString("yyyy-MM-dd", InvariantCulture)`: the year in four
   * digits, month and day in two, joined by '-'.
   */
  function RenderDate(d: Date): string {
    FixedDigits(d.year, 4) + "-" + FixedDigits(d.month, 2) + "-" + FixedDigits(d.day, 2)
  }

  /** The last `width` decimal digits of `n`, zero-padded on the left. */
  function FixedDigits(n: nat, width: nat): (s: string)
    ensures |s| == width
  {
    if width == 0 then [] else FixedDigits(n / 10, width - 1) + [DigitChar(n % 10)]
  }

  /** A number below 10^width reads back from its `width` digits. */
  lemma {:induction false} FixedDigitsValue(n: nat, width: nat)
    requires n < Pow10(width)
    ensures AllDigits(FixedDigits(n, width)) && DigitsValue(FixedDigits(n, width)) == n
  {
    if width > 0 {
      var s := FixedDigits(n, width);
      FixedDigitsValue(n / 10, width - 1);
      assert s[..width - 1] == FixedDigits(n / 10, width - 1);
    }
  }

  /**
   * A rendered date is ten characters: four digits that read back as the
   * year, a dash, two digits for the month, a dash, two for the day.
   */
  lemma RenderDateFields(d: Date)
    ensures var r := RenderDate(d);
            && |r| == 10 && r[4] == '-' && r[7] == '-'
            && AllDigits(r[..4]) && DigitsValue(r[..4]) == d.year
            && AllDigits(r[5..7]) && DigitsValue(r[5..7]) == d.month
            && AllDigits(r[8..]) && DigitsValue(r[8..]) == d.day
  {
    var y, m, dd := FixedDigits(d.year, 4), FixedDigits(d.month, 2), FixedDigits(d.day, 2);
    var r := RenderDate(d);
    FixedDigitsValue(d.year, 4);
    FixedDigitsValue(d.month, 2);
    FixedDigitsValue(d.day, 2);
    assert r == y + "-" + m + "-" + dd;
    assert r[..4] == y && r[5..7] == m && r[8..] == dd;
  }
}
