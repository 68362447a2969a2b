/**
 * The enrollment-number (NIM, Nomor Induk Mahasiswa) allocator of the
 * students API: a cohort prefix followed by a sequence number derived from
 * the greatest NIM the store already holds for that prefix.
 */
module NimAllocator {
  import opened Wrappers
  import opened Text

  // ---------------------------------------------------------------------
  // The cohort prefix and the store query
  // ---------------------------------------------------------------------

  /** Faculty, level (jenjang), program (prodi) and year (angkatan) codes, concatenated verbatim. */
  function Prefix(facultyCode: string, jenjangCode: string, prodiCode: string, angkatan: string): string {
    facultyCode + jenjangCode + prodiCode + angkatan
  }

  /**
   * The store's "last NIM with this prefix" query: among the stored NIMs
   * that start with `prefix`, the greatest in ordinal order, if any.
   */
  function LastNomorInduk(nims: seq<string>, prefix: string): (r: Option<string>)
    ensures r.None? <==> forall i :: 0 <= i < |nims| ==> !(prefix <= nims[i])
    ensures r.Some? ==> r.value in nims && prefix <= r.value
    ensures r.Some? ==> forall i :: 0 <= i < |nims| && prefix <= nims[i] ==> OrdinalLe(nims[i], r.value)
  {
    if nims == [] then None
    else
      var rest := LastNomorInduk(nims[1..], prefix);
      assert forall i :: 1 <= i < |nims| ==> nims[i] == nims[1..][i - 1];
      if !(prefix <= nims[0]) then rest
      else if rest.None? then
        OrdinalLeTotal(nims[0], nims[0]);
        Some(nims[0])
      else if OrdinalLe(nims[0], rest.value) then rest
      else
        MaxStep(nims, prefix, rest.value);
        Some(nims[0])
  }

  /** If the head beats the maximum of the tail, it beats every prefixed element. */
  lemma MaxStep(nims: seq<string>, prefix: string, m: string)
    requires nims != [] && !OrdinalLe(nims[0], m)
    requires forall i :: 1 <= i < |nims| && prefix <= nims[i] ==> OrdinalLe(nims[i], m)
    ensures forall i :: 0 <= i < |nims| && prefix <= nims[i] ==> OrdinalLe(nims[i], nims[0])
  {
    OrdinalLeTotal(nims[0], m);
    forall i | 0 <= i < |nims| && prefix <= nims[i] ensures OrdinalLe(nims[i], nims[0]) {
      if i == 0 {
        OrdinalLeTotal(nims[0], nims[0]);
      } else {
        OrdinalLeTransitive(nims[i], m, nims[0]);
      }
    }
  }

  // ---------------------------------------------------------------------
  // int.TryParse (NumberStyles.Integer, invariant signs)
  // ---------------------------------------------------------------------

  /** The whitespace that .NET number parsing skips: U+0009..U+000D and U+0020. */
  predicate IsNumberWhiteSpace(c: char) {
    9 <= c as int <= 13 || c == ' '
  }

  function SkipNumberWhiteSpace(s: string): string {
    if s == [] || !IsNumberWhiteSpace(s[0]) then s else SkipNumberWhiteSpace(s[1..])
  }

  /** `SkipNumberWhiteSpace` drops a prefix of number whitespace and stops at anything else. */
  lemma {:induction false} SkipNumberWhiteSpaceFacts(s: string)
    ensures var r := SkipNumberWhiteSpace(s);
            && |r| <= |s| && r == s[|s| - |r|..]
            && (r == [] || !IsNumberWhiteSpace(r[0]))
            && (forall i :: 0 <= i < |s| - |r| ==> IsNumberWhiteSpace(s[i]))
  {
    if s != [] && IsNumberWhiteSpace(s[0]) {
      SkipNumberWhiteSpaceFacts(s[1..]);
      var r := SkipNumberWhiteSpace(s[1..]);
      assert forall i :: 1 <= i < |s| - |r| ==> s[i] == s[1..][i - 1];
    }
  }

  predicate AllNul(s: string) {
    forall i :: 0 <= i < |s| ==> s[i] == '\0'
  }

  const Int32Min: int := -0x8000_0000
  const Int32Max: int := 0x7FFF_FFFF

  /**
   * .NET `int.TryParse(s, out n)`: optional leading whitespace, an optional
   * sign, at least one digit, optional trailing whitespace and trailing NUL
   * characters; the value must fit in 32 bits.
   */
  function TryParseInt32(s: string): (r: Option<int>)
    ensures r.Some? ==> Int32Min <= r.value <= Int32Max
  {
    ParseSigned(SkipNumberWhiteSpace(s))
  }

  /** What follows the leading whitespace: an optional sign, then the magnitude. */
  function ParseSigned(t: string): Option<int> {
    if t != [] && t[0] == '-' then ParseMagnitude(t[1..], true)
    else if t != [] && t[0] == '+' then ParseMagnitude(t[1..], false)
    else ParseMagnitude(t, false)
  }

  /** At least one digit, then only whitespace and NULs; the signed value must fit in 32 bits. */
  function ParseMagnitude(u: string, negative: bool): (r: Option<int>)
    ensures r.Some? ==> Int32Min <= r.value <= Int32Max
  {
    var digits := LeadingDigits(u);
    var rest := SkipNumberWhiteSpace(u[|digits|..]);
    if digits == [] || !AllNul(rest) then None
    else
      var v: int := if negative then -(DigitsValue(digits) as int) else DigitsValue(digits);
      if Int32Min <= v <= Int32Max then Some(v) else None
  }

  /** A whole run of digits is an unsigned magnitude: its value, when that fits. */
  lemma UnsignedMagnitude(s: string)
    requires AllDigits(s) && s != [] && DigitsValue(s) <= Int32Max
    ensures ParseMagnitude(s, false) == Some(DigitsValue(s))
  {
    LeadingDigitsOfDigits(s);
    NothingAfterDigits(s);
  }

  /** After a '-', a whole run of digits is the negated value, when that fits. */
  lemma NegatedMagnitude(s: string)
    requires AllDigits(s) && s != [] && DigitsValue(s) <= -Int32Min
    ensures ParseMagnitude(s, true) == Some(-(DigitsValue(s) as int))
  {
    LeadingDigitsOfDigits(s);
    NothingAfterDigits(s);
  }

  lemma NothingAfterDigits(s: string)
    ensures SkipNumberWhiteSpace(s[|s|..]) == [] && AllNul(SkipNumberWhiteSpace(s[|s|..]))
  {
    assert s[|s|..] == [];
  }

  // ---------------------------------------------------------------------
  // ToString("D4")
  // ---------------------------------------------------------------------

  /**
   * .NET `n.ToString("D4")`: the decimal digits of |n| zero-padded to a
   * MINIMUM width of four, with a leading '-' when n is negative.
   */
  function FormatD4(n: int): string {
    if n < 0 then "-" + PadLeft(-n, 4) else PadLeft(n, 4)
  }

  /**
   * The D4 digits of m: a digit string denoting m, exactly four long up to
   * 9999, otherwise the shortest representation (no leading zero).
   */
  predicate D4Digits(d: string, m: nat) {
    && AllDigits(d) && DigitsValue(d) == m
    && |d| >= 4 && (|d| == 4 <==> m <= 9999)
    && (|d| > 4 ==> d[0] != '0')
  }

  /** The D4 text is a '-' exactly for negative numbers, then the D4 digits of |n|. */
  lemma FormatD4Facts(n: int)
    ensures n >= 0 ==> D4Digits(FormatD4(n), n)
    ensures n < 0 ==> FormatD4(n)[0] == '-' && D4Digits(FormatD4(n)[1..], -n)
  {
    if n < 0 {
      var m: nat := -n;
      var d := PadLeft(m, 4);
      assert FormatD4(n) == "-" + d;
      PadD4Facts(m);
      assert FormatD4(n)[1..] == d;
    } else {
      PadD4Facts(n);
    }
  }

  /** Zero-padding to four digits gives the D4 digits. */
  lemma PadD4Facts(m: nat)
    ensures D4Digits(PadLeft(m, 4), m)
  {
    var d, s := PadLeft(m, 4), Decimal(m);
    PadLeftFacts(m, 4);
    DecimalLength(m, 4);
    assert Pow10(4) == 10000;
    if m <= 9999 {
      assert |d| == 4;
    } else {
      assert d == s;
      DecimalFacts(m);
      NoLeadingZero(s, m);
    }
  }

  /** A digit string denoting at least 10^(length - 1) does not start with '0'. */
  lemma NoLeadingZero(d: string, m: nat)
    requires AllDigits(d) && d != [] && DigitsValue(d) == m && Pow10(|d| - 1) <= m
    ensures d[0] != '0'
  {
    DigitsValueCons(d);
  }

  /** The D4 texts the allocator's edge cases turn on: the first number, */
  lemma FormatD4One()
    ensures FormatD4(1) == "0001"
  {
    assert Decimal(1) == "1";
    assert PadLeft(1, 1) == "1";
    assert PadLeft(1, 2) == "01";
    assert PadLeft(1, 3) == "001";
  }

  /** the last four-digit number and the first five-digit one. */
  lemma FormatD4Widening()
    ensures FormatD4(9999) == "9999" && FormatD4(10000) == "10000"
  {
    DecimalOf9999();
    DecimalOf10000();
  }

  lemma DecimalOf9999()
    ensures Decimal(9999) == "9999"
  {
    assert Decimal(9) == "9";
    assert Decimal(99) == "99";
    assert Decimal(999) == "999";
  }

  lemma DecimalOf10000()
    ensures Decimal(10000) == "10000"
  {
    assert Decimal(1) == "1";
    assert Decimal(10) == "10";
    assert Decimal(100) == "100";
    assert Decimal(1000) == "1000";
  }

  /** Formatting then parsing gives back every 32-bit sequence number. */
  lemma ParseFormatD4(n: int)
    requires Int32Min <= n <= Int32Max
    ensures TryParseInt32(FormatD4(n)) == Some(n)
  {
    var s := FormatD4(n);
    FormatD4Facts(n);
    if n < 0 {
      assert s == "-" + s[1..];
      ParseNegative(s[1..]);
    } else {
      ParseUnsigned(s);
    }
  }

  /** Without a single digit the parse fails (the allocator then restarts at 1). */
  lemma ParseNeedsDigit(s: string)
    requires forall i :: 0 <= i < |s| ==> !IsDigit(s[i])
    ensures TryParseInt32(s).None?
  {
    var t := SkipNumberWhiteSpace(s);
    SkipNumberWhiteSpaceFacts(s);
    var u := if t != [] && (t[0] == '-' || t[0] == '+') then t[1..] else t;
    assert u == s[|s| - |u|..];
    assert u != [] ==> u[0] == s[|s| - |u|];
    assert LeadingDigits(u) == [];
  }

  /** A plain run of digits parses to its value. */
  lemma ParseUnsigned(s: string)
    requires AllDigits(s) && s != [] && DigitsValue(s) <= Int32Max
    ensures TryParseInt32(s) == Some(DigitsValue(s))
  {
    assert SkipNumberWhiteSpace(s) == s;
    UnsignedMagnitude(s);
  }

  /** A '-' followed by a run of digits parses to the negated value. */
  lemma ParseNegative(s: string)
    requires AllDigits(s) && s != [] && DigitsValue(s) <= -Int32Min
    ensures TryParseInt32("-" + s) == Some(-(DigitsValue(s) as int))
  {
    var t := "-" + s;
    assert SkipNumberWhiteSpace(t) == t;
    assert t[1..] == s;
    NegatedMagnitude(s);
  }

  // ---------------------------------------------------------------------
  // The allocator
  // ---------------------------------------------------------------------

  /** The sequence number that follows the store's last NIM for the prefix. */
  function NextSequence(lastId: Option<string>): int {
    if lastId.None? || |lastId.value| < 9 then 1
    else
      var lastSeq := TryParseInt32(lastId.value[|lastId.value| - 4..]);
      if lastSeq.Some? then lastSeq.value + 1 else 1
  }

  /** The NIM that `Create` assigns to a new student of the cohort `prefix`. */
  function AllocateNim(prefix: string, nims: seq<string>): (nim: string)
    ensures prefix <= nim && |nim| >= |prefix| + 4
  {
    var s := FormatD4(NextSequence(LastNomorInduk(nims, prefix)));
    FormatD4Facts(NextSequence(LastNomorInduk(nims, prefix)));
    assert |s| >= 4 by {
      if s[0] == '-' { assert |s[1..]| >= 4; }
    }
    prefix + s
  }

  /** With no usable last NIM for the prefix, numbering starts at 0001. */
  lemma AllocateStartsAtOne(prefix: string, nims: seq<string>)
    requires var last := LastNomorInduk(nims, prefix);
             || last.None?
             || |last.value| < 9
             || TryParseInt32(last.value[|last.value| - 4..]).None?
    ensures AllocateNim(prefix, nims) == prefix + "0001"
  {
    assert NextSequence(LastNomorInduk(nims, prefix)) == 1;
    AllocateFromSequence(prefix, nims, 1);
    FormatD4One();
  }

  /**
   * With a last NIM of length at least 9 whose last four characters are the
   * digits of n, the new NIM is the prefix followed by n + 1, padded to at
   * least four digits; 9999 widens the suffix to five digits.
   */
  lemma AllocateIncrements(prefix: string, nims: seq<string>, last: string)
    requires LastNomorInduk(nims, prefix) == Some(last)
    requires |last| >= 9 && AllDigits(last[|last| - 4..])
    ensures AllocateNim(prefix, nims) == prefix + FormatD4(DigitsValue(last[|last| - 4..]) + 1)
    ensures |AllocateNim(prefix, nims)| == |prefix| + (if DigitsValue(last[|last| - 4..]) == 9999 then 5 else 4)
  {
    var n := DigitsValue(last[|last| - 4..]);
    NextSequenceOfDigits(last);
    AllocateFromSequence(prefix, nims, n + 1);
    FormatD4Width(n + 1);
  }

  /**
   * Any last NIM of length at least 9 whose last four characters parse as
   * n (" 123", "+123", "-001" as well as four digits) gives prefix + D4(n + 1).
   */
  lemma AllocateParsed(prefix: string, nims: seq<string>, last: string, n: int)
    requires LastNomorInduk(nims, prefix) == Some(last)
    requires |last| >= 9 && TryParseInt32(last[|last| - 4..]) == Some(n)
    ensures AllocateNim(prefix, nims) == prefix + FormatD4(n + 1)
  {
    AllocateFromSequence(prefix, nims, n + 1);
  }

  lemma AllocateFromSequence(prefix: string, nims: seq<string>, k: int)
    requires NextSequence(LastNomorInduk(nims, prefix)) == k
    ensures AllocateNim(prefix, nims) == prefix + FormatD4(k)
  {
  }

  lemma NextSequenceOfDigits(last: string)
    requires |last| >= 9 && AllDigits(last[|last| - 4..])
    ensures NextSequence(Some(last)) == DigitsValue(last[|last| - 4..]) + 1
  {
    var suffix := last[|last| - 4..];
    assert DigitsValue(suffix) < 10000 by {
      assert Pow10(4) == 10000;
    }
    ParseUnsigned(suffix);
    assert TryParseInt32(suffix) == Some(DigitsValue(suffix));
  }

  lemma FormatD4Width(m: nat)
    requires m <= 10000
    ensures |FormatD4(m)| == if m == 10000 then 5 else 4
  {
    FormatD4Facts(m);
    if m == 10000 {
      FormatD4Widening();
    }
  }

  /** The NIM of sequence number `k` in the cohort `prefix`. */
  function Numbered(prefix: string, k: nat): string {
    prefix + FormatD4(k)
  }

  /** Within one cohort, ordinal order of four-digit NIMs is numeric order. */
  lemma NumberedOrder(prefix: string, i: nat, j: nat)
    requires i <= 9999 && j <= 9999
    ensures OrdinalLe(Numbered(prefix, i), Numbered(prefix, j)) <==> i <= j
  {
    FormatD4Facts(i);
    FormatD4Facts(j);
    OrdinalLeCommonPrefix(prefix, FormatD4(i), FormatD4(j));
    OrdinalLeDigits(FormatD4(i), FormatD4(j));
  }

  /**
   * Sequential allocation: when the cohort's NIMs in the store are exactly
   * sequence numbers 1..k (some of them possibly missing, but k present),
   * and the prefix has the five characters the length-9 guard expects, the
   * next NIM is number k + 1.
   */
  lemma SequentialAllocation(prefix: string, nims: seq<string>, k: nat)
    requires |prefix| >= 5 && 1 <= k <= 9999
    requires Numbered(prefix, k) in nims
    requires forall m :: m in nims && prefix <= m ==> exists i :: 1 <= i <= k && m == Numbered(prefix, i)
    ensures AllocateNim(prefix, nims) == Numbered(prefix, k + 1)
  {
    TopOfCohort(prefix, nims, k, k);
    var m := Numbered(prefix, k);
    NumberedSuffix(prefix, k);
    AllocateIncrements(prefix, nims, m);
    assert AllocateNim(prefix, nims) == prefix + FormatD4(k + 1);
  }

  /** The store's NIMs after `k` successive `Create` calls in cohort `prefix`, each persisted before the next. */
  function Allocations(prefix: string, nims: seq<string>, k: nat): (after: seq<string>)
    ensures |after| == |nims| + k
  {
    if k == 0 then nims
    else
      var before := Allocations(prefix, nims, k - 1);
      before + [AllocateNim(prefix, before)]
  }

  /** Numbers 1..k of cohort `prefix`, in order. */
  function Cohort(prefix: string, k: nat): (run: seq<string>)
    ensures |run| == k
  {
    seq(k, i requires 0 <= i < k => Numbered(prefix, i + 1))
  }

  /**
   * Successive allocations in a cohort that starts empty hand out numbers
   * 0001, 0002, ..., k in order (for a prefix of the five characters the
   * length-9 guard expects, and up to 9999 allocations).
   */
  lemma {:induction false} SequentialRun(prefix: string, nims: seq<string>, k: nat)
    requires |prefix| >= 5 && k <= 9999
    requires forall i :: 0 <= i < |nims| ==> !(prefix <= nims[i])
    ensures Allocations(prefix, nims, k) == nims + Cohort(prefix, k)
  {
    if k > 0 {
      SequentialRun(prefix, nims, k - 1);
      NextInCohort(prefix, nims, k - 1);
      CohortSnoc(prefix, k);
      SnocAssociates(nims, Cohort(prefix, k - 1), Numbered(prefix, k));
    }
  }

  lemma SnocAssociates(a: seq<string>, b: seq<string>, x: string)
    ensures a + b + [x] == a + (b + [x])
  {
  }

  lemma CohortSnoc(prefix: string, k: nat)
    requires k >= 1
    ensures Cohort(prefix, k - 1) + [Numbered(prefix, k)] == Cohort(prefix, k)
  {
  }

  /** After numbers 1..k, the cohort's next number is k + 1. */
  lemma NextInCohort(prefix: string, nims: seq<string>, k: nat)
    requires |prefix| >= 5 && k < 9999
    requires forall i :: 0 <= i < |nims| ==> !(prefix <= nims[i])
    ensures AllocateNim(prefix, nims + Cohort(prefix, k)) == Numbered(prefix, k + 1)
  {
    var before := nims + Cohort(prefix, k);
    if k == 0 {
      assert before == nims;
      AllocateStartsAtOne(prefix, before);
      FormatD4One();
    } else {
      assert before[|nims| + k - 1] == Numbered(prefix, k);
      CohortMembers(prefix, nims, k);
      SequentialAllocation(prefix, before, k);
    }
  }

  /** In a store of foreign NIMs plus numbers 1..k, the cohort's NIMs are exactly numbers 1..k. */
  lemma CohortMembers(prefix: string, nims: seq<string>, k: nat)
    requires forall i :: 0 <= i < |nims| ==> !(prefix <= nims[i])
    ensures forall m :: m in nims + Cohort(prefix, k) && prefix <= m ==> exists i :: 1 <= i <= k && m == Numbered(prefix, i)
  {
    var run := Cohort(prefix, k);
    var before := nims + run;
    forall m | m in before && prefix <= m ensures exists i :: 1 <= i <= k && m == Numbered(prefix, i) {
      var j :| 0 <= j < |before| && before[j] == m;
      assert j >= |nims| by {
        assert forall q :: 0 <= q < |nims| ==> before[q] == nims[q];
      }
      var t := j - |nims|;
      assert before[j] == run[t];
      CohortAt(prefix, k, t);
      assert 1 <= t + 1 <= k && m == Numbered(prefix, t + 1);
    }
  }

  lemma CohortAt(prefix: string, k: nat, t: nat)
    requires t < k
    ensures Cohort(prefix, k)[t] == Numbered(prefix, t + 1)
  {
  }

  /**
   * Number k, at most 9999, is the ordinal maximum of the cohort when the
   * cohort's NIMs are numbers 1..k, or numbers 1..10000 with k = 9999
   * (number 10000, five digits wide, sorts below 9999).
   */
  lemma TopOfCohort(prefix: string, nims: seq<string>, k: nat, bound: nat)
    requires 1 <= k <= 9999 && k <= bound
    requires Numbered(prefix, k) in nims
    requires forall m :: m in nims && prefix <= m ==> exists i :: 1 <= i <= bound && m == Numbered(prefix, i)
    requires bound == k || (bound == 10000 && k == 9999)
    ensures LastNomorInduk(nims, prefix) == Some(Numbered(prefix, k))
  {
    var last := LastNomorInduk(nims, prefix);
    assert prefix <= Numbered(prefix, k);
    assert last.Some?;
    var m := last.value;
    var i :| 1 <= i <= bound && m == Numbered(prefix, i);
    assert OrdinalLe(Numbered(prefix, k), m);
    if bound == 10000 {
      WidenedSortsBelow(prefix);
      assert i != 10000;
    }
    NumberedOrder(prefix, k, i);
    assert i == k;
  }

  lemma NumberedSuffix(prefix: string, k: nat)
    requires k <= 9999
    ensures var m := Numbered(prefix, k);
            && |m| == |prefix| + 4 && m[|m| - 4..] == FormatD4(k)
            && AllDigits(m[|m| - 4..]) && DigitsValue(m[|m| - 4..]) == k
  {
    var m := Numbered(prefix, k);
    FormatD4Facts(k);
    assert m[|prefix|..] == FormatD4(k);
  }

  /**
   * Overflow: once number 10000 exists next to 9999, "prefix10000" sorts
   * below "prefix9999", so the allocator hands out "prefix10000" again.
   */
  lemma AllocateRepeatsAfterOverflow(prefix: string, nims: seq<string>)
    requires |prefix| >= 5
    requires Numbered(prefix, 9999) in nims && Numbered(prefix, 10000) in nims
    requires forall m :: m in nims && prefix <= m ==> exists i :: 1 <= i <= 10000 && m == Numbered(prefix, i)
    ensures AllocateNim(prefix, nims) == Numbered(prefix, 10000)
    ensures AllocateNim(prefix, nims) in nims
  {
    TopOfCohort(prefix, nims, 9999, 10000);
    var m := Numbered(prefix, 9999);
    NumberedSuffix(prefix, 9999);
    AllocateIncrements(prefix, nims, m);
  }

  /** "prefix10000" is ordinally below "prefix9999". */
  lemma WidenedSortsBelow(prefix: string)
    ensures !OrdinalLe(Numbered(prefix, 9999), Numbered(prefix, 10000))
  {
    FormatD4Widening();
    OrdinalLeCommonPrefix(prefix, FormatD4(9999), FormatD4(10000));
  }

  /**
   * A prefix shorter than five characters makes every allocated NIM shorter
   * than 9, so the guard never accepts a last NIM and the allocator keeps
   * returning "prefix0001", which the store already holds.
   */
  lemma ShortPrefixRepeats(prefix: string, nims: seq<string>)
    requires |prefix| <= 4
    requires Numbered(prefix, 1) in nims
    requires forall m :: m in nims && prefix <= m ==> |m| < 9
    ensures AllocateNim(prefix, nims) == Numbered(prefix, 1)
    ensures AllocateNim(prefix, nims) in nims
  {
    AllocateStartsAtOne(prefix, nims);
    FormatD4One();
  }
}
