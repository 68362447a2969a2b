/**
 * Character and string primitives that the server (.NET) and the client
 * (JavaScript) code rely on: whitespace classes, trimming, ordinal case
 * folding, ordinal (code point) order and decimal digit strings.
 */
module Text {

  // ---------------------------------------------------------------------
  // Whitespace
  // ---------------------------------------------------------------------

  /** .NET `Char.IsWhiteSpace`: the characters with the Unicode White_Space property. */
  predicate IsWhiteSpace(c: char) {
    var n := c as int;
    (9 <= n <= 13) || n == 0x20 || n == 0x85 || n == 0xA0 || n == 0x1680
    || (0x2000 <= n <= 0x200A) || n == 0x2028 || n == 0x2029 || n == 0x202F
    || n == 0x205F || n == 0x3000
  }

  /** .NET `string.IsNullOrWhiteSpace` on a non-null string. */
  predicate IsBlank(s: string) {
    forall i :: 0 <= i < |s| ==> IsWhiteSpace(s[i])
  }

  /** .NET `string.TrimStart()`. */
  function TrimStart(s: string): string {
    if s == [] || !IsWhiteSpace(s[0]) then s else TrimStart(s[1..])
  }

  /** .NET `string.TrimEnd()`. */
  function TrimEnd(s: string): string {
    if s == [] || !IsWhiteSpace(s[|s| - 1]) then s else TrimEnd(s[..|s| - 1])
  }

  /** .NET `string.Trim()`: drops `IsWhiteSpace` characters at both ends. */
  function Trim(s: string): string {
    TrimEnd(TrimStart(s))
  }

  /** `t` occurs as a contiguous substring of `s` at position `k`. */
  predicate ContainsAt(s: string, t: string, k: int) {
    0 <= k && k + |t| <= |s| && s[k..k + |t|] == t
  }

  /** No whitespace at either end. */
  predicate Trimmed(s: string) {
    s == [] || (!IsWhiteSpace(s[0]) && !IsWhiteSpace(s[|s| - 1]))
  }

  /** `TrimStart` drops a blank prefix and stops at a non-whitespace character. */
  lemma {:induction false} TrimStartFacts(s: string)
    ensures var r := TrimStart(s);
            && |r| <= |s| && r == s[|s| - |r|..]
            && (r == [] || !IsWhiteSpace(r[0]))
            && IsBlank(s[..|s| - |r|])
  {
    if s != [] && IsWhiteSpace(s[0]) {
      TrimStartFacts(s[1..]);
      var r := TrimStart(s[1..]);
      var tailBlank := s[1..][..|s| - 1 - |r|];
      var blank := s[..|s| - |r|];
      assert blank == [s[0]] + tailBlank;
      forall i | 0 <= i < |blank| ensures IsWhiteSpace(blank[i]) {
        if i > 0 { assert blank[i] == tailBlank[i - 1]; }
      }
    }
  }

  /** `TrimEnd` drops a blank suffix and stops at a non-whitespace character. */
  lemma {:induction false} TrimEndFacts(s: string)
    ensures var r := TrimEnd(s);
            && |r| <= |s| && r == s[..|r|]
            && (r == [] || !IsWhiteSpace(r[|r| - 1]))
            && IsBlank(s[|r|..])
  {
    if s != [] && IsWhiteSpace(s[|s| - 1]) {
      TrimEndFacts(s[..|s| - 1]);
      var r := TrimEnd(s[..|s| - 1]);
      var headBlank := s[..|s| - 1][|r|..];
      var blank := s[|r|..];
      assert blank == headBlank + [s[|s| - 1]];
      forall i | 0 <= i < |blank| ensures IsWhiteSpace(blank[i]) {
        if i < |headBlank| { assert blank[i] == headBlank[i]; }
      }
    }
  }

  /**
   * `Trim` returns a substring of its input with no whitespace at either
   * end, and is empty exactly when the input is blank.
   */
  lemma TrimFacts(s: string)
    ensures exists k :: ContainsAt(s, Trim(s), k)
    ensures Trimmed(Trim(s))
    ensures Trim(s) == [] <==> IsBlank(s)
  {
    var t := TrimStart(s);
    var r := TrimEnd(t);
    TrimStartFacts(s);
    TrimEndFacts(t);
    assert Trim(s) == r;
    assert ContainsAt(s, r, |s| - |t|);
    TrimEmptyIsBlank(s, t, r);
  }

  lemma TrimEmptyIsBlank(s: string, t: string, r: string)
    requires |t| <= |s| && t == s[|s| - |t|..] && IsBlank(s[..|s| - |t|])
    requires |r| <= |t| && r == t[..|r|] && IsBlank(t[|r|..])
    ensures r == [] ==> IsBlank(s)
  {
    if r == [] {
      forall i | 0 <= i < |s| ensures IsWhiteSpace(s[i]) {
        if i >= |s| - |t| {
          assert s[i] == t[i - (|s| - |t|)];
          assert t[|r|..][i - (|s| - |t|)] == t[i - (|s| - |t|)];
        } else {
          assert s[..|s| - |t|][i] == s[i];
        }
      }
    }
  }

  /** A string with no whitespace at either end is its own trim. */
  lemma TrimOfTrimmed(s: string)
    requires Trimmed(s)
    ensures Trim(s) == s
  {
  }

  // ---------------------------------------------------------------------
  // Ordinal case-insensitive comparison
  // ---------------------------------------------------------------------

  /**
   * Case folding used by `StringComparer.OrdinalIgnoreCase` and
   * `StringComparison.OrdinalIgnoreCase`, restricted to ASCII letters.
   */
  function FoldChar(c: char): char {
    if 'a' <= c <= 'z' then (c as int - 32) as char else c
  }

  function Fold(s: string): (r: string)
    ensures |r| == |s|
    ensures forall i :: 0 <= i < |s| ==> r[i] == FoldChar(s[i])
  {
    if s == [] then [] else [FoldChar(s[0])] + Fold(s[1..])
  }

  /** Two strings are equal under `OrdinalIgnoreCase`. */
  predicate EqualsIgnoreCase(a: string, b: string) {
    Fold(a) == Fold(b)
  }

  /** .NET `s.Contains(t, StringComparison.OrdinalIgnoreCase)`. */
  predicate ContainsIgnoreCase(s: string, t: string) {
    exists k :: 0 <= k <= |s| && ContainsAt(Fold(s), Fold(t), k)
  }

  /** A string contains each of its prefixes, ignoring case. */
  lemma ContainsPrefixIgnoreCase(s: string, t: string)
    requires |t| <= |s| && s[..|t|] == t
    ensures ContainsIgnoreCase(s, t)
  {
    var h, f := Fold(s), Fold(t);
    forall i | 0 <= i < |t| ensures h[i] == f[i] {
      assert s[i] == s[..|t|][i];
    }
    assert h[0..|t|] == f;
    assert ContainsAt(h, f, 0);
  }

  /** A string lacks `t`, ignoring case, when some character of `t` folds to one that `s` never does. */
  lemma NotContainsIgnoreCase(s: string, t: string, j: nat)
    requires j < |t|
    requires forall i :: 0 <= i < |s| ==> FoldChar(s[i]) != FoldChar(t[j])
    ensures !ContainsIgnoreCase(s, t)
  {
    var h, f := Fold(s), Fold(t);
    forall k | 0 <= k <= |s| ensures !ContainsAt(h, f, k) {
      if k + |f| <= |h| {
        assert h[k..k + |f|][j] == h[k + j] != f[j];
      }
    }
  }

  // ---------------------------------------------------------------------
  // Ordinal order (code point by code point, a proper prefix first)
  // ---------------------------------------------------------------------

  predicate OrdinalLe(a: string, b: string) {
    if a == [] then true
    else if b == [] then false
    else if a[0] != b[0] then a[0] < b[0]
    else OrdinalLe(a[1..], b[1..])
  }

  lemma {:induction false} OrdinalLeTotal(a: string, b: string)
    ensures OrdinalLe(a, b) || OrdinalLe(b, a)
  {
    if a != [] && b != [] && a[0] == b[0] {
      OrdinalLeTotal(a[1..], b[1..]);
    }
  }

  lemma {:induction false} OrdinalLeTransitive(a: string, b: string, c: string)
    requires OrdinalLe(a, b) && OrdinalLe(b, c)
    ensures OrdinalLe(a, c)
  {
    if a != [] && b != [] && c != [] && a[0] == b[0] && b[0] == c[0] {
      OrdinalLeTransitive(a[1..], b[1..], c[1..]);
    }
  }

  lemma {:induction false} OrdinalLeAntisymmetric(a: string, b: string)
    requires OrdinalLe(a, b) && OrdinalLe(b, a)
    ensures a == b
  {
    if a != [] && b != [] {
      OrdinalLeAntisymmetric(a[1..], b[1..]);
      assert a == [a[0]] + a[1..] && b == [b[0]] + b[1..];
    }
  }

  /** A common prefix does not change the ordinal order. */
  lemma {:induction false} OrdinalLeCommonPrefix(p: string, a: string, b: string)
    ensures OrdinalLe(p + a, p + b) == OrdinalLe(a, b)
  {
    if p != [] {
      assert (p + a)[0] == p[0] == (p + b)[0];
      assert (p + a)[1..] == p[1..] + a;
      assert (p + b)[1..] == p[1..] + b;
      OrdinalLeCommonPrefix(p[1..], a, b);
    } else {
      assert p + a == a && p + b == b;
    }
  }

  // ---------------------------------------------------------------------
  // Decimal digits
  // ---------------------------------------------------------------------

  /** An ASCII decimal digit (both .NET number parsing and JS `\d` use only these). */
  predicate IsDigit(c: char) {
    '0' <= c <= '9'
  }

  predicate AllDigits(s: string) {
    forall i :: 0 <= i < |s| ==> IsDigit(s[i])
  }

  function DigitValue(c: char): nat
    requires IsDigit(c)
  {
    c as int - '0' as int
  }

  function DigitChar(d: nat): (c: char)
    requires d < 10
    ensures IsDigit(c) && DigitValue(c) == d
  {
    ('0' as int + d) as char
  }

  function Pow10(k: nat): (r: nat)
    ensures r >= 1
  {
    if k == 0 then 1 else 10 * Pow10(k - 1)
  }

  lemma {:induction false} Pow10Monotonic(i: nat, j: nat)
    requires i <= j
    ensures Pow10(i) <= Pow10(j)
  {
    if i < j { Pow10Monotonic(i, j - 1); }
  }

  /** The number a string of decimal digits denotes (most significant first). */
  function DigitsValue(s: string): (v: nat)
    requires AllDigits(s)
    ensures v < Pow10(|s|)
  {
    if s == [] then 0 else 10 * DigitsValue(s[..|s| - 1]) + DigitValue(s[|s| - 1])
  }

  /** The longest run of decimal digits at the start of `s`. */
  function LeadingDigits(s: string): (r: string)
    ensures AllDigits(r) && |r| <= |s|
  {
    if s == [] || !IsDigit(s[0]) then []
    else [s[0]] + LeadingDigits(s[1..])
  }

  lemma {:induction false} LeadingDigitsOfDigits(s: string)
    requires AllDigits(s)
    ensures LeadingDigits(s) == s
  {
    if s != [] {
      LeadingDigitsOfDigits(s[1..]);
    }
  }

  /** The run is a prefix of `s`, and it is the longest: the next character, if any, is not a digit. */
  lemma {:induction false} LeadingDigitsFacts(s: string)
    ensures var r := LeadingDigits(s);
            r == s[..|r|] && (|r| < |s| ==> !IsDigit(s[|r|]))
  {
    if s != [] && IsDigit(s[0]) {
      LeadingDigitsFacts(s[1..]);
      var r := LeadingDigits(s[1..]);
      assert s[1..][..|r|] == s[1..|r| + 1];
    }
  }

  /** A digit run followed by a non-digit (or nothing) is exactly the leading run. */
  lemma {:induction false} LeadingDigitsAppend(d: string, rest: string)
    requires AllDigits(d) && (rest == [] || !IsDigit(rest[0]))
    ensures LeadingDigits(d + rest) == d
  {
    if d == [] {
      assert d + rest == rest;
    } else {
      assert (d + rest)[0] == d[0] && (d + rest)[1..] == d[1..] + rest;
      LeadingDigitsAppend(d[1..], rest);
    }
  }

  /** Peeling the most significant digit off a digit string. */
  lemma {:induction false} DigitsValueCons(s: string)
    requires AllDigits(s) && s != []
    ensures DigitsValue(s) == DigitValue(s[0]) * Pow10(|s| - 1) + DigitsValue(s[1..])
  {
    if |s| > 1 {
      var init, rest := s[..|s| - 1], s[1..];
      var d0, dl := DigitValue(s[0]), DigitValue(s[|s| - 1]);
      assert init[1..] == rest[..|rest| - 1];
      DigitsValueCons(init);
      calc {
        DigitsValue(s);
        10 * DigitsValue(init) + dl;
        10 * (d0 * Pow10(|s| - 2) + DigitsValue(init[1..])) + dl;
        { MulAssoc10(d0, Pow10(|s| - 2)); }
        d0 * Pow10(|s| - 1) + (10 * DigitsValue(rest[..|rest| - 1]) + dl);
        d0 * Pow10(|s| - 1) + DigitsValue(rest);
      }
    }
  }

  lemma MulAssoc10(d: nat, p: nat)
    ensures 10 * (d * p) == d * (10 * p)
  {
  }

  /** Leading zeros do not change the value. */
  lemma {:induction false} DigitsValueLeadingZeros(z: string, s: string)
    requires forall i :: 0 <= i < |z| ==> z[i] == '0'
    requires AllDigits(s)
    ensures AllDigits(z + s) && DigitsValue(z + s) == DigitsValue(s)
  {
    if z != [] {
      assert (z + s)[1..] == z[1..] + s;
      DigitsValueLeadingZeros(z[1..], s);
      assert AllDigits(z + s) by {
        forall i | 0 <= i < |z + s| ensures IsDigit((z + s)[i]) {
          if i >= |z| { assert (z + s)[i] == s[i - |z|]; }
        }
      }
      DigitsValueCons(z + s);
    } else {
      assert z + s == s;
    }
  }

  /**
   * For digit strings of one length, ordinal order is numeric order: the
   * reason a zero-padded fixed-width suffix can be compared as a string.
   */
  lemma {:induction false} OrdinalLeDigits(a: string, b: string)
    requires AllDigits(a) && AllDigits(b) && |a| == |b|
    ensures OrdinalLe(a, b) <==> DigitsValue(a) <= DigitsValue(b)
  {
    if a != [] {
      DigitsValueCons(a);
      DigitsValueCons(b);
      OrdinalLeDigits(a[1..], b[1..]);
      var p := Pow10(|a| - 1);
      var da, db := DigitValue(a[0]), DigitValue(b[0]);
      if da < db {
        LeadingDigitDominates(da, db, p, DigitsValue(a[1..]), DigitsValue(b[1..]));
      } else if db < da {
        LeadingDigitDominates(db, da, p, DigitsValue(b[1..]), DigitsValue(a[1..]));
      }
    }
  }

  lemma LeadingDigitDominates(d: nat, e: nat, p: nat, x: nat, y: nat)
    requires d < e && x < p
    ensures d * p + x < e * p + y
  {
    var k: nat := e - d - 1;
    assert e == d + 1 + k;
    assert e * p == d * p + p + k * p;
  }

  /** The shortest decimal representation of `n` (.NET `ToString()`). */
  function Decimal(n: nat): (s: string)
    ensures AllDigits(s) && s != []
  {
    if n < 10 then [DigitChar(n)] else Decimal(n / 10) + [DigitChar(n % 10)]
  }

  /** `Decimal(n)` denotes `n` and has no superfluous leading digit. */
  lemma {:induction false} DecimalFacts(n: nat)
    ensures var s := Decimal(n);
            && DigitsValue(s) == n
            && n < Pow10(|s|) && (|s| == 1 || Pow10(|s| - 1) <= n)
  {
    if n >= 10 {
      var s := Decimal(n);
      DecimalFacts(n / 10);
      assert s[..|s| - 1] == Decimal(n / 10);
    }
  }

  /** `n` in decimal, zero-padded on the left to at least `width` digits. */
  function PadLeft(n: nat, width: nat): (s: string)
    ensures AllDigits(s)
    decreases width
  {
    if width <= |Decimal(n)| then Decimal(n) else "0" + PadLeft(n, width - 1)
  }

  /** `n` has at most k decimal digits exactly when it is below 10^k. */
  lemma DecimalLength(n: nat, k: nat)
    requires k >= 1
    ensures |Decimal(n)| <= k <==> n < Pow10(k)
  {
    DecimalFacts(n);
    var s := Decimal(n);
    if |s| <= k {
      Pow10Monotonic(|s|, k);
    } else {
      Pow10Monotonic(k, |s| - 1);
    }
  }

  /** A padded number denotes `n`; it is `width` long when `n` needs fewer digits, else `Decimal(n)`. */
  lemma {:induction false} PadLeftFacts(n: nat, width: nat)
    ensures DigitsValue(PadLeft(n, width)) == n
    ensures |Decimal(n)| < width ==> |PadLeft(n, width)| == width
    ensures width <= |Decimal(n)| ==> PadLeft(n, width) == Decimal(n)
    decreases width
  {
    if width > |Decimal(n)| {
      PadLeftFacts(n, width - 1);
      DigitsValueLeadingZeros("0", PadLeft(n, width - 1));
    } else {
      DecimalFacts(n);
    }
  }
}
