/**
 * Calendar months as the page handles them: a month-resolution date, its
 * "YYYY-MM" rendering, the parse of that rendering back into the first day
 * of the month, and a calendar offset of n months on a first-of-month date.
 */
module Calendar {
  import opened Wrappers

  datatype YearMonth = YearMonth(year: int, month: int)

  /** A month the timestamp type can hold with a four-digit year. */
  predicate Representable(d: YearMonth) {
    1000 <= d.year <= 9999 && 1 <= d.month <= 12
  }

  /** Months counted from January of year 0. */
  function MonthIndex(d: YearMonth): int {
    d.year * 12 + (d.month - 1)
  }

  function FromMonthIndex(i: int): (d: YearMonth)
    ensures 1 <= d.month <= 12
    ensures MonthIndex(d) == i
  {
    YearMonth(i / 12, i % 12 + 1)
  }

  lemma MonthIndexRoundTrip(d: YearMonth)
    requires 1 <= d.month <= 12
    ensures FromMonthIndex(MonthIndex(d)) == d
  {
  }

  /** The month n calendar months before d (the year borrows when the month runs out). */
  function SubMonths(d: YearMonth, n: int): (r: YearMonth)
    requires 1 <= d.month <= 12
    ensures 1 <= r.month <= 12
    ensures MonthIndex(r) == MonthIndex(d) - n
  {
    FromMonthIndex(MonthIndex(d) - n)
  }

  /** Twelve months back is the same calendar month of the previous year. */
  lemma SubTwelveIsPreviousYear(d: YearMonth)
    requires 1 <= d.month <= 12
    ensures SubMonths(d, 12) == YearMonth(d.year - 1, d.month)
  {
  }

  // ---------------------------------------------------------------------
  // "YYYY-MM" strings

  function DigitChar(n: int): char
    requires 0 <= n < 10
  {
    (48 + n) as char
  }

  predicate IsDigit(c: char) {
    '0' <= c <= '9'
  }

  function DigitValue(c: char): int
    requires IsDigit(c)
  {
    c as int - 48
  }

  /** Zero-padded decimal rendering of a number below 10^width. */
  function Padded(n: nat, width: nat): (s: string)
    ensures |s| == width
    ensures forall i :: 0 <= i < |s| ==> IsDigit(s[i])
    decreases width
  {
    if width == 0 then [] else Padded(n / 10, width - 1) + [DigitChar(n % 10)]
  }

  function DigitsValue(s: string): (v: nat)
    requires forall i :: 0 <= i < |s| ==> IsDigit(s[i])
  {
    if s == [] then 0 else DigitsValue(s[..|s| - 1]) * 10 + DigitValue(s[|s| - 1])
  }

  function Pow10(k: nat): (p: nat)
    ensures p >= 1
  {
    if k == 0 then 1 else 10 * Pow10(k - 1)
  }

  /** Reading back a zero-padded rendering gives the number. */
  lemma {:induction false} PaddedRoundTrip(n: nat, width: nat)
    requires n < Pow10(width)
    ensures DigitsValue(Padded(n, width)) == n
  {
    if width > 0 {
      var s := Padded(n, width);
      assert s[..|s| - 1] == Padded(n / 10, width - 1);
      PaddedRoundTrip(n / 10, width - 1);
    }
  }

  /** Rendering the value of a digit string gives the string back. */
  lemma {:induction false} DigitsRoundTrip(s: string)
    requires forall i :: 0 <= i < |s| ==> IsDigit(s[i])
    ensures DigitsValue(s) < Pow10(|s|)
    ensures Padded(DigitsValue(s), |s|) == s
  {
    if s != [] {
      var init := s[..|s| - 1];
      DigitsRoundTrip(init);
      var v := DigitsValue(s);
      DivModUnique10(v, DigitsValue(init), DigitValue(s[|s| - 1]));
      assert init + [s[|s| - 1]] == s;
    }
  }

  lemma DivModUnique10(i: int, q: int, r: int)
    requires 0 <= r < 10 && i == q * 10 + r
    ensures i / 10 == q && i % 10 == r
  {
  }

  /** The four-digit year, a hyphen and the two-digit month of a representable month. */
  function Format(d: YearMonth): (s: string)
    requires Representable(d)
    ensures |s| == 7 && s[4] == '-'
  {
    Padded(d.year, 4) + "-" + Padded(d.month, 2)
  }

  /**
   * The month a "YYYY-MM" string names: None unless it is four digits, a
   * hyphen and two digits naming a year in 1000..9999 and a month in 1..12.
   */
  function ParseMonth(s: string): (r: Option<YearMonth>)
    ensures r.Some? ==> Representable(r.value)
  {
    if |s| == 7 && s[4] == '-'
       && (forall i :: 0 <= i < 4 ==> IsDigit(s[i]))
       && IsDigit(s[5]) && IsDigit(s[6])
    then
      var d := YearMonth(DigitsValue(s[..4]), DigitsValue(s[5..]));
      if Representable(d) then Some(d) else None
    else None
  }

  /** Parsing what Format printed recovers the month. */
  lemma FormatParse(d: YearMonth)
    requires Representable(d)
    ensures ParseMonth(Format(d)) == Some(d)
  {
    var s := Format(d);
    assert s[..4] == Padded(d.year, 4);
    assert s[5..] == Padded(d.month, 2);
    PaddedRoundTrip(d.year, 4);
    PaddedRoundTrip(d.month, 2);
  }

  /** Every string the parser accepts is exactly the rendering of its result. */
  lemma ParseFormat(s: string)
    requires ParseMonth(s).Some?
    ensures Format(ParseMonth(s).value) == s
  {
    DigitsRoundTrip(s[..4]);
    DigitsRoundTrip(s[5..]);
    assert s == s[..4] + "-" + s[5..];
  }

  /** Distinct months print differently. */
  lemma FormatInjective(a: YearMonth, b: YearMonth)
    requires Representable(a) && Representable(b)
    ensures Format(a) == Format(b) <==> a == b
  {
    if Format(a) == Format(b) {
      FormatParse(a);
      FormatParse(b);
    }
  }
}
