/**
 * The three comparison windows: from the closing month, tile backward three
 * times by twelve calendar months; each window is shown as a pair of
 * "YYYY-MM" strings and titled "startYear-endYear".
 */
module Windows {
  import opened Wrappers
  import opened Calendar

  /** Both boundary months belong to the window (label slicing is inclusive). */
  datatype Window = Window(start: YearMonth, end: YearMonth) {
    predicate Contains(m: YearMonth) {
      MonthIndex(start) <= MonthIndex(m) <= MonthIndex(end)
    }
  }

  const WindowMonths := 12

  /** Windows P1, P2, P3, oldest first, the last one ending at the closing month. */
  function Partition(close: YearMonth): (ws: seq<Window>)
    requires 1 <= close.month <= 12
    ensures |ws| == 3
    ensures forall k :: 0 <= k < 3 ==> 1 <= ws[k].start.month <= 12 && 1 <= ws[k].end.month <= 12
  {
    var end3 := close;
    var start3 := SubMonths(end3, WindowMonths);
    var end2 := start3;
    var start2 := SubMonths(end2, WindowMonths);
    var end1 := start2;
    var start1 := SubMonths(end1, WindowMonths);
    [Window(start1, end1), Window(start2, end2), Window(start3, end3)]
  }

  /** The windows tile backward from the closing month with no gap, each exactly 12 months long. */
  lemma PartitionTiles(close: YearMonth)
    requires 1 <= close.month <= 12
    ensures var ws := Partition(close);
      && ws[2].end == close
      && ws[0].end == ws[1].start && ws[1].end == ws[2].start
      && forall k :: 0 <= k < 3 ==> MonthIndex(ws[k].end) - MonthIndex(ws[k].start) == WindowMonths
  {
  }

  /** In calendar terms: window k runs from the closing month of year Y-3+k to that of year Y-2+k. */
  lemma PartitionCalendar(close: YearMonth)
    requires 1 <= close.month <= 12
    ensures forall k :: 0 <= k < 3 ==>
      Partition(close)[k] == Window(YearMonth(close.year - 3 + k, close.month),
                                    YearMonth(close.year - 2 + k, close.month))
  {
  }

  /**
   * The windows cover the 37 months ending at the closing month, and two
   * windows share a month only when it is the boundary between neighbours.
   */
  lemma PartitionCoversOnce(close: YearMonth, m: YearMonth)
    requires 1 <= close.month <= 12
    ensures var ws := Partition(close);
      && ((exists k :: 0 <= k < 3 && ws[k].Contains(m))
          <==> MonthIndex(close) - 3 * WindowMonths <= MonthIndex(m) <= MonthIndex(close))
      && (forall j, k :: 0 <= j < k < 3 && ws[j].Contains(m) && ws[k].Contains(m) ==>
            k == j + 1 && MonthIndex(m) == MonthIndex(ws[j].end))
  {
    var ws := Partition(close);
    if MonthIndex(close) - 3 * WindowMonths <= MonthIndex(m) <= MonthIndex(close) {
      if MonthIndex(m) <= MonthIndex(ws[0].end) {
        assert ws[0].Contains(m);
      } else if MonthIndex(m) <= MonthIndex(ws[1].end) {
        assert ws[1].Contains(m);
      } else {
        assert ws[2].Contains(m);
      }
    }
  }

  // ---------------------------------------------------------------------
  // Rendering

  /** The ("YYYY-MM", "YYYY-MM") pair shown for a window. */
  function PeriodStrings(w: Window): (p: (string, string))
    requires Representable(w.start) && Representable(w.end)
    ensures ParseMonth(p.0) == Some(w.start) && ParseMonth(p.1) == Some(w.end)
  {
    FormatParse(w.start);
    FormatParse(w.end);
    (Format(w.start), Format(w.end))
  }

  /** str() of a non-negative int: decimal digits, no padding. */
  function DecimalString(n: nat): (s: string)
    ensures |s| >= 1
    ensures forall i :: 0 <= i < |s| ==> IsDigit(s[i])
  {
    if n < 10 then [DigitChar(n)] else DecimalString(n / 10) + [DigitChar(n % 10)]
  }

  /** A number with exactly `width` digits prints as its zero-padded rendering. */
  lemma {:induction false} DecimalIsPadded(n: nat, width: nat)
    requires 1 <= width && Pow10(width - 1) <= n < Pow10(width)
    ensures DecimalString(n) == Padded(n, width)
  {
    if width == 1 {
      assert Padded(n, 1) == Padded(n / 10, 0) + [DigitChar(n % 10)];
    } else {
      DecimalIsPadded(n / 10, width - 1);
    }
  }

  /** The tab title: the start year and the end year in decimal, joined by a hyphen. */
  function Title(w: Window): (t: string)
    requires w.start.year >= 0 && w.end.year >= 0
    ensures 1000 <= w.start.year < 10000 && 1000 <= w.end.year < 10000 ==>
      t == Padded(w.start.year, 4) + "-" + Padded(w.end.year, 4)
      && DigitsValue(t[..4]) == w.start.year && DigitsValue(t[5..]) == w.end.year
  {
    var t := DecimalString(w.start.year) + "-" + DecimalString(w.end.year);
    if 1000 <= w.start.year < 10000 && 1000 <= w.end.year < 10000 then
      assert Pow10(3) == 1000 && Pow10(4) == 10000;
      DecimalIsPadded(w.start.year, 4);
      DecimalIsPadded(w.end.year, 4);
      PaddedRoundTrip(w.start.year, 4);
      PaddedRoundTrip(w.end.year, 4);
      assert t[..4] == Padded(w.start.year, 4) && t[5..] == Padded(w.end.year, 4);
      t
    else t
  }

  /** The three windows of a closing month whose oldest window is still representable. */
  predicate PartitionRepresentable(close: YearMonth) {
    Representable(close) && close.year >= 1003
  }

  function Periods(close: YearMonth): (ps: seq<(string, string)>)
    requires PartitionRepresentable(close)
    ensures |ps| == 3
  {
    var ws := Partition(close);
    PartitionCalendar(close);
    seq(3, k requires 0 <= k < 3 => PeriodStrings(ws[k]))
  }

  function Titles(close: YearMonth): (ts: seq<string>)
    requires PartitionRepresentable(close)
    ensures |ts| == 3
  {
    var ws := Partition(close);
    PartitionCalendar(close);
    seq(3, k requires 0 <= k < 3 => Title(ws[k]))
  }

  /**
   * Adjacent period strings chain, the last one ends with the closing month's
   * own string, and every tab title is the two period years joined by "-",
   * the second year one more than the first.
   */
  lemma {:induction false} PeriodsAndTitles(close: YearMonth)
    requires PartitionRepresentable(close)
    ensures var ps, ts := Periods(close), Titles(close);
      && ps[2].1 == Format(close)
      && ps[0].1 == ps[1].0 && ps[1].1 == ps[2].0
      && forall k :: 0 <= k < 3 ==>
           && ts[k] == ps[k].0[..4] + "-" + ps[k].1[..4]
           && DigitsValue(ps[k].1[..4]) == DigitsValue(ps[k].0[..4]) + 1
           && ps[k].0[4..] == ps[k].1[4..]
  {
    var ws := Partition(close);
    PartitionCalendar(close);
    forall k | 0 <= k < 3
      ensures Titles(close)[k] == Periods(close)[k].0[..4] + "-" + Periods(close)[k].1[..4]
      ensures DigitsValue(Periods(close)[k].1[..4]) == DigitsValue(Periods(close)[k].0[..4]) + 1
      ensures Periods(close)[k].0[4..] == Periods(close)[k].1[4..]
    {
      var w := ws[k];
      assert Format(w.start)[..4] == Padded(w.start.year, 4);
      assert Format(w.end)[..4] == Padded(w.end.year, 4);
      assert Format(w.start)[4..] == "-" + Padded(close.month, 2);
      assert Format(w.end)[4..] == "-" + Padded(close.month, 2);
      DecimalIsPadded(w.start.year, 4);
      DecimalIsPadded(w.end.year, 4);
      PaddedRoundTrip(w.start.year, 4);
      PaddedRoundTrip(w.end.year, 4);
    }
  }

  /**
   * The page's step from the chosen closing string to the period strings.
   * None unless the string is a rendered month whose year lies in 1003..9999,
   * so that the oldest window still starts at a four-digit year.
   */
  function PeriodsFor(closeText: string): (r: Option<seq<(string, string)>>)
    ensures r.None? <==>
      ParseMonth(closeText).None? || !PartitionRepresentable(ParseMonth(closeText).value)
    ensures r.Some? ==> |r.value| == 3 && r.value[2].1 == closeText
    ensures r.Some? ==> r.value == Periods(ParseMonth(closeText).value)
  {
    match ParseMonth(closeText)
    case None => None
    case Some(close) =>
      if PartitionRepresentable(close) then
        PeriodsAndTitles(close);
        ParseFormat(closeText);
        Some(Periods(close))
      else None
  }

  /** Every closing month the selector offers (a rendered month of the data) yields periods. */
  lemma PeriodsForFormatted(close: YearMonth)
    requires PartitionRepresentable(close)
    ensures PeriodsFor(Format(close)) == Some(Periods(close))
  {
    FormatParse(close);
  }

  /** The closing month 2025-11 gives the windows 2022-11..2023-11, 2023-11..2024-11 and 2024-11..2025-11. */
  lemma ClosingNovember2025()
    ensures Partition(YearMonth(2025, 11)) == [
      Window(YearMonth(2022, 11), YearMonth(2023, 11)),
      Window(YearMonth(2023, 11), YearMonth(2024, 11)),
      Window(YearMonth(2024, 11), YearMonth(2025, 11))]
  {
    assert SubMonths(YearMonth(2025, 11), 12) == YearMonth(2024, 11);
    assert SubMonths(YearMonth(2024, 11), 12) == YearMonth(2023, 11);
    assert SubMonths(YearMonth(2023, 11), 12) == YearMonth(2022, 11);
  }
}
