/**
 * Start and end markers of one window: for each of the two period strings,
 * the first row whose date text starts with it; a marker with no such row
 * (the lookup error the page catches) or whose row lacks Delta or Ciclo_norm
 * is skipped. The caption names the month in Spanish and the year.
 */
module Markers {
  import opened Wrappers
  import opened Calendar
  import opened Series

  /** The window-start marker (circle) and the window-end marker (square). */
  datatype Role = Start | End

  /** A drawn marker: where it sits in the (Delta, Ciclo_norm) plane and its caption's first line. */
  datatype ClockPoint = ClockPoint(role: Role, date: Date, delta: real, cycle: real, caption: string)

  predicate StartsWith(s: string, prefix: string) {
    |prefix| <= |s| && s[..|prefix|] == prefix
  }

  predicate Matches(row: Row, prefix: string)
    requires ValidDate(row.date)
  {
    StartsWith(DateText(row.date), prefix)
  }

  /** The position of the first row whose date text starts with prefix. */
  function FirstMatch(rows: seq<Row>, prefix: string): (r: Option<nat>)
    requires WellDated(rows)
    ensures r.Some? ==> r.value < |rows| && Matches(rows[r.value], prefix)
                        && forall j :: 0 <= j < r.value ==> !Matches(rows[j], prefix)
    ensures r.None? ==> forall j :: 0 <= j < |rows| ==> !Matches(rows[j], prefix)
  {
    if rows == [] then None
    else if Matches(rows[0], prefix) then Some(0)
    else match FirstMatch(rows[1..], prefix)
      case None => None
      case Some(k) => Some(k + 1)
  }

  /** A date text starts with a rendered month exactly when the date falls in that month. */
  lemma MatchesMonth(d: Date, m: YearMonth)
    requires ValidDate(d) && Representable(m)
    ensures StartsWith(DateText(d), Format(m)) <==> d.ym == m
  {
    FormatInjective(d.ym, m);
  }

  lemma MonthIndexInjective(a: YearMonth, b: YearMonth)
    requires 1 <= a.month <= 12 && 1 <= b.month <= 12 && MonthIndex(a) == MonthIndex(b)
    ensures a == b
  {
  }

  /**
   * On a sorted table the prefix search finds the earliest row of the month:
   * nothing when no row falls in it, otherwise a row of that month that no row
   * of the same month precedes in date order, with only earlier months before it.
   */
  lemma FirstMatchIsEarliestOfMonth(rows: seq<Row>, m: YearMonth)
    requires WellDated(rows) && Sorted(rows) && Representable(m)
    ensures var k := FirstMatch(rows, Format(m));
      && (k.None? <==> forall j :: 0 <= j < |rows| ==> rows[j].date.ym != m)
      && (k.Some? ==> rows[k.value].date.ym == m)
      && (k.Some? ==> forall j :: 0 <= j < |rows| && rows[j].date.ym == m ==>
            DateLe(rows[k.value].date, rows[j].date))
      && (k.Some? ==> forall j :: 0 <= j < k.value ==> MonthIndex(rows[j].date.ym) < MonthIndex(m))
  {
    forall j | 0 <= j < |rows| ensures Matches(rows[j], Format(m)) <==> rows[j].date.ym == m {
      MatchesMonth(rows[j].date, m);
    }
    var k := FirstMatch(rows, Format(m));
    if k.Some? {
      forall j | 0 <= j < k.value ensures MonthIndex(rows[j].date.ym) < MonthIndex(m) {
        assert DateLe(rows[j].date, rows[k.value].date);
        if MonthIndex(rows[j].date.ym) == MonthIndex(m) {
          MonthIndexInjective(rows[j].date.ym, m);
        }
      }
    }
  }

  // ---------------------------------------------------------------------
  // Captions

  /** The Spanish abbreviation of each two-digit month number. */
  const MonthAbbreviations: map<string, string> := map[
    "01" := "Ene", "02" := "Feb", "03" := "Mar", "04" := "Abr", "05" := "May", "06" := "Jun",
    "07" := "Jul", "08" := "Ago", "09" := "Sep", "10" := "Oct", "11" := "Nov", "12" := "Dic"]

  function Min(a: nat, b: nat): nat {
    if a <= b then a else b
  }

  /** Python's s[lo:hi] for 0 <= lo <= hi: bounds past the end are clamped. */
  function PySlice(s: string, lo: nat, hi: nat): (r: string)
    requires lo <= hi
    ensures |r| <= hi - lo
  {
    s[Min(lo, |s|)..Min(hi, |s|)]
  }

  /**
   * The caption of a marker string: the Spanish abbreviation of the month its
   * characters 5..7 name (empty when they name none), a space, and its first
   * four characters.
   */
  function Caption(marker: string): (c: string)
    ensures var year, key := PySlice(marker, 0, 4), PySlice(marker, 5, 7);
      && |year| + 1 <= |c| <= |year| + 4
      && c[|c| - |year|..] == year && c[|c| - |year| - 1] == ' '
      && (key in MonthAbbreviations ==> c[..|c| - |year| - 1] == MonthAbbreviations[key])
      && (key !in MonthAbbreviations <==> |c| == |year| + 1)
  {
    var key := PySlice(marker, 5, 7);
    (if key in MonthAbbreviations then MonthAbbreviations[key] else "") + " " + PySlice(marker, 0, 4)
  }

  /** A rendered month's caption is its Spanish abbreviation (never the empty default) and its year. */
  lemma CaptionOfMonth(m: YearMonth)
    requires Representable(m)
    ensures Caption(Format(m)) ==
      ["Ene", "Feb", "Mar", "Abr", "May", "Jun", "Jul", "Ago", "Sep", "Oct", "Nov", "Dic"][m.month - 1]
      + " " + Padded(m.year, 4)
  {
    var s := Format(m);
    assert PySlice(s, 5, 7) == Padded(m.month, 2);
    assert PySlice(s, 0, 4) == Padded(m.year, 4);
    assert Padded(m.month, 2) == [DigitChar(m.month / 10), DigitChar(m.month % 10)];
  }

  // ---------------------------------------------------------------------
  // Resolution

  /** One marker: the first matching row, if there is one and both its values are defined. */
  function Resolve(period: seq<Row>, marker: string, role: Role): (p: Option<ClockPoint>)
    requires WellDated(period)
    ensures p.Some? ==> p.value.role == role && p.value.caption == Caption(marker)
    ensures p.Some? ==> exists k :: 0 <= k < |period| && period[k].date == p.value.date &&
                                    period[k].delta == Some(p.value.delta) &&
                                    period[k].cycle == Some(p.value.cycle)
  {
    match FirstMatchingRow(period, marker)
    case None => None
    case Some(row) =>
      if row.delta.None? || row.cycle.None? then None
      else Some(ClockPoint(role, row.date, row.delta.value, row.cycle.value, Caption(marker)))
  }

  /** The row at position k is the first of month m in the period. */
  predicate FirstOfMonth(period: seq<Row>, k: int, m: YearMonth) {
    0 <= k < |period| && period[k].date.ym == m
    && forall j :: 0 <= j < k ==> period[j].date.ym != m
  }

  /**
   * The marker of month m is drawn exactly when the period has a row in m and
   * the first such row has both values; it then shows that row's date and values.
   * It is skipped, without error, when no row falls in m.
   */
  lemma ResolveMonth(period: seq<Row>, m: YearMonth, role: Role)
    requires WellDated(period) && Representable(m)
    ensures var p := Resolve(period, Format(m), role);
      && ((forall j :: 0 <= j < |period| ==> period[j].date.ym != m) ==> p.None?)
      && (forall k :: FirstOfMonth(period, k, m) ==>
            if period[k].delta.Some? && period[k].cycle.Some?
            then p == Some(ClockPoint(role, period[k].date, period[k].delta.value,
                                      period[k].cycle.value, Caption(Format(m))))
            else p.None?)
  {
    forall j | 0 <= j < |period| ensures Matches(period[j], Format(m)) <==> period[j].date.ym == m {
      MatchesMonth(period[j].date, m);
    }
    var r := FirstMatch(period, Format(m));
    forall k | FirstOfMonth(period, k, m) ensures r == Some(k) {
      assert Matches(period[k], Format(m));
      assert r.Some?;
      assert !(r.value < k) && !(k < r.value);
    }
  }

  /** The first row whose date text starts with prefix, if any. */
  function FirstMatchingRow(rows: seq<Row>, prefix: string): (r: Option<Row>)
    requires WellDated(rows)
    ensures r.Some? ==> r.value in rows && Matches(r.value, prefix)
    ensures r.None? <==> forall j :: 0 <= j < |rows| ==> !Matches(rows[j], prefix)
    ensures r.Some? ==> exists k :: 0 <= k < |rows| && rows[k] == r.value &&
                                    forall j :: 0 <= j < k ==> !Matches(rows[j], prefix)
  {
    match FirstMatch(rows, prefix)
    case None => None
    case Some(k) => Some(rows[k])
  }

  /** The first matching row of a table is its head row when that matches, else the first of the rest. */
  lemma FirstMatchingRowCons(head: Row, tail: seq<Row>, marker: string)
    requires ValidDate(head.date) && WellDated(tail)
    ensures WellDated([head] + tail)
    ensures FirstMatchingRow([head] + tail, marker) ==
      if Matches(head, marker) then Some(head) else FirstMatchingRow(tail, marker)
  {
    var rows := [head] + tail;
    assert rows[0] == head && rows[1..] == tail;
    assert forall i :: 0 <= i < |tail| ==> tail[i] == rows[i + 1];
  }

  /** Filtering that keeps every matching row leaves the first matching row unchanged. */
  lemma {:induction false} FirstMatchingRowKeep(rows: seq<Row>, keep: Row -> bool, marker: string)
    requires WellDated(rows)
    requires forall i :: 0 <= i < |rows| && Matches(rows[i], marker) ==> keep(rows[i])
    ensures WellDated(Keep(rows, keep))
    ensures FirstMatchingRow(Keep(rows, keep), marker) == FirstMatchingRow(rows, marker)
  {
    KeepWellDated(rows, keep);
    if rows != [] {
      if Matches(rows[0], marker) {
        KeepMatchingHead(rows, keep, marker);
      } else {
        KeepsMatchingTail(rows, keep, marker);
        FirstMatchingRowKeep(rows[1..], keep, marker);
        KeepOtherHead(rows, keep, marker);
      }
    }
  }

  lemma KeepsMatchingTail(rows: seq<Row>, keep: Row -> bool, marker: string)
    requires WellDated(rows) && rows != []
    requires forall i :: 0 <= i < |rows| && Matches(rows[i], marker) ==> keep(rows[i])
    ensures WellDated(rows[1..])
    ensures forall i :: 0 <= i < |rows[1..]| && Matches(rows[1..][i], marker) ==> keep(rows[1..][i])
  {
    forall i | 0 <= i < |rows[1..]| ensures rows[1..][i] == rows[i + 1] {
    }
  }

  /** A kept head row that matches is the first matching row of the filtered table. */
  lemma KeepMatchingHead(rows: seq<Row>, keep: Row -> bool, marker: string)
    requires WellDated(rows) && rows != [] && Matches(rows[0], marker)
    requires forall i :: 0 <= i < |rows| && Matches(rows[i], marker) ==> keep(rows[i])
    ensures WellDated(Keep(rows, keep))
    ensures FirstMatchingRow(Keep(rows, keep), marker) == FirstMatchingRow(rows, marker)
  {
    assert keep(rows[0]);
    KeepWellDated(rows[1..], keep);
    KeepWellDated(rows, keep);
    FirstMatchingRowCons(rows[0], Keep(rows[1..], keep), marker);
    assert FirstMatch(rows, marker) == Some(0);
  }

  /** A head row that does not match leaves the first match to the rest of the table. */
  lemma FirstMatchingRowTail(rows: seq<Row>, marker: string)
    requires WellDated(rows) && rows != [] && !Matches(rows[0], marker)
    ensures WellDated(rows[1..])
    ensures FirstMatchingRow(rows, marker) == FirstMatchingRow(rows[1..], marker)
  {
    assert rows == [rows[0]] + rows[1..];
    FirstMatchingRowCons(rows[0], rows[1..], marker);
  }

  /** A head row that does not match leaves the filtered table's first match to the filtered rest. */
  lemma KeepOtherHead(rows: seq<Row>, keep: Row -> bool, marker: string)
    requires WellDated(rows) && rows != [] && !Matches(rows[0], marker)
    ensures WellDated(rows[1..]) && WellDated(Keep(rows[1..], keep)) && WellDated(Keep(rows, keep))
    ensures FirstMatchingRow(rows, marker) == FirstMatchingRow(rows[1..], marker)
    ensures FirstMatchingRow(Keep(rows, keep), marker) == FirstMatchingRow(Keep(rows[1..], keep), marker)
  {
    FirstMatchingRowTail(rows, marker);
    var rest := Keep(rows[1..], keep);
    KeepWellDated(rows[1..], keep);
    KeepWellDated(rows, keep);
    if keep(rows[0]) {
      assert Keep(rows, keep) == [rows[0]] + rest;
      FirstMatchingRowCons(rows[0], rest, marker);
    } else {
      assert Keep(rows, keep) == rest;
    }
  }

  lemma KeepWellDated(rows: seq<Row>, keep: Row -> bool)
    requires WellDated(rows)
    ensures WellDated(Keep(rows, keep))
  {
    var r := Keep(rows, keep);
    forall i | 0 <= i < |r| ensures ValidDate(r[i].date) {
      assert r[i] in rows;
      var j :| 0 <= j < |rows| && rows[j] == r[i];
    }
  }

  /** Nothing or a single point for one resolved marker. */
  function Present(p: Option<ClockPoint>): (s: seq<ClockPoint>)
    ensures |s| <= 1 && (s == [] <==> p.None?)
    ensures p.Some? ==> s == [p.value]
  {
    if p.Some? then [p.value] else []
  }

  /**
   * The marker loop of one window: zero, one or two points, the start marker's
   * before the end marker's, each present exactly when Resolve finds it.
   */
  method ResolveMarkers(period: seq<Row>, start: string, end: string) returns (points: seq<ClockPoint>)
    requires WellDated(period)
    ensures points == Present(Resolve(period, start, Start)) + Present(Resolve(period, end, End))
    ensures |points| <= 2
  {
    var markers := [start, end];
    points := [];
    for i := 0 to 2
      invariant points == (if i == 0 then [] else Present(Resolve(period, start, Start)))
                          + (if i == 2 then Present(Resolve(period, end, End)) else [])
    {
      var marker := markers[i];
      var role := if i == 0 then Start else End;
      ghost var resolved := Resolve(period, marker, role);
      assert points + Present(resolved) ==
        (if i + 1 == 0 then [] else Present(Resolve(period, start, Start)))
        + (if i + 1 == 2 then Present(Resolve(period, end, End)) else []);
      var found := FirstMatchingRow(period, marker);
      if found.None? {
        assert resolved.None?;
        continue;
      }
      var row := found.value;
      if row.delta.None? || row.cycle.None? {
        assert resolved.None?;
        continue;
      }
      points := points + [ClockPoint(role, row.date, row.delta.value, row.cycle.value, Caption(marker))];
    }
  }
}
