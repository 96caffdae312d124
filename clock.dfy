/**
 * One tab of the page: the clock of one window. The window's rows are cut
 * from the prepared table; the trajectory joins the rows with a defined
 * Delta; the two markers are resolved; each axis gets its buffered limits.
 */
module Clock {
  import opened Wrappers
  import opened Calendar
  import opened Windows
  import opened Series
  import opened Markers
  import opened Axes

  /** What the drawing consumes: the path, the markers and the axis limits (None: NaN limits). */
  datatype ClockView = ClockView(
    trajectory: seq<Row>,
    markers: seq<ClockPoint>,
    xlim: Option<(real, real)>,
    ylim: Option<(real, real)>)

  predicate Inside(v: real, lim: Option<(real, real)>) {
    lim.Some? && lim.value.0 < v < lim.value.1
  }

  /** A defined value of a column lies strictly inside that column's limits. */
  lemma InsideLimits(vs: seq<Option<real>>, i: int)
    requires 0 <= i < |vs| && vs[i].Some?
    ensures Inside(vs[i].value, Limits(vs))
  {
  }

  /**
   * The slice never hides a row from a marker: for any month inside the
   * window, the marker found among the window's rows is the one the whole
   * table gives (first row of that month, with its globally computed values).
   */
  lemma SliceKeepsMarkers(rows: seq<Row>, w: Window, m: YearMonth, role: Role)
    requires WellDated(rows) && Representable(m) && w.Contains(m)
    ensures Resolve(Period(rows, w), Format(m), role) == Resolve(rows, Format(m), role)
  {
    forall i | 0 <= i < |rows| && Matches(rows[i], Format(m))
      ensures w.Contains(rows[i].date.ym)
    {
      MatchesMonth(rows[i].date, m);
    }
    FirstMatchingRowKeep(rows, (x: Row) => w.Contains(x.date.ym), Format(m));
  }

  /**
   * A window that contains the table's first month draws no marker for that
   * month: its first row has no Delta.
   */
  lemma FirstMonthMarkerSkipped(df: Frame, w: Window, role: Role)
    requires df.Valid() && df.Prepared() && |df.dates| > 0 && w.Contains(df.dates[0].ym)
    ensures Resolve(Period(df.Rows(), w), Format(df.dates[0].ym), role).None?
  {
  }

  /**
   * dibujar_reloj_individual(start, end) without the drawing: the period of
   * rows from start's month to end's month, the trajectory, the markers and
   * the limits; every plotted point and marker lies strictly inside the axes.
   */
  method DrawClock(df: Frame, start: string, end: string) returns (view: ClockView)
    requires df.Valid() && df.Prepared()
    requires ParseMonth(start).Some? && ParseMonth(end).Some?
    ensures var period := Period(df.Rows(), Window(ParseMonth(start).value, ParseMonth(end).value));
      && view.trajectory == Trajectory(period)
      && view.markers == Present(Resolve(period, start, Start)) + Present(Resolve(period, end, End))
      && view.xlim == Limits(Deltas(period))
      && view.ylim == Limits(Cycles(period))
    ensures Sorted(view.trajectory)
    ensures forall x :: x in view.trajectory ==>
      x.delta.Some? && x.cycle.Some? && Inside(x.delta.value, view.xlim) && Inside(x.cycle.value, view.ylim)
    ensures forall p :: p in view.markers ==> Inside(p.delta, view.xlim) && Inside(p.cycle, view.ylim)
  {
    var rows := df.Rows();
    var w := Window(ParseMonth(start).value, ParseMonth(end).value);
    var period := Period(rows, w);
    var markers := ResolveMarkers(period, start, end);
    view := ClockView(Trajectory(period), markers, Limits(Deltas(period)), Limits(Cycles(period)));

    PreparedDeltas(df.dates, df.columns[CycleColumn], rows);
    PeriodKeepsCycles(rows, w);
    TrajectoryInside(period);
    MarkersInside(period, start, end);
  }

  /** A window of a table where every defined Delta has a defined Ciclo_norm keeps that property. */
  lemma PeriodKeepsCycles(rows: seq<Row>, w: Window)
    requires forall i :: 0 <= i < |rows| && rows[i].delta.Some? ==> rows[i].cycle.Some?
    ensures forall k :: 0 <= k < |Period(rows, w)| && Period(rows, w)[k].delta.Some? ==>
      Period(rows, w)[k].cycle.Some?
  {
    var period := Period(rows, w);
    forall k | 0 <= k < |period| && period[k].delta.Some? ensures period[k].cycle.Some? {
      assert period[k] in rows;
    }
  }

  /** Every point of the trajectory lies strictly inside both axes. */
  lemma TrajectoryInside(period: seq<Row>)
    requires forall k :: 0 <= k < |period| && period[k].delta.Some? ==> period[k].cycle.Some?
    ensures forall x :: x in Trajectory(period) ==>
      x.delta.Some? && x.cycle.Some? &&
      Inside(x.delta.value, Limits(Deltas(period))) && Inside(x.cycle.value, Limits(Cycles(period)))
  {
    forall x | x in Trajectory(period)
      ensures x.delta.Some? && x.cycle.Some?
      ensures Inside(x.delta.value, Limits(Deltas(period))) && Inside(x.cycle.value, Limits(Cycles(period)))
    {
      var k :| 0 <= k < |period| && period[k] == x;
      InsideLimits(Deltas(period), k);
      InsideLimits(Cycles(period), k);
    }
  }

  /** Every drawn marker lies strictly inside both axes. */
  lemma MarkersInside(period: seq<Row>, start: string, end: string)
    requires WellDated(period)
    ensures forall p :: p in Present(Resolve(period, start, Start)) + Present(Resolve(period, end, End)) ==>
      Inside(p.delta, Limits(Deltas(period))) && Inside(p.cycle, Limits(Cycles(period)))
  {
    var markers := Present(Resolve(period, start, Start)) + Present(Resolve(period, end, End));
    forall p | p in markers
      ensures Inside(p.delta, Limits(Deltas(period))) && Inside(p.cycle, Limits(Cycles(period)))
    {
      var q := if p in Present(Resolve(period, start, Start)) then Resolve(period, start, Start)
               else Resolve(period, end, End);
      assert q == Some(p);
      var k :| 0 <= k < |period| && period[k].delta == Some(p.delta) && period[k].cycle == Some(p.cycle);
      InsideLimits(Deltas(period), k);
      InsideLimits(Cycles(period), k);
    }
  }
}
