/**
 * The monthly table the page works on: a sorted date index with value
 * columns (NaN as None), the copy of the loaded table that gains the
 * "Ciclo_norm" and "Delta" columns, the first difference that fills "Delta",
 * and the inclusive date slice that cuts one window out of it.
 */
module Series {
  import opened Wrappers
  import opened Calendar
  import opened Windows

  /** A timestamp of the index (midnight; its time of day is not modelled). */
  datatype Date = Date(ym: YearMonth, day: int)

  predicate ValidDate(d: Date) {
    Representable(d.ym) && 1 <= d.day <= 31
  }

  /** str() of an index entry: "YYYY-MM-DD". */
  function DateText(d: Date): (s: string)
    requires ValidDate(d)
    ensures |s| == 10 && s[..7] == Format(d.ym)
  {
    Format(d.ym) + "-" + Padded(d.day, 2)
  }

  /** Chronological order of index entries. */
  predicate DateLe(a: Date, b: Date) {
    MonthIndex(a.ym) < MonthIndex(b.ym) || (MonthIndex(a.ym) == MonthIndex(b.ym) && a.day <= b.day)
  }

  predicate SortedDates(ds: seq<Date>) {
    forall i, j :: 0 <= i < j < |ds| ==> DateLe(ds[i], ds[j])
  }

  /** One row as the clock reads it: its date, Ciclo_norm and Delta. */
  datatype Row = Row(date: Date, cycle: Option<real>, delta: Option<real>)

  predicate WellDated(rows: seq<Row>) {
    forall i :: 0 <= i < |rows| ==> ValidDate(rows[i].date)
  }

  predicate Sorted(rows: seq<Row>) {
    forall i, j :: 0 <= i < j < |rows| ==> DateLe(rows[i].date, rows[j].date)
  }

  // ---------------------------------------------------------------------
  // The first difference

  /** Delta[t] = C[t] - C[t-1]; NaN at the first row and wherever either operand is NaN. */
  function Diff(c: seq<Option<real>>): (d: seq<Option<real>>)
    ensures |d| == |c|
    ensures |c| > 0 ==> d[0].None?
    ensures forall t :: 0 <= t < |c| && d[t].Some? ==> t > 0 && c[t].Some? && c[t - 1].Some?
    ensures forall t :: 1 <= t < |c| && c[t].Some? && c[t - 1].Some? ==>
      d[t] == Some(c[t].value - c[t - 1].value)
  {
    seq(|c|, t requires 0 <= t < |c| =>
      if t > 0 && c[t].Some? && c[t - 1].Some? then Some(c[t].value - c[t - 1].value) else None)
  }

  predicate AllDefined(c: seq<Option<real>>) {
    forall t :: 0 <= t < |c| ==> c[t].Some?
  }

  /** The sum of the defined deltas at rows 1 .. t. */
  function DeltaSum(d: seq<Option<real>>, t: nat): real
    requires t < |d|
  {
    if t == 0 then 0.0 else DeltaSum(d, t - 1) + (if d[t].Some? then d[t].value else 0.0)
  }

  /**
   * Differencing loses only the starting level: on a fully defined cycle every
   * delta after the first is defined, and summing them back from C[0] rebuilds C.
   */
  lemma {:induction false} DiffAccumulates(c: seq<Option<real>>, t: nat)
    requires AllDefined(c) && t < |c|
    ensures forall s :: 1 <= s <= t ==> Diff(c)[s].Some?
    ensures c[t].value == c[0].value + DeltaSum(Diff(c), t)
  {
    if t > 0 {
      DiffAccumulates(c, t - 1);
    }
  }

  /** The delta of a row depends only on that row and the one before it, never on later rows. */
  lemma DiffPrefix(c: seq<Option<real>>, n: nat)
    requires n <= |c|
    ensures Diff(c[..n]) == Diff(c)[..n]
  {
  }

  // ---------------------------------------------------------------------
  // Row filters: the window slice and the defined-Delta mask

  /**
   * Rows satisfying keep, in their original order. A kept row keeps every
   * one of its occurrences, so repeated index entries survive the filter.
   */
  function Keep(rows: seq<Row>, keep: Row -> bool): (r: seq<Row>)
    ensures |r| <= |rows|
    ensures forall x :: multiset(r)[x] == if keep(x) then multiset(rows)[x] else 0
    ensures forall x :: x in r <==> x in rows && keep(x)
    ensures Sorted(rows) ==> Sorted(r)
  {
    if rows == [] then []
    else
      var rest := Keep(rows[1..], keep);
      var r := if keep(rows[0]) then [rows[0]] + rest else rest;
      KeepCount(rows, keep, rest, r);
      KeepOrder(rows, keep, rest, r);
      r
  }

  /** One step of Keep: the head row is counted once more exactly when it is kept. */
  lemma KeepCount(rows: seq<Row>, keep: Row -> bool, rest: seq<Row>, r: seq<Row>)
    requires rows != []
    requires forall x :: multiset(rest)[x] == if keep(x) then multiset(rows[1..])[x] else 0
    requires r == if keep(rows[0]) then [rows[0]] + rest else rest
    ensures forall x :: multiset(r)[x] == if keep(x) then multiset(rows)[x] else 0
  {
    assert rows == [rows[0]] + rows[1..];
  }

  /** One step of Keep: a kept head row is no later than anything kept after it. */
  lemma KeepOrder(rows: seq<Row>, keep: Row -> bool, rest: seq<Row>, r: seq<Row>)
    requires rows != []
    requires forall x :: x in rest ==> x in rows[1..]
    requires Sorted(rows[1..]) ==> Sorted(rest)
    requires r == if keep(rows[0]) then [rows[0]] + rest else rest
    ensures Sorted(rows) ==> Sorted(r)
  {
    if Sorted(rows) && keep(rows[0]) {
      forall x | x in rest ensures DateLe(rows[0].date, x.date) {
        var j :| 0 <= j < |rows[1..]| && rows[1..][j] == x;
        assert rows[j + 1] == x;
      }
    }
  }

  /** The slice between two month labels on a sorted index: both boundary months are included. */
  function Period(rows: seq<Row>, w: Window): (r: seq<Row>)
    ensures WellDated(rows) ==> WellDated(r)
  {
    var r := Keep(rows, (x: Row) => w.Contains(x.date.ym));
    assert forall i :: 0 <= i < |r| ==> r[i] in rows;
    r
  }

  /** Exactly the rows whose month lies between the window's boundary months, inclusive, in date order. */
  lemma PeriodRows(rows: seq<Row>, w: Window, x: Row)
    ensures x in Period(rows, w) <==>
      x in rows && MonthIndex(w.start) <= MonthIndex(x.date.ym) <= MonthIndex(w.end)
    ensures multiset(Period(rows, w))[x] ==
      if MonthIndex(w.start) <= MonthIndex(x.date.ym) <= MonthIndex(w.end) then multiset(rows)[x] else 0
    ensures Sorted(rows) ==> Sorted(Period(rows, w))
  {
  }

  /** A row of one window is a row of every other window that contains its month. */
  lemma WindowsAgree(rows: seq<Row>, w1: Window, w2: Window, x: Row)
    requires x in Period(rows, w1) && w2.Contains(x.date.ym)
    ensures x in Period(rows, w2)
  {
  }

  /** The rows of a window with a defined Delta, each as often as it occurs, in date order. */
  function Trajectory(period: seq<Row>): (r: seq<Row>)
    ensures forall x :: x in r <==> x in period && x.delta.Some?
    ensures forall x :: multiset(r)[x] == if x.delta.Some? then multiset(period)[x] else 0
    ensures Sorted(period) ==> Sorted(r)
  {
    Keep(period, (x: Row) => x.delta.Some?)
  }

  /** The plotted path holds exactly the rows with a defined Delta, still in date order. */
  lemma TrajectoryRows(period: seq<Row>, x: Row)
    ensures x in Trajectory(period) <==> x in period && x.delta.Some?
    ensures multiset(Trajectory(period))[x] == if x.delta.Some? then multiset(period)[x] else 0
    ensures Sorted(period) ==> Sorted(Trajectory(period))
  {
  }

  function Deltas(rows: seq<Row>): (vs: seq<Option<real>>)
    ensures |vs| == |rows| && forall i :: 0 <= i < |rows| ==> vs[i] == rows[i].delta
  {
    seq(|rows|, i requires 0 <= i < |rows| => rows[i].delta)
  }

  function Cycles(rows: seq<Row>): (vs: seq<Option<real>>)
    ensures |vs| == |rows| && forall i :: 0 <= i < |rows| ==> vs[i] == rows[i].cycle
  {
    seq(|rows|, i requires 0 <= i < |rows| => rows[i].cycle)
  }

  // ---------------------------------------------------------------------
  // The working table

  const CycleColumn := "Ciclo_norm"
  const DeltaColumn := "Delta"

  /** A date-indexed table of columns; every column has one entry per index date. */
  class Frame {
    var dates: seq<Date>
    var columns: map<string, seq<Option<real>>>

    ghost predicate Valid()
      reads this
    {
      && SortedDates(dates)
      && (forall i :: 0 <= i < |dates| ==> ValidDate(dates[i]))
      && (forall name :: name in columns ==> |columns[name]| == |dates|)
    }

    /** The loaded table, already sorted by its index. */
    constructor (dates: seq<Date>, columns: map<string, seq<Option<real>>>)
      requires SortedDates(dates) && forall i :: 0 <= i < |dates| ==> ValidDate(dates[i])
      requires forall name :: name in columns ==> |columns[name]| == |dates|
      ensures Valid() && this.dates == dates && this.columns == columns
    {
      this.dates := dates;
      this.columns := columns;
    }

    /** DataFrame.copy(): a new table with the same index and columns. */
    constructor Copy(other: Frame)
      requires other.Valid()
      ensures Valid() && dates == other.dates && columns == other.columns
    {
      dates := other.dates;
      columns := other.columns;
    }

    /** df[name] = values: adds or replaces one column, leaving the index and the other columns alone. */
    method SetColumn(name: string, values: seq<Option<real>>)
      requires Valid() && |values| == |dates|
      modifies this
      ensures Valid() && dates == old(dates)
      ensures columns == old(columns)[name := values]
    {
      columns := columns[name := values];
    }

    predicate HasClockColumns()
      reads this
    {
      CycleColumn in columns && DeltaColumn in columns
    }

    /** The state Prepare leaves: Delta is the first difference of Ciclo_norm. */
    predicate Prepared()
      reads this
    {
      HasClockColumns() && columns[DeltaColumn] == Diff(columns[CycleColumn])
    }

    /** The rows the clock reads: index, Ciclo_norm and Delta side by side. */
    function Rows(): (rows: seq<Row>)
      reads this
      requires Valid() && HasClockColumns()
      ensures |rows| == |dates| && WellDated(rows) && Sorted(rows)
      ensures forall i :: 0 <= i < |rows| ==>
        rows[i] == Row(dates[i], columns[CycleColumn][i], columns[DeltaColumn][i])
    {
      var ds, cs, deltas := dates, columns[CycleColumn], columns[DeltaColumn];
      seq(|ds|, i requires 0 <= i < |ds| => Row(ds[i], cs[i], deltas[i]))
    }
  }

  /**
   * Copy the loaded table, read the sector's column (a lookup error, here
   * None, when the table lacks it), store its normalised cycle as Ciclo_norm
   * and the cycle's first difference as Delta. `cycleOf` stands for the log,
   * trend-cycle filter and standardisation applied to the column. The loaded
   * table itself is never changed.
   */
  method Prepare(base: Frame, column: string, cycleOf: seq<Option<real>> -> seq<Option<real>>)
    returns (df: Option<Frame>)
    requires base.Valid()
    requires forall s :: |cycleOf(s)| == |s|
    ensures df.Some? <==> column in base.columns
    ensures df.Some? ==>
      && fresh(df.value) && df.value.Valid() && df.value.Prepared()
      && df.value.dates == base.dates
      && var cycle := cycleOf(base.columns[column]);
         df.value.columns == base.columns[CycleColumn := cycle][DeltaColumn := Diff(cycle)]
  {
    var copy := new Frame.Copy(base);
    if column !in copy.columns {
      return None;
    }
    var cycle := cycleOf(copy.columns[column]);
    copy.SetColumn(CycleColumn, cycle);
    copy.SetColumn(DeltaColumn, Diff(copy.columns[CycleColumn]));
    df := Some(copy);
  }

  /**
   * In a prepared table the first row has no Delta, and each later row's Delta
   * is its Ciclo_norm minus the previous row's whenever both are defined.
   */
  lemma PreparedDeltas(dates: seq<Date>, cycle: seq<Option<real>>, rows: seq<Row>)
    requires |cycle| == |dates| == |rows|
    requires forall i :: 0 <= i < |rows| ==> rows[i] == Row(dates[i], cycle[i], Diff(cycle)[i])
    ensures |rows| > 0 ==> rows[0].delta.None?
    ensures forall t :: 1 <= t < |rows| && rows[t].cycle.Some? && rows[t - 1].cycle.Some? ==>
      rows[t].delta == Some(rows[t].cycle.value - rows[t - 1].cycle.value)
    ensures forall t :: 0 <= t < |rows| && rows[t].delta.Some? ==> rows[t].cycle.Some?
  {
  }
}
