# Clock diagram of the IVAE trend-cycle (El Salvador) — Dafny model

The page `app.py` draws, for a chosen economic sector and closing month, three
"clock" diagrams: the normalised cycle `Ciclo_norm` (C_t) of the sector's index
against its first difference `Delta` (ΔC_t), one per 12-month window, with a
marker at each window's first and last month. This project models the
deterministic pipeline between the data load and the drawing:

- **Sectors** (`sectors.dfy`): the fixed code → label table, the inversion of a
  picked label into its code (`list(keys())[list(values()).index(label)]`) and
  the data column `<code>_TC`.
- **Calendar** (`calendar.dfy`): month-resolution dates, `DateOffset(months=n)`
  as month-index arithmetic, the `"YYYY-MM"` rendering (`strftime('%Y-%m')`) and
  its parse (`pd.to_datetime`).
- **Windows** (`windows.dfy`): the three windows tiled backward from the
  closing month, their `("YYYY-MM", "YYYY-MM")` period strings and the tab
  titles `"startYear-endYear"`.
- **Series** (`series.dfy`): rows of the table (date, `Ciclo_norm`, `Delta`;
  NaN is `None`), the first difference, the inclusive label slice
  `df.loc[start:end]`, the `notna()` mask of the trajectory, and the `Frame`
  class: the copy of the loaded table that gains its `Ciclo_norm` and `Delta`
  columns in place (`Prepare`).
- **Markers** (`markers.dfy`): the marker loop of `dibujar_reloj_individual`:
  for each of the two period strings, the first row whose date text starts with
  it; skipped when no row matches (the caught `IndexError`) or when its `Delta`
  or `Ciclo_norm` is NaN; captioned with the Spanish month abbreviation and year.
- **Axes** (`axes.dfy`): NaN-skipping min/max, the 20% buffer with its 0.5
  fallback, and the axis limits.
- **Clock** (`clock.dfy`): one tab: slice, trajectory, markers and limits
  together (`DrawClock`).

Inputs the page gets from outside are parameters: the loaded table is a
`Frame` built from a sorted index and its columns; the normalised cycle is
`cycleOf(column)`, a function standing for the log, trend-cycle filter and
standardisation. Values are Dafny `real` (an idealisation of float64); NaN is
`Option.None`.

## Model

| member | source | states |
|---|---|---|
| Sectors.TableIsBijection | app.py:18-29 | the table has ten sectors; codes are pairwise distinct and labels are pairwise distinct |
| Sectors.IndexOf | app.py:51 | `list.index`: the first position holding the value, none before it; None (ValueError) exactly when absent |
| Sectors.LabelOf | app.py:18-29 | dictionary lookup of a code is defined exactly for the ten codes |
| Sectors.CodeFor | app.py:51 | a label yields a code exactly when it is offered, and the code is the one the table pairs with that label |
| Sectors.CodeForInverts | app.py:51 | a label resolves to a code exactly when it is offered, and that code's label is the picked label |
| Sectors.LabelOfInverts | app.py:18-29 | every code is recovered from its own label (the inversion is exact both ways) |
| Sectors.ColumnName | app.py:52 | the column name is the code followed by `_TC` |
| Sectors.ColumnFor | app.py:51-52 | a picked label yields a column exactly when offered, and it is `<code>_TC` for the code labelled by it |
| Sectors.GeneralIndexColumn | app.py:19 | the label "IVAE GENERAL" reads column `IVAE_General_TC` |
| Calendar.FromMonthIndex | app.py:66 | the month built from a month count has a month in 1..12 and the same count |
| Calendar.SubMonths | app.py:66 | `d - DateOffset(months=n)` is the month n months earlier |
| Calendar.MonthIndexRoundTrip | app.py:66 | counting months and rebuilding the month is the identity |
| Calendar.SubTwelveIsPreviousYear | app.py:66 | twelve months back is the same calendar month of the previous year |
| Calendar.Format | app.py:75-77 | `strftime('%Y-%m')` is seven characters with a `-` at position 4 |
| Calendar.ParseMonth | app.py:65 | a parsed month is representable (four digits, a hyphen, two digits; year 1000–9999, month 1–12) |
| Calendar.FormatParse | app.py:65-77 | parsing a rendered month gives the month back |
| Calendar.ParseFormat | app.py:47-48 | every accepted string is the rendering of what it parses to |
| Calendar.FormatInjective | app.py:75-77 | two months render alike exactly when they are equal |
| Calendar.PaddedRoundTrip | app.py:75-77 | reading back a zero-padded rendering gives the number |
| Calendar.DigitsRoundTrip | app.py:65 | rendering a digit string's value at its width gives the string |
| Windows.Partition | app.py:65-72 | three windows, every boundary a valid month |
| Windows.PartitionTiles | app.py:65-72 | end(P3) is the closing month, end(P1) = start(P2), end(P2) = start(P3), each window 12 months long |
| Windows.PartitionCalendar | app.py:65-72 | window k runs from the closing month of year Y-3+k to that of year Y-2+k |
| Windows.PartitionCoversOnce | app.py:65-72 | the windows cover exactly the 37 months up to the closing month; two windows share only their common boundary month |
| Windows.ClosingNovember2025 | app.py:65-72 | closing 2025-11 gives 2022-11..2023-11, 2023-11..2024-11, 2024-11..2025-11 |
| Windows.PeriodStrings | app.py:74-78 | a window's period strings parse back to its boundary months |
| Windows.DecimalString | app.py:82-84 | `str(int)` is a non-empty digit string |
| Windows.DecimalIsPadded | app.py:82-84 | a year with four digits prints as its four-digit rendering |
| Windows.Title | app.py:82-84 | for four-digit years the title is the two years zero-padded to four digits and joined by `-`, and each half reads back as its year |
| Windows.Periods | app.py:74-78 | three period pairs |
| Windows.Titles | app.py:81-85 | three tab titles |
| Windows.PeriodsAndTitles | app.py:74-85 | period strings chain end-to-start, the last ends with the closing month; every title is the two period years joined by `-`, the second one more than the first, both strings ending in the same month |
| Windows.PeriodsFor | app.py:65-78 | None exactly when the string is not a rendered month or its year is below 1003; otherwise the three periods of that month, the last ending in that very string |
| Windows.PeriodsForFormatted | app.py:47-48 | every closing month the selector offers yields periods |
| Series.DateText | app.py:123 | a date's text is ten characters whose first seven are its rendered month |
| Series.Diff | app.py:59 | Delta has one entry per row, is NaN at the first row and wherever an operand is NaN, and is C[t] - C[t-1] otherwise |
| Series.DiffAccumulates | app.py:59 | on a fully defined cycle every later delta is defined and C[t] = C[0] + the sum of deltas 1..t (differencing inverts) |
| Series.DiffPrefix | app.py:59 | a row's delta depends only on rows up to it |
| Series.Keep | app.py:108-109 | filtering keeps exactly the rows satisfying the condition, each as many times as it occurs, and preserves date order |
| Series.Period | app.py:108 | the slice of a well-dated table is well-dated |
| Series.PeriodRows | app.py:108 | `df.loc[start:end]` holds exactly the rows whose month lies between the boundary months inclusive, each as often as in the table, in date order |
| Series.WindowsAgree | app.py:108 | a row of one window is a row of every window containing its month |
| Series.Trajectory | app.py:109 | the masked rows are the window's rows with a defined Delta, each as often as in the window, in date order |
| Series.TrajectoryRows | app.py:109 | the trajectory holds exactly the window's rows with a defined Delta, each as often as in the window, in date order |
| Series.Frame.constructor | app.py:13 | the loaded table: sorted index, one entry per date in every column |
| Series.Frame.Copy | app.py:55 | the copy has the same index and columns |
| Series.Frame.SetColumn | app.py:56-59 | assigning a column replaces only that column; the index is unchanged |
| Series.Frame.Rows | app.py:108 | the rows pair each date with its Ciclo_norm and Delta, in sorted order |
| Series.Prepare | app.py:55-59 | a fresh copy gains Ciclo_norm = cycleOf(column) and Delta = Diff(Ciclo_norm); KeyError (None) exactly when the column is missing; the loaded table is untouched |
| Series.PreparedDeltas | app.py:59 | in a prepared table the first row has no Delta, later Deltas are C[t] - C[t-1], and a defined Delta implies a defined Ciclo_norm |
| Markers.FirstMatch | app.py:123 | the position of the first row whose date text starts with the marker, or None exactly when no row does |
| Markers.MatchesMonth | app.py:123 | a date text starts with a rendered month exactly when the date falls in that month |
| Markers.FirstMatchIsEarliestOfMonth | app.py:108-123 | on a sorted table the match is the earliest row of the marker's month, only earlier months precede it, and None means no row of that month |
| Markers.FirstMatchingRow | app.py:123 | `.iloc[0]` returns the first row of the table that matches the marker, and nothing (the caught IndexError) exactly when no row matches |
| Markers.FirstMatchingRowKeep | app.py:108-123 | a filter that keeps every matching row does not change the first matching row |
| Markers.PySlice | app.py:130 | Python slicing clamps: the result is at most hi - lo long |
| Markers.Caption | app.py:130-134 | the caption is the month abbreviation looked up from characters 5..7 (empty when there is none), a space and the first four characters |
| Markers.CaptionOfMonth | app.py:105-106 | a rendered month's caption is its Spanish abbreviation (never the empty default) and its four-digit year |
| Markers.Resolve | app.py:120-140 | a resolved marker carries its role and caption and the date and both values of a row of the period |
| Markers.ResolveMonth | app.py:120-140 | the marker of month m is drawn exactly when the period's first row of m has Delta and Ciclo_norm, with that row's values; skipped without error when no row falls in m |
| Markers.Present | app.py:126-128 | a resolved marker contributes exactly its own point, a skipped one none |
| Markers.ResolveMarkers | app.py:120-140 | the loop yields the start marker's point (if resolved) followed by the end marker's (if resolved): 0, 1 or 2 points |
| Axes.MinOf | app.py:151-158 | NaN-skipping minimum: None exactly when no value is defined, otherwise a defined value below all others |
| Axes.MaxOf | app.py:151-158 | NaN-skipping maximum: None exactly when no value is defined, otherwise a defined value above all others |
| Axes.Buffer | app.py:151-155 | the buffer is always positive |
| Axes.FlatBuffer | app.py:154-155 | a column whose defined values coincide (or that has none) gets the 0.5 fallback |
| Axes.SpreadBuffer | app.py:151-152 | a column with two different values gets 0.2 × (max - min) |
| Axes.Limits | app.py:157-158 | limits exist exactly when some value is defined; they strictly enclose every defined value, with equal margins of Buffer beyond min and max |
| Clock.InsideLimits | app.py:157-158 | every defined value of a column lies strictly inside that column's limits |
| Clock.SliceKeepsMarkers | app.py:108-123 | for a month inside the window, the marker found in the slice is the one the whole table gives |
| Clock.FirstMonthMarkerSkipped | app.py:59-126 | a window containing the table's first month draws no marker for it (its Delta is NaN) |
| Clock.TrajectoryInside | app.py:109-158 | every point of the trajectory has both values and lies strictly inside both axes |
| Clock.MarkersInside | app.py:120-158 | every drawn marker lies strictly inside both axes |
| Clock.DrawClock | app.py:102-158 | one tab's view is the sliced trajectory, the resolved markers and both limits; the trajectory is in date order and every trajectory point and marker lies strictly inside the axes |

## Left out

- The Excel load and its cache (app.py:11-16): file I/O; the loaded table is a `Frame` given sorted by its index.
- The natural log, the Hodrick-Prescott filter and the z-score of lines 56-58: floating-point numerics and a foreign least-squares routine; `Prepare` takes their composition as the parameter `cycleOf`. The `log_serie` column is therefore not stored in the model.
- Streamlit widgets, tabs, title, image and the per-tab loop (app.py:8, 31-48, 87-91, 164-167): user interface; the closing-month options are taken to be rendered months of the table (`PeriodsForFormatted`).
- Matplotlib drawing: figure, line, scatter sizes and shapes, annotation offsets and the Δ/C numbers of the caption, quadrant patches, reference lines (app.py:103, 111-117, 128-138, 143-148, 160): rendering only. The caption is modelled up to its first line.
- NaN axis limits: where a window has no defined Delta the source passes NaN to the plotting library's limit setter, which raises an error and stops the page (a closing month among the first 25 months of the data leaves the oldest window without one); `Limits` returns None there and `Clock.DrawClock` carries that None instead of modelling the error.
- Floating point: all arithmetic is on `real`; rounding of 0.2 × (max − min) and of differences is not modelled.
- Windows.PeriodsFor: gives periods for every closing month with a year from 1003 to 9999, while the timestamp type covers only 1677-09-21 to 2262-04-11; so for every closing month before 1680-10 (unparsable, or the oldest window would start before the range) or after 2262-04 (unparsable) the page raises where the model returns periods.
- Dates outside four-digit years: `Format` and `ParseMonth` cover years 1000–9999, which contain the timestamp type's range (1677–2262); time of day of index entries is not modelled.
- Windows.ClosingNovember2025: states the 2025-11 windows as months only; their rendered strings follow from `Windows.PeriodsAndTitles` rather than being evaluated on these literals.
