# Harmful algal bloom dashboard: record pipeline

A Dafny model of the data path behind the South Australian harmful-algal-bloom map
(`algal_dashboard.py`). The program loads the monitoring records and joins them to a table
of site coordinates. It offers species and date filters with computed defaults, filters the
records, and turns each surviving record that has coordinates into a map marker with a
popup label. The model keeps that path and leaves out the Streamlit page around it.

Entities:

- A monitoring **record** (`Loader.Record`) has a site name, a collection timestamp, a
  species name, an integral cell count and a units cell. Every cell except the site may be
  missing (`Option`).
- A **coordinate entry** (`Loader.CoordEntry`) is one row of `site_coordinates.csv`.
- A **row** of the joined table (`Loader.Row`) is a record with the latitude and longitude
  attached to it.
- A **timestamp** (`Calendar.Timestamp`) is a proleptic Gregorian date plus the seconds since
  its midnight. The year is held to the whole years that pandas' nanosecond timestamps cover.
  Timestamps are compared by `Calendar.Instant`, the number of seconds since 0001-01-01.
  `Calendar.DayNumberOrdersDates` shows that this order is the calendar order.
- A **point** (`Markers.Point`) is one circle marker. It holds its position, the number
  handed to the colour scale (the value, or 1 when the value is missing) and the popup's
  HTML text.

Modules:

- `Loader`: the left join (`df.merge(..., how="left")`) and the stop on a missing
  coordinates file.
- `Filters`: the species options and their default, the default date window, the picker
  fallback, and the filter mask.
- `Markers`: the marker loop. It is an imperative method, proved against the function
  `Projection`. The module also builds the popup label.
- `Dashboard`: `main()` without its widgets, one run from loading to markers, including
  the stop when the date picker refuses its default window.
- Supporting modules: `Seqs` (mask selection and subsequences), `Text` (Python's string
  order and `in`), `NumberFormat` (digits and the `,` thousands separator of PEP 378),
  `Calendar` (dates, `timedelta` arithmetic, ISO text) and `Scenarios` (worked cases).

Behaviour of the code that a reader might not expect, as modelled:

- **Duplicate coordinate keys.** A first-match-wins lookup would keep one row per record.
  pandas' left merge instead emits one row per matching coordinate entry, in file order, so
  a record whose site is listed twice appears twice (`Loader.JoinOne`,
  `Loader.LeftJoinAppend`, `Loader.DuplicateSiteDuplicatesRecord`). Only with unique keys
  does the join keep the row count (`Loader.JoinWithUniqueSites`).
- **Missing units.** `row.get('Units', '')` gives `''` only when the `Units` column is absent.
  An empty cell is NaN and prints `nan` (`Markers.UnitsText`).
- **Value text.** `f"{value:,}"` depends on the dtype of `Result_Value_Numeric`. The
  spreadsheet reader turns whole-number cells into ints, so a column of whole numbers with
  no missing cell is int64 and 1234 prints `1,234`. One missing cell anywhere in
  `Result_Value_Numeric` makes the column float64, and then every value prints with `.0`, as in `1,234.0`. This
  holds even for markers whose own row has a value (`NumberFormat.ValueText`,
  `Loader.ValueDtype`, `Scenarios.GroupedExample`, `Scenarios.IntegerColumnExample`).
- **Order of the load steps.** The records spreadsheet is read before the coordinates file
  is looked for. A missing coordinates file still stops the page before any join.
- **Empty species default.** `all_species[:1]` is empty when the table names no species, so
  the default selection can be empty.
- **End of the date window.** The date picker returns calendar dates, and
  `pd.to_datetime(date)` is that date's midnight. Left untouched, the window therefore ends
  at the midnight that starts the latest sample's day, not at the latest sample itself.
  A sample taken later that day is filtered out (`Filters.UntouchedPickerEndsAtMidnight`).
- **Short date spans stop the page.** The picker's default starts seven days before the
  latest sample, and its `min_value` is the earliest sample. Streamlit's `date_input`
  raises when a default date lies before `min_value`. So a table whose dated rows span
  fewer than seven calendar days, such as one with a single dated row, stops the page at
  the picker, before the filter and the markers (`Dashboard.DefaultBeforeMinIffShortSpan`,
  `Dashboard.RenderMap`). Streamlit's `date_input` is not part of this model; the stop
  follows its documented check that the default lies between `min_value` and `max_value`
  inclusively, compared as calendar dates.

## Model

| member | source | states |
|---|---|---|
| `Loader.JoinOne` | algal_dashboard.py:24 | a record without a matching coordinate entry yields exactly one row with missing coordinates; otherwise it yields exactly one row per matching entry, row k carrying the k-th match's coordinates in file order; every row carries the record |
| `Loader.LeftJoin` | algal_dashboard.py:24 | the join has at least as many rows as there are records; every row's record is an input record with the coordinates of an entry for its site, or none when its site has no entry |
| `Loader.LeftJoinAppend` | algal_dashboard.py:24 | the join works record by record: appending a record appends exactly that record's rows, so the row count is the sum of the per-record counts |
| `Loader.JoinKeepsRecords` | algal_dashboard.py:24 | every record survives the join, in the original order (the records are a subsequence of the join's record column) |
| `Loader.JoinWithUniqueSites` | algal_dashboard.py:24 | with unique coordinate keys the join has exactly one row per record; row i is record i with its site's coordinates, or with none |
| `Loader.DuplicateSiteDuplicatesRecord` | algal_dashboard.py:24 | a site listed twice in the coordinates file yields two joined rows for one record |
| `Loader.LoadData` | algal_dashboard.py:14-24 | loading fails, naming the coordinates path, exactly when the coordinates file is missing; otherwise the result is the left join, which keeps every record in order (the records are a subsequence of its record column) |
| `Loader.ValueDtype` | algal_dashboard.py:15 | the value column is float64 exactly when some record's value is missing, int64 otherwise |
| `Loader.JoinKeepsValueDtype` | algal_dashboard.py:15-24 | the merged table's value column has the dtype the spreadsheet gave it |
| `Filters.SpeciesOptions` | algal_dashboard.py:123 | the options are strictly increasing in Python's string order (so free of duplicates) and are exactly the species that some row names |
| `Filters.SpeciesOptionsExact` | algal_dashboard.py:123 | any strictly sorted list of exactly the table's species equals the option list |
| `Filters.DefaultSpecies` | algal_dashboard.py:124 | the default is a subsequence of the options and sorted when they are; when some option contains "Karenia" it is exactly those options; otherwise it is the first option alone; it is empty only when there are no options |
| `Filters.LatestDate` | algal_dashboard.py:131 | the maximum skips missing dates: it is absent only when no row has a date, is some row's timestamp, and no dated row is later |
| `Filters.EarliestDate` | algal_dashboard.py:131 | the minimum skips missing dates: it is absent only when no row has a date, is some row's timestamp, and no dated row is earlier |
| `Filters.DefaultWindow` | algal_dashboard.py:131-138 | the initial window ends at the table's latest timestamp and starts exactly seven days earlier at the same time of day; there is none when no row has a date |
| `Filters.DateBounds` | algal_dashboard.py:140-143 | two picked dates give the bounds at their midnights; any other number gives the table's earliest and latest timestamps |
| `Filters.FallbackAdmitsEveryDate` | algal_dashboard.py:140-143 | when the picker does not return two dates, every dated row passes the date test |
| `Filters.UntouchedPickerEndsAtMidnight` | algal_dashboard.py:132-141 | for the untouched picker the bounds are the midnights of the default window's two dates, seven days apart; the upper one lies the latest sample's time of day before that sample |
| `Filters.SubTable` | algal_dashboard.py:150-155 | the filtered rows are an order-preserving subsequence of the table; a row is in it exactly when its species is selected, its date lies in the window with both ends included, and its value is present; each kept row occurs as often as in the table and no other row occurs, so the shown count is fixed |
| `Filters.Keep` | algal_dashboard.py:150-154 | a kept row has a selected species and a value, and a window that keeps any row does not end before it starts |
| `Filters.InvertedWindowShowsNothing` | algal_dashboard.py:150-155 | a window whose end precedes its start selects no row |
| `Filters.UnknownSpeciesShowsNothing` | algal_dashboard.py:150-155 | a selection naming no species of the table selects no row |
| `Text.ContainsIffOccurrence` | algal_dashboard.py:124 | Python's `pat in s` holds exactly when some position of `s` starts a copy of `pat` |
| `Calendar.MinusDays` | algal_dashboard.py:132 | `d - timedelta(days=n)` is a valid calendar date whose day number is exactly n less |
| `Calendar.StampMinusDays` | algal_dashboard.py:132 | subtracting n days from a timestamp keeps the time of day and moves the instant back exactly n times 86400 seconds |
| `Calendar.DayNumberOrdersDates` | algal_dashboard.py:131 | an earlier (year, month, day) has a smaller day number, so comparing instants compares timestamps chronologically |
| `Calendar.IsoDate` | algal_dashboard.py:202 | the date text is ten characters: four digits, a dash, two digits, a dash, two digits |
| `Calendar.IsoDateReadsBack` | algal_dashboard.py:202 | reading the three fields of the date text gives the date back |
| `Calendar.Midnight` | algal_dashboard.py:141 | `pd.to_datetime(date)` is the date at time of day zero: every timestamp of that date lies exactly its time of day after it |
| `NumberFormat.GroupedIsWellGrouped` | algal_dashboard.py:204 | a count renders as a leading group of one to three digits, with no leading zero, then comma-led groups of exactly three digits |
| `NumberFormat.GroupedReadsBack` | algal_dashboard.py:204 | deleting the commas from a grouped count and reading the digits gives the count back |
| `NumberFormat.Grouped` | algal_dashboard.py:204 | the grouped text of a count is non-empty, starts with a digit, and starts with a non-zero digit when the count is positive |
| `NumberFormat.ValueText` | algal_dashboard.py:204 | a missing value prints "nan"; a present value prints non-empty text that starts with '-' exactly when the value is negative |
| `NumberFormat.FloatTextAddsSuffix` | algal_dashboard.py:204 | a float64 column prints a value as the int64 text followed by ".0" |
| `NumberFormat.ValueTextReadsBack` | algal_dashboard.py:204 | the signed value text with its `.0` suffix determines the value |
| `Markers.DateText` | algal_dashboard.py:202 | the popup's date line is four digits, a dash, two digits, a dash and two digits, and reads back as the calendar date of the timestamp |
| `Markers.UnitsText` | algal_dashboard.py:204 | the units text is empty exactly when the Units column is absent or the cell holds empty text; an empty (NaN) cell prints "nan"; otherwise the cell's text |
| `Markers.PopupLayout` | algal_dashboard.py:200-205 | the popup is, in order and at fixed offsets, the bold site and a line break, the date line, a line break, the species line, a line break, the value text, a space and the units |
| `Markers.PopupReadsBack` | algal_dashboard.py:200-205 | the ten characters after the bold site read back as the collection date, and the value text after the species line reads back as the value |
| `Markers.PopupIgnoresTimeOfDay` | algal_dashboard.py:202 | two records that differ only in the time of day of collection get the same popup |
| `Markers.Marker` | algal_dashboard.py:190-205 | a located row's marker sits at the row's latitude and longitude, hands the colour scale the row's value or 1 when the value is missing, and carries the row's popup |
| `Markers.ProjectionOfLocated` | algal_dashboard.py:189-190 | the markers are exactly those of the rows with both coordinates, one each, in row order |
| `Markers.MarkersOfLocatedRows` | algal_dashboard.py:189-206 | every marker is the marker of some row that has both coordinates |
| `Markers.EveryLocatedRowPlotted` | algal_dashboard.py:189-206 | rows that all have coordinates each get their own marker, rows at the same site included |
| `Markers.ValuedRowsShadeByValue` | algal_dashboard.py:191-192 | rows that all have a value hand that value to the colour scale, marker for marker, so the fallback 1 is never used for them |
| `Markers.PlaceMarkers` | algal_dashboard.py:189-206 | the marker loop produces exactly the projection of the filtered rows |
| `Dashboard.MarkersFromShownRows` | algal_dashboard.py:150-206 | every marker is the marker of a row of the table that has both coordinates and passes the filter, and every such row has its marker among them |
| `Dashboard.DefaultBeforeMinIffShortSpan` | algal_dashboard.py:131-138 | the picker refuses its default window exactly when the latest sample's date is fewer than seven days after the earliest sample's date |
| `Dashboard.RenderMap` | algal_dashboard.py:109-206 | a run fails exactly when the coordinates file is missing (naming its path) or the picker refuses its default window; otherwise the sidebar offers the species options with their default and the default window, the total is the joined table's length, the shown count is the filtered table's length, and the markers are the projection of the filtered rows, rendered with the value column's dtype; each marker comes from a located row that passes the filter and each such row has its marker |
| `Scenarios.SecondMarked` | algal_dashboard.py:124 | of two options where only the second names Karenia, the default is the second alone |
| `Scenarios.NoneMarked` | algal_dashboard.py:124 | of two options where neither names Karenia, the default is the first alone |
| `Scenarios.KareniaDefault` | algal_dashboard.py:124 | options "Alexandrium sp." and "Karenia mikimotoi" default to the Karenia species |
| `Scenarios.GroupedThousands` | algal_dashboard.py:204 | 1234 groups as "1,234" |
| `Scenarios.GroupedExample` | algal_dashboard.py:204 | in a float64 value column a count of 1234 prints as "1,234.0" |
| `Scenarios.IntegerColumnExample` | algal_dashboard.py:204 | in an int64 value column a count of 1234 prints as "1,234" |

## Left out

- Streamlit page: the page configuration, CSS and HTML markdown, sidebar cards, the
  disclaimer and `st_folium` rendering are presentation only (algal_dashboard.py:30-121,
  145, 231-248).
- Widgets: the multiselect's and the date picker's answers are inputs of
  `Dashboard.RenderMap`. The picker's `min_value`/`max_value` clamp on dates the user picks
  is UI behaviour and is not modelled, so picked dates are arbitrary calendar dates. Its
  check of the default window is modelled: it is the `DefaultBeforeMinDate` stop.
- Injected JavaScript for the scale control and the legend position is browser-side code.
- `st.cache_data` memoisation has no behaviour of its own to state.
- File reading and parsing: `pd.read_excel`, `pd.read_csv`, `os.path.exists` and
  `pd.to_datetime` on the column are I/O or library parsing. Records and coordinate
  entries come in parsed, and the coordinates file is `None` when it does not exist. A
  missing records file (which makes `read_excel` raise) is not modelled.
- The error message of `st.error` and the mechanics of `st.stop()` are reduced to a
  `Failure(LoadFailed(CoordinatesNotFound(path)))` result. The exception the date picker
  raises is reduced to `Failure(DefaultBeforeMinDate)`; its message text is not modelled.
- The branca `LinearColormap` green-yellow-red scale is a foreign library using floating
  point. A point keeps only the number the scale is given (the value, or 1 when missing).
- Folium's `Map`/`CircleMarker` objects (radius, opacity, tiles) are rendering concerns. The
  model produces plain points.
- The "N of M records shown" caption text is not modelled. Its two counts are part of
  `Dashboard.RenderMap`.
- A table without any collection date: the source would compute NaT bounds and hand them
  to the picker. The model has no window then (`Filters.DateBounds` is `None`) and shows no
  rows.
- Merge details: the site name is a non-null string, so pandas' matching of NaN keys to each
  other is not modelled. Column-name clashes that pandas would suffix with `_x`/`_y` are not
  modelled either.
- NumberFormat.ValueText: values are integral cell counts. Fractional values (which also
  make the column float64), the exponent notation Python uses from 10^16 on, and a column
  that holds text are not modelled.
- Calendar.Stamp: time of day is kept to the second. pandas' sub-second precision is not
  modelled. Timestamp years are limited to 1678-2261, the whole years inside pandas'
  nanosecond range.
- site_coordinates/Generate_coordinates.py is not part of this model. It is a one-shot
  script that converts a spreadsheet into the coordinates file.
- Trend aggregation and a bounding box for the markers do not appear in this source file,
  so neither is modelled.
