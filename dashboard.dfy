/** `main()` without its widgets: load, offer the filters, filter, and place the markers. */
module Dashboard {
  import opened Wrappers
  import opened Seqs
  import opened Calendar
  import opened Loader
  import opened Filters
  import opened Markers
  import opened NumberFormat

  /** What the sidebar widgets are given: the species options with their default selection,
      and the date picker's initial window. */
  datatype Sidebar = Sidebar(options: seq<string>, defaults: seq<string>, window: Option<Window>)

  /** One rendering: the sidebar, the "`shown` of `total` records shown" counts, and the
      markers. */
  datatype MapView = MapView(sidebar: Sidebar, shown: nat, total: nat, points: seq<Point>)

  /** Why a run stops before the map: the coordinates file is missing, or the date picker
      refuses its default window. */
  datatype RunError = LoadFailed(cause: LoadError) | DefaultBeforeMinDate

  /** Streamlit's `date_input` raises when the first date of its default lies before
      `min_value`. The default starts seven days before the latest sample, and `min_value`
      is the earliest sample; both are compared as calendar dates. */
  predicate DefaultBeforeMin(rows: seq<Row>) {
    match (DefaultWindow(rows), EarliestDate(rows))
    case (Some(w), Some(earliest)) => DayNumber(w.start.date) < DayNumber(earliest.date)
    case _ => false
  }

  /** The picker refuses its default exactly when the dated rows span fewer than seven
      calendar days, as a table with a single dated row does. */
  lemma DefaultBeforeMinIffShortSpan(rows: seq<Row>)
    ensures DefaultBeforeMin(rows) <==>
      EarliestDate(rows).Some? && LatestDate(rows).Some? &&
      DayNumber(LatestDate(rows).value.date) - DayNumber(EarliestDate(rows).value.date) < WindowDays
  {
    var w := DefaultWindow(rows);
    if w.Some? {
      assert DayNumber(w.value.start.date) == DayNumber(w.value.end.date) - WindowDays;
    }
  }

  /** The row passes the filter under the bounds the picker produced. */
  predicate Shown(row: Row, selected: seq<string>, bounds: Option<Window>) {
    bounds.Some? && Keep(row, selected, bounds.value)
  }

  /** The rows that reach the marker loop: the filtered table, or nothing when the table
      has no collection date to bound the window with. */
  function Visible(rows: seq<Row>, selected: seq<string>, bounds: Option<Window>): seq<Row> {
    if bounds.Some? then SubTable(rows, selected, bounds.value) else []
  }

  /** The point is the marker of a located row of `rows` that passes the filter. */
  ghost predicate FromShownRow(point: Point, rows: seq<Row>, selected: seq<string>, bounds: Option<Window>, d: Dtype) {
    exists row :: row in rows && Located(row) && Shown(row, selected, bounds) && point == Marker(row, d)
  }

  /** Each point is the marker of a located row of `rows` that passes the filter. */
  ghost predicate FromShownRows(points: seq<Point>, rows: seq<Row>, selected: seq<string>, bounds: Option<Window>, d: Dtype) {
    forall k :: 0 <= k < |points| ==> FromShownRow(points[k], rows, selected, bounds, d)
  }

  /** The `k`th marker of the filtered rows comes from a located row that passes the filter. */
  lemma ShownMarkerSound(rows: seq<Row>, selected: seq<string>, w: Window, d: Dtype, k: nat)
    requires k < |Projection(SubTable(rows, selected, w), d)|
    ensures FromShownRow(Projection(SubTable(rows, selected, w), d)[k], rows, selected, Some(w), d)
  {
    var sub := SubTable(rows, selected, w);
    ProjectionOfLocated(sub, d);
    var row := Filter(LocatedFn(), sub)[k];
    var i := IndexOf(sub, row);
    assert row in rows && Located(row) && Shown(row, selected, Some(w));
  }

  /** A located row that passes the filter has its marker among the filtered rows' markers. */
  lemma ShownRowPlotted(rows: seq<Row>, selected: seq<string>, w: Window, d: Dtype, i: nat)
    requires i < |rows| && Located(rows[i]) && Keep(rows[i], selected, w)
    ensures Marker(rows[i], d) in Projection(SubTable(rows, selected, w), d)
  {
    var sub := SubTable(rows, selected, w);
    var located := Filter(LocatedFn(), sub);
    ProjectionOfLocated(sub, d);
    var j := IndexOf(sub, rows[i]);
    assert LocatedFn()(sub[j]);
    var k := IndexOf(located, rows[i]);
    assert Projection(sub, d)[k] == Marker(rows[i], d);
  }

  /** The markers are those of the located rows of the table that pass the filter: each
      marker comes from such a row, and each such row has its marker. */
  lemma MarkersFromShownRows(rows: seq<Row>, selected: seq<string>, bounds: Option<Window>, d: Dtype)
    ensures FromShownRows(Projection(Visible(rows, selected, bounds), d), rows, selected, bounds, d)
    ensures forall i :: 0 <= i < |rows| && Located(rows[i]) && Shown(rows[i], selected, bounds) ==>
              Marker(rows[i], d) in Projection(Visible(rows, selected, bounds), d)
  {
    var points := Projection(Visible(rows, selected, bounds), d);
    if bounds.Some? {
      forall k | 0 <= k < |points|
        ensures FromShownRow(points[k], rows, selected, bounds, d)
      {
        ShownMarkerSound(rows, selected, bounds.value, d, k);
      }
      forall i | 0 <= i < |rows| && Located(rows[i]) && Shown(rows[i], selected, bounds)
        ensures Marker(rows[i], d) in points
      {
        ShownRowPlotted(rows, selected, bounds.value, d, i);
      }
    } else {
      assert points == [];
    }
  }

  /** One run of the page. `coords` is the parsed coordinates file (`None` when it does not
      exist), `selected` what the species multiselect returns and `picked` what the date
      picker returns. */
  method RenderMap(records: seq<Record>, coords: Option<seq<CoordEntry>>,
                   selected: seq<string>, picked: seq<CalendarDate>)
    returns (r: Result<MapView, RunError>)
    ensures r.Failure? <==> coords.None? || DefaultBeforeMin(LeftJoin(records, coords.value))
    ensures coords.None? ==> r == Failure(LoadFailed(CoordinatesNotFound(DefaultCoordinatesPath)))
    ensures coords.Some? && DefaultBeforeMin(LeftJoin(records, coords.value)) ==>
              r == Failure(DefaultBeforeMinDate)
    ensures r.Success? ==>
      var rows := LeftJoin(records, coords.value);
      var options := SpeciesOptions(rows);
      var sub := Visible(rows, selected, DateBounds(rows, picked));
      && r.value.sidebar == Sidebar(options, DefaultSpecies(options), DefaultWindow(rows))
      && r.value.total == |rows| >= |records|
      && r.value.shown == |sub| <= r.value.total
      && r.value.points == Projection(sub, ValueDtype(records))
    ensures r.Success? ==>
      var rows := LeftJoin(records, coords.value);
      var bounds := DateBounds(rows, picked);
      var d := ValueDtype(records);
      && FromShownRows(r.value.points, rows, selected, bounds, d)
      && forall i :: 0 <= i < |rows| && Located(rows[i]) && Shown(rows[i], selected, bounds) ==>
           Marker(rows[i], d) in r.value.points
  {
    var loaded := LoadData(records, coords, DefaultCoordinatesPath);
    if loaded.Failure? {
      return Failure(LoadFailed(loaded.error));
    }
    var rows := loaded.value;
    if DefaultBeforeMin(rows) {
      return Failure(DefaultBeforeMinDate);
    }
    var options := SpeciesOptions(rows);
    var sidebar := Sidebar(options, DefaultSpecies(options), DefaultWindow(rows));
    var bounds := DateBounds(rows, picked);
    var sub := Visible(rows, selected, bounds);
    var d := ValueDtype(records);
    var points := PlaceMarkers(sub, d);
    MarkersFromShownRows(rows, selected, bounds, d);
    r := Success(MapView(sidebar, |sub|, |rows|, points));
  }
}
