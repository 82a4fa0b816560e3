/** The marker loop of `main()`: every filtered row that has both coordinates becomes one
    circle marker with a popup label. */
module Markers {
  import opened Wrappers
  import opened Seqs
  import opened NumberFormat
  import opened Calendar
  import opened Loader

  /** A marker on the map: its position, the number handed to the colour scale, and the
      popup's HTML text. */
  datatype Point = Point(latitude: real, longitude: real, shade: int, popup: string)

  /** `pd.notna(row.get('Latitude')) and pd.notna(row.get('Longitude'))`. */
  predicate Located(row: Row) {
    row.latitude.Some? && row.longitude.Some?
  }

  function LocatedFn(): Row -> bool {
    (row: Row) => Located(row)
  }

  /** The date line: `.date()` of the timestamp, in ISO form; a missing time prints "NaT". */
  function DateText(t: Option<Timestamp>): (r: string)
    ensures t.Some? ==> |r| == 10 && ParseIsoDate(r) == t.value.date
    ensures t.Some? ==> AllDigits(r[..4]) && r[4] == '-' && AllDigits(r[5..7]) && r[7] == '-'
                        && AllDigits(r[8..])
  {
    match t
    case None => "NaT"
    case Some(s) => IsoDateReadsBack(s.date); IsoDate(s.date)
  }

  /** A text cell: a missing one prints "nan". */
  function CellText(s: Option<string>): string {
    match s
    case None => "nan"
    case Some(x) => x
  }

  /** `row.get('Units', '')`: '' without a Units column, "nan" for an empty cell. */
  function UnitsText(u: UnitsCell): (r: string)
    ensures r == "" <==> u.NoUnitsColumn? || u == Units("")
    ensures u.BlankUnits? ==> r == "nan"
    ensures u.Units? ==> r == u.text
  {
    match u
    case NoUnitsColumn => ""
    case BlankUnits => "nan"
    case Units(x) => x
  }

  /** The popup's HTML, the f-string of the marker loop: the site in bold, the calendar date,
      the species, and the value with thousands separators followed by the units, separated
      by line breaks. `d` is the dtype of the value column. */
  function Popup(rec: Record, d: Dtype): string {
    "<b>" + rec.site + "</b><br>" + DateText(rec.collected) + "<br>" + CellText(rec.species)
    + "<br>" + ValueText(rec.value, d) + " " + UnitsText(rec.units)
  }

  /** Where the pieces of a popup-shaped text lie. */
  lemma PieceOffsets(head: string, date: string, species: string, v: string, units: string)
    ensures var r := head + date + "<br>" + species + "<br>" + v + " " + units;
            var p := |head| + |date| + 4;
            var q := p + |species| + 4;
            && |r| == q + |v| + 1 + |units|
            && r[..|head|] == head
            && r[|head|..|head| + |date|] == date
            && r[|head| + |date|..p] == "<br>"
            && r[p..q - 4] == species
            && r[q - 4..q] == "<br>"
            && r[q..q + |v|] == v
            && r[q + |v|..] == " " + units
  {
  }

  /** The popup is laid out field by field, in order: the bold site and a line break, the
      date line, the species line, then the value text, a space and the units. */
  lemma PopupLayout(rec: Record, d: Dtype)
    ensures var r := Popup(rec, d);
            var head := "<b>" + rec.site + "</b><br>";
            var date := DateText(rec.collected);
            var p := |head| + |date| + 4;
            var q := p + |CellText(rec.species)| + 4;
            var v := ValueText(rec.value, d);
            && |r| == q + |v| + 1 + |UnitsText(rec.units)|
            && r[..|head|] == head
            && r[|head|..|head| + |date|] == date
            && r[|head| + |date|..p] == "<br>"
            && r[p..q - 4] == CellText(rec.species)
            && r[q - 4..q] == "<br>"
            && r[q..q + |v|] == v
            && r[q + |v|..] == " " + UnitsText(rec.units)
  {
    PieceOffsets("<b>" + rec.site + "</b><br>", DateText(rec.collected), CellText(rec.species),
                 ValueText(rec.value, d), UnitsText(rec.units));
  }

  /** The collection date and the value can be read back from the popup: the ten characters
      after the bold site give the date, and the text after the species line gives the
      value. */
  lemma PopupReadsBack(rec: Record, d: Dtype)
    ensures var r := Popup(rec, d);
            var head := "<b>" + rec.site + "</b><br>";
            var q := |head| + |DateText(rec.collected)| + 4 + |CellText(rec.species)| + 4;
            var v := ValueText(rec.value, d);
            && q + |v| <= |r|
            && (rec.collected.Some? ==> ParseIsoDate(r[|head|..|head| + 10]) == rec.collected.value.date)
            && (rec.value.Some? ==> ReadValue(r[q..q + |v|], d) == rec.value.value)
  {
    PopupLayout(rec, d);
    if rec.value.Some? {
      ValueTextReadsBack(rec.value.value, d);
    }
  }

  /** The popup shows the date only: two records that differ only in the time of day of
      their collection get the same popup. */
  lemma PopupIgnoresTimeOfDay(rec: Record, t: Timestamp, u: Timestamp, d: Dtype)
    requires t.date == u.date
    ensures Popup(rec.(collected := Some(t)), d) == Popup(rec.(collected := Some(u)), d)
  {
  }

  /** The number the colour scale receives: `value if pd.notna(value) else 1`. */
  function Shade(v: Option<int>): int {
    match v
    case None => 1
    case Some(x) => x
  }

  /** The marker for a located row. */
  function Marker(row: Row, d: Dtype): (p: Point)
    requires Located(row)
    ensures p.latitude == row.latitude.value && p.longitude == row.longitude.value
    ensures p.popup == Popup(row.rec, d)
    ensures p.shade == if row.rec.value.Some? then row.rec.value.value else 1
  {
    Point(row.latitude.value, row.longitude.value, Shade(row.rec.value), Popup(row.rec, d))
  }

  function MarkerFn(d: Dtype): Row --> Point {
    (row: Row) requires Located(row) => Marker(row, d)
  }

  /** The markers for `rows`, in row order: one per located row, none for the others. */
  function Projection(rows: seq<Row>, d: Dtype): seq<Point> {
    Project(LocatedFn(), MarkerFn(d), rows)
  }

  /** The markers are exactly those of the located rows, in order: a row without
      coordinates is skipped and nothing is merged. */
  lemma ProjectionOfLocated(rows: seq<Row>, d: Dtype)
    ensures var located := Filter(LocatedFn(), rows);
            |Projection(rows, d)| == |located|
            && forall k :: 0 <= k < |located| ==>
                 Located(located[k]) && Projection(rows, d)[k] == Marker(located[k], d)
  {
    var located := Filter(LocatedFn(), rows);
    ProjectOfFilter(LocatedFn(), MarkerFn(d), rows);
    forall k | 0 <= k < |located|
      ensures Located(located[k]) && Projection(rows, d)[k] == Marker(located[k], d)
    {
      assert LocatedFn()(located[k]);
    }
  }

  /** The point is the marker of a located row of `rows`. */
  ghost predicate FromLocatedRow(point: Point, rows: seq<Row>, d: Dtype) {
    exists i :: 0 <= i < |rows| && Located(rows[i]) && point == Marker(rows[i], d)
  }

  /** Every marker is the marker of a located row. */
  lemma MarkersOfLocatedRows(rows: seq<Row>, d: Dtype)
    ensures forall k :: 0 <= k < |Projection(rows, d)| ==> FromLocatedRow(Projection(rows, d)[k], rows, d)
  {
    ProjectionOfLocated(rows, d);
    var located := Filter(LocatedFn(), rows);
    forall k | 0 <= k < |Projection(rows, d)|
      ensures FromLocatedRow(Projection(rows, d)[k], rows, d)
    {
      var i := IndexOf(rows, located[k]);
      assert Located(rows[i]) && Projection(rows, d)[k] == Marker(rows[i], d);
    }
  }

  /** Rows that all have coordinates each get a marker, several rows at one site
      included. */
  lemma EveryLocatedRowPlotted(rows: seq<Row>, d: Dtype)
    requires forall i :: 0 <= i < |rows| ==> Located(rows[i])
    ensures |Projection(rows, d)| == |rows|
    ensures forall i :: 0 <= i < |rows| ==> Projection(rows, d)[i] == Marker(rows[i], d)
  {
    forall i | 0 <= i < |rows| ensures LocatedFn()(rows[i]) {
      assert Located(rows[i]);
    }
    FilterAll(LocatedFn(), rows);
    ProjectionOfLocated(rows, d);
  }

  /** Rows that all carry a value hand that value to the colour scale: the fallback 1 is
      never used for them. */
  lemma ValuedRowsShadeByValue(rows: seq<Row>, d: Dtype)
    requires forall row :: row in rows ==> row.rec.value.Some?
    ensures var located := Filter(LocatedFn(), rows);
            |Projection(rows, d)| == |located|
            && forall k :: 0 <= k < |located| ==>
              Some(Projection(rows, d)[k].shade) == located[k].rec.value
  {
    ProjectionOfLocated(rows, d);
  }

  /** The marker loop: walk the filtered rows and add a marker for each located one. `d`
      is the dtype of the whole table's value column. */
  method PlaceMarkers(sub: seq<Row>, d: Dtype) returns (points: seq<Point>)
    ensures points == Projection(sub, d)
  {
    points := [];
    var i := 0;
    while i < |sub|
      invariant 0 <= i <= |sub|
      invariant points == Projection(sub[..i], d)
    {
      var row := sub[i];
      if Located(row) {
        points := points + [Marker(row, d)];
      }
      assert sub[..i + 1][..i] == sub[..i] && sub[..i + 1][i] == row;
      i := i + 1;
    }
    assert sub[..|sub|] == sub;
  }
}
