/** The sidebar's filter defaults and the filter mask of `main()`. */
module Filters {
  import opened Wrappers
  import opened Seqs
  import opened Text
  import opened Calendar
  import opened Loader

  /** The substring that picks the default species. */
  const BloomMarker := "Karenia"

  /** Length of the default date window, in days. */
  const WindowDays := 7

  /** Some row reports species `s`. */
  ghost predicate HasSpecies(rows: seq<Row>, s: string) {
    exists i :: 0 <= i < |rows| && rows[i].rec.species == Some(s)
  }

  /** `sorted(df['Result_Name'].dropna().unique())`: every species named in the table, once
      each, in increasing order. */
  function SpeciesOptions(rows: seq<Row>): (r: seq<string>)
    ensures StrictlySorted(r)
    ensures forall s :: s in r <==> HasSpecies(rows, s)
  {
    if rows == [] then []
    else
      var prefix := rows[..|rows| - 1];
      var last := rows[|rows| - 1];
      var opts := SpeciesOptions(prefix);
      assert forall s :: HasSpecies(rows, s) <==> HasSpecies(prefix, s) || last.rec.species == Some(s) by {
        forall s ensures HasSpecies(rows, s) <==> HasSpecies(prefix, s) || last.rec.species == Some(s) {
          if HasSpecies(rows, s) {
            var i :| 0 <= i < |rows| && rows[i].rec.species == Some(s);
            if i < |rows| - 1 { assert prefix[i] == rows[i]; }
          }
          if HasSpecies(prefix, s) {
            var i :| 0 <= i < |prefix| && prefix[i].rec.species == Some(s);
            assert rows[i] == prefix[i];
          }
        }
      }
      match last.rec.species
      case None => opts
      case Some(s) => Insert(opts, s)
  }

  /** The option list is the only strictly sorted list of exactly the table's species. */
  lemma SpeciesOptionsExact(rows: seq<Row>, xs: seq<string>)
    requires StrictlySorted(xs)
    requires forall s :: s in xs <==> HasSpecies(rows, s)
    ensures xs == SpeciesOptions(rows)
  {
    SortedUnique(xs, SpeciesOptions(rows));
  }

  function HasMarker(): string -> bool {
    (s: string) => Contains(s, BloomMarker)
  }

  /** `[s for s in all_species if "Karenia" in s] or all_species[:1]`. */
  function DefaultSpecies(options: seq<string>): (r: seq<string>)
    ensures IsSubseq(r, options)
    ensures StrictlySorted(options) ==> StrictlySorted(r)
    ensures (exists i :: 0 <= i < |options| && Contains(options[i], BloomMarker)) ==>
              forall s :: s in r <==> s in options && Contains(s, BloomMarker)
    ensures (forall i :: 0 <= i < |options| ==> !Contains(options[i], BloomMarker)) && options != [] ==>
              r == [options[0]]
    ensures r == [] <==> options == []
  {
    var marked := Filter(HasMarker(), options);
    FilterIsSubseq(HasMarker(), options);
    var r := if marked != [] then marked else options[..if options == [] then 0 else 1];
    assert (exists i :: 0 <= i < |options| && Contains(options[i], BloomMarker)) ==> marked != [] by {
      if exists i :: 0 <= i < |options| && Contains(options[i], BloomMarker) {
        var i :| 0 <= i < |options| && Contains(options[i], BloomMarker);
        assert HasMarker()(options[i]);
        assert options[i] in marked;
      }
    }
    assert forall s :: s in marked <==> s in options && Contains(s, BloomMarker) by {
      forall s ensures s in marked <==> s in options && Contains(s, BloomMarker) {
        if s in options && Contains(s, BloomMarker) {
          var i :| 0 <= i < |options| && options[i] == s;
          assert HasMarker()(options[i]);
        }
        if s in marked {
          var i :| 0 <= i < |marked| && marked[i] == s;
          assert HasMarker()(marked[i]);
        }
      }
    }
    assert IsSubseq(r, options) by {
      if marked == [] && options != [] {
        assert r[1..] == [];
      }
    }
    assert StrictlySorted(options) ==> StrictlySorted(r) by {
      if StrictlySorted(options) {
        SubseqKeepsSorted(r, options);
      }
    }
    r
  }

  /** The latest collection time in the table (`df['Date_Sample_Collected'].max()`, which
      skips missing dates). */
  function LatestDate(rows: seq<Row>): (r: Option<Timestamp>)
    ensures r.None? <==> forall i :: 0 <= i < |rows| ==> rows[i].rec.collected.None?
    ensures r.Some? ==> exists i :: 0 <= i < |rows| && rows[i].rec.collected == r
    ensures r.Some? ==> forall i :: 0 <= i < |rows| && rows[i].rec.collected.Some? ==>
              Instant(rows[i].rec.collected.value) <= Instant(r.value)
  {
    if rows == [] then None
    else
      var rest := LatestDate(rows[1..]);
      assert forall i :: 1 <= i < |rows| ==> rows[i] == rows[1..][i - 1];
      match rows[0].rec.collected
      case None => rest
      case Some(t) =>
        if rest.None? || Instant(t) >= Instant(rest.value) then Some(t) else rest
  }

  /** The earliest collection time in the table (`df['Date_Sample_Collected'].min()`). */
  function EarliestDate(rows: seq<Row>): (r: Option<Timestamp>)
    ensures r.None? <==> forall i :: 0 <= i < |rows| ==> rows[i].rec.collected.None?
    ensures r.Some? ==> exists i :: 0 <= i < |rows| && rows[i].rec.collected == r
    ensures r.Some? ==> forall i :: 0 <= i < |rows| && rows[i].rec.collected.Some? ==>
              Instant(r.value) <= Instant(rows[i].rec.collected.value)
  {
    if rows == [] then None
    else
      var rest := EarliestDate(rows[1..]);
      assert forall i :: 1 <= i < |rows| ==> rows[i] == rows[1..][i - 1];
      match rows[0].rec.collected
      case None => rest
      case Some(t) =>
        if rest.None? || Instant(t) <= Instant(rest.value) then Some(t) else rest
  }

  /** An inclusive range of collection times. */
  datatype Window = Window(start: Stamp, end: Stamp)

  /** The window the date picker starts with: `[max_date - timedelta(days=7), max_date]`.
      There is none when the table has no collection date. */
  function DefaultWindow(rows: seq<Row>): (r: Option<Window>)
    ensures r.None? <==> LatestDate(rows).None?
    ensures r.Some? ==> r.value.end == LatestDate(rows).value
    ensures r.Some? ==> Instant(r.value.start) == Instant(r.value.end) - WindowDays * 86400
    ensures r.Some? ==> r.value.start.secs == r.value.end.secs
  {
    match LatestDate(rows)
    case None => None
    case Some(latest) =>
      TimestampAfterFirstYear(latest);
      Some(Window(StampMinusDays(latest, WindowDays), latest))
  }

  /** The filter bounds: the two dates the picker returns, each at its midnight
      (`pd.to_datetime(date)`), or the table's earliest and latest times when the picker
      returns any other number of dates. */
  function DateBounds(rows: seq<Row>, picked: seq<CalendarDate>): (r: Option<Window>)
    ensures r.None? <==> forall i :: 0 <= i < |rows| ==> rows[i].rec.collected.None?
    ensures r.Some? && |picked| == 2 ==>
              r.value.start == Midnight(picked[0]) && r.value.end == Midnight(picked[1])
    ensures r.Some? && |picked| != 2 ==>
              r.value.start == EarliestDate(rows).value && r.value.end == LatestDate(rows).value
  {
    match (EarliestDate(rows), LatestDate(rows))
    case (Some(earliest), Some(latest)) =>
      if |picked| == 2 then Some(Window(Midnight(picked[0]), Midnight(picked[1])))
      else Some(Window(earliest, latest))
    case _ => None
  }

  /** When the picker returns anything but two dates, the bounds let every dated row through
      the date test. */
  lemma FallbackAdmitsEveryDate(rows: seq<Row>, picked: seq<CalendarDate>, i: int)
    requires |picked| != 2 && 0 <= i < |rows| && rows[i].rec.collected.Some?
    ensures DateBounds(rows, picked).Some?
    ensures var w := DateBounds(rows, picked).value;
            Instant(w.start) <= Instant(rows[i].rec.collected.value) <= Instant(w.end)
  {
  }

  /** Left untouched, the picker hands back the calendar dates of the default window, so the
      upper bound is the midnight that starts the latest sample's day: a sample taken later
      on that day falls outside. */
  lemma UntouchedPickerEndsAtMidnight(rows: seq<Row>)
    requires DefaultWindow(rows).Some?
    ensures var d := DefaultWindow(rows).value;
            var w := DateBounds(rows, [d.start.date, d.end.date]).value;
            var latest := LatestDate(rows).value;
            && w.start == Midnight(d.start.date)
            && w.end == Midnight(latest.date)
            && Instant(w.end) == Instant(latest) - latest.secs
            && Instant(w.start) == Instant(w.end) - WindowDays * 86400
  {
  }

  /** The filter mask for one row: species selected, collected within the window (both ends
      included) and a value present. */
  predicate Keep(row: Row, selected: seq<string>, w: Window)
    ensures Keep(row, selected, w) ==> Instant(w.start) <= Instant(w.end)
    ensures Keep(row, selected, w) ==>
              row.rec.species.Some? && row.rec.species.value in selected && row.rec.value.Some?
  {
    && row.rec.species.Some? && row.rec.species.value in selected
    && row.rec.collected.Some?
    && Instant(w.start) <= Instant(row.rec.collected.value) <= Instant(w.end)
    && row.rec.value.Some?
  }

  function KeepFn(selected: seq<string>, w: Window): Row -> bool {
    (row: Row) => Keep(row, selected, w)
  }

  /** `df[mask]`: the rows that pass the mask, in table order. */
  function SubTable(rows: seq<Row>, selected: seq<string>, w: Window): (sub: seq<Row>)
    ensures IsSubseq(sub, rows)
    ensures forall i :: 0 <= i < |sub| ==> sub[i] in rows && Keep(sub[i], selected, w)
    ensures forall i :: 0 <= i < |rows| && Keep(rows[i], selected, w) ==> rows[i] in sub
    ensures |sub| <= |rows|
    ensures forall x :: multiset(sub)[x] == if Keep(x, selected, w) then multiset(rows)[x] else 0
  {
    FilterIsSubseq(KeepFn(selected, w), rows);
    var sub := Filter(KeepFn(selected, w), rows);
    forall x ensures multiset(sub)[x] == if Keep(x, selected, w) then multiset(rows)[x] else 0 {
      FilterCounts(KeepFn(selected, w), rows, x);
    }
    assert forall i :: 0 <= i < |sub| ==> Keep(sub[i], selected, w) by {
      forall i | 0 <= i < |sub| ensures Keep(sub[i], selected, w) {
        assert KeepFn(selected, w)(sub[i]);
      }
    }
    sub
  }

  /** A window that ends before it starts shows nothing. */
  lemma InvertedWindowShowsNothing(rows: seq<Row>, selected: seq<string>, w: Window)
    requires Instant(w.end) < Instant(w.start)
    ensures SubTable(rows, selected, w) == []
  {
  }

  /** A selection naming no species of the table shows nothing. */
  lemma UnknownSpeciesShowsNothing(rows: seq<Row>, selected: seq<string>, w: Window)
    requires forall s :: s in selected ==> !HasSpecies(rows, s)
    ensures SubTable(rows, selected, w) == []
  {
  }
}
