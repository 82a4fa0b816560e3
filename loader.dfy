/** `load_data`: the monitoring records left-joined to the site coordinate table on
    `Site_Description`. */
module Loader {
  import opened Wrappers
  import opened Seqs
  import opened Calendar
  import opened NumberFormat

  /** The `Units` cell as `row.get('Units', '')` sees it: the column may be absent (the
      default '' is used), the cell may be empty (NaN, printed "nan"), or it holds text. */
  datatype UnitsCell = NoUnitsColumn | BlankUnits | Units(text: string)

  /** One parsed monitoring record: `Site_Description`, `Date_Sample_Collected`,
      `Result_Name`, `Result_Value_Numeric` and `Units`. `None` is a missing cell. */
  datatype Record = Record(
    site: string,
    collected: Option<Timestamp>,
    species: Option<string>,
    value: Option<int>,
    units: UnitsCell)

  /** One row of `site_coordinates.csv`. */
  datatype CoordEntry = CoordEntry(site: string, latitude: Option<real>, longitude: Option<real>)

  /** One row of the joined table: a record and the coordinates attached to it. */
  datatype Row = Row(rec: Record, latitude: Option<real>, longitude: Option<real>)

  datatype LoadError = CoordinatesNotFound(path: string)

  /** The default coordinates file name of `load_data`. */
  const DefaultCoordinatesPath := "site_coordinates.csv"

  function SiteIs(site: string): CoordEntry -> bool {
    (c: CoordEntry) => c.site == site
  }

  /** The coordinate rows whose key equals `site`, in file order. */
  function Matches(cs: seq<CoordEntry>, site: string): seq<CoordEntry> {
    Filter(SiteIs(site), cs)
  }

  /** `row` carries the coordinates of some coordinate entry for its site, or its site has
      no entry and both coordinates are missing. */
  ghost predicate Attached(row: Row, cs: seq<CoordEntry>) {
    (exists c :: c in cs && c.site == row.rec.site
       && row.latitude == c.latitude && row.longitude == c.longitude)
    || (row.latitude.None? && row.longitude.None?
        && forall c :: c in cs ==> c.site != row.rec.site)
  }

  /** The rows a left merge produces for one record: one per matching coordinate entry, or
      the record alone with missing coordinates. */
  function JoinOne(r: Record, cs: seq<CoordEntry>): (j: seq<Row>)
    ensures var ms := Matches(cs, r.site);
            && |j| == (if ms == [] then 1 else |ms|)
            && (ms == [] ==> j == [Row(r, None, None)])
            && forall k :: 0 <= k < |ms| ==> j[k] == Row(r, ms[k].latitude, ms[k].longitude)
    ensures forall k :: 0 <= k < |j| ==> j[k].rec == r && Attached(j[k], cs)
  {
    var ms := Matches(cs, r.site);
    if ms == [] then
      assert forall c :: c in cs ==> c.site != r.site by {
        forall c | c in cs ensures c.site != r.site {
          var i :| 0 <= i < |cs| && cs[i] == c;
        }
      }
      [Row(r, None, None)]
    else
      var j := seq(|ms|, i requires 0 <= i < |ms| => Row(r, ms[i].latitude, ms[i].longitude));
      assert forall k :: 0 <= k < |j| ==> Attached(j[k], cs) by {
        forall k | 0 <= k < |j| ensures Attached(j[k], cs) {
          assert ms[k] in cs && ms[k].site == r.site;
        }
      }
      j
  }

  /** `df.merge(coords_df, on="Site_Description", how="left")`: record order is kept and
      each record contributes its `JoinOne` rows. */
  function LeftJoin(rs: seq<Record>, cs: seq<CoordEntry>): (j: seq<Row>)
    ensures |j| >= |rs|
    ensures forall k :: 0 <= k < |j| ==> j[k].rec in rs && Attached(j[k], cs)
  {
    if rs == [] then []
    else
      var head := JoinOne(rs[0], cs);
      var tail := LeftJoin(rs[1..], cs);
      assert forall k :: 0 <= k < |tail| ==> tail[k].rec in rs by {
        forall k | 0 <= k < |tail| ensures tail[k].rec in rs {
          assert tail[k].rec in rs[1..];
        }
      }
      head + tail
  }

  /** Appending a record appends its rows: the join works record by record, in order. */
  lemma {:induction false} LeftJoinAppend(rs: seq<Record>, r: Record, cs: seq<CoordEntry>)
    ensures LeftJoin(rs + [r], cs) == LeftJoin(rs, cs) + JoinOne(r, cs)
  {
    if rs == [] {
      assert rs + [r] == [r] && [r][1..] == [];
    } else {
      assert (rs + [r])[0] == rs[0] && (rs + [r])[1..] == rs[1..] + [r];
      LeftJoinAppend(rs[1..], r, cs);
    }
  }

  /** The record column of a joined table. */
  function RecordsOf(j: seq<Row>): (r: seq<Record>)
    ensures |r| == |j| && forall k :: 0 <= k < |j| ==> r[k] == j[k].rec
  {
    seq(|j|, k requires 0 <= k < |j| => j[k].rec)
  }

  lemma {:induction false} SubseqOfLongerSuffix<T>(s: seq<T>, x: seq<T>, b: seq<T>)
    requires IsSubseq(s, b)
    ensures IsSubseq(s, x + b)
  {
    if x != [] && s != [] {
      SubseqOfLongerSuffix(s, x[1..], b);
      assert (x + b)[1..] == x[1..] + b;
      assert IsSubseq(s, (x + b)[1..]);
    } else if x == [] {
      assert x + b == b;
    }
  }

  lemma RecordsOfAppend(a: seq<Row>, b: seq<Row>)
    ensures RecordsOf(a + b) == RecordsOf(a) + RecordsOf(b)
  {
    assert forall k :: 0 <= k < |a| ==> (a + b)[k] == a[k];
    assert forall k :: |a| <= k < |a| + |b| ==> (a + b)[k] == b[k - |a|];
  }

  /** The left join keeps every record, in the original order. */
  lemma {:induction false} JoinKeepsRecords(rs: seq<Record>, cs: seq<CoordEntry>)
    ensures IsSubseq(rs, RecordsOf(LeftJoin(rs, cs)))
  {
    if rs != [] {
      var head := JoinOne(rs[0], cs);
      var tail := LeftJoin(rs[1..], cs);
      JoinKeepsRecords(rs[1..], cs);
      var rh, rt := RecordsOf(head), RecordsOf(tail);
      RecordsOfAppend(head, tail);
      SubseqOfLongerSuffix(rs[1..], rh[1..], rt);
      assert (rh + rt)[1..] == rh[1..] + rt;
      SubseqCons(rs, rh + rt);
    }
  }

  /** Coordinate keys that occur at most once. */
  predicate UniqueSites(cs: seq<CoordEntry>) {
    forall i, j :: 0 <= i < j < |cs| ==> cs[i].site != cs[j].site
  }

  /** The coordinate entry for `site`, if there is one (the first, should there be several). */
  function Lookup(cs: seq<CoordEntry>, site: string): Option<CoordEntry> {
    if cs == [] then None
    else if cs[0].site == site then Some(cs[0])
    else Lookup(cs[1..], site)
  }

  /** The joined row for a record and its (optional) coordinate entry. */
  function Attach(r: Record, c: Option<CoordEntry>): Row {
    match c
    case None => Row(r, None, None)
    case Some(e) => Row(r, e.latitude, e.longitude)
  }

  lemma {:induction false} UniqueMatches(cs: seq<CoordEntry>, site: string)
    requires UniqueSites(cs)
    ensures Matches(cs, site) == match Lookup(cs, site) case None => [] case Some(e) => [e]
  {
    if cs != [] {
      UniqueMatches(cs[1..], site);
      if cs[0].site == site {
      }
    }
  }

  lemma JoinOneUnique(r: Record, cs: seq<CoordEntry>)
    requires UniqueSites(cs)
    ensures JoinOne(r, cs) == [Attach(r, Lookup(cs, r.site))]
  {
    UniqueMatches(cs, r.site);
  }

  /** The row of the first record, then the rows of the others, each row being its record
      with its site's entry attached. */
  lemma AttachedInOrder(rs: seq<Record>, head: seq<Row>, tail: seq<Row>, cs: seq<CoordEntry>)
    requires rs != []
    requires head == [Attach(rs[0], Lookup(cs, rs[0].site))]
    requires |tail| == |rs[1..]|
    requires forall i :: 0 <= i < |rs[1..]| ==> tail[i] == Attach(rs[1..][i], Lookup(cs, rs[1..][i].site))
    ensures |head + tail| == |rs|
    ensures forall i :: 0 <= i < |rs| ==> (head + tail)[i] == Attach(rs[i], Lookup(cs, rs[i].site))
  {
    forall i | 0 < i < |rs|
      ensures (head + tail)[i] == Attach(rs[i], Lookup(cs, rs[i].site))
    {
      assert (head + tail)[i] == tail[i - 1];
      assert rs[1..][i - 1] == rs[i];
    }
  }

  /** With unique coordinate keys the join neither drops nor duplicates a record: row `i`
      is record `i` with the coordinates of its site's entry, or with none. */
  lemma {:induction false} JoinWithUniqueSites(rs: seq<Record>, cs: seq<CoordEntry>)
    requires UniqueSites(cs)
    ensures |LeftJoin(rs, cs)| == |rs|
    ensures forall i :: 0 <= i < |rs| ==> LeftJoin(rs, cs)[i] == Attach(rs[i], Lookup(cs, rs[i].site))
  {
    if rs != [] {
      var head, tail := JoinOne(rs[0], cs), LeftJoin(rs[1..], cs);
      JoinWithUniqueSites(rs[1..], cs);
      JoinOneUnique(rs[0], cs);
      assert LeftJoin(rs, cs) == head + tail;
      AttachedInOrder(rs, head, tail, cs);
    }
  }

  /** A site listed twice in the coordinate file yields two rows for each of its records. */
  lemma DuplicateSiteDuplicatesRecord()
    ensures
      var r := Record("Outer Harbor", None, Some("Karenia mikimotoi"), Some(1200), NoUnitsColumn);
      var cs := [CoordEntry("Outer Harbor", Some(-34.8), Some(138.5)),
                 CoordEntry("Outer Harbor", Some(-34.7), Some(138.4))];
      |LeftJoin([r], cs)| == 2
  {
    var r := Record("Outer Harbor", None, Some("Karenia mikimotoi"), Some(1200), NoUnitsColumn);
    var cs := [CoordEntry("Outer Harbor", Some(-34.8), Some(138.5)),
               CoordEntry("Outer Harbor", Some(-34.7), Some(138.4))];
    assert Matches(cs, r.site) == cs by {
      assert cs[1..][1..] == [];
    }
    assert [r][1..] == [];
  }

  /** The dtype of `Result_Value_Numeric` as `read_excel` loads it: float64 as soon as one
      cell is missing, int64 otherwise (the values are whole cell counts). */
  function ValueDtype(records: seq<Record>): (d: Dtype)
    ensures d == Float64 <==> exists i :: 0 <= i < |records| && records[i].value.None?
  {
    if records == [] then Int64
    else if records[0].value.None? then Float64
    else
      var d := ValueDtype(records[1..]);
      assert forall i :: 0 < i < |records| ==> records[i] == records[1..][i - 1];
      d
  }

  /** The join neither adds nor removes a missing value, so the merged table's value column
      keeps the dtype the spreadsheet gave it. */
  lemma JoinKeepsValueDtype(rs: seq<Record>, cs: seq<CoordEntry>)
    ensures ValueDtype(RecordsOf(LeftJoin(rs, cs))) == ValueDtype(rs)
  {
    var j := LeftJoin(rs, cs);
    var recs := RecordsOf(j);
    if ValueDtype(rs) == Float64 {
      var i :| 0 <= i < |rs| && rs[i].value.None?;
      JoinKeepsRecords(rs, cs);
      SubseqMembers(rs, recs, rs[i]);
      var k := IndexOf(recs, rs[i]);
      assert recs[k].value.None?;
    }
    if ValueDtype(recs) == Float64 {
      var k :| 0 <= k < |recs| && recs[k].value.None?;
      var i := IndexOf(rs, j[k].rec);
      assert rs[i].value.None?;
    }
  }

  /** `load_data`: a missing coordinates file stops the load before any join; otherwise the
      result is the left join, which keeps every record in order. `coords` is the parsed
      file, `None` when it does not exist. */
  function LoadData(records: seq<Record>, coords: Option<seq<CoordEntry>>, coordsPath: string)
    : (r: Result<seq<Row>, LoadError>)
    ensures r.Failure? <==> coords.None?
    ensures r.Failure? ==> r.error == CoordinatesNotFound(coordsPath)
    ensures r.Success? ==> r.value == LeftJoin(records, coords.value)
    ensures r.Success? ==> IsSubseq(records, RecordsOf(r.value))
    ensures r.Success? ==>
      forall k :: 0 <= k < |r.value| ==> r.value[k].rec in records && Attached(r.value[k], coords.value)
  {
    match coords
    case None => Failure(CoordinatesNotFound(coordsPath))
    case Some(cs) =>
      JoinKeepsRecords(records, cs);
      Success(LeftJoin(records, cs))
  }
}
