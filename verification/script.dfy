/** The script's top level: the frame is read, its columns renamed and
    overwritten step by step, the rows filtered, and the views of the map
    (its centre, heat list and clickable markers) built; the markers are
    added one at a time to a cluster. */
module Script {
  import opened Wrappers
  import opened Text
  import opened Pipeline

  // ----- clickable markers

  /** One clickable point: its location, the tooltip's station name and the
      record count its popup shows. */
  datatype Marker = Marker(lat: real, lon: real, name: string, count: int)

  /** The marker of one row: at the row's coordinates, labelled with the
      stripped station name, showing the metric truncated toward zero. */
  function MarkerOf(r: Record): (m: Marker)
    ensures m.lat == r.lat && m.lon == r.lon
    ensures m.name == Strip(r.posto)
    ensures 0.0 <= r.registros ==> m.count as real <= r.registros < m.count as real + 1.0
    ensures r.registros < 0.0 ==> m.count as real - 1.0 < r.registros <= m.count as real
  {
    Marker(r.lat, r.lon, Strip(r.posto), Trunc(r.registros))
  }

  /** `f` applied to each row, in row order. */
  function MapRows<T>(f: Record -> T, rs: seq<Record>): (ts: seq<T>)
    ensures |ts| == |rs|
    ensures forall i :: 0 <= i < |rs| ==> ts[i] == f(rs[i])
  {
    seq(|rs|, i requires 0 <= i < |rs| => f(rs[i]))
  }

  /** One more row adds its image at the end. */
  lemma MapRowsSnoc<T>(f: Record -> T, rs: seq<Record>, r: Record)
    ensures MapRows(f, rs + [r]) == MapRows(f, rs) + [f(r)]
  {
    var a, b := MapRows(f, rs + [r]), MapRows(f, rs) + [f(r)];
    forall k | 0 <= k < |a| ensures a[k] == b[k] {
      if k < |rs| {
        assert (rs + [r])[k] == rs[k];
      }
    }
  }

  /** The markers of the rows, in row order. */
  function MarkersOf(rs: seq<Record>): (ms: seq<Marker>)
    ensures |ms| == |rs|
    ensures forall i :: 0 <= i < |rs| ==> ms[i] == MarkerOf(rs[i])
  {
    MapRows(MarkerOf, rs)
  }

  /** One more row adds its marker at the end. */
  lemma MarkersOfSnoc(rs: seq<Record>, r: Record)
    ensures MarkersOf(rs + [r]) == MarkersOf(rs) + [MarkerOf(r)]
  {
    MapRowsSnoc(MarkerOf, rs, r);
  }

  /** The markers of one more row of a prefix. */
  lemma MarkersOfPrefix(rows: seq<Record>, i: nat)
    requires i < |rows|
    ensures MarkersOf(rows[..i + 1]) == MarkersOf(rows[..i]) + [MarkerOf(rows[i])]
  {
    assert rows[..i + 1] == rows[..i] + [rows[i]];
    MarkersOfSnoc(rows[..i], rows[i]);
  }

  /** Every clickable marker sits on the heat point of the same row. */
  lemma MarkersOnHeat(rs: seq<Record>)
    ensures |MarkersOf(rs)| == |Heat(rs)|
    ensures forall i :: 0 <= i < |rs| ==>
      MarkersOf(rs)[i].lat == Heat(rs)[i].lat && MarkersOf(rs)[i].lon == Heat(rs)[i].lon
  {
  }

  /** The count a marker shows for a row kept by the slider lies in the
      slider's range. */
  lemma {:induction false} MarkerCountsInRange(rs: seq<Record>, lo: int, hi: int)
    ensures forall m :: m in MarkersOf(RangeFilter(rs, lo, hi)) ==> lo <= m.count <= hi
  {
    var f := RangeFilter(rs, lo, hi);
    var ms := MarkersOf(f);
    forall m | m in ms ensures lo <= m.count <= hi {
      var i :| 0 <= i < |ms| && ms[i] == m;
      assert f[i] in f;
      TruncWithin(f[i].registros, lo, hi);
    }
  }

  /** The cluster the markers are added to. */
  class MarkerCluster {
    var markers: seq<Marker>

    constructor ()
      ensures markers == []
    {
      markers := [];
    }

    /** `.add_to(cluster)`: the marker goes after those already there. */
    method Add(m: Marker)
      modifies this
      ensures markers == old(markers) + [m]
    {
      markers := markers + [m];
    }
  }

  /** The `iterrows` loop: one marker per row, added in row order after
      what the cluster already holds. */
  method AddMarkers(cluster: MarkerCluster, rows: seq<Record>)
    modifies cluster
    ensures cluster.markers == old(cluster.markers) + MarkersOf(rows)
  {
    var start := cluster.markers;
    var i := 0;
    while i < |rows|
      invariant 0 <= i <= |rows|
      invariant cluster.markers == start + MarkersOf(rows[..i])
    {
      var m := MarkerOf(rows[i]);
      var done := MarkersOf(rows[..i]);
      MarkersOfPrefix(rows, i);
      cluster.Add(m);
      assert (start + done) + [m] == start + (done + [m]);
      i := i + 1;
    }
    assert rows[..i] == rows;
  }

  // ----- the whole script

  /** Why the script stops before drawing: required columns are missing
      (it shows those and the columns it found), or no row has both
      coordinates, where `int()` of the NaN minimum metric raises. */
  datatype Stop = MissingColumns(missing: seq<string>, found: seq<string>) | NoRows

  /** What the map shows. */
  datatype Views = Views(center: (real, real), heat: seq<HeatPoint>, markers: seq<Marker>)

  /** The rows with parsed coordinates, from the frame's header line and
      cell texts: it stops when a required column is missing, listing the
      missing names, and exactly when no row has both coordinates; otherwise
      the rows are those of the frame whose coordinates parsed. */
  function Prepared(headers: seq<string>, rows: seq<seq<string>>, toNumeric: string -> Option<real>): (r: Result<seq<Record>, Stop>)
    ensures r.Failure? && r.error.MissingColumns? <==> Missing(Required, NormalizeHeaders(headers)) != []
    ensures r.Failure? && r.error.MissingColumns? ==>
      r.error == MissingColumns(Missing(Required, NormalizeHeaders(headers)), NormalizeHeaders(headers))
    ensures r.Success? ==> r.value != []
    ensures r.Failure? && r.error.NoRows? ==>
      var cols := NormalizeHeaders(headers);
      "lat" in cols && "long" in cols &&
      forall k :: 0 <= k < |rows| ==>
        CoordValue(Cell(rows[k], IndexOf(cols, "lat").value)).None? ||
        CoordValue(Cell(rows[k], IndexOf(cols, "long").value)).None?
    ensures
      var cols := NormalizeHeaders(headers);
      ("posto" in cols && "lat" in cols && "long" in cols && "registros" in cols &&
       forall k :: 0 <= k < |rows| ==>
         CoordValue(Cell(rows[k], IndexOf(cols, "lat").value)).None? ||
         CoordValue(Cell(rows[k], IndexOf(cols, "long").value)).None?)
      ==> r == Failure(NoRows)
    ensures r.Success? ==>
      var cols := NormalizeHeaders(headers);
      && "posto" in cols && "lat" in cols && "long" in cols && "registros" in cols
      && r.value == DropUnparsed(Frame(cols, rows, toNumeric))
  {
    var cols := NormalizeHeaders(headers);
    var missing := Missing(Required, cols);
    if missing != [] then Failure(MissingColumns(missing, cols))
    else
      RequiredPresent(cols);
      var ss := Frame(cols, rows, toNumeric);
      var rs := DropUnparsed(ss);
      NoRowsExactly(cols, rows, toNumeric);
      if rs == [] then Failure(NoRows) else Success(rs)
  }

  /** The frame keeps no row exactly when every row lacks a latitude or a
      longitude. */
  lemma NoRowsExactly(cols: seq<string>, rows: seq<seq<string>>, toNumeric: string -> Option<real>)
    requires "posto" in cols && "lat" in cols && "long" in cols && "registros" in cols
    ensures DropUnparsed(Frame(cols, rows, toNumeric)) == [] <==>
      forall k :: 0 <= k < |rows| ==>
        CoordValue(Cell(rows[k], IndexOf(cols, "lat").value)).None? ||
        CoordValue(Cell(rows[k], IndexOf(cols, "long").value)).None?
  {
    var ss := Frame(cols, rows, toNumeric);
    if DropUnparsed(ss) == [] {
      NoneParsed(ss);
    } else {
      SomeParsed(ss);
    }
  }

  /** A non-empty drop keeps some parsed row. */
  lemma SomeParsed(ss: seq<Station>)
    requires DropUnparsed(ss) != []
    ensures exists k :: 0 <= k < |ss| && Parsed(ss[k])
  {
    var rs := DropUnparsed(ss);
    assert Stored(rs)[0] in Stored(rs);
    var k :| 0 <= k < |ss| && ss[k] == Stored(rs)[0];
  }

  /** An empty drop means no row parsed. */
  lemma NoneParsed(ss: seq<Station>)
    requires DropUnparsed(ss) == []
    ensures forall k :: 0 <= k < |ss| ==> !Parsed(ss[k])
  {
    forall k | 0 <= k < |ss| ensures !Parsed(ss[k]) {
      assert ss[k] in ss;
    }
  }

  /** The script from the fetched frame to the map's views. `pick` is the
      slider, which offers the default range and returns the selection;
      `showMarkers` is the checkbox. The frame's columns are renamed and
      overwritten in place and then rebound, as the script does. */
  method Run(headers: seq<string>, rows: seq<seq<string>>, toNumeric: string -> Option<real>,
             pick: (int, int) -> (int, int), showMarkers: bool)
    returns (out: Result<Views, Stop>)
    ensures out.Failure? <==> Prepared(headers, rows, toNumeric).Failure?
    ensures out.Failure? ==> out.error == Prepared(headers, rows, toNumeric).error
    ensures out.Success? ==>
      var rs := Prepared(headers, rows, toNumeric).value;
      var range := DefaultRange(rs).value;
      var sel := pick(range.0, range.1);
      var f := RangeFilter(rs, sel.0, sel.1);
      && out.value.center == Center(f, rs).value
      && out.value.heat == Heat(f)
      && out.value.markers == (if showMarkers then MarkersOf(f) else [])
  {
    var cols := NormalizeHeaders(headers);
    var missing := Missing(Required, cols);
    if missing != [] {
      return Failure(MissingColumns(missing, cols));
    }
    RequiredPresent(cols);
    // the frame's columns, overwritten one after another
    var posto := Column(rows, IndexOf(cols, "posto").value);
    var lat := Column(rows, IndexOf(cols, "lat").value);
    var lon := Column(rows, IndexOf(cols, "long").value);
    var reg := Column(rows, IndexOf(cols, "registros").value);
    var latValues := CoordColumn(lat);
    var lonValues := CoordColumn(lon);
    var regValues := MetricColumn(reg, toNumeric);
    var ss := Stations(posto, latValues, lonValues, regValues);
    assert ss == Frame(cols, rows, toNumeric);
    var rs := DropUnparsed(ss);
    var range := DefaultRange(rs);
    if range.None? {
      return Failure(NoRows);
    }
    var (lo, hi) := pick(range.value.0, range.value.1);
    var f := RangeFilter(rs, lo, hi);
    var center := Center(f, rs);
    var heat := Heat(f);
    var markers := [];
    if showMarkers {
      var cluster := new MarkerCluster();
      AddMarkers(cluster, f);
      markers := cluster.markers;
    }
    return Success(Views(center.value, heat, markers));
  }
}
