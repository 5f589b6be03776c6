/** The row pipeline of the heat-map script: header normalisation, the
    required-column check, coordinate and metric columns, the drop of rows
    without coordinates, the slider range filter, the weighted heat list and
    the map centre. Numbers are exact reals. */
module Pipeline {
  import opened Wrappers
  import opened Text
  import Coord
  import Dec = Decimal

  /** `a` is `b` with some elements deleted: same order, same multiplicity. */
  predicate IsSubseq<T(==)>(a: seq<T>, b: seq<T>) {
    if a == [] then true
    else if b == [] then false
    else (a[0] == b[0] && IsSubseq(a[1..], b[1..])) || IsSubseq(a, b[1..])
  }

  /** Deleting the first element of the longer sequence keeps a subsequence
      a subsequence. */
  lemma SubseqSkip<T>(a: seq<T>, b: seq<T>)
    requires b != [] && IsSubseq(a, b[1..])
    ensures IsSubseq(a, b)
  {
  }

  // ----- column names

  /** One column name after `c.strip().lower()`: no whitespace at either
      end and no upper-case ASCII letter. */
  function NormalizeHeader(c: string): (r: string)
    ensures IsStripped(r) && |r| <= |c|
    ensures forall k :: 0 <= k < |r| ==> !('A' <= r[k] <= 'Z')
  {
    LowerKeepsStripped(Strip(c));
    LowerAscii(Strip(c))
  }

  /** A name that is already normalised is left alone. */
  lemma {:induction false} NormalizeHeaderIdempotent(c: string)
    ensures NormalizeHeader(NormalizeHeader(c)) == NormalizeHeader(c)
  {
    var r := NormalizeHeader(c);
    assert r == [] + r + [];
    StripPadded([], r, []);
    LowerAsciiKeeps(r);
  }

  /** Surrounding whitespace and ASCII letter case do not matter: a header
      written ` Lat ` is found under `lat`. */
  lemma {:induction false} NormalizeHeaderPadded(lead: string, name: string, trail: string)
    requires AllSpace(lead) && AllSpace(trail) && IsStripped(name)
    ensures NormalizeHeader(lead + name + trail) == LowerAscii(name)
  {
    StripPadded(lead, name, trail);
  }

  /** `df.columns = [c.strip().lower() for c in df.columns]`: the same
      number of columns, in the same order, each one normalised. */
  function NormalizeHeaders(cols: seq<string>): (r: seq<string>)
    ensures |r| == |cols|
    ensures forall i :: 0 <= i < |r| ==> r[i] == NormalizeHeader(cols[i])
  {
    seq(|cols|, i requires 0 <= i < |cols| => NormalizeHeader(cols[i]))
  }

  /** Normalising the column names twice is normalising them once. */
  lemma {:induction false} NormalizeHeadersIdempotent(cols: seq<string>)
    ensures NormalizeHeaders(NormalizeHeaders(cols)) == NormalizeHeaders(cols)
  {
    var r := NormalizeHeaders(cols);
    forall i | 0 <= i < |r|
      ensures NormalizeHeaders(r)[i] == r[i]
    {
      NormalizeHeaderIdempotent(cols[i]);
    }
  }

  // ----- the required-column check

  /** The columns the script reads: station name, latitude, longitude and
      the metric (number of records). */
  const Required: seq<string> := ["posto", "lat", "long", "registros"]

  /** The required names that are not column names, in the order of
      `required`: exactly the absent ones, and none at all exactly when every
      required name is present. */
  function Missing(required: seq<string>, cols: seq<string>): (r: seq<string>)
    ensures IsSubseq(r, required)
    ensures forall x :: x in r <==> x in required && x !in cols
    ensures r == [] <==> forall x :: x in required ==> x in cols
  {
    if required == [] then []
    else
      var rest := Missing(required[1..], cols);
      if required[0] in cols then
        assert forall x :: x in required <==> x == required[0] || x in required[1..];
        SubseqSkip(rest, required);
        rest
      else
        var r := [required[0]] + rest;
        assert r[1..] == rest;
        assert forall x :: x in required <==> x == required[0] || x in required[1..];
        r
  }

  /** Where a column name first occurs; `None` when it does not. */
  function IndexOf(cols: seq<string>, name: string): (i: Option<nat>)
    ensures i.None? <==> name !in cols
    ensures i.Some? ==> i.value < |cols| && cols[i.value] == name && name !in cols[..i.value]
  {
    if cols == [] then None
    else if cols[0] == name then Some(0)
    else
      match IndexOf(cols[1..], name)
      case None => None
      case Some(j) =>
        assert cols[..j + 1] == [cols[0]] + cols[1..][..j];
        Some(j + 1)
  }

  // ----- the frame's cells and columns

  /** The text of the cell at position `i`, as `str()` shows it. pandas pads
      a short CSV line with empty cells, which show as `nan`, so such a
      cell's coordinate is missing. */
  function Cell(row: seq<string>, i: nat): (c: string)
    ensures i < |row| ==> c == row[i]
    ensures |row| <= i ==> Coord.ParseCoord(c) == None
  {
    if i < |row| then row[i]
    else
      Coord.MissingCoords();
      "nan"
  }

  /** The column at position `i`, one cell per row. */
  function Column(rows: seq<seq<string>>, i: nat): (c: seq<string>)
    ensures |c| == |rows|
    ensures forall k :: 0 <= k < |rows| ==> c[k] == Cell(rows[k], i)
  {
    seq(|rows|, k requires 0 <= k < |rows| => Cell(rows[k], i))
  }

  /** One coordinate cell after `parse_coord`: `None` (NaN) exactly when the
      parse yields NaN, otherwise the exact value of the decimal read. */
  function CoordValue(raw: string): (v: Option<real>)
    ensures v.None? <==> Coord.ParseCoord(raw).None?
    ensures v.Some? ==> exists d :: Coord.ParseCoord(raw) == Some(d) && v.value == Dec.Value(d)
  {
    match Coord.ParseCoord(raw)
    case None => None
    case Some(d) => Some(Dec.Value(d))
  }

  /** `df[col].apply(parse_coord)`: one value per cell, in order. */
  function CoordColumn(cells: seq<string>): (c: seq<Option<real>>)
    ensures |c| == |cells|
    ensures forall k :: 0 <= k < |c| ==> c[k] == CoordValue(cells[k])
  {
    seq(|cells|, k requires 0 <= k < |cells| => CoordValue(cells[k]))
  }

  /** `pd.to_numeric(col, errors="coerce").fillna(0)`; the conversion of one
      cell is the parameter `toNumeric`, `None` standing for its NaN. */
  function MetricColumn(cells: seq<string>, toNumeric: string -> Option<real>): (c: seq<real>)
    ensures |c| == |cells|
    ensures forall k :: 0 <= k < |c| ==> (toNumeric(cells[k]).None? ==> c[k] == 0.0)
    ensures forall k :: 0 <= k < |c| ==> (toNumeric(cells[k]).Some? ==> c[k] == toNumeric(cells[k]).value)
  {
    seq(|cells|, k requires 0 <= k < |cells| => toNumeric(cells[k]).GetOr(0.0))
  }

  // ----- rows

  /** A row once its coordinates have been parsed; a coordinate may be NaN. */
  datatype Station = Station(posto: string, lat: Option<real>, lon: Option<real>, registros: real)

  /** A row whose coordinates both parsed. */
  datatype Record = Record(posto: string, lat: real, lon: real, registros: real)

  /** The frame's rows from its four columns. */
  function Stations(posto: seq<string>, lat: seq<Option<real>>, lon: seq<Option<real>>, reg: seq<real>): (ss: seq<Station>)
    requires |lat| == |posto| && |lon| == |posto| && |reg| == |posto|
    ensures |ss| == |posto|
    ensures forall k :: 0 <= k < |ss| ==> ss[k] == Station(posto[k], lat[k], lon[k], reg[k])
  {
    seq(|posto|, k requires 0 <= k < |posto| => Station(posto[k], lat[k], lon[k], reg[k]))
  }

  /** Every required name is a column name once none is missing. */
  lemma RequiredPresent(cols: seq<string>)
    requires Missing(Required, cols) == []
    ensures "posto" in cols && "lat" in cols && "long" in cols && "registros" in cols
  {
    assert Required[0] in Required && Required[1] in Required;
    assert Required[2] in Required && Required[3] in Required;
  }

  /** The frame's rows once the coordinate columns have gone through
      `parse_coord` and the metric column through the numeric conversion:
      row `k` holds the values of row `k`'s cells in the first column of
      each required name. */
  function Frame(cols: seq<string>, rows: seq<seq<string>>, toNumeric: string -> Option<real>): (ss: seq<Station>)
    requires "posto" in cols && "lat" in cols && "long" in cols && "registros" in cols
    ensures |ss| == |rows|
    ensures forall k :: 0 <= k < |rows| ==>
      && ss[k].posto == Cell(rows[k], IndexOf(cols, "posto").value)
      && ss[k].lat == CoordValue(Cell(rows[k], IndexOf(cols, "lat").value))
      && ss[k].lon == CoordValue(Cell(rows[k], IndexOf(cols, "long").value))
      && ss[k].registros == toNumeric(Cell(rows[k], IndexOf(cols, "registros").value)).GetOr(0.0)
  {
    Stations(Column(rows, IndexOf(cols, "posto").value),
             CoordColumn(Column(rows, IndexOf(cols, "lat").value)),
             CoordColumn(Column(rows, IndexOf(cols, "long").value)),
             MetricColumn(Column(rows, IndexOf(cols, "registros").value), toNumeric))
  }

  predicate Parsed(s: Station) {
    s.lat.Some? && s.lon.Some?
  }

  function Lift(s: Station): Record
    requires Parsed(s)
  {
    Record(s.posto, s.lat.value, s.lon.value, s.registros)
  }

  /** A record seen as the frame row it came from. */
  function Forget(r: Record): Station {
    Station(r.posto, Some(r.lat), Some(r.lon), r.registros)
  }

  /** The records seen as frame rows, one for one and in order. */
  function Stored(rs: seq<Record>): (ss: seq<Station>)
    ensures |ss| == |rs|
    ensures forall k :: 0 <= k < |rs| ==> ss[k] == Forget(rs[k])
  {
    if rs == [] then [] else [Forget(rs[0])] + Stored(rs[1..])
  }

  /** `df.dropna(subset=[lat, long])`: the rows whose coordinates both
      parsed, kept in their order (seen as rows, a subsequence of the frame
      holding exactly its parsed rows). */
  function DropUnparsed(ss: seq<Station>): (r: seq<Record>)
    ensures |r| <= |ss|
    ensures IsSubseq(Stored(r), ss)
    ensures forall s :: s in Stored(r) <==> s in ss && Parsed(s)
  {
    if ss == [] then []
    else
      var rest := DropUnparsed(ss[1..]);
      assert forall s :: s in ss <==> s == ss[0] || s in ss[1..];
      if Parsed(ss[0]) then
        var r := [Lift(ss[0])] + rest;
        assert r[1..] == rest;
        assert Stored(r) == [ss[0]] + Stored(rest);
        assert Stored(r)[1..] == Stored(rest);
        r
      else
        SubseqSkip(Stored(rest), ss);
        rest
  }

  /** The drop works row by row: it distributes over concatenation, and
      with `DropOne` this determines it completely (multiplicity included). */
  lemma {:induction false} DropUnparsedAppend(a: seq<Station>, b: seq<Station>)
    ensures DropUnparsed(a + b) == DropUnparsed(a) + DropUnparsed(b)
  {
    if a == [] {
      assert a + b == b;
    } else {
      assert (a + b)[0] == a[0];
      assert (a + b)[1..] == a[1..] + b;
      DropUnparsedAppend(a[1..], b);
    }
  }

  /** A single row is kept, as its record, exactly when both coordinates
      parsed. */
  lemma DropOne(s: Station)
    ensures Parsed(s) ==> DropUnparsed([s]) == [Lift(s)]
    ensures !Parsed(s) ==> DropUnparsed([s]) == []
  {
    assert [s][1..] == [];
  }

  // ----- the slider range filter

  /** The metric lies in the slider's inclusive range. */
  /** The boolean mask `(reg >= lo) & (reg <= hi)`: a row can pass only a
      non-empty range, and its truncated count then lies in it too. */
  predicate InRange(r: Record, lo: int, hi: int)
    ensures InRange(r, lo, hi) ==> lo <= hi && lo <= Trunc(r.registros) <= hi
  {
    lo as real <= r.registros <= hi as real
  }

  /** `df[(reg >= lo) & (reg <= hi)]`: a subsequence of the rows holding
      exactly those in range. */
  function RangeFilter(rs: seq<Record>, lo: int, hi: int): (f: seq<Record>)
    ensures IsSubseq(f, rs)
    ensures forall x :: x in f <==> x in rs && InRange(x, lo, hi)
  {
    if rs == [] then []
    else
      var rest := RangeFilter(rs[1..], lo, hi);
      assert forall x :: x in rs <==> x == rs[0] || x in rs[1..];
      if InRange(rs[0], lo, hi) then
        var f := [rs[0]] + rest;
        assert f[1..] == rest;
        f
      else
        SubseqSkip(rest, rs);
        rest
  }

  /** The filter works row by row: it distributes over concatenation. */
  lemma {:induction false} RangeFilterAppend(a: seq<Record>, b: seq<Record>, lo: int, hi: int)
    ensures RangeFilter(a + b, lo, hi) == RangeFilter(a, lo, hi) + RangeFilter(b, lo, hi)
  {
    if a == [] {
      assert a + b == b;
    } else {
      assert (a + b)[0] == a[0];
      assert (a + b)[1..] == a[1..] + b;
      RangeFilterAppend(a[1..], b, lo, hi);
    }
  }

  /** Rows that are all in range are kept as they are. */
  lemma {:induction false} RangeFilterKeepsAll(rs: seq<Record>, lo: int, hi: int)
    requires forall x :: x in rs ==> InRange(x, lo, hi)
    ensures RangeFilter(rs, lo, hi) == rs
  {
    if rs != [] {
      assert rs[0] in rs;
      assert forall x :: x in rs[1..] ==> x in rs;
      RangeFilterKeepsAll(rs[1..], lo, hi);
      assert [rs[0]] + rs[1..] == rs;
    }
  }

  /** Filtering again with the same range changes nothing. */
  lemma {:induction false} RangeFilterIdempotent(rs: seq<Record>, lo: int, hi: int)
    ensures RangeFilter(RangeFilter(rs, lo, hi), lo, hi) == RangeFilter(rs, lo, hi)
  {
    RangeFilterKeepsAll(RangeFilter(rs, lo, hi), lo, hi);
  }

  /** Two filters in a row are the filter by the intersection of the
      ranges. */
  lemma {:induction false} RangeFilterNested(rs: seq<Record>, lo1: int, hi1: int, lo2: int, hi2: int)
    ensures RangeFilter(RangeFilter(rs, lo1, hi1), lo2, hi2)
      == RangeFilter(rs, if lo1 < lo2 then lo2 else lo1, if hi1 < hi2 then hi1 else hi2)
  {
    if rs != [] {
      RangeFilterNested(rs[1..], lo1, hi1, lo2, hi2);
      var f := RangeFilter(rs, lo1, hi1);
      if InRange(rs[0], lo1, hi1) {
        assert f[0] == rs[0] && f[1..] == RangeFilter(rs[1..], lo1, hi1);
      }
    }
  }

  // ----- the heat list

  /** One weighted point of the heat map. */
  datatype HeatPoint = HeatPoint(lat: real, lon: real, weight: real)

  /** `df_f[[lat, long, registros]].values.tolist()`: one point per row, in
      row order, at the row's coordinates and weighted by its metric. */
  function Heat(rs: seq<Record>): (h: seq<HeatPoint>)
    ensures |h| == |rs|
    ensures forall i :: 0 <= i < |h| ==> h[i] == HeatPoint(rs[i].lat, rs[i].lon, rs[i].registros)
  {
    seq(|rs|, i requires 0 <= i < |rs| => HeatPoint(rs[i].lat, rs[i].lon, rs[i].registros))
  }

  /** Every weight of the heat list built from the filtered rows lies in the
      slider range, and every point is the location of a row. */
  lemma HeatWithinRange(rs: seq<Record>, lo: int, hi: int)
    ensures forall p :: p in Heat(RangeFilter(rs, lo, hi)) ==> lo as real <= p.weight <= hi as real
    ensures forall p :: p in Heat(RangeFilter(rs, lo, hi)) ==>
      exists r :: r in rs && r.lat == p.lat && r.lon == p.lon
  {
    var f := RangeFilter(rs, lo, hi);
    var h := Heat(f);
    forall p | p in h
      ensures lo as real <= p.weight <= hi as real
      ensures exists r :: r in rs && r.lat == p.lat && r.lon == p.lon
    {
      var i :| 0 <= i < |h| && h[i] == p;
      assert f[i] in f;
    }
  }

  // ----- means and the map centre

  /** The total, added from the front; it equals the total added from the
      back, so the order pandas adds in does not matter for exact values. */
  function Sum(xs: seq<real>): (r: real)
    ensures r == SumFromBack(xs)
  {
    if xs == [] then 0.0
    else
      SumFromBackCons(xs);
      xs[0] + Sum(xs[1..])
  }

  /** The total added from the last value back to the first. */
  function SumFromBack(xs: seq<real>): real {
    if xs == [] then 0.0 else SumFromBack(xs[..|xs| - 1]) + xs[|xs| - 1]
  }

  /** Adding from the back also splits off the first value. */
  lemma {:induction false} SumFromBackCons(xs: seq<real>)
    requires xs != []
    ensures SumFromBack(xs) == xs[0] + SumFromBack(xs[1..])
  {
    if |xs| > 1 {
      var init := xs[..|xs| - 1];
      SumFromBackCons(init);
      assert init[1..] == xs[1..][..|xs[1..]| - 1];
      assert init[0] == xs[0];
    } else {
      assert xs[..|xs| - 1] == [] && xs[1..] == [];
    }
  }

  /** The arithmetic mean pandas' `.mean()` computes, exactly. */
  function Mean(xs: seq<real>): (m: real)
    requires |xs| > 0
    ensures m * |xs| as real == Sum(xs)
  {
    DivideTimes(Sum(xs), |xs| as real);
    Sum(xs) / |xs| as real
  }

  lemma DivideTimes(s: real, n: real)
    requires n > 0.0
    ensures s / n * n == s
  {
  }

  function Min(xs: seq<real>): (m: real)
    requires |xs| > 0
    ensures m in xs && forall x :: x in xs ==> m <= x
  {
    if |xs| == 1 then xs[0]
    else
      var m := Min(xs[1..]);
      assert forall x :: x in xs ==> x == xs[0] || x in xs[1..];
      if xs[0] <= m then xs[0] else m
  }

  function Max(xs: seq<real>): (m: real)
    requires |xs| > 0
    ensures m in xs && forall x :: x in xs ==> x <= m
  {
    if |xs| == 1 then xs[0]
    else
      var m := Max(xs[1..]);
      assert forall x :: x in xs ==> x == xs[0] || x in xs[1..];
      if m <= xs[0] then xs[0] else m
  }

  lemma {:induction false} SumBounds(xs: seq<real>, lo: real, hi: real)
    requires forall x :: x in xs ==> lo <= x <= hi
    ensures |xs| as real * lo <= Sum(xs) <= |xs| as real * hi
  {
    if xs != [] {
      assert forall x :: x in xs[1..] ==> x in xs;
      SumBounds(xs[1..], lo, hi);
      assert xs[0] in xs;
      assert Sum(xs) == xs[0] + Sum(xs[1..]);
      assert |xs| as real == |xs[1..]| as real + 1.0;
      AddBounds(|xs[1..]| as real, Sum(xs[1..]), xs[0], lo, hi);
    }
  }

  /** One more value within the bounds widens the sum's bounds by one. */
  lemma AddBounds(n: real, s: real, x: real, lo: real, hi: real)
    requires n * lo <= s <= n * hi && lo <= x <= hi
    ensures (n + 1.0) * lo <= x + s <= (n + 1.0) * hi
  {
    assert (n + 1.0) * lo == n * lo + lo && (n + 1.0) * hi == n * hi + hi;
  }

  /** A mean lies between the smallest and the largest value. */
  lemma MeanBounds(xs: seq<real>)
    requires |xs| > 0
    ensures Min(xs) <= Mean(xs) <= Max(xs)
  {
    MeanWithin(xs, Min(xs), Max(xs));
  }

  lemma MeanWithin(xs: seq<real>, lo: real, hi: real)
    requires |xs| > 0 && forall x :: x in xs ==> lo <= x <= hi
    ensures lo <= Mean(xs) <= hi
  {
    SumBounds(xs, lo, hi);
    DivideBounds(Sum(xs), |xs| as real, lo, hi);
  }

  lemma DivideBounds(s: real, n: real, lo: real, hi: real)
    requires n > 0.0 && n * lo <= s <= n * hi
    ensures lo <= s / n <= hi
  {
  }

  /** `df[lat]`: the latitude of each row, in order. */
  function Lats(rs: seq<Record>): (xs: seq<real>)
    ensures |xs| == |rs|
    ensures forall k :: 0 <= k < |rs| ==> xs[k] == rs[k].lat
  {
    seq(|rs|, i requires 0 <= i < |rs| => rs[i].lat)
  }

  /** `df[long]`: the longitude of each row, in order. */
  function Lons(rs: seq<Record>): (xs: seq<real>)
    ensures |xs| == |rs|
    ensures forall k :: 0 <= k < |rs| ==> xs[k] == rs[k].lon
  {
    seq(|rs|, i requires 0 <= i < |rs| => rs[i].lon)
  }

  /** The map centre: the mean position of the filtered rows, or of all
      rows when the filter keeps none; `None` (NaN) only when there are no
      rows at all. Each coordinate lies between the smallest and the largest
      of the rows it is taken from. */
  function Center(filtered: seq<Record>, all: seq<Record>): (c: Option<(real, real)>)
    ensures c.None? <==> filtered == [] && all == []
    ensures filtered != [] ==> c == Some((Mean(Lats(filtered)), Mean(Lons(filtered))))
    ensures filtered == [] && all != [] ==> c == Some((Mean(Lats(all)), Mean(Lons(all))))
    ensures c.Some? ==> var src := if filtered != [] then filtered else all;
      && Min(Lats(src)) <= c.value.0 <= Max(Lats(src))
      && Min(Lons(src)) <= c.value.1 <= Max(Lons(src))
  {
    var src := if filtered != [] then filtered else all;
    if src == [] then None
    else
      MeanBounds(Lats(src));
      MeanBounds(Lons(src));
      Some((Mean(Lats(src)), Mean(Lons(src))))
  }

  lemma {:induction false} MinMaxOfSubset(sub: seq<real>, xs: seq<real>)
    requires |sub| > 0 && forall x :: x in sub ==> x in xs
    ensures |xs| > 0 && Min(xs) <= Min(sub) && Max(sub) <= Max(xs)
  {
    assert sub[0] in sub;
    assert Min(sub) in xs && Max(sub) in xs;
  }

  /** When the first set is drawn from the second (as the filtered rows are
      from all rows), the centre lies in the bounding box of all rows. */
  lemma {:induction false} CenterInsideAll(filtered: seq<Record>, all: seq<Record>)
    requires forall r :: r in filtered ==> r in all
    ensures all != [] ==> Center(filtered, all).Some?
    ensures all != [] ==> var c := Center(filtered, all).value;
      && Min(Lats(all)) <= c.0 <= Max(Lats(all))
      && Min(Lons(all)) <= c.1 <= Max(Lons(all))
  {
    if filtered != [] {
      forall x | x in Lats(filtered) ensures x in Lats(all) {
        var i :| 0 <= i < |filtered| && Lats(filtered)[i] == x;
        assert filtered[i] in all;
        var j :| 0 <= j < |all| && all[j] == filtered[i];
        assert Lats(all)[j] == x;
      }
      forall x | x in Lons(filtered) ensures x in Lons(all) {
        var i :| 0 <= i < |filtered| && Lons(filtered)[i] == x;
        assert filtered[i] in all;
        var j :| 0 <= j < |all| && all[j] == filtered[i];
        assert Lons(all)[j] == x;
      }
      MinMaxOfSubset(Lats(filtered), Lats(all));
      MinMaxOfSubset(Lons(filtered), Lons(all));
    }
  }

  // ----- the slider's default range

  /** Python's `int()` on a float: truncation toward zero. */
  function Trunc(x: real): (n: int)
    ensures 0.0 <= x ==> n as real <= x < n as real + 1.0
    ensures x < 0.0 ==> n as real - 1.0 < x <= n as real
  {
    if 0.0 <= x then x.Floor else -((-x).Floor)
  }

  /** Truncation is monotone. */
  lemma TruncMonotone(x: real, y: real)
    requires x <= y
    ensures Trunc(x) <= Trunc(y)
  {
  }

  /** A value between two integers truncates to a value between them. */
  lemma TruncWithin(x: real, lo: int, hi: int)
    requires lo as real <= x <= hi as real
    ensures lo <= Trunc(x) <= hi
  {
  }

  /** `df[registros]`: the count of each row, in order. */
  function Metrics(rs: seq<Record>): (xs: seq<real>)
    ensures |xs| == |rs|
    ensures forall k :: 0 <= k < |rs| ==> xs[k] == rs[k].registros
  {
    seq(|rs|, i requires 0 <= i < |rs| => rs[i].registros)
  }

  /** `(int(reg.min()), int(reg.max()))`, the slider's bounds and default
      selection; `None` when there are no rows, where `int()` of the NaN
      minimum raises. The lower bound is the truncated count of some row
      and of no row more, the upper bound the truncated count of some row
      and of no row less, and the lower never exceeds the upper. */
  function DefaultRange(rs: seq<Record>): (r: Option<(int, int)>)
    ensures r.None? <==> rs == []
    ensures r.Some? ==> r.value.0 <= r.value.1
    ensures r.Some? ==>
      && (exists k :: 0 <= k < |rs| && r.value.0 == Trunc(rs[k].registros))
      && forall k :: 0 <= k < |rs| ==> r.value.0 <= Trunc(rs[k].registros)
    ensures r.Some? ==>
      && (exists k :: 0 <= k < |rs| && r.value.1 == Trunc(rs[k].registros))
      && forall k :: 0 <= k < |rs| ==> Trunc(rs[k].registros) <= r.value.1
  {
    if rs == [] then None
    else
      TruncMonotone(Min(Metrics(rs)), Max(Metrics(rs)));
      TruncExtremes(rs);
      Some((Trunc(Min(Metrics(rs))), Trunc(Max(Metrics(rs)))))
  }

  /** The truncated smallest and largest counts are those of rows, and bound
      the truncated count of every row. */
  lemma {:induction false} TruncExtremes(rs: seq<Record>)
    requires rs != []
    ensures exists k :: 0 <= k < |rs| && Trunc(Min(Metrics(rs))) == Trunc(rs[k].registros)
    ensures exists k :: 0 <= k < |rs| && Trunc(Max(Metrics(rs))) == Trunc(rs[k].registros)
    ensures forall k :: 0 <= k < |rs| ==>
      Trunc(Min(Metrics(rs))) <= Trunc(rs[k].registros) <= Trunc(Max(Metrics(rs)))
  {
    var xs := Metrics(rs);
    var i :| 0 <= i < |xs| && xs[i] == Min(xs);
    var j :| 0 <= j < |xs| && xs[j] == Max(xs);
    assert Trunc(Min(xs)) == Trunc(rs[i].registros);
    assert Trunc(Max(xs)) == Trunc(rs[j].registros);
    forall k | 0 <= k < |rs|
      ensures Trunc(Min(xs)) <= Trunc(rs[k].registros) <= Trunc(Max(xs))
    {
      assert xs[k] in xs;
      TruncMonotone(Min(xs), xs[k]);
      TruncMonotone(xs[k], Max(xs));
    }
  }

  predicate Integral(x: real) {
    x == x.Floor as real
  }

  /** A whole number truncates to itself. */
  lemma TruncIntegral(x: real)
    requires Integral(x)
    ensures Trunc(x) as real == x
  {
    var n := x.Floor;
    if x < 0.0 {
      assert -x == (-n) as real;
      assert ((-n) as real).Floor == -n;
    }
  }

  lemma {:induction false} MetricsOf(rs: seq<Record>)
    ensures forall r :: r in rs ==> r.registros in Metrics(rs)
    ensures (forall r :: r in rs ==> Integral(r.registros)) ==>
      forall x :: x in Metrics(rs) ==> Integral(x)
  {
    var xs := Metrics(rs);
    forall r | r in rs ensures r.registros in xs {
      var k :| 0 <= k < |rs| && rs[k] == r;
      assert xs[k] == r.registros;
    }
    if forall r :: r in rs ==> Integral(r.registros) {
      forall x | x in xs ensures Integral(x) {
        var k :| 0 <= k < |xs| && xs[k] == x;
        assert rs[k] in rs;
      }
    }
  }

  /** With whole-number metrics the default selection keeps every row. */
  lemma {:induction false} DefaultRangeKeepsAll(rs: seq<Record>)
    requires rs != [] && forall r :: r in rs ==> Integral(r.registros)
    ensures var (lo, hi) := DefaultRange(rs).value; RangeFilter(rs, lo, hi) == rs
  {
    var xs := Metrics(rs);
    var (lo, hi) := DefaultRange(rs).value;
    MetricsOf(rs);
    var mn, mx := Min(xs), Max(xs);
    TruncIntegral(mn);
    TruncIntegral(mx);
    assert lo as real == mn && hi as real == mx;
    forall r | r in rs ensures InRange(r, lo, hi) {
      assert r.registros in xs;
    }
    RangeFilterKeepsAll(rs, lo, hi);
  }

  /** Without whole-number counts the default selection can drop rows: of
      two rows counting 1 and 2.5, the range is (1, 2), which keeps only the
      first. */
  lemma FractionalCountDropped()
    ensures var rs := [Record("a", 0.0, 0.0, 1.0), Record("b", 0.0, 0.0, 2.5)];
      && DefaultRange(rs) == Some((1, 2))
      && RangeFilter(rs, 1, 2) == rs[..1]
  {
    var rs := [Record("a", 0.0, 0.0, 1.0), Record("b", 0.0, 0.0, 2.5)];
    var xs := Metrics(rs);
    assert xs == [1.0, 2.5];
    assert xs[1..] == [2.5];
    assert Min(xs) == 1.0 && Max(xs) == 2.5;
    assert Trunc(1.0) == 1 && Trunc(2.5) == 2;
    assert InRange(rs[0], 1, 2) && !InRange(rs[1], 1, 2);
    assert rs[1..][1..] == [];
    assert RangeFilter(rs[1..], 1, 2) == [];
    assert RangeFilter(rs, 1, 2) == [rs[0]] + RangeFilter(rs[1..], 1, 2);
  }
}
