/**
 * The specification of `weekly_avg_trips`: the `location_filter` check, the
 * inclusive bounding-box filter, the region filter, and the mean number of
 * trips per Monday-to-Sunday week.
 */
module Weekly {
  import opened Wrappers
  import opened Trips
  import opened Coordinates
  import opened Grouping

  datatype LocationFilter = Origin | Destination | Both

  /** The `location_filter` text that selects `f`. */
  function FilterName(f: LocationFilter): string {
    match f
    case Origin => "origin"
    case Destination => "destination"
    case Both => "both"
  }

  /** Only "origin", "destination" and "both" are accepted. */
  function ParseLocationFilter(s: string): (f: Option<LocationFilter>)
    ensures f.Some? <==> s == "origin" || s == "destination" || s == "both"
    ensures f.Some? ==> FilterName(f.value) == s
  {
    if s == "origin" then Some(Origin)
    else if s == "destination" then Some(Destination)
    else if s == "both" then Some(Both)
    else None
  }

  /** Every filter is accepted under its own name. */
  lemma ParseFilterName(f: LocationFilter)
    ensures ParseLocationFilter(FilterName(f)) == Some(f)
  {
  }

  /** `ValueError` for an unknown filter, `KeyError` for a column the frame lacks. */
  datatype WeeklyError = InvalidLocationFilter | MissingColumn(column: string)

  /** `bounding_box = (min_lat, max_lat, min_lon, max_lon)`. */
  datatype Box = Box(minLat: real, maxLat: real, minLon: real, maxLon: real)

  /** The value a rounded coordinate, kept in tenths, stands for. */
  function Degrees(tenths: int): real {
    tenths as real / 10.0
  }

  /** The box test, inclusive at both ends on both axes. */
  predicate InBox(b: Box, c: Cell) {
    b.minLat <= Degrees(c.lat) <= b.maxLat && b.minLon <= Degrees(c.lon) <= b.maxLon
  }

  /**
   * Both ends of each range are inside, and a box whose minimum exceeds its
   * maximum holds nothing.
   */
  lemma InBoxInclusive(b: Box, c: Cell)
    ensures (b.minLon <= Degrees(c.lon) <= b.maxLon && b.minLat <= b.maxLat &&
             (Degrees(c.lat) == b.minLat || Degrees(c.lat) == b.maxLat)) ==> InBox(b, c)
    ensures (b.minLat <= Degrees(c.lat) <= b.maxLat && b.minLon <= b.maxLon &&
             (Degrees(c.lon) == b.minLon || Degrees(c.lon) == b.maxLon)) ==> InBox(b, c)
    ensures b.minLat > b.maxLat || b.minLon > b.maxLon ==> !InBox(b, c)
  {
  }

  /** `outer` holds every point `inner` holds. */
  predicate Encloses(outer: Box, inner: Box) {
    outer.minLat <= inner.minLat && inner.maxLat <= outer.maxLat &&
    outer.minLon <= inner.minLon && inner.maxLon <= outer.maxLon
  }

  /** One row of the working copy: a trip and its rounded cells, when the frame has those columns. */
  datatype Row = Row(trip: Trip, origin: Option<Cell>, destination: Option<Cell>)

  function CellAt(column: Option<seq<Cell>>, i: nat): Option<Cell>
    requires column.Some? ==> i < |column.value|
  {
    if column.Some? then Some(column.value[i]) else None
  }

  /** The frame as rows: the trips beside the rounded-cell columns. */
  function Rows(trips: seq<Trip>, origins: Option<seq<Cell>>, destinations: Option<seq<Cell>>): (rows: seq<Row>)
    requires origins.Some? ==> |origins.value| == |trips|
    requires destinations.Some? ==> |destinations.value| == |trips|
    ensures |rows| == |trips|
    ensures forall i :: 0 <= i < |rows| ==> rows[i].trip == trips[i]
  {
    seq(|trips|, i requires 0 <= i < |trips| => Row(trips[i], CellAt(origins, i), CellAt(destinations, i)))
  }

  /** The column the box test of `f` reads first that the frame lacks, if any. */
  function MissingColumnFor(f: LocationFilter, hasOrigin: bool, hasDestination: bool): (c: Option<string>)
    ensures c.None? <==> (f != Destination ==> hasOrigin) && (f != Origin ==> hasDestination)
  {
    if f != Destination && !hasOrigin then Some("origin_latitude")
    else if f != Origin && !hasDestination then Some("destination_latitude")
    else None
  }

  predicate CellInBox(b: Box, c: Option<Cell>) {
    c.Some? && InBox(b, c.value)
  }

  /** The box mask: the origin, the destination, or either of them lies in the box. */
  predicate Hit(f: LocationFilter, b: Box, r: Row) {
    match f
    case Origin => CellInBox(b, r.origin)
    case Destination => CellInBox(b, r.destination)
    case Both => CellInBox(b, r.origin) || CellInBox(b, r.destination)
  }

  /**
   * The origin mask reads only the origin cell, the destination mask only the
   * destination cell, and a row without the cell is never kept.
   */
  lemma HitReadsItsColumns(b: Box, r: Row, o: Option<Cell>, d: Option<Cell>)
    ensures Hit(Origin, b, r) == Hit(Origin, b, r.(destination := d))
    ensures Hit(Destination, b, r) == Hit(Destination, b, r.(origin := o))
    ensures r.origin.None? ==> !Hit(Origin, b, r)
    ensures r.destination.None? ==> !Hit(Destination, b, r)
  {
  }

  /** `df.loc[mask]`: the rows the mask keeps, in their order. */
  function Filter(rows: seq<Row>, keep: Row -> bool): (kept: seq<Row>)
    ensures |kept| <= |rows|
    ensures forall r :: r in kept <==> r in rows && keep(r)
    ensures forall r :: multiset(kept)[r] == if keep(r) then multiset(rows)[r] else 0
  {
    if rows == [] then []
    else
      assert rows == [rows[0]] + rows[1..];
      (if keep(rows[0]) then [rows[0]] else []) + Filter(rows[1..], keep)
  }

  /** A mask that keeps every row keeps the frame as it is. */
  lemma {:induction false} FilterAll(rows: seq<Row>, keep: Row -> bool)
    requires forall r :: r in rows ==> keep(r)
    ensures Filter(rows, keep) == rows
  {
    if rows != [] {
      FilterAll(rows[1..], keep);
    }
  }

  /** `if bounding_box:` keep the rows the box mask selects. */
  function BoxStage(rows: seq<Row>, f: LocationFilter, box: Option<Box>): (kept: seq<Row>)
    ensures box.None? ==> kept == rows
    ensures box.Some? ==> forall r :: multiset(kept)[r] == if Hit(f, box.value, r) then multiset(rows)[r] else 0
  {
    if box.Some? then Filter(rows, r => Hit(f, box.value, r)) else rows
  }

  /** `if region:` keep the rows of that region; no region or an empty one keeps all. */
  function RegionStage(rows: seq<Row>, region: Option<string>): (kept: seq<Row>)
    ensures region.None? || region.value == [] ==> kept == rows
    ensures region.Some? && region.value != [] ==>
      forall r :: multiset(kept)[r] == if r.trip.region == region.value then multiset(rows)[r] else 0
  {
    if region.Some? && region.value != [] then Filter(rows, (r: Row) => r.trip.region == region.value) else rows
  }

  /**
   * `to_period("W")`: weeks run from Monday to Sunday. Day 0 (1970-01-01) was a
   * Thursday, so day 4 is the first Monday and starts week 1.
   */
  function WeekOf(day: int): int {
    (day + 3) / 7
  }

  /** Week `w` is the seven days from day `7w - 3`, a Monday, to day `7w + 3`, a Sunday. */
  lemma WeekSpan(day: int, w: int)
    ensures WeekOf(day) == w <==> 7 * w - 3 <= day <= 7 * w + 3
  {
    var q, m := (day + 3) / 7, (day + 3) % 7;
    assert day + 3 == 7 * q + m && 0 <= m < 7;
    if 7 * w - 3 <= day <= 7 * w + 3 {
      assert 7 * w <= 7 * q + m < 7 * w + 7;
      assert q <= w && w <= q;
    }
  }

  /** A new week starts exactly on a Monday. */
  lemma WeekStartsOnMonday(day: int)
    ensures (day - 4) % 7 == 0 ==> WeekOf(day) == WeekOf(day - 1) + 1
    ensures (day - 4) % 7 != 0 ==> WeekOf(day) == WeekOf(day - 1)
  {
    var q, m := (day + 2) / 7, (day + 2) % 7;
    assert day + 2 == 7 * q + m && 0 <= m < 7;
    if m == 6 {
      assert day + 3 == 7 * (q + 1);
      assert (day - 4) == 7 * q;
    } else {
      assert day + 3 == 7 * q + (m + 1);
      assert day - 4 == 7 * (q - 1) + (m + 1);
    }
  }

  /** The weeks the rows fall in. */
  function Weeks(rows: seq<Row>): set<int> {
    set r | r in rows :: WeekOf(r.trip.day)
  }

  /** The `week_year` column, beside each row's datasource. */
  function WeekColumn(rows: seq<Row>): (column: seq<Keyed<int>>)
    ensures |column| == |rows|
  {
    if rows == [] then []
    else
      var last := rows[|rows| - 1];
      WeekColumn(rows[..|rows| - 1]) + [Keyed(WeekOf(last.trip.day), last.trip.datasource)]
  }

  /** The distinct values of the `week_year` column are the weeks of the rows. */
  lemma {:induction false} WeekColumnKeys(rows: seq<Row>)
    ensures KeysOf(WeekColumn(rows)) == Weeks(rows)
  {
    if rows != [] {
      var init, last := rows[..|rows| - 1], rows[|rows| - 1];
      WeekColumnKeys(init);
      CountOfSnoc(WeekColumn(init), Keyed(WeekOf(last.trip.day), last.trip.datasource), WeekOf(last.trip.day));
      assert rows == init + [last];
      assert Weeks(rows) == Weeks(init) + {WeekOf(last.trip.day)};
    }
  }

  /** At least one week and no more weeks than rows. */
  lemma WeeksSize(rows: seq<Row>)
    requires rows != []
    ensures 1 <= |Weeks(rows)| <= |rows|
  {
    WeekColumnKeys(rows);
    KeysOfSize(WeekColumn(rows));
  }

  lemma Quotient(n: nat, w: nat)
    requires 1 <= w <= n
    ensures 1.0 <= n as real / w as real <= n as real
  {
    var q := n as real / w as real;
    assert q * w as real == n as real;
  }

  /** The mean of the per-week counts: the rows spread over the weeks that have one. */
  function MeanPerWeek(rows: seq<Row>): (mean: real)
    requires rows != []
    ensures 1.0 <= mean <= |rows| as real
    ensures mean * |Weeks(rows)| as real == |rows| as real
  {
    WeeksSize(rows);
    Quotient(|rows|, |Weeks(rows)|);
    |rows| as real / |Weeks(rows)| as real
  }

  /** `weekly_avg_trips(df, bounding_box, region, location_filter)` on a frame whose cell columns may be absent. */
  function WeeklyAverage(trips: seq<Trip>, origins: Option<seq<Cell>>, destinations: Option<seq<Cell>>,
                         box: Option<Box>, region: Option<string>, filter: string): (r: Result<real, WeeklyError>)
    requires origins.Some? ==> |origins.value| == |trips|
    requires destinations.Some? ==> |destinations.value| == |trips|
    ensures ParseLocationFilter(filter).None? ==> r == Err(InvalidLocationFilter)
    ensures r.Ok? ==> r.value == 0.0 || 1.0 <= r.value <= |trips| as real
  {
    match ParseLocationFilter(filter)
    case None => Err(InvalidLocationFilter)
    case Some(f) =>
      var missing := MissingColumnFor(f, origins.Some?, destinations.Some?);
      if box.Some? && missing.Some? then Err(MissingColumn(missing.value))
      else
        var rows := RegionStage(BoxStage(Rows(trips, origins, destinations), f, box), region);
        Ok(if rows == [] then 0.0 else MeanPerWeek(rows))
  }

  /** The trips that survive the filters. */
  function Survivors(trips: seq<Trip>, origins: Option<seq<Cell>>, destinations: Option<seq<Cell>>,
                     box: Option<Box>, region: Option<string>, f: LocationFilter): seq<Row>
    requires origins.Some? ==> |origins.value| == |trips|
    requires destinations.Some? ==> |destinations.value| == |trips|
  {
    RegionStage(BoxStage(Rows(trips, origins, destinations), f, box), region)
  }

  /** Each surviving trip is a trip of the frame that passes the box mask and is in the region. */
  lemma SurvivorsPassFilters(trips: seq<Trip>, origins: Option<seq<Cell>>, destinations: Option<seq<Cell>>,
                             box: Option<Box>, region: Option<string>, f: LocationFilter, r: Row)
    requires origins.Some? ==> |origins.value| == |trips|
    requires destinations.Some? ==> |destinations.value| == |trips|
    requires r in Survivors(trips, origins, destinations, box, region, f)
    ensures r.trip in trips
    ensures box.Some? ==> Hit(f, box.value, r)
    ensures region.Some? && region.value != [] ==> r.trip.region == region.value
  {
    var rows := Rows(trips, origins, destinations);
    assert r in rows;
    var i :| 0 <= i < |rows| && rows[i] == r;
  }

  /** With no box and no region every trip is counted: the result is trips per week. */
  lemma NoFilterKeepsAll(trips: seq<Trip>, origins: Option<seq<Cell>>, destinations: Option<seq<Cell>>,
                         region: Option<string>, f: LocationFilter)
    requires origins.Some? ==> |origins.value| == |trips|
    requires destinations.Some? ==> |destinations.value| == |trips|
    requires region.None? || region == Some([])
    ensures var r := WeeklyAverage(trips, origins, destinations, None, region, FilterName(f));
      r.Ok? && (trips == [] ==> r.value == 0.0) &&
      (trips != [] ==> r.value * |Weeks(Rows(trips, origins, destinations))| as real == |trips| as real)
  {
    ParseFilterName(f);
    var rows := Rows(trips, origins, destinations);
    assert Survivors(trips, origins, destinations, None, region, f) == rows;
  }

  /** An empty frame, or one whose every trip is filtered out, averages to zero. */
  lemma NothingSurvives(trips: seq<Trip>, origins: Option<seq<Cell>>, destinations: Option<seq<Cell>>,
                        box: Option<Box>, region: Option<string>, f: LocationFilter)
    requires origins.Some? ==> |origins.value| == |trips|
    requires destinations.Some? ==> |destinations.value| == |trips|
    requires box.Some? ==> MissingColumnFor(f, origins.Some?, destinations.Some?).None?
    requires Survivors(trips, origins, destinations, box, region, f) == []
    ensures WeeklyAverage(trips, origins, destinations, box, region, FilterName(f)) == Ok(0.0)
  {
    ParseFilterName(f);
  }

  /** A box filter names the column it cannot read, whatever the other arguments. */
  lemma MissingColumnRaises(trips: seq<Trip>, origins: Option<seq<Cell>>, destinations: Option<seq<Cell>>,
                            b: Box, region: Option<string>, f: LocationFilter)
    requires origins.Some? ==> |origins.value| == |trips|
    requires destinations.Some? ==> |destinations.value| == |trips|
    requires MissingColumnFor(f, origins.Some?, destinations.Some?).Some?
    ensures WeeklyAverage(trips, origins, destinations, Some(b), region, FilterName(f)).Err?
    ensures f == Origin ==> origins.None?
    ensures f == Destination ==> destinations.None?
  {
    ParseFilterName(f);
  }

  /** Once both cell columns exist, the only exception left is the filter check. */
  lemma CellsPresentOnlyFilterRaises(trips: seq<Trip>, origins: seq<Cell>, destinations: seq<Cell>,
                                     box: Option<Box>, region: Option<string>, filter: string)
    requires |origins| == |trips| && |destinations| == |trips|
    ensures WeeklyAverage(trips, Some(origins), Some(destinations), box, region, filter).Err? <==>
      ParseLocationFilter(filter).None?
  {
  }

  /** "both" keeps every row that "origin" or "destination" keeps, and only those. */
  lemma BothIsUnion(rows: seq<Row>, b: Box)
    ensures forall r :: r in BoxStage(rows, Both, Some(b)) <==>
      r in BoxStage(rows, Origin, Some(b)) || r in BoxStage(rows, Destination, Some(b))
  {
  }

  /** A larger box keeps at least the rows a smaller one keeps. */
  lemma LargerBoxKeepsMore(rows: seq<Row>, f: LocationFilter, outer: Box, inner: Box)
    requires Encloses(outer, inner)
    ensures multiset(BoxStage(rows, f, Some(inner))) <= multiset(BoxStage(rows, f, Some(outer)))
  {
    var small, large := BoxStage(rows, f, Some(inner)), BoxStage(rows, f, Some(outer));
    forall r ensures multiset(small)[r] <= multiset(large)[r] {
      if Hit(f, inner, r) {
        assert Hit(f, outer, r);
      }
    }
  }

  /** The region filter only removes rows, and keeps all of them when every row is in that region. */
  lemma RegionNarrows(rows: seq<Row>, region: Option<string>)
    ensures forall r :: r in RegionStage(rows, region) ==> r in rows
    ensures (forall r :: r in rows ==> region.Some? ==> r.trip.region == region.value) ==> RegionStage(rows, region) == rows
  {
    if region.Some? && region.value != [] && forall r :: r in rows ==> r.trip.region == region.value {
      FilterAll(rows, (r: Row) => r.trip.region == region.value);
    }
  }

  /** Trips all in one week average to their number. */
  lemma OneWeek(rows: seq<Row>, w: int)
    requires rows != []
    requires forall r :: r in rows ==> WeekOf(r.trip.day) == w
    ensures MeanPerWeek(rows) == |rows| as real
  {
    assert rows[0] in rows;
    assert Weeks(rows) == {w};
  }
}
