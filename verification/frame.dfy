/**
 * The trips frame and the two analytics that work on it:
 * `group_similar_trips`, which adds its derived columns to the caller's frame
 * in place, and `weekly_avg_trips`, which works on a copy.
 */
module TripFrames {
  import opened Wrappers
  import opened Trips
  import opened Coordinates
  import opened Grouping
  import opened Weekly

  /** The six grouping columns: region, time of day, and the origin and destination cells. */
  datatype TripKey = TripKey(region: string, timeOfDay: TimeOfDay, origin: Cell, destination: Cell)

  /** The exception `round_coordinate` raised, or the failed two-way unpack of an empty frame. */
  datatype GroupError = Raised(error: CoordError) | EmptyUnpack

  /** The `time_of_day` column. */
  function TimesOfDay(trips: seq<Trip>): (column: seq<TimeOfDay>)
    ensures |column| == |trips|
  {
    seq(|trips|, i requires 0 <= i < |trips| => TimeOfDayOf(trips[i].hour))
  }

  function Origins(trips: seq<Trip>): (column: seq<string>)
    ensures |column| == |trips|
  {
    seq(|trips|, i requires 0 <= i < |trips| => trips[i].origin)
  }

  function Destinations(trips: seq<Trip>): (column: seq<string>)
    ensures |column| == |trips|
  {
    seq(|trips|, i requires 0 <= i < |trips| => trips[i].destination)
  }

  /**
   * Each trip under its grouping key, beside its datasource: two trips share a
   * key exactly when they agree on region, time of day and both cells.
   */
  function KeyedTrips(trips: seq<Trip>, origins: seq<Cell>, destinations: seq<Cell>): (rows: seq<Keyed<TripKey>>)
    requires |origins| == |trips| && |destinations| == |trips|
    ensures |rows| == |trips|
    ensures forall i :: 0 <= i < |rows| ==> rows[i].datasource == trips[i].datasource
    ensures forall i, j :: 0 <= i < |rows| && 0 <= j < |rows| ==>
      (rows[i].key == rows[j].key <==>
        trips[i].region == trips[j].region && TimeOfDayOf(trips[i].hour) == TimeOfDayOf(trips[j].hour) &&
        origins[i] == origins[j] && destinations[i] == destinations[j])
  {
    seq(|trips|, i requires 0 <= i < |trips| =>
      Keyed(TripKey(trips[i].region, TimeOfDayOf(trips[i].hour), origins[i], destinations[i]), trips[i].datasource))
  }

  /** Every coordinate of the column rounds without raising. */
  predicate AllRound(column: seq<string>, first: nat) {
    forall i :: 0 <= i < |column| ==> RoundCoordinate(column[i], first).Ok?
  }

  /**
   * The value `group_similar_trips` returns or the exception it raises: the
   * origin column is rounded first, then unpacked into two columns, then the
   * destination column, and the rows are grouped.
   */
  function GroupSimilar(trips: seq<Trip>, first: nat): (r: Result<seq<Group<TripKey>>, GroupError>)
    ensures r == Err(EmptyUnpack) <==> trips == []
    ensures r.Ok? <==> trips != [] && AllRound(Origins(trips), first) && AllRound(Destinations(trips), first)
    ensures r.Ok? ==> DistinctKeys(r.value) && TotalCount(r.value) == |trips|
  {
    match RoundColumn(Origins(trips), first)
    case Err(e) => Err(Raised(e))
    case Ok(os) =>
      if os == [] then Err(EmptyUnpack)
      else
        match RoundColumn(Destinations(trips), first)
        case Err(e) => Err(Raised(e))
        case Ok(ds) =>
          var rows := KeyedTrips(trips, os, ds);
          GroupByTotal(rows);
          Ok(GroupBy(rows))
  }

  /**
   * A successful grouping has one group per key that occurs: each counts the
   * trips under its key and collects their datasources, and none is empty.
   */
  lemma GroupSimilarGroups(trips: seq<Trip>, first: nat)
    requires GroupSimilar(trips, first).Ok?
    ensures var os, ds := RoundColumn(Origins(trips), first).value, RoundColumn(Destinations(trips), first).value;
      IsGrouping(GroupSimilar(trips, first).value, KeyedTrips(trips, os, ds))
    ensures forall g :: g in GroupSimilar(trips, first).value ==> g.count >= 1 && g.datasources != {}
  {
    var os, ds := RoundColumn(Origins(trips), first).value, RoundColumn(Destinations(trips), first).value;
    GroupsNonEmpty(GroupSimilar(trips, first).value, KeyedTrips(trips, os, ds));
  }

  /** The reported subset holds exactly the keys shared by at least two trips. */
  lemma SharedTrips(trips: seq<Trip>, first: nat, k: TripKey)
    requires GroupSimilar(trips, first).Ok?
    ensures var os, ds := RoundColumn(Origins(trips), first).value, RoundColumn(Destinations(trips), first).value;
      (exists g :: g in MoreThanOne(GroupSimilar(trips, first).value) && g.key == k) <==>
      CountOf(KeyedTrips(trips, os, ds), k) >= 2
  {
    var os, ds := RoundColumn(Origins(trips), first).value, RoundColumn(Destinations(trips), first).value;
    MoreThanOneOfGrouping(GroupSimilar(trips, first).value, KeyedTrips(trips, os, ds), k);
  }

  /** The trips table, with the columns `group_similar_trips` adds once it has run. */
  class TripFrame {
    var trips: seq<Trip>
    var timeOfDay: Option<seq<TimeOfDay>>
    var originCells: Option<seq<Cell>>
    var destinationCells: Option<seq<Cell>>

    /** Every column present has one entry per trip. */
    ghost predicate Valid()
      reads this
    {
      (timeOfDay.Some? ==> |timeOfDay.value| == |trips|) &&
      (originCells.Some? ==> |originCells.value| == |trips|) &&
      (destinationCells.Some? ==> |destinationCells.value| == |trips|)
    }

    /** A frame as ingested, without derived columns. */
    constructor (trips: seq<Trip>)
      ensures Valid()
      ensures this.trips == trips
      ensures timeOfDay.None? && originCells.None? && destinationCells.None?
    {
      this.trips := trips;
      timeOfDay := None;
      originCells := None;
      destinationCells := None;
    }

    /**
     * `group_similar_trips(df)`. The `time_of_day` column is added first, so it
     * stays even when rounding a coordinate raises; the cell columns are added
     * only once their whole column has been rounded and unpacked.
     */
    method GroupSimilarTrips(first: nat) returns (r: Result<seq<Group<TripKey>>, GroupError>)
      requires Valid()
      modifies this
      ensures Valid()
      ensures r == GroupSimilar(trips, first)
      ensures trips == old(trips)
      ensures timeOfDay == Some(TimesOfDay(trips))
      ensures var o := RoundColumn(Origins(trips), first);
        originCells == if o.Ok? && o.value != [] then Some(o.value) else old(originCells)
      ensures var o, d := RoundColumn(Origins(trips), first), RoundColumn(Destinations(trips), first);
        destinationCells == if o.Ok? && o.value != [] && d.Ok? then Some(d.value) else old(destinationCells)
    {
      timeOfDay := Some(TimesOfDay(trips));
      var origins := RoundColumn(Origins(trips), first);
      if origins.Err? {
        r := Err(Raised(origins.error));
        return;
      }
      if origins.value == [] {
        r := Err(EmptyUnpack);
        return;
      }
      originCells := Some(origins.value);
      var destinations := RoundColumn(Destinations(trips), first);
      if destinations.Err? {
        r := Err(Raised(destinations.error));
        return;
      }
      destinationCells := Some(destinations.value);
      var groups := GroupRows(KeyedTrips(trips, origins.value, destinations.value));
      r := Ok(groups);
    }

    /**
     * `weekly_avg_trips(df, bounding_box, region, location_filter)`: the frame
     * itself is left as it is, and the filters rebind a working copy.
     */
    method WeeklyAvgTrips(box: Option<Box> := None, region: Option<string> := None, filter: string := "origin")
      returns (r: Result<real, WeeklyError>)
      requires Valid()
      ensures r == WeeklyAverage(trips, originCells, destinationCells, box, region, filter)
    {
      var f := ParseLocationFilter(filter);
      if f.None? {
        r := Err(InvalidLocationFilter);
        return;
      }
      var rows := Rows(trips, originCells, destinationCells);
      if box.Some? {
        var missing := MissingColumnFor(f.value, originCells.Some?, destinationCells.Some?);
        if missing.Some? {
          r := Err(MissingColumn(missing.value));
          return;
        }
        rows := BoxStage(rows, f.value, box);
      }
      rows := RegionStage(rows, region);
      if rows == [] {
        r := Ok(0.0);
        return;
      }
      var weeks := GroupRows(WeekColumn(rows));
      GroupByTotal(WeekColumn(rows));
      GroupingSize(weeks, WeekColumn(rows));
      WeekColumnKeys(rows);
      WeeksSize(rows);
      r := Ok(TotalCount(weeks) as real / |weeks| as real);
    }
  }
}
