/**
 * The four statistics reports, each a pure function of the filtered trips: the most common
 * times, the most popular stations and route, the trip durations, and the users.
 */
module Stats {
  import opened Outcomes
  import opened Orders
  import opened Series
  import opened Trips
  import opened Duration

  // ----- time_stats -----

  datatype TimeReport = TimeReport(month: string, day: string, hour: int)

  /** `time_stats`: `mode()[0]` of the month, day and hour columns; fails on no trips. */
  function TimeStats(ts: seq<Trip>): (r: Result<TimeReport>)
    ensures r.Ok? <==> |ts| > 0
  {
    match (Mode(Months(ts), StrLe), Mode(Days(ts), StrLe), Mode(Hours(ts), IntLe))
    case (Some(m), Some(d), Some(h)) => Ok(TimeReport(m, d, h))
    case _ => Err(EmptyMode)
  }

  /**
   * The reported month, day and hour each occur in the trips, nothing occurs more often, and
   * among values as frequent the least one is reported (months and days in alphabetical order).
   */
  lemma TimeStatsReportsModes(ts: seq<Trip>)
    requires |ts| > 0
    ensures TimeStats(ts).Ok?
    ensures IsModeOf(Months(ts), StrLe, TimeStats(ts).value.month)
    ensures IsModeOf(Days(ts), StrLe, TimeStats(ts).value.day)
    ensures IsModeOf(Hours(ts), IntLe, TimeStats(ts).value.hour)
  {
    StrLeIsTotalOrder();
    IntLeIsTotalOrder();
    ModeIsLeastMostFrequent(Months(ts), StrLe);
    ModeIsLeastMostFrequent(Days(ts), StrLe);
    ModeIsLeastMostFrequent(Hours(ts), IntLe);
  }

  // ----- station_stats -----

  datatype StationReport = StationReport(start: string, end: string, route: (string, string))

  /**
   * `station_stats`: `mode()[0]` of the start and end stations, and the `idxmax()` of the sizes
   * of the (start, end) groups; fails on no trips.
   */
  function StationStats(ts: seq<Trip>): (r: Result<StationReport>)
    ensures r.Ok? <==> |ts| > 0
  {
    match (Mode(StartStations(ts), StrLe), Mode(EndStations(ts), StrLe))
    case (Some(s), Some(e)) =>
      (match IdxMax(GroupSizes(Routes(ts), PairLe))
       case Ok(route) => Ok(StationReport(s, e, route))
       case Err(f) => Err(f))
    case _ => Err(EmptyMode)
  }

  /**
   * The reported stations are modes of their columns, and the reported route is a pair that
   * occurs in the trips with the largest count, the least such pair, i.e. the mode of the routes.
   */
  lemma StationStatsReportsModes(ts: seq<Trip>)
    requires |ts| > 0
    ensures StationStats(ts).Ok?
    ensures IsModeOf(StartStations(ts), StrLe, StationStats(ts).value.start)
    ensures IsModeOf(EndStations(ts), StrLe, StationStats(ts).value.end)
    ensures IsModeOf(Routes(ts), PairLe, StationStats(ts).value.route)
    ensures StationStats(ts).value.route == Mode(Routes(ts), PairLe).value
  {
    StrLeIsTotalOrder();
    PairLeIsTotalOrder();
    ModeIsLeastMostFrequent(StartStations(ts), StrLe);
    ModeIsLeastMostFrequent(EndStations(ts), StrLe);
    IdxMaxOfGroupsIsMode(Routes(ts), PairLe);
  }

  // ----- trip_duration_stats -----

  /** The total is always reported; the mean of no trips is NaN and `int(...)` of it fails. */
  datatype DurationReport = DurationReport(total: Breakdown, mean: Result<Breakdown>)

  /** `trip_duration_stats`: the split of the sum of durations and of their (float) mean. */
  function TripDurationStats(ts: seq<Trip>): (r: DurationReport)
    ensures r.mean.Ok? <==> |ts| > 0
  {
    var total := Sum(Durations(ts));
    var mean := if |ts| == 0 then Err(NaNToInt) else Ok(SplitReal(total as real / |ts| as real));
    DurationReport(Split(total), mean)
  }

  /**
   * Both breakdowns are in range and put their seconds back together: the total exactly, the
   * mean as the whole part of sum / count. With no trips the total is 0d 0h 0m 0s.
   */
  lemma TripDurationStatsSplits(ts: seq<Trip>)
    ensures var r := TripDurationStats(ts);
      && Normal(r.total)
      && Seconds(r.total) == Sum(Durations(ts))
      && (|ts| > 0 ==> r.mean.Ok? && Normal(r.mean.value) && Seconds(r.mean.value) == Sum(Durations(ts)) / |ts|)
      && (|ts| == 0 ==> r.total == Breakdown(0, 0, 0, 0))
  {
    var total := Sum(Durations(ts));
    SplitReconstructs(total);
    if |ts| > 0 {
      var mean := total as real / |ts| as real;
      assert mean >= 0.0;
      SplitRealIsSplitOfFloor(mean);
      FloorOfQuotient(total, |ts|);
      SplitReconstructs(total / |ts|);
    } else {
      assert Durations(ts) == [];
    }
  }

  /** Three trips of 100, 200 and 4000000 seconds: 46d 7h 11m 40s in all, 15d 10h 23m 53s on average. */
  lemma ThreeTripDurations(a: Trip, b: Trip, c: Trip)
    requires a.duration == 100 && b.duration == 200 && c.duration == 4000000
    ensures TripDurationStats([a, b, c]).total == Breakdown(46, 7, 11, 40)
    ensures TripDurationStats([a, b, c]).mean == Ok(Breakdown(15, 10, 23, 53))
  {
    var ts := [a, b, c];
    var ds := Durations(ts);
    assert ds == [100, 200, 4000000];
    assert Sum(ds[1..][1..][1..]) == 0;
    assert Sum(ds[1..][1..]) == 4000000;
    assert Sum(ds[1..]) == 4000200;
    assert Sum(ds) == 4000300;
    var mean := 4000300.0 / 3.0;
    SplitRealIsSplitOfFloor(mean);
    FloorOfQuotient(4000300, 3);
  }

  // ----- user_stats -----

  datatype GenderReport = GenderNotAvailable | GenderCounts(counts: seq<Group<string>>)

  datatype BirthYearReport =
    | BirthYearNotAvailable
    | BirthYearStats(earliest: int, recent: int, common: int)

  /**
   * The user types and genders are printed before the birth years are summarised, so a failure
   * there leaves them reported.
   */
  datatype UserReport = UserReport(userTypes: seq<Group<string>>, gender: GenderReport, birthYears: Result<BirthYearReport>)

  /** `value_counts()` of a column with missing cells: the counts of its present values. */
  function ColumnCounts(col: seq<Option<string>>): seq<Group<string>> {
    ValueCounts(Present(col), StrLe)
  }

  /**
   * The birth-year part of `user_stats`: "not available" without the column; otherwise the
   * min, max and `mode()[0]` of the present years, where `int()` of the NaN min of no years fails.
   */
  function BirthYearSummary(schema: Schema, ts: seq<Trip>): (r: Result<BirthYearReport>)
    ensures r == Ok(BirthYearNotAvailable) <==> !schema.hasBirthYear
    ensures r.Err? <==> schema.hasBirthYear && forall t :: t in ts ==> t.birthYear.None?
  {
    if !schema.hasBirthYear then Ok(BirthYearNotAvailable)
    else
      var years := Present(BirthYears(ts));
      if years == [] then
        assert forall t :: t in ts ==> t.birthYear.None? by {
          forall t | t in ts ensures t.birthYear.None? {
            var i :| 0 <= i < |ts| && ts[i] == t;
            assert BirthYears(ts)[i] == t.birthYear;
          }
        }
        Err(NaNToInt)
      else
        assert exists t :: t in ts && t.birthYear.Some? by {
          var y := years[0];
          assert Count(BirthYears(ts), Some(y)) > 0;
          var i :| 0 <= i < |ts| && BirthYears(ts)[i] == Some(y);
          assert ts[i] in ts;
        }
        Ok(BirthYearStats(Min(years), Max(years), Mode(years, IntLe).value))
  }

  /**
   * With the column present and some year given, the earliest year is the least present year,
   * the most recent the largest, the most common a mode of them, and earliest <= common <= recent.
   */
  lemma BirthYearsOrdered(schema: Schema, ts: seq<Trip>)
    requires BirthYearSummary(schema, ts).Ok? && BirthYearSummary(schema, ts).value.BirthYearStats?
    ensures var b := BirthYearSummary(schema, ts).value;
      var years := Present(BirthYears(ts));
      && b.earliest in years && (forall y :: y in years ==> b.earliest <= y)
      && b.recent in years && (forall y :: y in years ==> y <= b.recent)
      && IsModeOf(years, IntLe, b.common)
      && b.earliest <= b.common <= b.recent
  {
    var years := Present(BirthYears(ts));
    IntLeIsTotalOrder();
    ModeIsLeastMostFrequent(years, IntLe);
  }

  /** `user_stats`: user-type counts, gender counts or "not available", and the birth-year summary. */
  function UserStats(ds: Dataset): (r: UserReport)
    ensures r.gender == GenderNotAvailable <==> !ds.schema.hasGender
  {
    var gender := if ds.schema.hasGender then GenderCounts(ColumnCounts(Genders(ds.trips))) else GenderNotAvailable;
    UserReport(ColumnCounts(UserTypes(ds.trips)), gender, BirthYearSummary(ds.schema, ds.trips))
  }

  /**
   * The counts of a column name each distinct present value exactly once, with the number of
   * cells holding it, largest first, and add up to the number of present cells.
   */
  lemma ColumnCountsCover(col: seq<Option<string>>)
    ensures var cs := ColumnCounts(col);
      && (forall v :: multiset(Keys(cs))[v] == if Some(v) in col then 1 else 0)
      && (forall g :: g in cs ==> g.size == Count(col, Some(g.key)))
      && SizesNonIncreasing(cs)
      && Total(cs) == |col| - Count(col, None)
  {
    var present := Present(col);
    StrLeIsTotalOrder();
    ValueCountsCounts(present, StrLe);
    forall v ensures (v in present) == (Some(v) in col) {
      assert Count(present, v) == Count(col, Some(v));
    }
  }

  /**
   * What `user_stats` reports: the user-type counts, and the gender counts when the column
   * exists, cover the present values as `ColumnCountsCover` says; without the gender column the
   * report says "not available" and the rest is still produced.
   */
  lemma UserStatsCounts(ds: Dataset)
    ensures var r := UserStats(ds);
      && r.userTypes == ColumnCounts(UserTypes(ds.trips))
      && Total(r.userTypes) == |ds.trips| - Count(UserTypes(ds.trips), None)
      && (ds.schema.hasGender ==> r.gender.GenderCounts? && Total(r.gender.counts) == |ds.trips| - Count(Genders(ds.trips), None))
  {
    ColumnCountsCover(UserTypes(ds.trips));
    ColumnCountsCover(Genders(ds.trips));
  }
}
