/** The trip records of one city's dataset, after the start time has been split into its parts. */
module Trips {
  import opened Outcomes

  /**
   * One row. `month`, `dayOfWeek` and `hour` are the columns derived from the start time
   * (lower-case month and weekday names, hour 0 to 23). Missing cells are `None`.
   */
  datatype Trip = Trip(
    month: string,
    dayOfWeek: string,
    hour: int,
    startStation: string,
    endStation: string,
    userType: Option<string>,
    duration: nat,
    gender: Option<string>,
    birthYear: Option<int>)

  /** Which optional columns the dataset's file has; fixed when the file is read. */
  datatype Schema = Schema(hasGender: bool, hasBirthYear: bool)

  datatype Dataset = Dataset(schema: Schema, trips: seq<Trip>)

  // The columns of a sequence of trips, row by row.

  function Months(ts: seq<Trip>): seq<string> {
    seq(|ts|, i requires 0 <= i < |ts| => ts[i].month)
  }

  function Days(ts: seq<Trip>): seq<string> {
    seq(|ts|, i requires 0 <= i < |ts| => ts[i].dayOfWeek)
  }

  function Hours(ts: seq<Trip>): seq<int> {
    seq(|ts|, i requires 0 <= i < |ts| => ts[i].hour)
  }

  function StartStations(ts: seq<Trip>): seq<string> {
    seq(|ts|, i requires 0 <= i < |ts| => ts[i].startStation)
  }

  function EndStations(ts: seq<Trip>): seq<string> {
    seq(|ts|, i requires 0 <= i < |ts| => ts[i].endStation)
  }

  /** The (start station, end station) pair of every row: the keys `groupby` forms. */
  function Routes(ts: seq<Trip>): seq<(string, string)> {
    seq(|ts|, i requires 0 <= i < |ts| => (ts[i].startStation, ts[i].endStation))
  }

  function Durations(ts: seq<Trip>): seq<nat> {
    seq(|ts|, i requires 0 <= i < |ts| => ts[i].duration)
  }

  function UserTypes(ts: seq<Trip>): seq<Option<string>> {
    seq(|ts|, i requires 0 <= i < |ts| => ts[i].userType)
  }

  function Genders(ts: seq<Trip>): seq<Option<string>> {
    seq(|ts|, i requires 0 <= i < |ts| => ts[i].gender)
  }

  function BirthYears(ts: seq<Trip>): seq<Option<int>> {
    seq(|ts|, i requires 0 <= i < |ts| => ts[i].birthYear)
  }
}
