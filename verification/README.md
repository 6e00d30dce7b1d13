# Bikeshare statistics: a Dafny model

This project models the analysis core of the bikeshare script `bikeshare_2.py`. It covers four
steps:

- **Filtering.** A city's trips are restricted to a month and a day of the week, either of
  which may be `all`.
- **Statistics.** Four reports are computed over what remains: the most common travel times,
  the most popular stations and start/end route, the total and mean trip duration in days,
  hours, minutes and seconds, and the user-type, gender and birth-year summaries.
- **Raw-data paging.** The filtered rows are shown five at a time for as long as the user
  answers yes.
- **pandas operations.** The `Series` operations these steps rely on are modelled as functions
  over sequences: `mode()[0]`, `groupby(...).size().idxmax()`, `value_counts()`, `min()`,
  `max()`, `sum()` and the dropping of missing cells.

Modules, one file each:

- `outcomes.dfy` (`Outcomes`): `Option` for a missing cell, and `Result` with the three
  exceptions the script can raise on data it cannot summarise:
  - `mode()[0]` of no values;
  - `idxmax()` of no groups;
  - `int()` of NaN.
- `orders.dfy` (`Orders`): Python's ordering of strings, integers and string pairs, each proved
  to be a total order.
- `series.dfy` (`Series`): the pandas operations, with their meaning proved.
  - `mode()[0]` is the least of the most frequent values.
  - `groupby` plus `idxmax` gives the same value as `mode()[0]`.
  - `value_counts()` lists each distinct value once, with its count, largest count first.
- `trips.dfy` (`Trips`): the trip record, the schema (whether the gender and birth-year columns
  exist), and the column projections.
- `loader.dfy` (`Loader`): the filtering of `load_data`.
- `duration.dfy` (`Duration`): the days/hours/minutes/seconds split and its inverse. It also
  proves that the float steps on the mean give the split of the whole part of the mean.
- `stats.dfy` (`Stats`): `time_stats`, `station_stats`, `trip_duration_stats` and `user_stats`.
- `rawdata.dfy` (`RawData`): `display_raw_data`, a method with a loop. The user's answers are an
  input sequence.

Where the written design of the system and the code disagree, the model follows the code:

- **Tie-breaking.** The design says a tie goes to the value seen first. The code uses
  `Series.mode()`, which lists tied values in sorted order, and `[0]` takes the least of them.
  For the start/end route, `groupby` sorts its keys and `idxmax` takes the first maximum, so the
  least pair wins. Months and days therefore tie alphabetically, not in calendar order.
- **The worked duration example.** The design gives 46d 7h 31m 40s and 15d 10h 17m 13s for trips
  of 100, 200 and 4000000 seconds. The code yields 46d 7h 11m 40s and 15d 10h 23m 53s
  (`Stats.ThreeTripDurations`).
- **Month vocabulary.** The design speaks of twelve months. The prompt in the code accepts only
  `all` and `january` to `june`.
- **Empty data.** The design calls station statistics on an empty dataset a caller's error. The
  code simply fails, and so does every `mode()[0]`. The model states these failures as `Err`
  results rather than as preconditions.

## Model

| member | source | states |
|---|---|---|
| `Loader.Where` | bikeshare_2.py:68-72 | `df[df[col] == v]` keeps every row whose column holds `v`, each as often as in the input, keeps no other row, and keeps input order (a subsequence) |
| `Loader.LoadData` | bikeshare_2.py:68-74 | the result holds exactly the trips matching the month selector (unless `all`) and the day selector (unless `all`), with their multiplicities and in input order; with both `all` it is the input unchanged |
| `Loader.SubsequenceTransitive` | bikeshare_2.py:68-72 | filtering a filtered sequence still gives a subsequence of the original, so the two filters together preserve order |
| `Loader.FilteredMonthsAreOffered` | bikeshare_2.py:33-37 | with a month from the prompt's choices other than `all`, every kept trip is in January to June |
| `Orders.StrLeIsTotalOrder` | bikeshare_2.py:89-90 | Python's string comparison, which sorts the tied modes, is total, antisymmetric and transitive |
| `Orders.PairLeIsTotalOrder` | bikeshare_2.py:114-115 | the order `groupby` sorts (start, end) keys in is a total order |
| `Series.Mode` | bikeshare_2.py:89-91 | `mode()[0]` fails exactly on an empty column; otherwise it is a value of the column that no value outnumbers |
| `Series.ModeIsLeastMostFrequent` | bikeshare_2.py:89-91 | among the most frequent values, `mode()[0]` is the least |
| `Series.ModeIsUnique` | bikeshare_2.py:89-91 | at most one value is a most frequent value that is least among those tied, so the reported mode is determined by the column |
| `Series.GroupSizesGroups` | bikeshare_2.py:114-115 | `groupby(...).size()` has strictly ascending keys, each with a positive size equal to its number of rows, and the sizes add up to the number of rows |
| `Series.GroupsCoverColumn` | bikeshare_2.py:114-115 | every group is a value of the column with its exact count, and every value of the column has a group |
| `Series.ArgMax` | bikeshare_2.py:115 | `idxmax` picks a position holding the largest size, with only smaller sizes before it |
| `Series.IdxMax` | bikeshare_2.py:114-115 | `idxmax()` fails on no groups; otherwise it returns the key of a largest group |
| `Series.IdxMaxOfGroupsIsMode` | bikeshare_2.py:114-116 | the reported route occurs in the data with maximal count and is the least of the tied routes; it equals the mode of the routes |
| `Series.ValueCountsCounts` | bikeshare_2.py:165-171 | `value_counts()` names each distinct value exactly once, with the number of rows holding it, in non-increasing count order, and the counts add up to the column's length |
| `Series.SortBySizePermutes` | bikeshare_2.py:165 | ordering the counts by size loses and adds no entry (a permutation) |
| `Series.SortBySizeSorts` | bikeshare_2.py:165 | the counts come out largest first |
| `Series.Min` | bikeshare_2.py:177 | `min()` of the present years is one of them and no larger than any |
| `Series.Max` | bikeshare_2.py:178 | `max()` of the present years is one of them and no smaller than any |
| `Series.Present` | bikeshare_2.py:177-179 | dropping missing cells keeps each present value as often as it occurs, and removes exactly the missing cells |
| `Stats.TimeStats` | bikeshare_2.py:89-91 | the time report fails exactly when there are no trips |
| `Stats.TimeStatsReportsModes` | bikeshare_2.py:89-91 | the reported month, day and hour are each a most frequent value of their column, the least of those tied |
| `Stats.StationStats` | bikeshare_2.py:109-116 | the station report fails exactly when there are no trips |
| `Stats.StationStatsReportsModes` | bikeshare_2.py:109-116 | the start and end stations are the modes of their columns, and the route is a most frequent (start, end) pair, the least of those tied |
| `Stats.TripDurationStats` | bikeshare_2.py:141-146 | the mean breakdown is produced exactly when there are trips; with none, `int()` of the NaN mean fails |
| `Stats.TripDurationStatsSplits` | bikeshare_2.py:134-146 | the total breakdown is in range and reconstructs the sum exactly (`0d 0h 0m 0s` with no trips); the mean breakdown is in range and reconstructs `floor(sum / count)` |
| `Stats.ThreeTripDurations` | bikeshare_2.py:134-146 | trips of 100, 200 and 4000000 s give a total of 46d 7h 11m 40s and a mean of 15d 10h 23m 53s |
| `Stats.BirthYearSummary` | bikeshare_2.py:176-187 | "not available" exactly when the column is absent; a failure exactly when the column exists but no trip has a year |
| `Stats.BirthYearsOrdered` | bikeshare_2.py:177-185 | earliest is the least present year, most recent the largest, most common a mode of the present years, and earliest <= common <= recent |
| `Stats.UserStats` | bikeshare_2.py:169-174 | the gender part reads "not available" exactly when the gender column is absent, and the report is still produced |
| `Stats.ColumnCountsCover` | bikeshare_2.py:165-171 | the counts of a column name each distinct non-missing value once, with its number of cells, largest first, summing to the number of non-missing cells |
| `Stats.UserStatsCounts` | bikeshare_2.py:165-174 | the user-type counts, and the gender counts when the column exists, sum to the number of non-missing entries of their columns |
| `Duration.SplitReconstructs` | bikeshare_2.py:134-138 | `d*86400 + h*3600 + m*60 + s == total`, with `0 <= h < 24`, `0 <= m < 60`, `0 <= s < 60` |
| `Duration.SplitOfSeconds` | bikeshare_2.py:135-138 | every in-range breakdown is the split of the seconds it stands for, so the split and the reconstruction are inverse |
| `Duration.CascadeIsSplit` | bikeshare_2.py:137 | taking minutes from `total % 3600` gives the same as taking them from what is left after the hours, because 3600 divides 86400 |
| `Duration.ModOfMod` | bikeshare_2.py:136-138 | `(t % (a*b)) % b == t % b`, the fact behind the minutes and seconds steps |
| `Duration.FloorDivIsDivOfFloor` | bikeshare_2.py:142 | for a non-negative float, `x // n` is the whole division of `floor(x)` by `n` |
| `Duration.FloatModFloor` | bikeshare_2.py:143-145 | for a non-negative float, `x % n` is non-negative and its whole part is `floor(x) % n` |
| `Duration.SplitRealIsSplitOfFloor` | bikeshare_2.py:141-145 | the source's float steps on the mean give the same breakdown as the integer split of `floor(mean)` |
| `Duration.FloorOfQuotient` | bikeshare_2.py:141 | the whole part of the mean `sum / count` is the whole division `sum / count` |
| `RawData.DisplayRawData` | bikeshare_2.py:204-217 | page `i` is rows `[5i, min(5i+5, len))`, shown because answer `i` was yes. The pages are contiguous and form a prefix of the rows, and the start index never exceeds the length. The loop stops when all rows are shown, at the first answer that is not yes, or when answers run out |
| `RawData.LowerAscii` | bikeshare_2.py:209 | lower-casing maps each ASCII capital to its small letter and leaves every other character alone |
| `RawData.IsYesIgnoresCase` | bikeshare_2.py:209 | an answer asks for more rows exactly when it is "yes" in any mix of cases |

## Left out

- `get_filters` and `main` (bikeshare_2.py:19-46, 220-237) are left out. They are interactive
  prompts and a restart loop; only their month and day vocabularies are kept, as
  `Loader.MonthChoices` and `Loader.DayChoices`.
- Reading the CSV file of a city (`CITY_DATA`, `pd.read_csv`) and parsing the start time
  (`pd.to_datetime`) are left out. They are file I/O and foreign date parsing. Each trip carries
  its derived `month`, `day_of_week` and `hour` as given fields, and the model does not check
  that the hour lies in 0..23.
- All printing is left out, including the elapsed-time lines (`time.time()`). The reports are
  returned as values.
- `Duration.SplitReal` models the float steps on the mean with exact reals. Floating-point
  rounding of the mean is not modelled.
- Durations and birth years are whole numbers. Fractional durations and years, and their
  truncation by `int()`, are not modelled.
- Missing cells are modelled only in the user-type, gender and birth-year columns. Stations,
  months, days, hours and durations are assumed present.
- `Series.ValueCountsCounts` does not state the order of values with equal counts, because pandas
  does not fix it. The model's own `ValueCounts` keeps ascending value order among equal counts,
  and no contract relies on that.
- `RawData.LowerAscii` models `str.lower()` for ASCII letters only. Unicode case mapping is not
  modelled.
- When `display_raw_data` runs out of answers, `input()` raises EOFError. The model reports this
  as `OutOfReplies`; what the caller does with the exception is outside the model.
