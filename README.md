# US bikeshare statistics — a Dafny model

A model of the statistics pipeline of the "Explore US Bikeshare Data" program
(`bikeshare.py`). The program reads one city's trip log, keeps the trips of a
chosen month and/or weekday, and reports four groups of statistics:

- popular times: the most common start month, weekday and hour;
- popular stations: the most common start station, end station and trip;
- trip duration: the total and mean duration, each split into days, hours,
  minutes and seconds;
- users: rider counts per user type and per gender, and the earliest, most
  recent and most common birth year.

It also has a viewer that shows the raw rows five at a time.

The project is laid out as follows:

- `wrappers.dfy`: `Option`.
- `seqs.dfy`: shared vocabulary on sequences. It defines occurrence counts, order-preserving selection (`Where`), subsequences, sums, minimum and maximum, and table columns.
- `trips.dfy`: the loaded trip record and the dataset. Each trip already carries its start month name, weekday name and hour. The dataset has a `hasDemographics` flag, which is false for a city whose log has no gender or birth-year columns.
- `filter.dfy`: the month/weekday filter of `load_data`.
- `frequency.dfy`: the mode with the smallest-of-ties rule, and the orders it uses. Python compares strings by character code, so strings are ordered lexicographically by code. Hours and years are ordered numerically.
- `duration.dfy`: `time_components`, an imperative method over Python's float `//` and `%`. It also holds the integer decomposition that specifies the method, and the integer mean.
- `stats.dfy`: the four statistic groups and their properties. It also holds the two lookups the source performs in a way that can raise (see Findings).
- `paging.dfy`: the raw-row viewer loop of `display_raw_data`.

Where the source raises on missing data, the model gives an explicit absence:

- `Series.mode()[0]` on an empty selection raises. Here the mode is `None`.
- `value_counts()[key]` raises `KeyError` for a category that does not occur. Here the count is 0.
- `int(...)` of the birth-year statistics fails when no birth year is present. Here they are `None`.
- The mean duration of an empty selection is NaN, and `int(m_minutes)` at bikeshare.py:194 then raises `ValueError`. Here the mean and its components are `None`.

When several months or weekdays are equally common, the model reports the name that comes first in character-code order (so "April" before "January", "Friday" before "Monday"). That is the first of the modes as the code sorts them, not the first in calendar order.

## Model

| member | source | states |
|---|---|---|
| `Duration.TimeComponents` | bikeshare.py:146-172 | For a non-negative number of seconds, whole or fractional, the successive `//` and `%` steps give whole days, hours and minutes and a remainder of seconds. `days*86400 + hours*3600 + minutes*60 + seconds` equals the input exactly. Hours are below 24 and minutes and seconds below 60. The integer parts equal the decomposition of the input's whole seconds, so `days == floor(s) / 86400`. |
| `Duration.Decompose` | bikeshare.py:157-172 | The decomposition of a whole number of seconds is in range and reconstructs the input. |
| `Duration.DecomposeCompose` | bikeshare.py:157-172 | Components in range are recovered from the seconds they stand for, so the decomposition is unique. |
| `Duration.FloorDivStep` | bikeshare.py:158-168 | One float `//` and `%` step on a non-negative value agrees with integer division of its floor. It leaves a remainder in `[0, d)` whose floor is the integer remainder. |
| `Duration.MeanSeconds` | bikeshare.py:190-192 | The integer mean `m` of `count > 0` durations summing to `total` satisfies `m*count <= total < (m+1)*count`. It is the floor of the real quotient, which is what the decomposition of the float mean uses. |
| `Filter.Apply` | bikeshare.py:83-89 | The month step, then the day step. The result is a new dataset no longer than the input, with the city's schema carried over. |
| `Filter.SinglePass` | bikeshare.py:83-89 | The two steps keep, in order, exactly the rows where the month is "All" or matches and the day is "All" or matches. |
| `Filter.AllAllIsIdentity` | bikeshare.py:84-89 | "All" for both the month and the day gives back the same rows in the same order. |
| `Filter.Sound` | bikeshare.py:84-89 | Every surviving row comes from the input. It has the chosen month unless the month is "All", and the chosen day unless the day is "All". |
| `Filter.Complete` | bikeshare.py:84-89 | A matching row survives as many times as it occurs in the input. A non-matching row never survives. |
| `Filter.OrderPreserved` | bikeshare.py:84-89 | The result is a subsequence of the input. |
| `Filter.Idempotent` | bikeshare.py:84-89 | Filtering the filtered rows again with the same month and day changes nothing. |
| `Frequency.Mode` | bikeshare.py:109 | The mode of a column is absent exactly when the column is empty. Otherwise it is one of the column's values. |
| `Frequency.ModeIsMode` | bikeshare.py:109-117 | For a non-empty column under a total order, the mode occurs at least as often as every value. Among the values that occur as often, it is the smallest, which is `mode()[0]` of the sorted modes. |
| `Frequency.ModeUnique` | bikeshare.py:109-117 | Any value that meets this definition of the mode is the value `Mode` returns. |
| `Frequency.StrLeTotalOrder` | bikeshare.py:109-113 | Lexicographic order by character code, used for month, day, station and trip strings, is a total order. |
| `Frequency.TieGoesToSmallest` | bikeshare.py:117 | In `[3, 1, 1, 3]` both values occur twice, and the mode is 1. |
| `Stats.TimeStatsOf` | bikeshare.py:108-118 | The most common month, day and hour are each present exactly when there are rows, and each is then the value of that field on some row. |
| `Stats.TimeStatsAreModes` | bikeshare.py:108-118 | The most common month, day and hour are present exactly when there are rows. Each is then the mode of its column: the most frequent value, smallest among the ties. |
| `Stats.StationStatsOf` | bikeshare.py:131-141 | The most common start station, end station and trip are each present exactly when there are rows. Each is then the value on some row; the trip is the label of some row. |
| `Stats.StationStatsAreModes` | bikeshare.py:131-141 | The most common start station, end station and trip are the modes of their columns. The trip is the mode of the per-row labels `start + " to " + end`, so it is the label of an actual row. |
| `Stats.DurationStatsOf` | bikeshare.py:182-194 | The total is the sum of the trips' durations. The mean is present exactly when there are rows, and then it is the rounded-down quotient of the total by the row count. The total and the mean are each split into in-range components that add back up to them. |
| `Stats.MeanBetweenExtremes` | bikeshare.py:183-190 | For a non-empty selection, the mean duration lies between the shortest and the longest trip. |
| `Stats.FilteredTotalAtMost` | bikeshare.py:183 | The total duration of a month/day selection is at most the total of the whole log. With "All"/"All" the two totals are equal. |
| `Stats.ThreeTrips` | bikeshare.py:182-194 | Trips of 100, 200 and 300 seconds give a total of 600 seconds, which is 0 days 0 hours 10 minutes 0 seconds. The mean is 200, which is 3 minutes 20 seconds. |
| `Stats.UserStatsOf` | bikeshare.py:213-229 | The gender and birth-year group is present exactly for a city whose log has those columns. |
| `Stats.UserTypeCounts` | bikeshare.py:213-216 | The Subscriber and Customer counts are the numbers of rows with each user type. Their sum is at most the number of rows. |
| `Stats.GenderCounts` | bikeshare.py:221-224 | The Male and Female counts are the numbers of rows with each gender. Their sum is at most the number of rows. |
| `Stats.BirthYearOrder` | bikeshare.py:225-228 | The three birth-year statistics are present exactly when some row has a birth year. Then the earliest is the smallest and the most recent the largest of the present birth years, `earliest <= most common <= most recent`, and each is the birth year of some row. The most common one is the mode of the present birth years: no year occurs more often, and it is the smallest of the years that occur as often. |
| `Stats.EmptyDataset` | bikeshare.py:108-228 | Without rows, every mode statistic and the mean are absent, and the counts and the total are 0. |
| `Stats.TwoSubscribersOneCustomer` | bikeshare.py:213-215 | User types Subscriber, Subscriber, Customer give 2 subscribers and 1 customer. |
| `Stats.ValueCountAt` | bikeshare.py:214-215 | `value_counts()[key]` as written is present exactly when the key occurs, and then it is the key's count. |
| `Stats.AbsentUserTypeRaises` | bikeshare.py:214-215 | For a log of subscribers only, the lookup of "Customer" as written fails, while the model's count is 0. |
| `Stats.BirthYearModeAsWritten` | bikeshare.py:228 | `int(Series.mode())` as written succeeds exactly when exactly one birth year is most frequent, and then it is the mode. |
| `Stats.BirthYearTieRaises` | bikeshare.py:228 | Birth years 1980 and 1990 once each make the conversion as written fail, while the mode is 1980. |
| `Trips.BirthYears` | bikeshare.py:226-228 | The birth years the statistics see are exactly those present on some row. Missing ones are skipped. Each year occurs as many times as there are rows with that birth year. |
| `Stats.MeanAsPrinted` | bikeshare.py:192-194 | The minutes and seconds printed for the mean are both below 60 and stand for the mean modulo one hour. |
| `Stats.MeanInMinutes` | bikeshare.py:194 | The mean as whole minutes and leftover seconds: `minutes*60 + seconds` is the mean, with seconds below 60. The minutes count the days, hours and minutes of the mean's decomposition. |
| `Stats.PrintedMeanExactBelowAnHour` | bikeshare.py:192-194 | The printed minutes and seconds equal the mean's exactly when the mean is under 3600 seconds. |
| `Stats.LongMeanLosesItsHours` | bikeshare.py:192-194 | A mean of 3700 seconds decomposes into 1 hour 1 minute 40 seconds. It is printed as 1 minute and 40 seconds, where it is 61 minutes and 40 seconds. |
| `Paging.DisplayRawData` | bikeshare.py:235-247 | One page is shown per leading "yes" answer, until the rows run out. Page k is rows `[5k, 5k+5)`, clamped to the end, and holds 1 to 5 rows. The pages shown concatenate to the matching prefix of the rows. If the rider keeps answering "yes", they concatenate to all rows. |

## Findings

| source | as written | input that shows it | evidently intended | confidence | as-written member | corrected member |
|---|---|---|---|---|---|---|
| bikeshare.py:228 | `int(df["Birth Year"].mode())` converts the whole list of modes. `int` of a pandas Series with more than one element raises `TypeError`. | birth years 1980 and 1990, once each | the smallest of the tied years (1980), as `mode()[0]` gives for every other statistic | not executed; high | `Stats.BirthYearTieRaises` | `Stats.BirthYearOrder` |
| bikeshare.py:214-215 | `value_counts()["Customer"]` raises `KeyError` when no row of the selection has that user type. The gender counts at lines 222-223 do the same. | a selection in which every rider is a Subscriber | a count of 0 | not executed; high | `Stats.AbsentUserTypeRaises` | `Stats.UserTypeCounts` |
| bikeshare.py:192-194 | The mean is split by `time_components`, but only its minutes and seconds are printed. The days and hours are computed and dropped. | a mean of 3700 seconds, printed as "1 minutes and 40 seconds" | the mean in minutes and seconds, 61 minutes and 40 seconds | not executed; medium | `Stats.LongMeanLosesItsHours` | `Stats.MeanInMinutes` |

## Left out

- `get_filters` and the restart loop of `main`: these are interactive input validation and console I/O.
- All printing, the "Press enter" prompts and the `time.time()` timings: console and clock I/O. Only the choice of which components of the mean are printed is modelled (`Stats.MeanAsPrinted`).
- Reading the CSV file, `set_index`, timestamp parsing, and the city to file-name table: file I/O and configuration.
- Deriving the month name, weekday name and hour from the start time: a calendar computation inside pandas. Trips carry these as given fields.
- The Washington test (`city == "washington"`): it is modelled as the dataset's `hasDemographics` flag.
- Paging.DisplayRawData: the yes/no answers are a parameter. When they run out, the model stops the viewer at the point where the program's `input()` would raise `EOFError`. Printing a page is modelled by returning it.
- Stats.DurationStatsOf: durations are whole seconds (`nat`), so fractional trip durations are not modelled. The float mean is modelled as the integer quotient. `Duration.TimeComponents` and `Duration.MeanSeconds` show that the decomposition of the float mean has the same whole parts, ignoring floating-point rounding.
- Duration.TimeComponents: it requires a non-negative input. Every caller passes a sum or mean of non-negative durations, so Python's floor semantics on negative input are not modelled.
