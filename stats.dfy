/** The four groups of statistics computed from a (possibly filtered) trip log:
    popular times, popular stations and trip, trip duration, and users. */
module Stats {
  import opened Wrappers
  import opened Seqs
  import opened Trips
  import opened Frequency
  import opened Duration
  import Filter

  // ---------------------------------------------------------------- time statistics

  datatype TimeStats = TimeStats(month: Option<string>, day: Option<string>, hour: Option<int>)

  /** Most common start month, start weekday and start hour. */
  function TimeStatsOf(ds: Dataset): (r: TimeStats)
    ensures r.month.Some? <==> ds.rows != []
    ensures r.day.Some? <==> ds.rows != []
    ensures r.hour.Some? <==> ds.rows != []
    ensures r.month.Some? ==> exists i :: 0 <= i < |ds.rows| && ds.rows[i].startMonth == r.month.value
    ensures r.day.Some? ==> exists i :: 0 <= i < |ds.rows| && ds.rows[i].startDay == r.day.value
    ensures r.hour.Some? ==> exists i :: 0 <= i < |ds.rows| && ds.rows[i].startHour == r.hour.value
  {
    TimeStats(Mode(StartMonths(ds.rows), StrLe), Mode(StartDays(ds.rows), StrLe),
              Mode(StartHours(ds.rows), IntLe))
  }

  /** Each time statistic is present exactly when there are rows, and is then the mode
      of its column (most frequent, smallest of the ties). */
  lemma TimeStatsAreModes(ds: Dataset)
    ensures var r := TimeStatsOf(ds);
            && (r.month.Some? <==> ds.rows != [])
            && (r.month.Some? ==> IsMode(StartMonths(ds.rows), r.month.value, StrLe))
            && (r.day.Some? ==> IsMode(StartDays(ds.rows), r.day.value, StrLe))
            && (r.hour.Some? ==> IsMode(StartHours(ds.rows), r.hour.value, IntLe))
  {
    StrLeTotalOrder();
    IntLeTotalOrder();
    if ds.rows != [] {
      ModeIsMode(StartMonths(ds.rows), StrLe);
      ModeIsMode(StartDays(ds.rows), StrLe);
      ModeIsMode(StartHours(ds.rows), IntLe);
    }
  }

  // ------------------------------------------------------------- station statistics

  datatype StationStats = StationStats(start: Option<string>, end: Option<string>, trip: Option<string>)

  /** Most common start station, end station, and trip; the trip is the mode of the
      per-row labels "<start> to <end>", not a combination of the two station modes. */
  function StationStatsOf(ds: Dataset): (r: StationStats)
    ensures r.start.Some? <==> ds.rows != []
    ensures r.end.Some? <==> ds.rows != []
    ensures r.trip.Some? <==> ds.rows != []
    ensures r.start.Some? ==> exists i :: 0 <= i < |ds.rows| && ds.rows[i].startStation == r.start.value
    ensures r.end.Some? ==> exists i :: 0 <= i < |ds.rows| && ds.rows[i].endStation == r.end.value
    ensures r.trip.Some? ==> exists i :: 0 <= i < |ds.rows| && TripLabel(ds.rows[i]) == r.trip.value
  {
    StationStats(Mode(StartStations(ds.rows), StrLe), Mode(EndStations(ds.rows), StrLe),
                 Mode(TripLabels(ds.rows), StrLe))
  }

  /** Each station statistic is present exactly when there are rows, and is then the mode
      of its column; the most common trip is the label of an actual row. */
  lemma StationStatsAreModes(ds: Dataset)
    ensures var r := StationStatsOf(ds);
            && (r.start.Some? <==> ds.rows != [])
            && (r.start.Some? ==> IsMode(StartStations(ds.rows), r.start.value, StrLe))
            && (r.end.Some? ==> IsMode(EndStations(ds.rows), r.end.value, StrLe))
            && (r.trip.Some? ==> IsMode(TripLabels(ds.rows), r.trip.value, StrLe))
            && (r.trip.Some? ==> exists i :: 0 <= i < |ds.rows| && TripLabel(ds.rows[i]) == r.trip.value)
  {
    StrLeTotalOrder();
    if ds.rows != [] {
      ModeIsMode(StartStations(ds.rows), StrLe);
      ModeIsMode(EndStations(ds.rows), StrLe);
      ModeIsMode(TripLabels(ds.rows), StrLe);
    }
  }

  // ------------------------------------------------------------ duration statistics

  datatype DurationStats = DurationStats(total: nat, mean: Option<nat>,
                                         totalParts: Components, meanParts: Option<Components>)

  /** Total and mean trip duration (the mean absent without rows), each also split into
      days, hours, minutes and seconds. */
  function DurationStatsOf(ds: Dataset): (r: DurationStats)
    ensures r.total == Sum(Durations(ds.rows))
    ensures r.mean.Some? <==> ds.rows != []
    ensures r.mean.Some? ==> r.mean.value * |ds.rows| <= r.total < (r.mean.value + 1) * |ds.rows|
    ensures Compose(r.totalParts) == r.total && InRange(r.totalParts)
    ensures r.meanParts.Some? <==> r.mean.Some?
    ensures r.mean.Some? ==> Compose(r.meanParts.value) == r.mean.value && InRange(r.meanParts.value)
  {
    var total := Sum(Durations(ds.rows));
    var mean := if ds.rows == [] then None else Some(MeanSeconds(total, |ds.rows|));
    DurationStats(total, mean, Decompose(total),
                  if mean.Some? then Some(Decompose(mean.value)) else None)
  }

  /** A sum of values lying between `lo` and `hi` lies between `lo` and `hi` times the count. */
  lemma {:induction false} SumBetween(s: seq<nat>, lo: int, hi: int)
    requires forall x :: x in s ==> lo <= x <= hi
    ensures |s| * lo <= Sum(s) <= |s| * hi
  {
    if s != [] {
      assert forall x :: x in s[1..] ==> x in s;
      assert s[0] in s;
      SumBetween(s[1..], lo, hi);
      assert |s| * lo == (|s| - 1) * lo + lo;
      assert |s| * hi == (|s| - 1) * hi + hi;
    }
  }

  /** The mean duration lies between the shortest and the longest trip. */
  lemma MeanBetweenExtremes(ds: Dataset)
    requires ds.rows != []
    ensures var d := Durations(ds.rows);
            var mean := DurationStatsOf(ds).mean.value;
            Min(d).value <= mean <= Max(d).value
  {
    var d := Durations(ds.rows);
    var r := DurationStatsOf(ds);
    assert r.total == Sum(d);
    QuotientBetween(d, Min(d).value, Max(d).value, r.mean.value);
  }

  /** A rounded-down mean of values lying between `lo` and `hi` lies between them too. */
  lemma QuotientBetween(s: seq<nat>, lo: int, hi: int, m: int)
    requires s != [] && forall x :: x in s ==> lo <= x <= hi
    requires m * |s| <= Sum(s) < (m + 1) * |s|
    ensures lo <= m <= hi
  {
    SumBetween(s, lo, hi);
    var n := |s|;
    if m < lo {
      IntMulMono(m + 1, lo, n);
      assert false;
    }
    if m > hi {
      IntMulMono(hi + 1, m, n);
      assert false;
    }
  }

  /** Durations of selected rows sum to at most the durations of all rows. */
  lemma {:induction false} SelectedSumAtMost(rows: seq<Trip>, p: Trip -> bool)
    ensures Sum(Durations(Where(rows, p))) <= Sum(Durations(rows))
  {
    if rows != [] {
      SelectedSumAtMost(rows[1..], p);
      assert Durations(rows)[1..] == Durations(rows[1..]);
      var head := if p(rows[0]) then [rows[0]] else [];
      assert Where(rows, p) == head + Where(rows[1..], p);
      DurationsAppend(head, Where(rows[1..], p));
    }
  }

  lemma {:induction false} DurationsAppend(a: seq<Trip>, b: seq<Trip>)
    ensures Sum(Durations(a + b)) == Sum(Durations(a)) + Sum(Durations(b))
  {
    if a != [] {
      assert Durations(a + b)[1..] == Durations(a[1..] + b);
      assert Durations(a)[1..] == Durations(a[1..]);
      assert (a + b)[0] == a[0];
      DurationsAppend(a[1..], b);
    } else {
      assert a + b == b;
    }
  }

  /** Narrowing the selection to a month and/or day never increases the total duration,
      and "All"/"All" keeps it. */
  lemma FilteredTotalAtMost(ds: Dataset, month: string, day: string)
    ensures DurationStatsOf(Filter.Apply(ds, month, day)).total <= DurationStatsOf(ds).total
    ensures month == Filter.ALL && day == Filter.ALL ==>
              DurationStatsOf(Filter.Apply(ds, month, day)).total == DurationStatsOf(ds).total
  {
    Filter.SinglePass(ds, month, day);
    SelectedSumAtMost(ds.rows, (t: Trip) => Filter.Matches(t, month, day));
  }

  // ---------------------------------------------------------------- user statistics

  datatype Demographics = Demographics(male: nat, female: nat, earliest: Option<int>,
                                       mostRecent: Option<int>, mostCommon: Option<int>)

  datatype UserStats = UserStats(subscribers: nat, customers: nat, demographics: Option<Demographics>)

  /** Rider counts per user type and, for a city whose log has them, per gender, together
      with the earliest, most recent and most common birth year. A category that does not
      occur counts 0. */
  function UserStatsOf(ds: Dataset): (r: UserStats)
    ensures r.demographics.Some? <==> ds.hasDemographics
  {
    var types := UserTypes(ds.rows);
    var demographics :=
      if ds.hasDemographics then
        var genders := Genders(ds.rows);
        var years := BirthYears(ds.rows);
        Some(Demographics(Occurrences(genders, Some("Male")), Occurrences(genders, Some("Female")),
                          Min(years), Max(years), Mode(years, IntLe)))
      else None;
    UserStats(Occurrences(types, "Subscriber"), Occurrences(types, "Customer"), demographics)
  }

  /** Each user-type count is the number of rows of that type; together they are at most
      the number of rows. */
  lemma UserTypeCounts(ds: Dataset)
    ensures var r := UserStatsOf(ds);
            && r.subscribers == |Where(ds.rows, (t: Trip) => t.userType == "Subscriber")|
            && r.customers == |Where(ds.rows, (t: Trip) => t.userType == "Customer")|
            && r.subscribers + r.customers <= |ds.rows|
  {
    var types := UserTypes(ds.rows);
    ColumnOccurrences(ds.rows, (t: Trip) => t.userType, "Subscriber", (t: Trip) => t.userType == "Subscriber");
    ColumnOccurrences(ds.rows, (t: Trip) => t.userType, "Customer", (t: Trip) => t.userType == "Customer");
    OccurrencesOfTwo(types, "Subscriber", "Customer");
  }

  /** For a city with demographics, each gender count is the number of rows with that
      gender; together they are at most the number of rows. */
  lemma GenderCounts(ds: Dataset)
    requires ds.hasDemographics
    ensures var d := UserStatsOf(ds).demographics.value;
            && d.male == |Where(ds.rows, (t: Trip) => t.gender == Some("Male"))|
            && d.female == |Where(ds.rows, (t: Trip) => t.gender == Some("Female"))|
            && d.male + d.female <= |ds.rows|
  {
    var genders := Genders(ds.rows);
    ColumnOccurrences(ds.rows, (t: Trip) => t.gender, Some("Male"), (t: Trip) => t.gender == Some("Male"));
    ColumnOccurrences(ds.rows, (t: Trip) => t.gender, Some("Female"), (t: Trip) => t.gender == Some("Female"));
    OccurrencesOfTwo(genders, Some("Male"), Some("Female"));
  }

  /** With at least one birth year present: the earliest is the smallest present birth year,
      the most recent the largest, the most common lies between them, and each of the three
      is the birth year of some row. Without any, all three are absent. */
  lemma BirthYearOrder(ds: Dataset)
    requires ds.hasDemographics
    ensures var d := UserStatsOf(ds).demographics.value;
            && (d.earliest.Some? <==> exists i :: 0 <= i < |ds.rows| && ds.rows[i].birthYear.Some?)
            && d.earliest.Some? == d.mostRecent.Some? == d.mostCommon.Some?
            && (d.earliest.Some? ==>
                  && d.earliest.value <= d.mostCommon.value <= d.mostRecent.value
                  && (exists i :: 0 <= i < |ds.rows| && ds.rows[i].birthYear == d.earliest)
                  && (exists i :: 0 <= i < |ds.rows| && ds.rows[i].birthYear == d.mostRecent)
                  && (exists i :: 0 <= i < |ds.rows| && ds.rows[i].birthYear == d.mostCommon))
            && (d.mostCommon.Some? ==> IsMode(BirthYears(ds.rows), d.mostCommon.value, IntLe))
            && (forall i :: 0 <= i < |ds.rows| && ds.rows[i].birthYear.Some? ==>
                  && d.earliest.Some? && d.mostRecent.Some?
                  && d.earliest.value <= ds.rows[i].birthYear.value <= d.mostRecent.value)
  {
    forall i | 0 <= i < |ds.rows| && ds.rows[i].birthYear.Some?
      ensures ds.rows[i].birthYear.value in BirthYears(ds.rows)
    {
    }
    IntLeTotalOrder();
    if BirthYears(ds.rows) != [] {
      ModeIsMode(BirthYears(ds.rows), IntLe);
    }
  }

  // ----------------------------------------------------------------- empty datasets

  /** Without rows, every mode-based statistic is absent, counts and the total are 0 and
      the mean is absent. */
  lemma EmptyDataset(ds: Dataset)
    requires ds.rows == []
    ensures TimeStatsOf(ds) == TimeStats(None, None, None)
    ensures StationStatsOf(ds) == StationStats(None, None, None)
    ensures DurationStatsOf(ds).total == 0 && DurationStatsOf(ds).mean == None
    ensures UserStatsOf(ds).subscribers == 0 && UserStatsOf(ds).customers == 0
    ensures ds.hasDemographics ==>
              UserStatsOf(ds).demographics == Some(Demographics(0, 0, None, None, None))
  {
  }

  // ------------------------------------------------------------------ worked examples

  /** Three trips of 100, 200 and 300 seconds: 600 seconds in all, or 10 minutes, and a
      mean of 200 seconds, or 3 minutes 20 seconds. */
  lemma ThreeTrips(ds: Dataset)
    requires |ds.rows| == 3
    requires ds.rows[0].duration == 100 && ds.rows[1].duration == 200 && ds.rows[2].duration == 300
    ensures DurationStatsOf(ds).total == 600
    ensures DurationStatsOf(ds).totalParts == Components(0, 0, 10, 0)
    ensures DurationStatsOf(ds).mean == Some(200)
    ensures DurationStatsOf(ds).meanParts == Some(Components(0, 0, 3, 20))
  {
    var d := Durations(ds.rows);
    assert d == [100, 200, 300];
    assert d[1..] == [200, 300] && d[1..][1..] == [300] && d[1..][1..][1..] == [];
    assert Sum(d[1..][1..]) == 300;
    assert Sum(d[1..]) == 500;
    assert Sum(d) == 600;
  }

  /** User types Subscriber, Subscriber, Customer: two subscribers and one customer. */
  lemma TwoSubscribersOneCustomer(ds: Dataset)
    requires |ds.rows| == 3
    requires ds.rows[0].userType == "Subscriber" && ds.rows[1].userType == "Subscriber"
    requires ds.rows[2].userType == "Customer"
    ensures UserStatsOf(ds).subscribers == 2 && UserStatsOf(ds).customers == 1
  {
    var types := UserTypes(ds.rows);
    assert types == ["Subscriber", "Subscriber", "Customer"];
    assert types[1..] == ["Subscriber", "Customer"];
    assert types[1..][1..] == ["Customer"] && types[1..][1..][1..] == [];
    assert Occurrences(types[1..][1..], "Subscriber") == 0 && Occurrences(types[1..][1..], "Customer") == 1;
    assert Occurrences(types[1..], "Subscriber") == 1 && Occurrences(types[1..], "Customer") == 1;
  }

  // -------------------------------------------------- lookups as the source writes them

  /** `value_counts()[key]` as the source indexes it: a key that does not occur in the
      column raises KeyError, shown here as None. */
  function ValueCountAt<T(==)>(s: seq<T>, key: T): (r: Option<nat>)
    ensures r.Some? <==> key in s
    ensures r.Some? ==> r.value == Occurrences(s, key)
  {
    var n := Occurrences(s, key);
    if n == 0 then None else Some(n)
  }

  /** In a log holding only subscribers, looking up the customer count raises, where the
      statistics report 0 customers. */
  lemma AbsentUserTypeRaises(ds: Dataset)
    requires forall i :: 0 <= i < |ds.rows| ==> ds.rows[i].userType == "Subscriber"
    ensures ValueCountAt(UserTypes(ds.rows), "Customer") == None
    ensures UserStatsOf(ds).customers == 0
  {
    assert "Customer" !in UserTypes(ds.rows);
  }

  /** `int(Series.mode())` as the source converts the birth-year mode: `int` of a series
      succeeds exactly when it holds exactly one value, so an empty column or a tie for the most
      frequent year raises, shown here as None. */
  function BirthYearModeAsWritten(years: seq<int>): (r: Option<int>)
    ensures r.Some? ==> r == Mode(years, IntLe)
    ensures r.Some? ==> forall y :: y in years && Occurrences(years, y) == Occurrences(years, r.value)
                                    ==> y == r.value
    ensures var m := Mode(years, IntLe);
            (m.Some? && forall y :: y in years && Occurrences(years, y) == Occurrences(years, m.value) ==> y == m.value)
            ==> r == m
  {
    match Mode(years, IntLe)
    case None => None
    case Some(m) =>
      if exists y :: y in years && y != m && Occurrences(years, y) == Occurrences(years, m) then None
      else Some(m)
  }

  /** Birth years 1980 and 1990 once each: the conversion raises, while the most common
      birth year is 1980 (the smaller of the tie). */
  lemma BirthYearTieRaises()
    ensures BirthYearModeAsWritten([1980, 1990]) == None
    ensures Mode([1980, 1990], IntLe) == Some(1980)
  {
    var years := [1980, 1990];
    assert Occurrences(years, 1980) == 1 && Occurrences(years, 1990) == 1;
    assert forall y :: y in years ==> y == 1980 || y == 1990;
    IntLeTotalOrder();
    ModeUnique(years, 1980, IntLe);
  }

  // ------------------------------------------------------------------ the mean as printed

  /** The minutes and seconds the report prints for the mean: the last two components of
      its decomposition, so whole hours and days of the mean are dropped. */
  function MeanAsPrinted(mean: nat): (r: (nat, nat))
    ensures r.0 < SECONDS_PER_MINUTE && r.1 < SECONDS_PER_MINUTE
    ensures r.0 * SECONDS_PER_MINUTE + r.1 == mean % SECONDS_PER_HOUR
  {
    var c := Decompose(mean);
    DivModUnique(mean, SECONDS_PER_HOUR, c.days * 24 + c.hours, c.minutes * SECONDS_PER_MINUTE + c.seconds);
    (c.minutes, c.seconds)
  }

  /** The mean as a whole number of minutes and the seconds left over: the minutes count
      every whole hour and day of the mean as well. */
  function MeanInMinutes(mean: nat): (r: (nat, nat))
    ensures r.1 < SECONDS_PER_MINUTE
    ensures r.0 * SECONDS_PER_MINUTE + r.1 == mean
    ensures var c := Decompose(mean);
            r.0 == (c.days * 24 + c.hours) * 60 + c.minutes && r.1 == c.seconds
  {
    var c := Decompose(mean);
    DivModUnique(mean, SECONDS_PER_MINUTE, (c.days * 24 + c.hours) * 60 + c.minutes, c.seconds);
    (mean / SECONDS_PER_MINUTE, mean % SECONDS_PER_MINUTE)
  }

  /** The printed minutes and seconds are the mean's exactly when the mean is under an hour. */
  lemma PrintedMeanExactBelowAnHour(mean: nat)
    ensures MeanAsPrinted(mean) == MeanInMinutes(mean) <==> mean < SECONDS_PER_HOUR
  {
    if mean < SECONDS_PER_HOUR {
      DivModUnique(mean, SECONDS_PER_HOUR, 0, mean);
    }
  }

  /** A mean of 3700 seconds is 1 hour 1 minute 40 seconds: it is printed as 1 minute and
      40 seconds, where it is 61 minutes and 40 seconds. */
  lemma LongMeanLosesItsHours()
    ensures Decompose(3700) == Components(0, 1, 1, 40)
    ensures MeanAsPrinted(3700) == (1, 40)
    ensures MeanInMinutes(3700) == (61, 40)
  {
  }
}
