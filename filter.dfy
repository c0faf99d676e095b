/** Narrowing a trip log to one month and/or one weekday. The value "All"
    switches the corresponding condition off. */
module Filter {
  import opened Seqs
  import opened Trips

  const ALL: string := "All"

  /** The condition a row must meet to survive the filter. */
  predicate Matches(t: Trip, month: string, day: string)
  {
    (month == ALL || t.startMonth == month) && (day == ALL || t.startDay == day)
  }

  /** The month step: keep the rows whose start month is `month`, unless it is "All". */
  function ByMonth(rows: seq<Trip>, month: string): seq<Trip>
  {
    if month != ALL then Where(rows, (t: Trip) => t.startMonth == month) else rows
  }

  /** The weekday step: keep the rows whose start day is `day`, unless it is "All". */
  function ByDay(rows: seq<Trip>, day: string): seq<Trip>
  {
    if day != ALL then Where(rows, (t: Trip) => t.startDay == day) else rows
  }

  /** The month step, then the weekday step, on a fresh dataset; the input is left as it is
      and the city's schema is carried over. */
  function Apply(ds: Dataset, month: string, day: string): (r: Dataset)
    ensures r.hasDemographics == ds.hasDemographics
    ensures |r.rows| <= |ds.rows|
  {
    Dataset(ByDay(ByMonth(ds.rows, month), day), ds.hasDemographics)
  }

  /** The two steps together select, in order, exactly the rows that match. */
  lemma SinglePass(ds: Dataset, month: string, day: string)
    ensures Apply(ds, month, day).rows == Where(ds.rows, (t: Trip) => Matches(t, month, day))
  {
    var m := ByMonth(ds.rows, month);
    var matches := (t: Trip) => Matches(t, month, day);
    if month != ALL && day != ALL {
      WhereWhere(ds.rows, (t: Trip) => t.startMonth == month, (t: Trip) => t.startDay == day, matches);
    } else if month != ALL {
      WhereWhere(ds.rows, (t: Trip) => t.startMonth == month, (t: Trip) => true, matches);
      WhereAll(m, (t: Trip) => true);
    } else if day != ALL {
      WhereWhere(ds.rows, (t: Trip) => true, (t: Trip) => t.startDay == day, matches);
      WhereAll(ds.rows, (t: Trip) => true);
    } else {
      WhereAll(ds.rows, matches);
    }
  }

  /** "All" for both the month and the day gives back the same rows in the same order. */
  lemma AllAllIsIdentity(ds: Dataset)
    ensures Apply(ds, ALL, ALL) == ds
  {
  }

  /** Every surviving row matches the month (unless "All") and the day (unless "All"). */
  lemma Sound(ds: Dataset, month: string, day: string, t: Trip)
    requires t in Apply(ds, month, day).rows
    ensures t in ds.rows
    ensures month != ALL ==> t.startMonth == month
    ensures day != ALL ==> t.startDay == day
  {
  }

  /** A row survives as often as it occurs in the input if it matches, and never otherwise. */
  lemma Complete(ds: Dataset, month: string, day: string, t: Trip)
    ensures Occurrences(Apply(ds, month, day).rows, t)
            == if Matches(t, month, day) then Occurrences(ds.rows, t) else 0
  {
    SinglePass(ds, month, day);
    WhereOccurrences(ds.rows, (t: Trip) => Matches(t, month, day), t);
  }

  /** The surviving rows keep their relative order. */
  lemma OrderPreserved(ds: Dataset, month: string, day: string)
    ensures IsSubsequence(Apply(ds, month, day).rows, ds.rows)
  {
    SinglePass(ds, month, day);
    WhereSubsequence(ds.rows, (t: Trip) => Matches(t, month, day));
  }

  /** Filtering a filtered dataset again with the same choices changes nothing. */
  lemma Idempotent(ds: Dataset, month: string, day: string)
    ensures Apply(Apply(ds, month, day), month, day) == Apply(ds, month, day)
  {
    var once := Apply(ds, month, day);
    SinglePass(ds, month, day);
    SinglePass(once, month, day);
    WhereAll(once.rows, (t: Trip) => Matches(t, month, day));
  }
}
