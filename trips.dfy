/** The trip log after loading: one record per rental, with the month name,
    weekday name and hour of its start time already derived. */
module Trips {
  import opened Wrappers
  import opened Seqs

  /** One row of a city's trip log. `gender` and `birthYear` are absent where the
      cell is empty (NaN) or the city's log has no such column. */
  datatype Trip = Trip(
    startMonth: string,      // English month name of the start time
    startDay: string,        // English weekday name of the start time
    startHour: int,          // hour of the start time, 0..23
    startStation: string,
    endStation: string,
    duration: nat,           // trip duration in whole seconds
    userType: string,
    gender: Option<string>,
    birthYear: Option<int>)

  /** A (possibly filtered) trip log; `hasDemographics` is false for a city whose
      log carries no gender and birth-year columns. */
  datatype Dataset = Dataset(rows: seq<Trip>, hasDemographics: bool)

  function StartMonths(rows: seq<Trip>): seq<string>
  {
    Column(rows, (t: Trip) => t.startMonth)
  }

  function StartDays(rows: seq<Trip>): seq<string>
  {
    Column(rows, (t: Trip) => t.startDay)
  }

  function StartHours(rows: seq<Trip>): seq<int>
  {
    Column(rows, (t: Trip) => t.startHour)
  }

  function StartStations(rows: seq<Trip>): seq<string>
  {
    Column(rows, (t: Trip) => t.startStation)
  }

  function EndStations(rows: seq<Trip>): seq<string>
  {
    Column(rows, (t: Trip) => t.endStation)
  }

  /** The label of one trip: its start station, " to ", its end station. */
  function TripLabel(t: Trip): string
  {
    t.startStation + " to " + t.endStation
  }

  function TripLabels(rows: seq<Trip>): seq<string>
  {
    Column(rows, TripLabel)
  }

  function Durations(rows: seq<Trip>): seq<nat>
  {
    Column(rows, (t: Trip) => t.duration)
  }

  function UserTypes(rows: seq<Trip>): seq<string>
  {
    Column(rows, (t: Trip) => t.userType)
  }

  function Genders(rows: seq<Trip>): seq<Option<string>>
  {
    Column(rows, (t: Trip) => t.gender)
  }

  /** The birth years that are present, in row order (pandas skips NaN). */
  function BirthYears(rows: seq<Trip>): (ys: seq<int>)
    ensures forall y :: y in ys <==> exists i :: 0 <= i < |rows| && rows[i].birthYear == Some(y)
    ensures forall y :: Occurrences(ys, y) == |Where(rows, (t: Trip) => t.birthYear == Some(y))|
  {
    if rows == [] then []
    else
      var rest := BirthYears(rows[1..]);
      var head := if rows[0].birthYear.Some? then [rows[0].birthYear.value] else [];
      assert forall i :: 0 < i < |rows| ==> rows[i] == rows[1..][i - 1];
      assert forall y :: Occurrences(head + rest, y) == |Where(rows, (t: Trip) => t.birthYear == Some(y))| by {
        forall y ensures Occurrences(head + rest, y) == |Where(rows, (t: Trip) => t.birthYear == Some(y))| {
          BirthYearCountStep(rows, head, rest, y);
        }
      }
      head + rest
  }

  /** One step of the count in `BirthYears`: the first row's year, if present, adds one
      occurrence to the years of the remaining rows. */
  lemma BirthYearCountStep(rows: seq<Trip>, head: seq<int>, rest: seq<int>, y: int)
    requires rows != []
    requires head == if rows[0].birthYear.Some? then [rows[0].birthYear.value] else []
    requires Occurrences(rest, y) == |Where(rows[1..], (t: Trip) => t.birthYear == Some(y))|
    ensures Occurrences(head + rest, y) == |Where(rows, (t: Trip) => t.birthYear == Some(y))|
  {
    OccurrencesAppend(head, rest, y);
    var p := (t: Trip) => t.birthYear == Some(y);
    assert |Where(rows, p)| == (if p(rows[0]) then 1 else 0) + |Where(rows[1..], p)|;
  }
}
