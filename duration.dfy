/** Splitting a duration in seconds into whole days, hours, minutes and seconds. */
module Duration {

  const SECONDS_PER_DAY: nat := 24 * 3600
  const SECONDS_PER_HOUR: nat := 3600
  const SECONDS_PER_MINUTE: nat := 60

  datatype Components = Components(days: nat, hours: nat, minutes: nat, seconds: nat)

  /** Hours, minutes and seconds each below the next unit. */
  predicate InRange(c: Components)
  {
    c.hours < 24 && c.minutes < 60 && c.seconds < 60
  }

  /** The number of seconds the components stand for. */
  function Compose(c: Components): nat
  {
    c.days * SECONDS_PER_DAY + c.hours * SECONDS_PER_HOUR + c.minutes * SECONDS_PER_MINUTE + c.seconds
  }

  /** The decomposition of a whole number of seconds. */
  function Decompose(s: nat): (c: Components)
    ensures InRange(c) && Compose(c) == s
  {
    var inDay := s % SECONDS_PER_DAY;
    var inHour := inDay % SECONDS_PER_HOUR;
    Components(s / SECONDS_PER_DAY, inDay / SECONDS_PER_HOUR,
               inHour / SECONDS_PER_MINUTE, inHour % SECONDS_PER_MINUTE)
  }

  /** Components in range are recovered from the seconds they stand for, so an in-range
      decomposition of a given count is unique. */
  lemma {:induction false} DecomposeCompose(c: Components)
    requires InRange(c)
    ensures Decompose(Compose(c)) == c
  {
    var s := Compose(c);
    var low := c.hours * SECONDS_PER_HOUR + c.minutes * SECONDS_PER_MINUTE + c.seconds;
    assert low < SECONDS_PER_DAY;
    DivModUnique(s, SECONDS_PER_DAY, c.days, low);
    var sub := c.minutes * SECONDS_PER_MINUTE + c.seconds;
    DivModUnique(low, SECONDS_PER_HOUR, c.hours, sub);
    DivModUnique(sub, SECONDS_PER_MINUTE, c.minutes, c.seconds);
  }

  lemma DivModUnique(n: int, d: int, q: int, r: int)
    requires d > 0 && 0 <= r < d && n == q * d + r
    ensures n / d == q && n % d == r
  {
    var q', r' := n / d, n % d;
    assert n == q' * d + r';
    assert (q - q') * d == r' - r;
    if q > q' {
      IntMulMono(1, q - q', d);
      assert false;
    } else if q < q' {
      IntMulMono(1, q' - q, d);
      assert false;
    }
  }

  lemma IntMulMono(a: int, b: int, d: int)
    requires a <= b && d > 0
    ensures a * d <= b * d
  {
  }

  /** Python's `x // d` on a float: the floor of the quotient. */
  function FloorDiv(x: real, d: real): real
    requires d > 0.0
  {
    (x / d).Floor as real
  }

  /** Python's `x % d` on a float with a positive divisor: what is left after `x // d`. */
  function Mod(x: real, d: real): real
    requires d > 0.0
  {
    x - d * FloorDiv(x, d)
  }

  /** One division step on a non-negative real agrees with integer division of its floor,
      and leaves a remainder below the divisor whose floor is the integer remainder. */
  lemma FloorDivStep(x: real, d: nat)
    requires x >= 0.0 && d > 0
    ensures FloorDiv(x, d as real) == (x.Floor / d) as real
    ensures 0.0 <= Mod(x, d as real) < d as real
    ensures Mod(x, d as real).Floor == x.Floor % d
  {
    var dr := d as real;
    var q := (x / dr).Floor;
    ProductAtMost(x, dr, q as real);
    ProductAbove(x, dr, (q + 1) as real);
    var n := x.Floor;
    assert q * d <= n;
    assert n < (q + 1) * d;
    DivModUnique(n, d, q, n - q * d);
    var rest := x - dr * q as real;
    assert rest == x - (q * d) as real;
    assert (n - q * d) as real <= rest < (n - q * d + 1) as real;
  }

  lemma ProductAtMost(x: real, d: real, k: real)
    requires d > 0.0 && k <= x / d
    ensures k * d <= x
  {
    var z := x / d;
    assert z * d == x;
    MulMono(k, z, d);
  }

  lemma ProductAbove(x: real, d: real, k: real)
    requires d > 0.0 && x / d < k
    ensures x < k * d
  {
    var z := x / d;
    assert z * d == x;
    MulStrictMono(z, k, d);
  }

  lemma MulMono(a: real, b: real, c: real)
    requires a <= b && c > 0.0
    ensures a * c <= b * c
  {
  }

  lemma MulStrictMono(a: real, b: real, c: real)
    requires a < b && c > 0.0
    ensures a * c < b * c
  {
  }

  /** The successive `//` and `%` steps of the source, on a non-negative number of seconds
      (an integer total, or a float mean). Each component is a whole number, the pieces add
      back up to the input exactly, and their integer parts are the decomposition of the
      input's whole seconds: the fraction only ever reaches the seconds part. */
  method TimeComponents(totalSeconds: real) returns (days: real, hours: real, minutes: real, seconds: real)
    requires totalSeconds >= 0.0
    ensures days * SECONDS_PER_DAY as real + hours * SECONDS_PER_HOUR as real
            + minutes * SECONDS_PER_MINUTE as real + seconds == totalSeconds
    ensures days == days.Floor as real && hours == hours.Floor as real && minutes == minutes.Floor as real
    ensures 0.0 <= days && 0.0 <= hours < 24.0 && 0.0 <= minutes < 60.0 && 0.0 <= seconds < 60.0
    ensures var c := Decompose(totalSeconds.Floor);
            days.Floor == c.days && hours.Floor == c.hours && minutes.Floor == c.minutes
            && seconds.Floor == c.seconds
  {
    var rest := totalSeconds;
    FloorDivStep(rest, SECONDS_PER_DAY);
    days := FloorDiv(rest, SECONDS_PER_DAY as real);
    rest := Mod(rest, SECONDS_PER_DAY as real);
    FloorDivStep(rest, SECONDS_PER_HOUR);
    hours := FloorDiv(rest, SECONDS_PER_HOUR as real);
    rest := Mod(rest, SECONDS_PER_HOUR as real);
    FloorDivStep(rest, SECONDS_PER_MINUTE);
    minutes := FloorDiv(rest, SECONDS_PER_MINUTE as real);
    rest := Mod(rest, SECONDS_PER_MINUTE as real);
    seconds := rest;
  }

  /** The mean of `count` durations summing to `total`, rounded down; it is the whole-second
      part of the real quotient, which is what the decomposition of the float mean sees. */
  function MeanSeconds(total: nat, count: nat): (m: nat)
    requires count > 0
    ensures m * count <= total < (m + 1) * count
    ensures (total as real / count as real).Floor == m
  {
    var m := total / count;
    assert (m * count) as real <= total as real < ((m + 1) * count) as real;
    FloorOfQuotient(total as real, count as real, m);
    m
  }

  lemma FloorOfQuotient(x: real, d: real, m: int)
    requires d > 0.0 && m as real * d <= x < (m + 1) as real * d
    ensures (x / d).Floor == m
  {
    QuotientAtLeast(x, d, m as real);
    QuotientBelow(x, d, (m + 1) as real);
  }

  lemma QuotientAtLeast(x: real, d: real, k: real)
    requires d > 0.0 && k * d <= x
    ensures k <= x / d
  {
    var z := x / d;
    assert z * d == x;
    if z < k {
      MulStrictMono(z, k, d);
    }
  }

  lemma QuotientBelow(x: real, d: real, k: real)
    requires d > 0.0 && x < k * d
    ensures x / d < k
  {
    var z := x / d;
    assert z * d == x;
    if z >= k {
      MulMono(k, z, d);
    }
  }
}
