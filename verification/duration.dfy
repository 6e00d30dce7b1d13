/** The days/hours/minutes/seconds breakdown of `trip_duration_stats`. */
module Duration {

  const SecondsPerDay: nat := 86400
  const SecondsPerHour: nat := 3600
  const SecondsPerMinute: nat := 60

  datatype Breakdown = Breakdown(days: int, hours: int, minutes: int, seconds: int)

  /** Each unit is below the next one up: at most 23 hours, 59 minutes, 59 seconds. */
  predicate Normal(b: Breakdown) {
    && 0 <= b.days
    && 0 <= b.hours < 24
    && 0 <= b.minutes < 60
    && 0 <= b.seconds < 60
  }

  /** The number of seconds a breakdown stands for. */
  function Seconds(b: Breakdown): int {
    b.days * SecondsPerDay + b.hours * SecondsPerHour + b.minutes * SecondsPerMinute + b.seconds
  }

  /**
   * The split of the total: days by `// 86400`, hours from `% 86400`, minutes from `% 3600`
   * (not from what is left after the hours) and seconds from `% 60`.
   */
  function Split(total: nat): Breakdown {
    Breakdown(total / SecondsPerDay, (total % SecondsPerDay) / SecondsPerHour,
              (total % SecondsPerHour) / SecondsPerMinute, total % SecondsPerMinute)
  }

  /** Division with remainder has one answer: a quotient and a remainder below `n` fix both. */
  lemma DivModUnique(t: int, n: int, q: int, r: int)
    requires n > 0 && 0 <= r < n && t == q * n + r
    ensures t / n == q && t % n == r
  {
    var q', r' := t / n, t % n;
    assert t == q' * n + r';
    if q' > q {
      MulMonotone(q + 1, q', n);
      assert false;
    } else if q' < q {
      MulMonotone(q' + 1, q, n);
      assert false;
    }
  }

  lemma MulMonotone(a: int, b: int, n: nat)
    requires a <= b
    ensures a * n <= b * n
  {
  }

  /** Taking `% (a * b)` first does not change the remainder modulo `b`. */
  lemma ModOfMod(t: nat, a: nat, b: nat)
    requires a > 0 && b > 0
    ensures (t % (a * b)) % b == t % b
  {
    var r := t % (a * b);
    var q := t / (a * b);
    assert t == q * (a * b) + r;
    assert t == (q * a + r / b) * b + r % b;
    DivModUnique(t, b, q * a + r / b, r % b);
  }

  /** The split puts the total back together exactly, with every unit in range. */
  lemma SplitReconstructs(total: nat)
    ensures Normal(Split(total))
    ensures Seconds(Split(total)) == total
  {
    var d, rd := total / 86400, total % 86400;
    var h, rh := rd / 3600, rd % 3600;
    ModOfMod(total, 24, 3600);
    assert total % 3600 == rh;
    var m, s := rh / 60, rh % 60;
    ModOfMod(total, 60, 60);
    assert total % 60 == s;
    assert total == d * 86400 + rd;
    assert rd == h * 3600 + rh;
    assert rh == m * 60 + s;
  }

  /** A breakdown in range is the split of the seconds it stands for: the split is its inverse. */
  lemma SplitOfSeconds(b: Breakdown)
    requires Normal(b)
    ensures Split(Seconds(b)) == b
  {
    var t := Seconds(b);
    var rd := b.hours * 3600 + b.minutes * 60 + b.seconds;
    DivModUnique(t, 86400, b.days, rd);
    var rh := b.minutes * 60 + b.seconds;
    DivModUnique(rd, 3600, b.hours, rh);
    ModOfMod(t, 24, 3600);
    DivModUnique(rh, 60, b.minutes, b.seconds);
    ModOfMod(t, 1440, 60);
  }

  /**
   * The breakdown as a cascade, each step taking what the previous one left: it agrees with
   * `Split`, because an hour divides a day and a minute divides an hour.
   */
  function Cascade(total: nat): Breakdown {
    var afterDays := total % SecondsPerDay;
    var afterHours := afterDays % SecondsPerHour;
    Breakdown(total / SecondsPerDay, afterDays / SecondsPerHour,
              afterHours / SecondsPerMinute, afterHours % SecondsPerMinute)
  }

  lemma CascadeIsSplit(total: nat)
    ensures Cascade(total) == Split(total)
  {
    ModOfMod(total, 24, 3600);
    ModOfMod(total % 3600, 60, 60);
    ModOfMod(total, 60, 60);
  }

  // ----- the mean, a float in the source -----

  /** Python's `x // n` for a float `x` and a positive whole `n`. */
  function FloorDiv(x: real, n: nat): int
    requires n > 0
  {
    (x / n as real).Floor
  }

  /** Python's `x % n` for a float `x` and a positive whole `n`: `x - n * (x // n)`. */
  function FloatMod(x: real, n: nat): real
    requires n > 0
  {
    x - (n as real) * (FloorDiv(x, n) as real)
  }

  /** The split of the mean exactly as the source writes it, `int(...)` around each float step. */
  function SplitReal(mean: real): Breakdown
    requires mean >= 0.0
  {
    Breakdown(FloorDiv(mean, SecondsPerDay), FloorDiv(FloatMod(mean, SecondsPerDay), SecondsPerHour),
              FloorDiv(FloatMod(mean, SecondsPerHour), SecondsPerMinute), FloatMod(mean, SecondsPerMinute).Floor)
  }

  /** Flooring `x / n` is whole division of the floor of `x`. */
  lemma FloorDivIsDivOfFloor(x: real, n: nat)
    requires x >= 0.0 && n > 0
    ensures FloorDiv(x, n) == x.Floor / n
  {
    var k := x.Floor;
    var q, r := k / n, k % n;
    assert k == q * n + r;
    var y := x / n as real;
    assert y * n as real == x;
    assert (q * n) as real <= x;
    assert x < ((q + 1) * n) as real by {
      assert k + 1 <= (q + 1) * n;
    }
    assert (q as real) * (n as real) <= y * (n as real);
    assert y * (n as real) < ((q + 1) as real) * (n as real);
    assert q as real <= y;
    assert y < (q + 1) as real;
  }

  /** For `x >= 0`, the float remainder `x % n` is not negative and its floor is `floor(x) % n`. */
  lemma FloatModFloor(x: real, n: nat)
    requires x >= 0.0 && n > 0
    ensures FloatMod(x, n) >= 0.0
    ensures FloatMod(x, n).Floor == x.Floor % n
  {
    FloorDivIsDivOfFloor(x, n);
    var k := x.Floor;
    var q := k / n;
    assert k == q * n + k % n;
    assert FloatMod(x, n) == x - (q * n) as real;
    assert (k - q * n) as real <= FloatMod(x, n) < (k - q * n + 1) as real;
  }

  /** The source's float arithmetic on the mean gives the split of the mean's floor. */
  lemma SplitRealIsSplitOfFloor(mean: real)
    requires mean >= 0.0
    ensures SplitReal(mean) == Split(mean.Floor)
  {
    var k := mean.Floor;
    FloorDivIsDivOfFloor(mean, 86400);
    FloatModFloor(mean, 86400);
    FloorDivIsDivOfFloor(FloatMod(mean, 86400), 3600);
    FloatModFloor(mean, 3600);
    FloorDivIsDivOfFloor(FloatMod(mean, 3600), 60);
    FloatModFloor(mean, 60);
  }

  /** The floor of `sum / count` over the reals is whole division. */
  lemma FloorOfQuotient(sum: nat, count: nat)
    requires count > 0
    ensures (sum as real / count as real).Floor == sum / count
  {
    FloorDivIsDivOfFloor(sum as real, count);
  }
}
