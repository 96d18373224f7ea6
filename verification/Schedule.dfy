/** When the generator's events happen: exact integer schedules, clock drift and jitter. Every
    intermediate result is given the machine type it has to fit. */
module Schedule {
  import opened Bytes
  import opened Telemetry
  import opened Random

  const NANOSECONDS_PER_SECOND: I64 := 1_000_000_000
  const BASE_TIMESTAMP_NS: I64 := 1_700_000_000_000_000_000
  const MAX_DURATION_NS: I64 := 3_600_000_000_000
  const MAX_SENSOR_RATE_HZ: U32 := 10_000
  const MAX_GENERATED_EVENTS: U64 := 2_000_000
  const MAX_DRIFT_PPM: I64 := 1_000_000

  datatype Rates = Rates(
    accelerometer: U32,
    gyroscope: U32,
    camera: U32,
    gps: U32,
    temperature: U32,
    faultMonitor: U32)

  datatype Faults = Faults(drop: U32, duplicate: U32, reorder: U32)

  datatype Config = Config(duration: I64, maxJitter: I64, driftPpm: I64, rates: Rates, faults: Faults)

  function RateList(r: Rates): (rates: seq<U32>)
    ensures |rates| == 6
  {
    [r.accelerometer, r.gyroscope, r.camera, r.gps, r.temperature, r.faultMonitor]
  }

  function Sum(s: seq<nat>): nat {
    if s == [] then 0 else Sum(s[..|s| - 1]) + s[|s| - 1]
  }

  ghost predicate ValidConfig(c: Config) {
    && 0 < c.duration <= MAX_DURATION_NS
    && 0 <= c.maxJitter <= MAX_DURATION_NS
    && -MAX_DRIFT_PPM <= c.driftPpm <= MAX_DRIFT_PPM
    && c.faults.drop <= PROBABILITY_SCALE
    && c.faults.duplicate <= PROBABILITY_SCALE
    && c.faults.reorder <= PROBABILITY_SCALE
    && (forall i :: 0 <= i < 6 ==> RateList(c.rates)[i] <= MAX_SENSOR_RATE_HZ)
    && Sum(RateList(c.rates)) * (c.duration / NANOSECONDS_PER_SECOND + 1) <= MAX_GENERATED_EVENTS
  }

  /** The sum of the rates, unless one of them is too high. */
  method CombineRates(rates: seq<U32>) returns (combined: Option<U64>)
    requires |rates| == 6
    ensures combined.None? <==> exists i :: 0 <= i < 6 && rates[i] > MAX_SENSOR_RATE_HZ
    ensures combined.Some? ==> combined.value == Sum(rates) && combined.value <= 60_000
  {
    var sum: U64 := 0;
    for i := 0 to 6
      invariant sum == Sum(rates[..i])
      invariant sum <= i * MAX_SENSOR_RATE_HZ
      invariant forall k :: 0 <= k < i ==> rates[k] <= MAX_SENSOR_RATE_HZ
    {
      if rates[i] > MAX_SENSOR_RATE_HZ {
        return None;
      }
      assert rates[..i + 1][..i] == rates[..i];
      sum := sum + rates[i];
    }
    assert rates[..6] == rates;
    return Some(sum);
  }

  /** Refuses exactly the configurations that are not valid. */
  method ValidateConfig(c: Config) returns (error: Option<string>)
    ensures error.None? <==> ValidConfig(c)
  {
    if c.duration <= 0 || c.duration > MAX_DURATION_NS {
      return Some("duration must be between one nanosecond and one hour");
    }
    if c.maxJitter < 0 || c.maxJitter > MAX_DURATION_NS {
      return Some("maximum jitter must be between zero and one hour");
    }
    if c.driftPpm < -1_000_000 || c.driftPpm > 1_000_000 {
      return Some("clock drift must be between -1000000 and 1000000 ppm");
    }
    if c.faults.drop > PROBABILITY_SCALE {
      return Some("drop probability cannot exceed 1000000");
    }
    if c.faults.duplicate > PROBABILITY_SCALE {
      return Some("duplicate probability cannot exceed 1000000");
    }
    if c.faults.reorder > PROBABILITY_SCALE {
      return Some("reorder probability cannot exceed 1000000");
    }
    var rates := RateList(c.rates);
    var combined := CombineRates(rates);
    if combined.None? {
      return Some("sensor rate cannot exceed 10000 Hz");
    }
    hide Sum;
    var seconds: U64 := c.duration / NANOSECONDS_PER_SECOND + 1;
    assert seconds <= 3601;
    ProductBound(combined.value, 60_000, seconds, 3601);
    var total: U64 := combined.value * seconds;
    if total > MAX_GENERATED_EVENTS {
      return Some("configuration would generate more than 2000000 events");
    }
    return None;
  }

  // Arithmetic.

  lemma ProductBound(a: nat, m: nat, b: nat, n: nat)
    requires a <= m && b <= n
    ensures a * b <= m * n
  {
    assert (m - a) * b >= 0 && m * (n - b) >= 0;
    assert m * n - a * b == (m - a) * b + m * (n - b);
  }

  lemma DivideSum(a: nat, b: nat, m: nat)
    requires m > 0
    ensures (a * m + b) / m == a + b / m
  {
    var q, r := b / m, b % m;
    assert a * m + b == m * (a + q) + r;
    DivisionUnique(m, a * m + b, a + q, r);
  }

  lemma DivideMonotone(a: nat, b: nat, m: nat)
    requires m > 0 && a <= b
    ensures a / m <= b / m
  {
    var p, q := a / m, b / m;
    assert a == m * p + a % m && b == m * q + b % m;
    if q < p {
      TimesGap(m, q, p);
    }
  }

  lemma DivideBelow(a: nat, b: nat, m: nat)
    requires m > 0 && a < b * m
    ensures a / m < b
  {
    var q := a / m;
    assert a == m * q + a % m;
    if b < q {
      TimesGap(m, b, q);
    }
  }

  // How many events, and when.

  function EventCount(duration: I64, rate: U32): (n: U64)
    requires 0 <= duration <= MAX_DURATION_NS && rate <= MAX_SENSOR_RATE_HZ
    ensures n == duration * rate / NANOSECONDS_PER_SECOND
  {
    var wholeSeconds: U64 := duration / NANOSECONDS_PER_SECOND;
    var remaining: U64 := duration % NANOSECONDS_PER_SECOND;
    CountedExactly(duration, rate, wholeSeconds, remaining);
    if rate == 0 then 0
    else
      var whole: U64 := wholeSeconds * rate;
      var part: U64 := remaining * rate;
      whole + part / NANOSECONDS_PER_SECOND
  }

  lemma CountedExactly(duration: nat, rate: nat, seconds: nat, remaining: nat)
    requires seconds <= 3_600 && remaining < NANOSECONDS_PER_SECOND && rate <= MAX_SENSOR_RATE_HZ
    requires duration == seconds * NANOSECONDS_PER_SECOND + remaining
    ensures seconds * rate <= 36_000_000 && remaining * rate <= 10_000_000_000_000
    ensures rate == 0 ==> duration * rate / NANOSECONDS_PER_SECOND == 0
    ensures duration * rate / NANOSECONDS_PER_SECOND == seconds * rate + remaining * rate / NANOSECONDS_PER_SECOND
  {
    ProductBound(seconds, 3_600, rate, 10_000);
    ProductBound(remaining, 1_000_000_000, rate, 10_000);
    assert duration * rate == (seconds * rate) * NANOSECONDS_PER_SECOND + remaining * rate;
    DivideSum(seconds * rate, remaining * rate, NANOSECONDS_PER_SECOND);
  }

  function ScheduledTime(index: U64, rate: U32): (t: I64)
    requires index <= MAX_GENERATED_EVENTS && 0 < rate <= MAX_SENSOR_RATE_HZ
    ensures t == index * NANOSECONDS_PER_SECOND / rate
  {
    SplitIndex(index, rate);
    var wholeSeconds: U64 := index / rate;
    var fraction: U64 := index % rate;
    var whole: U64 := wholeSeconds * NANOSECONDS_PER_SECOND;
    var part: U64 := fraction * NANOSECONDS_PER_SECOND;
    ScheduledExactly(index, rate, wholeSeconds, fraction);
    var t: U64 := whole + part / rate;
    t
  }

  lemma SplitIndex(index: nat, rate: nat)
    requires rate > 0
    ensures index / rate <= index && index % rate < rate
    ensures index == (index / rate) * rate + index % rate
  {
    DivideMonotone(index, index * rate + 0, rate);
    DivideSum(index, 0, rate);
    ProductBound(index, index, 1, rate);
  }

  lemma ScheduledExactly(index: nat, rate: nat, seconds: nat, fraction: nat)
    requires rate > 0 && fraction < rate
    requires index == seconds * rate + fraction
    ensures index * NANOSECONDS_PER_SECOND / rate
        == seconds * NANOSECONDS_PER_SECOND + fraction * NANOSECONDS_PER_SECOND / rate
    ensures 0 <= fraction * NANOSECONDS_PER_SECOND / rate < NANOSECONDS_PER_SECOND
  {
    DivideBelow(fraction * NANOSECONDS_PER_SECOND, NANOSECONDS_PER_SECOND, rate);
    assert index * NANOSECONDS_PER_SECOND
        == (seconds * NANOSECONDS_PER_SECOND) * rate + fraction * NANOSECONDS_PER_SECOND;
    DivideSum(seconds * NANOSECONDS_PER_SECOND, fraction * NANOSECONDS_PER_SECOND, rate);
  }

  /** Scheduled times strictly increase. */
  lemma ScheduleIncreases(i: U64, j: U64, rate: U32)
    requires i < j <= MAX_GENERATED_EVENTS && 0 < rate <= MAX_SENSOR_RATE_HZ
    ensures ScheduledTime(i, rate) < ScheduledTime(j, rate)
  {
    var a, b := i * NANOSECONDS_PER_SECOND, j * NANOSECONDS_PER_SECOND;
    assert a + rate <= b;
    DivideSum(1, a, rate);
    DivideMonotone(1 * rate + a, b, rate);
  }

  /** Every counted event is scheduled before the end, and the next one would not be counted
      because it is due at the end or later. */
  lemma CountedBeforeEnd(duration: I64, rate: U32, i: U64)
    requires 0 <= duration <= MAX_DURATION_NS && 0 < rate <= MAX_SENSOR_RATE_HZ
    requires i < MAX_GENERATED_EVENTS
    ensures i < EventCount(duration, rate) ==> ScheduledTime(i, rate) < duration
    ensures i >= EventCount(duration, rate) ==> ScheduledTime(i + 1, rate) >= duration
  {
    var product, n := duration * rate, EventCount(duration, rate);
    assert n * NANOSECONDS_PER_SECOND <= product < (n + 1) * NANOSECONDS_PER_SECOND;
    if i < n {
      assert i * NANOSECONDS_PER_SECOND + NANOSECONDS_PER_SECOND <= n * NANOSECONDS_PER_SECOND;
      DivideBelow(i * NANOSECONDS_PER_SECOND, duration, rate);
    } else {
      assert (n + 1) * NANOSECONDS_PER_SECOND <= (i + 1) * NANOSECONDS_PER_SECOND;
      DivideMonotone(duration * rate, (i + 1) * NANOSECONDS_PER_SECOND, rate);
      DivideSum(duration, 0, rate);
    }
  }

  function CountsOf(c: Config): (counts: seq<U64>)
    requires 0 <= c.duration <= MAX_DURATION_NS
    requires forall i :: 0 <= i < 6 ==> RateList(c.rates)[i] <= MAX_SENSOR_RATE_HZ
    ensures |counts| == 6
  {
    seq(6, i requires 0 <= i < 6 => EventCount(c.duration, RateList(c.rates)[i]))
  }

  lemma {:induction false} SumOfQuotients(rates: seq<nat>, counts: seq<nat>, duration: nat, seconds: nat)
    requires |rates| == |counts|
    requires duration < seconds * NANOSECONDS_PER_SECOND
    requires forall i :: 0 <= i < |rates| ==> counts[i] == duration * rates[i] / NANOSECONDS_PER_SECOND
    ensures Sum(counts) <= Sum(rates) * seconds
    decreases |rates|
  {
    if rates == [] {
    } else {
      var last := |rates| - 1;
      SumOfQuotients(rates[..last], counts[..last], duration, seconds);
      CountBound(duration, rates[last], seconds);
      TimesSum(Sum(rates[..last]), rates[last], seconds);
      hide NANOSECONDS_PER_SECOND;
    }
  }

  lemma TimesSum(a: nat, b: nat, c: nat)
    ensures (a + b) * c == a * c + b * c
  {
  }

  lemma CountBound(duration: nat, rate: nat, seconds: nat)
    requires duration < seconds * NANOSECONDS_PER_SECOND
    ensures duration * rate / NANOSECONDS_PER_SECOND <= rate * seconds
  {
    assert (seconds * NANOSECONDS_PER_SECOND - duration) * rate >= 0;
    assert duration * rate <= (rate * seconds) * NANOSECONDS_PER_SECOND + 0;
    DivideMonotone(duration * rate, (rate * seconds) * NANOSECONDS_PER_SECOND + 0, NANOSECONDS_PER_SECOND);
    DivideSum(rate * seconds, 0, NANOSECONDS_PER_SECOND);
  }

  /** A valid configuration never schedules more than the limit, all sensors together. */
  lemma PeriodicEventsLimited(c: Config)
    requires ValidConfig(c)
    ensures Sum(CountsOf(c)) <= MAX_GENERATED_EVENTS
  {
    SumOfQuotients(RateList(c.rates), CountsOf(c), c.duration, c.duration / NANOSECONDS_PER_SECOND + 1);
  }

  // Drift.

  /** Division that truncates towards zero. */
  function Truncated(a: int, b: nat): (q: int)
    requires b > 0
  {
    if a >= 0 then a / b else -((-a) / b)
  }

  function ApplyClockDrift(elapsed: I64, driftPpm: I64): (t: I64)
    requires 0 <= elapsed <= MAX_DURATION_NS && -MAX_DRIFT_PPM <= driftPpm <= MAX_DRIFT_PPM
    ensures t == elapsed + Truncated(elapsed * driftPpm, PROBABILITY_SCALE)
    ensures 0 <= t <= 2 * elapsed
  {
    var wholeMillions: I64 := elapsed / PROBABILITY_SCALE;
    var remainder: I64 := elapsed % PROBABILITY_SCALE;
    DriftExactly(elapsed, driftPpm, wholeMillions, remainder);
    var whole: I64 := wholeMillions * driftPpm;
    var part: I64 := remainder * driftPpm;
    elapsed + whole + Truncated(part, PROBABILITY_SCALE)
  }

  lemma DriftExactly(elapsed: nat, driftPpm: int, millions: nat, remainder: nat)
    requires elapsed == millions * PROBABILITY_SCALE + remainder
    requires remainder < PROBABILITY_SCALE
    requires -MAX_DRIFT_PPM <= driftPpm <= MAX_DRIFT_PPM
    ensures millions * driftPpm + Truncated(remainder * driftPpm, PROBABILITY_SCALE)
        == Truncated(elapsed * driftPpm, PROBABILITY_SCALE)
    ensures 0 - elapsed <= Truncated(elapsed * driftPpm, PROBABILITY_SCALE) <= elapsed
    ensures 0 - millions * MAX_DRIFT_PPM <= millions * driftPpm <= millions * MAX_DRIFT_PPM
    ensures 0 - remainder * MAX_DRIFT_PPM <= remainder * driftPpm <= remainder * MAX_DRIFT_PPM
  {
    var size := if driftPpm < 0 then -driftPpm else driftPpm;
    SizeOfDrift(elapsed, size, millions, remainder);
    SignOfProduct(elapsed, driftPpm);
    SignOfProduct(millions, driftPpm);
    SignOfProduct(remainder, driftPpm);
    ProductBound(millions, millions, size, MAX_DRIFT_PPM);
    ProductBound(remainder, remainder, size, MAX_DRIFT_PPM);
  }

  lemma SignOfProduct(a: nat, b: int)
    ensures b >= 0 ==> a * b >= 0
    ensures b < 0 ==> a * b == -(a * (-b)) && a * (-b) >= 0
  {
  }

  lemma SizeOfDrift(elapsed: nat, size: nat, millions: nat, remainder: nat)
    requires elapsed == millions * PROBABILITY_SCALE + remainder
    requires size <= PROBABILITY_SCALE
    ensures elapsed * size / PROBABILITY_SCALE == millions * size + remainder * size / PROBABILITY_SCALE
    ensures 0 <= elapsed * size / PROBABILITY_SCALE <= elapsed
  {
    ProductSplit(elapsed, size, millions, remainder);
    DivideSum(millions * size, remainder * size, PROBABILITY_SCALE);
    ProductBound(elapsed, elapsed, size, PROBABILITY_SCALE);
    DivideMonotone(elapsed * size, elapsed * PROBABILITY_SCALE + 0, PROBABILITY_SCALE);
    DivideSum(elapsed, 0, PROBABILITY_SCALE);
  }

  lemma ProductSplit(elapsed: nat, size: nat, millions: nat, remainder: nat)
    requires elapsed == millions * PROBABILITY_SCALE + remainder
    ensures elapsed * size == (millions * size) * PROBABILITY_SCALE + remainder * size
  {
  }

  /** A drifting clock never runs backwards. */
  lemma DriftMonotone(a: I64, b: I64, driftPpm: I64)
    requires 0 <= a <= b <= MAX_DURATION_NS && -MAX_DRIFT_PPM <= driftPpm <= MAX_DRIFT_PPM
    ensures ApplyClockDrift(a, driftPpm) <= ApplyClockDrift(b, driftPpm)
  {
    SignOfProduct(a, driftPpm);
    SignOfProduct(b, driftPpm);
    var size := if driftPpm < 0 then -driftPpm else driftPpm;
    LostAtMost(a, b, size);
  }

  lemma LostAtMost(a: nat, b: nat, size: nat)
    requires a <= b && size <= PROBABILITY_SCALE
    ensures a * size / PROBABILITY_SCALE <= b * size / PROBABILITY_SCALE <= a * size / PROBABILITY_SCALE + (b - a)
  {
    assert b * size - a * size == (b - a) * size;
    ProductBound(b - a, b - a, size, PROBABILITY_SCALE);
    DivideMonotone(a * size, b * size, PROBABILITY_SCALE);
    DivideMonotone(b * size, (b - a) * PROBABILITY_SCALE + a * size, PROBABILITY_SCALE);
    DivideSum(b - a, a * size, PROBABILITY_SCALE);
  }

  // Jitter.

  datatype Shift = Shift(value: I64, next: nat)

  ghost function Jitter(engine: Engine, position: nat, maxJitter: I64): (s: Shift)
    requires Recurring(engine) && 0 <= maxJitter <= MAX_DURATION_NS
    ensures -maxJitter <= s.value <= maxJitter
    ensures maxJitter == 0 ==> s == Shift(0, position)
  {
    if maxJitter == 0 then Shift(0, position)
    else
      var d := Bounded(engine, position, maxJitter * 2 + 1);
      Shift(d.value - maxJitter, d.next)
  }

  /** All values of a jitter come from the same number of engine values each. */
  lemma JitterEven(engine: Engine, position: nat, maxJitter: I64)
    requires Recurring(engine) && 0 < maxJitter <= MAX_DURATION_NS
    ensures var s, n := Jitter(engine, position, maxJitter), 2 * maxJitter + 1;
      && position < s.next
      && engine(s.next - 1) in Outcomes(n, s.value + maxJitter)
      && |Outcomes(n, s.value + maxJitter)| == TWO_64 / n
  {
    hide Bounded, Outcomes;
    var s, n := Jitter(engine, position, maxJitter), 2 * maxJitter + 1;
    DrawnFrom(engine, position, n);
    Unbiased(n, s.value + maxJitter);
  }

  method SampleJitter(random: PortableRandom, maxJitter: I64) returns (jitter: I64)
    requires random.Valid() && 0 <= maxJitter <= MAX_DURATION_NS
    modifies random
    ensures Shift(jitter, random.position) == Jitter(random.engine, old(random.position), maxJitter)
  {
    if maxJitter == 0 {
      return 0;
    }
    var width: U64 := maxJitter * 2 + 1;
    var value := random.DrawBounded(width);
    jitter := value - maxJitter;
  }
}
