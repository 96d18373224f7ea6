/** What the generated events hold, said in numbers: the reading of each sensor at each sequence
    number, when it is stamped, how many there are, and the controller's states. */
module WorkloadContents {
  import opened Bytes
  import opened Telemetry
  import opened Analyzer
  import opened Random
  import opened Schedule
  import opened Workload
  import opened WorkloadTheorems

  /** A valid configuration, in the units of its documentation. */
  lemma ValidMeans(c: Config)
    ensures var r := c.rates;
      ValidConfig(c)
      <==> && 1 <= c.duration <= 3600 * 1_000_000_000
           && 0 <= c.maxJitter <= 3600 * 1_000_000_000
           && -1_000_000 <= c.driftPpm <= 1_000_000
           && c.faults.drop <= 1_000_000 && c.faults.duplicate <= 1_000_000 && c.faults.reorder <= 1_000_000
           && r.accelerometer <= 10_000 && r.gyroscope <= 10_000 && r.camera <= 10_000
           && r.gps <= 10_000 && r.temperature <= 10_000 && r.faultMonitor <= 10_000
           && (r.accelerometer + r.gyroscope + r.camera + r.gps + r.temperature + r.faultMonitor)
              * (c.duration / 1_000_000_000 + 1) <= 2_000_000
  {
    var r, rates := c.rates, RateList(c.rates);
    SumOfSix(rates);
    hide Sum;
    assert rates[0] == r.accelerometer && rates[1] == r.gyroscope && rates[2] == r.camera;
    assert rates[3] == r.gps && rates[4] == r.temperature && rates[5] == r.faultMonitor;
  }

  lemma SumOfSix(s: seq<nat>)
    requires |s| == 6
    ensures Sum(s) == s[0] + s[1] + s[2] + s[3] + s[4] + s[5]
  {
    SumStep(s, 5);
    SumStep(s, 4);
    SumStep(s, 3);
    SumStep(s, 2);
    SumStep(s, 1);
    SumStep(s, 0);
    assert s[..6] == s;
  }

  lemma SumStep(s: seq<nat>, i: nat)
    requires i < |s|
    ensures Sum(s[..i + 1]) == Sum(s[..i]) + s[i]
    ensures i == 0 ==> Sum(s[..i]) == 0
  {
    assert s[..i + 1][..i] == s[..i];
  }

  // Time.

  /** When an event of time `elapsed` is due by a clock that drifts. */
  function Due(elapsed: int, c: Config): int {
    1_700_000_000_000_000_000 + elapsed + Truncated(elapsed * c.driftPpm, 1_000_000)
  }

  /** Stamped as due after `elapsed`, give or take the jitter. */
  predicate Stamped(e: Event, elapsed: int, c: Config) {
    && e.sourceClock == CLOCK_UTC
    && Due(elapsed, c) - c.maxJitter <= e.sourceTimestamp <= Due(elapsed, c) + c.maxJitter
  }

  /** One of the events of a sensor that runs at `rate`. */
  predicate Periodically(e: Event, rate: nat, c: Config) {
    && rate > 0
    && e.sequenceNumber < c.duration * rate / 1_000_000_000
    && Stamped(e, e.sequenceNumber * 1_000_000_000 / rate, c)
  }

  // Readings. All of them are exact in binary.

  predicate Is(x: Double, scale: real, n: int) {
    x.Finite? && scale * x.value == n as real
  }

  predicate AccelerometerReading(p: Payload, n: nat) {
    && p.Accelerometer?
    && Is(p.acceleration.x, 16.0, n % 32 - 16)
    && Is(p.acceleration.y, 16.0, (n + 8) % 32 - 16)
    && Is(p.acceleration.z, 128.0, 1256 + n % 8)
  }

  predicate GyroscopeReading(p: Payload, n: nat) {
    && p.Gyroscope?
    && Is(p.rotation.x, 256.0, n % 16)
    && Is(p.rotation.y, 256.0, -(n % 8))
    && Is(p.rotation.z, 128.0, n % 4)
  }

  predicate CameraReading(p: Payload, n: nat) {
    && p.Camera?
    && p.frame == n && p.width == 1920 && p.height == 1080
    && p.exposure == 8_000_000 + 250_000 * (n % 4)
  }

  predicate GpsReading(p: Payload, n: nat) {
    && p.Gps?
    && Is(p.latitude, 65_536.0, 29 * 65_536 + 40_960 + n)
    && Is(p.longitude, 65_536.0, n - 82 * 65_536 - 24_576)
    && Is(p.accuracy, 4.0, 12 + n % 4)
    && !p.mocked
  }

  predicate TemperatureReading(p: Payload, n: nat) {
    p.Temperature? && Is(p.celsius, 16.0, 640 + n % 16)
  }

  predicate FaultReport(p: Payload, n: nat) {
    && p.Fault?
    && p.code == 1_000 + n
    && (|| (p.severity == SEVERITY_WARNING && p.message == "synthetic threshold warning")
        || (p.severity == SEVERITY_ERROR && p.message == "synthetic sensor error")
        || (p.severity == SEVERITY_CRITICAL && p.message == "synthetic critical fault"))
  }

  /** The controller's states, by sequence number, the time of each, and what they are called. */
  predicate StateAt(n: nat, state: int, detail: string, elapsed: int, duration: int) {
    var spread := if duration >= 8 then duration / 8 else 1;
    || (n == 0 && state == STATE_INITIALIZING && detail == "STATE_INITIALIZING" && elapsed == 0)
    || (n == 1 && state == STATE_READY && detail == "STATE_READY"
        && duration / 4 <= elapsed < duration / 4 + spread)
    || (n == 2 && state == STATE_DEGRADED && detail == "STATE_DEGRADED"
        && duration * 5 / 8 <= elapsed < duration * 5 / 8 + spread)
    || ((n == 2 || n == 3) && state == STATE_STOPPED && detail == "STATE_STOPPED" && elapsed == duration - 1)
  }

  ghost predicate ControllerReport(e: Event, c: Config) {
    && e.payload.ControllerStatus?
    && exists elapsed: int :: Stamped(e, elapsed, c)
        && StateAt(e.sequenceNumber, e.payload.state, e.payload.detail, elapsed, c.duration)
  }

  predicate SensorReport(e: Event, c: Config) {
    var n, p := e.sequenceNumber, e.payload;
    || (e.producerId == "sim-accelerometer" && Periodically(e, c.rates.accelerometer, c) && AccelerometerReading(p, n))
    || (e.producerId == "sim-gyroscope" && Periodically(e, c.rates.gyroscope, c) && GyroscopeReading(p, n))
    || (e.producerId == "sim-camera" && Periodically(e, c.rates.camera, c) && CameraReading(p, n))
    || (e.producerId == "sim-gps" && Periodically(e, c.rates.gps, c) && GpsReading(p, n))
    || (e.producerId == "sim-temperature" && Periodically(e, c.rates.temperature, c) && TemperatureReading(p, n))
    || (e.producerId == "sim-fault" && Periodically(e, c.rates.faultMonitor, c) && FaultReport(p, n))
  }

  ghost predicate Scripted(e: Event, c: Config) {
    SensorReport(e, c) || (e.producerId == "sim-controller" && ControllerReport(e, c))
  }

  lemma BaseStamped(producer: string, sequence: U64, elapsed: I64, c: Config, engine: Engine, position: nat)
    requires Recurring(engine) && Timely(c, elapsed)
    ensures var e := BaseEvent(producer, sequence, elapsed, c, engine, position).event;
      && e.producerId == producer && e.sequenceNumber == sequence
      && Stamped(e, elapsed, c)
  {
  }

  /** The greater the draw, the later the stamp. */
  lemma StampDrawn(producer: string, sequence: U64, elapsed: I64, c: Config, engine: Engine, position: nat)
    requires Recurring(engine) && Timely(c, elapsed) && c.maxJitter > 0
    ensures var e := BaseEvent(producer, sequence, elapsed, c, engine, position).event;
      e.sourceTimestamp == Due(elapsed, c) - c.maxJitter + Bounded(engine, position, 2 * c.maxJitter + 1).value
  {
    hide Bounded;
  }

  lemma RatioIs(n: nat, d: nat)
    requires d > 0
    ensures d as real * Ratio(n, d) == n as real
  {
  }

  predicate ReadingOf(sensor: Sensor, p: Payload, n: nat) {
    match sensor
    case AccelerometerSensor => AccelerometerReading(p, n)
    case GyroscopeSensor => GyroscopeReading(p, n)
    case CameraSensor => CameraReading(p, n)
    case GpsSensor => GpsReading(p, n)
    case TemperatureSensor => TemperatureReading(p, n)
    case FaultSensor => FaultReport(p, n)
  }

  lemma SteadyReading(sensor: Sensor, n: U64)
    requires !sensor.FaultSensor? && n <= MAX_GENERATED_EVENTS
    ensures ReadingOf(sensor, SteadyPayload(sensor, n), n)
  {
    RatioIs(n % 32, 16);
    RatioIs((n + 8) % 32, 16);
    RatioIs(n % 8, 128);
    RatioIs(n % 16, 256);
    RatioIs(n % 8, 256);
    RatioIs(n % 4, 128);
    RatioIs(n, 65_536);
    RatioIs(n % 4, 4);
    RatioIs(n % 16, 16);
    hide Ratio;
  }

  lemma FaultReading(n: U64, roll: U64)
    requires n <= MAX_GENERATED_EVENTS
    ensures ReadingOf(FaultSensor, FaultPayload(n, roll), n)
  {
  }

  lemma ReportOf(sensor: Sensor, e: Event, c: Config)
    requires e.producerId == ProducerOf(sensor) && Periodically(e, RateOf(sensor, c.rates), c)
    requires ReadingOf(sensor, e.payload, e.sequenceNumber)
    ensures SensorReport(e, c)
  {
    hide Periodically, AccelerometerReading, GyroscopeReading, CameraReading, GpsReading, TemperatureReading,
        FaultReport;
  }

  lemma SensorEventScripted(sensor: Sensor, n: U64, c: Config, engine: Engine, position: nat)
    requires Recurring(engine) && ValidConfig(c) && n < CountOf(sensor, c)
    ensures Scripted(SensorEvent(sensor, n, c, engine, position).event, c)
  {
    SensorTimely(sensor, n, c);
    CountLimited(sensor, c);
    var rate := RateOf(sensor, c.rates);
    assert n <= MAX_GENERATED_EVENTS && n < c.duration * rate / NANOSECONDS_PER_SECOND;
    var base := BaseEvent(ProducerOf(sensor), n, ScheduledTime(n, rate), c, engine, position);
    var e := SensorEvent(sensor, n, c, engine, position).event;
    assert e == base.event.(payload := e.payload);
    assert sensor.FaultSensor? ==> e.payload == FaultPayload(n, Bounded(engine, base.next, 100).value);
    assert !sensor.FaultSensor? ==> e.payload == SteadyPayload(sensor, n);
    hide *;
    BaseStamped(ProducerOf(sensor), n, ScheduledTime(n, rate), c, engine, position);
    SamePeriod(base.event, e, rate, c);
    if sensor.FaultSensor? {
      FaultReading(n, Bounded(engine, base.next, 100).value);
    } else {
      SteadyReading(sensor, n);
    }
    ReportOf(sensor, e, c);
    AsReported(e, c);
  }

  lemma AsReported(e: Event, c: Config)
    requires SensorReport(e, c)
    ensures Scripted(e, c)
  {
  }

  /** The payload has no part in the time. */
  lemma SamePeriod(base: Event, e: Event, rate: U32, c: Config)
    requires 0 < rate <= MAX_SENSOR_RATE_HZ && base.sequenceNumber <= MAX_GENERATED_EVENTS
    requires base.sequenceNumber < c.duration * rate / NANOSECONDS_PER_SECOND
    requires Stamped(base, ScheduledTime(base.sequenceNumber, rate), c)
    requires e == base.(payload := e.payload)
    ensures Periodically(e, rate, c)
  {
  }

  ghost predicate AllScripted(es: seq<Event>, c: Config) {
    forall i :: 0 <= i < |es| ==> Scripted(es[i], c)
  }

  lemma {:induction false} PeriodicScripted(sensor: Sensor, from: U64, c: Config, engine: Engine, position: nat)
    requires Recurring(engine) && ValidConfig(c) && from <= CountOf(sensor, c)
    ensures AllScripted(Periodic(sensor, from, c, engine, position).events, c)
    decreases CountOf(sensor, c) - from
  {
    hide SensorEvent, Scripted, ValidConfig, CountOf;
    if from < CountOf(sensor, c) {
      var one := SensorEvent(sensor, from, c, engine, position);
      SensorEventScripted(sensor, from, c, engine, position);
      PeriodicScripted(sensor, from + 1, c, engine, one.next);
    }
  }

  // The controller.

  ghost predicate PhasesAsPlanned(phases: seq<Phase>, duration: int) {
    && |phases| <= 4
    && forall i :: 0 <= i < |phases| ==>
        StateAt(i, phases[i].state, StateName(phases[i].state), phases[i].elapsed, duration)
  }

  lemma PhasesPlanned(duration: I64, engine: Engine, position: nat)
    requires Recurring(engine) && 0 < duration <= MAX_DURATION_NS
    ensures PhasesAsPlanned(ControllerPhases(duration, engine, position).phases, duration)
  {
  }

  /** The controller degrades if and only if a draw below a million lies in the lower half. */
  lemma DegradesByHalf(duration: I64, engine: Engine, position: nat)
    requires Recurring(engine) && 0 < duration <= MAX_DURATION_NS
    ensures var phases := ControllerPhases(duration, engine, position).phases;
      var ready := Bounded(engine, position, Spread(duration));
      && phases[|phases| - 1].state == STATE_STOPPED
      && ((exists i :: 0 <= i < |phases| && phases[i].state == STATE_DEGRADED)
          <==> 2 * Bounded(engine, ready.next, 1_000_000).value < 1_000_000)
  {
    hide Bounded;
    var phases := ControllerPhases(duration, engine, position).phases;
    if Chance(engine, Bounded(engine, position, Spread(duration)).next, 500_000) {
      assert phases[2].state == STATE_DEGRADED;
    }
  }

  lemma PhaseScripted(phase: Phase, n: U64, c: Config, engine: Engine, position: nat)
    requires Recurring(engine) && Timely(c, phase.elapsed)
    requires StateAt(n, phase.state, StateName(phase.state), phase.elapsed, c.duration)
    ensures Scripted(PhaseEvent(phase, n, c, engine, position).event, c)
  {
    hide BaseEvent, StateAt;
    BaseStamped(CONTROLLER, n, phase.elapsed, c, engine, position);
    var e := PhaseEvent(phase, n, c, engine, position).event;
    assert Stamped(e, phase.elapsed, c);
  }

  lemma {:induction false} PhasesScripted(phases: seq<Phase>, from: U64, c: Config, engine: Engine, position: nat)
    requires Recurring(engine) && AllTimely(phases, c) && from <= |phases|
    requires PhasesAsPlanned(phases, c.duration)
    ensures AllScripted(PhaseEvents(phases, from, c, engine, position).events, c)
    decreases |phases| - from
  {
    hide PhaseEvent, Scripted, StateAt;
    if from < |phases| {
      var one := PhaseEvent(phases[from], from, c, engine, position);
      PhaseScripted(phases[from], from, c, engine, position);
      PhasesScripted(phases, from + 1, c, engine, one.next);
    }
  }

  // The whole workload.

  lemma {:induction false} FirstSensorsScripted(n: nat, c: Config, engine: Engine)
    requires Recurring(engine) && ValidConfig(c) && n <= 6
    ensures AllScripted(FirstSensors(n, c, engine).events, c)
  {
    hide Scripted, ValidConfig, Periodic;
    if n > 0 {
      var m := FirstSensors(n - 1, c, engine);
      FirstSensorsScripted(n - 1, c, engine);
      PeriodicScripted(SensorAt(n - 1), 0, c, engine, m.next);
    }
  }

  lemma BaseScripted(c: Config, engine: Engine)
    requires Recurring(engine) && ValidConfig(c)
    ensures AllScripted(BaseEvents(c, engine).events, c)
  {
    var m := FirstSensors(6, c, engine);
    FirstSensorsScripted(6, c, engine);
    PhasesInOrder(c.duration, engine, m.next);
    PhasesPlanned(c.duration, engine, m.next);
    var phases := ControllerPhases(c.duration, engine, m.next);
    assert AllTimely(phases.phases, c);
    hide Scripted, ControllerPhases, PhasesAsPlanned, FirstSensors, PhaseEvents, AllTimely;
    PhasesScripted(phases.phases, 0, c, engine, phases.next);
  }

  /** Every event of a workload, whatever was dropped, duplicated or reordered, is one that the
      configuration calls for: of a sensor, with the reading that belongs to its number, stamped
      within the jitter of its scheduled and drifted time; or a state of the controller. */
  lemma EmittedScripted(c: Config, engine: Engine, e: Event)
    requires Recurring(engine) && ValidConfig(c)
    requires e in WorkloadOf(c, engine).events
    ensures Scripted(e, c)
  {
    hide Scripted, WorkloadOf, SortEvents, BaseEvents, ValidConfig;
    EmittedMembers(c, engine, e);
    BaseScripted(c, engine);
  }

  /** How many events each sensor makes. */
  lemma SensorCounts(c: Config, engine: Engine)
    requires Recurring(engine) && ValidConfig(c)
    ensures var es := BaseEvents(c, engine).events;
      && |OfProducer(es, "sim-accelerometer")| == c.duration * c.rates.accelerometer / 1_000_000_000
      && |OfProducer(es, "sim-gyroscope")| == c.duration * c.rates.gyroscope / 1_000_000_000
      && |OfProducer(es, "sim-camera")| == c.duration * c.rates.camera / 1_000_000_000
      && |OfProducer(es, "sim-gps")| == c.duration * c.rates.gps / 1_000_000_000
      && |OfProducer(es, "sim-temperature")| == c.duration * c.rates.temperature / 1_000_000_000
      && |OfProducer(es, "sim-fault")| == c.duration * c.rates.faultMonitor / 1_000_000_000
  {
    hide BaseEvents, OfProducer, ProducerOf;
    CountOfSensor(AccelerometerSensor, c, engine);
    CountOfSensor(GyroscopeSensor, c, engine);
    CountOfSensor(CameraSensor, c, engine);
    CountOfSensor(GpsSensor, c, engine);
    CountOfSensor(TemperatureSensor, c, engine);
    CountOfSensor(FaultSensor, c, engine);
    SensorNames();
  }

  lemma SensorNames()
    ensures ProducerOf(AccelerometerSensor) == "sim-accelerometer"
    ensures ProducerOf(GyroscopeSensor) == "sim-gyroscope" && ProducerOf(CameraSensor) == "sim-camera"
    ensures ProducerOf(GpsSensor) == "sim-gps" && ProducerOf(TemperatureSensor) == "sim-temperature"
    ensures ProducerOf(FaultSensor) == "sim-fault"
  {
  }

  lemma CountOfSensor(sensor: Sensor, c: Config, engine: Engine)
    requires Recurring(engine) && ValidConfig(c)
    ensures |OfProducer(BaseEvents(c, engine).events, ProducerOf(sensor))|
         == c.duration * RateOf(sensor, c.rates) / NANOSECONDS_PER_SECOND
  {
    hide BaseEvents, OfProducer, ProducerOf, RateOf;
    BaseStream(c, engine, ProducerOf(sensor));
    CountLimited(sensor, c);
  }

  // Severities.

  ghost function Rolls(severity: int): set<nat> {
    set roll: nat | roll < 100 && Severity(roll) == severity
  }

  predicate Lies(low: nat, i: nat, high: nat) {
    low <= i < high
  }

  function Range(low: nat, high: nat): set<nat> {
    set i: nat | i < high && Lies(low, i, high)
  }

  lemma {:induction false} SizeOfRange(low: nat, high: nat)
    requires low <= high
    ensures |Range(low, high)| == high - low
    decreases high
  {
    if low < high {
      SizeOfRange(low, high - 1);
      assert Range(low, high) == Range(low, high - 1) + {high - 1};
    } else {
      assert Range(low, high) == {};
    }
  }

  /** Of a hundred rolls, seventy are warnings, twenty-five errors and five critical. */
  lemma SeverityShares()
    ensures |Rolls(SEVERITY_WARNING)| == 70
    ensures |Rolls(SEVERITY_ERROR)| == 25
    ensures |Rolls(SEVERITY_CRITICAL)| == 5
  {
    SizeOfRange(0, 70);
    SizeOfRange(70, 95);
    SizeOfRange(95, 100);
    assert Rolls(SEVERITY_WARNING) == Range(0, 70);
    assert Rolls(SEVERITY_ERROR) == Range(70, 95);
    assert Rolls(SEVERITY_CRITICAL) == Range(95, 100);
  }
}
