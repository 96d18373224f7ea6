/** What the workload generator computes: periodic sensor events and controller phases, put in
    order of time, then dropped, duplicated and swapped by chance. */
module Workload {
  import opened Bytes
  import opened Telemetry
  import opened Random
  import opened Schedule

  datatype Sensor = AccelerometerSensor | GyroscopeSensor | CameraSensor | GpsSensor | TemperatureSensor | FaultSensor

  const CONTROLLER: string := "sim-controller"

  function ProducerOf(sensor: Sensor): string {
    match sensor
    case AccelerometerSensor => "sim-accelerometer"
    case GyroscopeSensor => "sim-gyroscope"
    case CameraSensor => "sim-camera"
    case GpsSensor => "sim-gps"
    case TemperatureSensor => "sim-temperature"
    case FaultSensor => "sim-fault"
  }

  function RateOf(sensor: Sensor, rates: Rates): U32 {
    match sensor
    case AccelerometerSensor => rates.accelerometer
    case GyroscopeSensor => rates.gyroscope
    case CameraSensor => rates.camera
    case GpsSensor => rates.gps
    case TemperatureSensor => rates.temperature
    case FaultSensor => rates.faultMonitor
  }

  function CountOf(sensor: Sensor, c: Config): (n: U64)
    requires ValidConfig(c)
    ensures n <= MAX_GENERATED_EVENTS
  {
    var rates := RateList(c.rates);
    assert rates[0] <= MAX_SENSOR_RATE_HZ && rates[1] <= MAX_SENSOR_RATE_HZ && rates[2] <= MAX_SENSOR_RATE_HZ
        && rates[3] <= MAX_SENSOR_RATE_HZ && rates[4] <= MAX_SENSOR_RATE_HZ && rates[5] <= MAX_SENSOR_RATE_HZ;
    CountLimited(sensor, c);
    EventCount(c.duration, RateOf(sensor, c.rates))
  }

  function Place(sensor: Sensor): (i: nat)
    ensures i < 6
  {
    match sensor
    case AccelerometerSensor => 0
    case GyroscopeSensor => 1
    case CameraSensor => 2
    case GpsSensor => 3
    case TemperatureSensor => 4
    case FaultSensor => 5
  }

  lemma {:induction false} TermAtMostSum(s: seq<nat>, i: nat)
    requires i < |s|
    ensures s[i] <= Sum(s)
    decreases |s|
  {
    if i < |s| - 1 {
      TermAtMostSum(s[..|s| - 1], i);
    }
  }

  lemma CountLimited(sensor: Sensor, c: Config)
    requires ValidConfig(c)
    ensures RateOf(sensor, c.rates) <= MAX_SENSOR_RATE_HZ
    ensures EventCount(c.duration, RateOf(sensor, c.rates)) <= MAX_GENERATED_EVENTS
  {
    assert RateList(c.rates)[Place(sensor)] == RateOf(sensor, c.rates);
    PeriodicEventsLimited(c);
    TermAtMostSum(CountsOf(c), Place(sensor));
  }

  // Payloads.

  function Ratio(n: nat, d: nat): real
    requires d > 0
  {
    n as real / d as real
  }

  function SteadyPayload(sensor: Sensor, sequence: U64): Payload
    requires !sensor.FaultSensor?
  {
    match sensor
    case AccelerometerSensor =>
      Accelerometer(Vector3(Finite(Ratio(sequence % 32, 16) - 1.0), Finite(Ratio((sequence + 8) % 32, 16) - 1.0),
                            Finite(9.8125 + Ratio(sequence % 8, 128))))
    case GyroscopeSensor =>
      Gyroscope(Vector3(Finite(Ratio(sequence % 16, 256)), Finite(-Ratio(sequence % 8, 256)),
          Finite(Ratio(sequence % 4, 128))))
    case CameraSensor => Camera(sequence, 1920, 1080, 8_000_000 + (sequence % 4) * 250_000)
    case GpsSensor =>
      Gps(Finite(29.625 + Ratio(sequence, 65_536)), Finite(-82.375 + Ratio(sequence, 65_536)),
          Finite(3.0 + Ratio(sequence % 4, 4)), false)
    case TemperatureSensor => Temperature(Finite(40.0 + Ratio(sequence % 16, 16)))
  }

  function Severity(roll: U64): int {
    if roll < 70 then SEVERITY_WARNING else if roll < 95 then SEVERITY_ERROR else SEVERITY_CRITICAL
  }

  function FaultMessage(severity: int): string {
    if severity == SEVERITY_WARNING then "synthetic threshold warning"
    else if severity == SEVERITY_ERROR then "synthetic sensor error"
    else if severity == SEVERITY_CRITICAL then "synthetic critical fault"
    else "synthetic unspecified fault"
  }

  function FaultPayload(sequence: U64, roll: U64): Payload {
    Fault(Severity(roll), (1_000 + sequence) % TWO_32, FaultMessage(Severity(roll)))
  }

  // Events.

  /** An event, and the position the engine is left at. */
  datatype One = One(event: Event, next: nat)

  predicate Timely(c: Config, elapsed: I64) {
    && 0 <= elapsed <= MAX_DURATION_NS
    && 0 <= c.maxJitter <= MAX_DURATION_NS
    && -MAX_DRIFT_PPM <= c.driftPpm <= MAX_DRIFT_PPM
  }

  /** Everything but the payload. */
  ghost function BaseEvent(producer: string, sequence: U64, elapsed: I64, c: Config, engine: Engine, position: nat): One
    requires Recurring(engine) && Timely(c, elapsed)
  {
    var jitter := Jitter(engine, position, c.maxJitter);
    One(Event(SCHEMA_VERSION, producer, sequence,
              BASE_TIMESTAMP_NS + ApplyClockDrift(elapsed, c.driftPpm) + jitter.value, CLOCK_UTC, NoPayload),
        jitter.next)
  }

  ghost function SensorEvent(sensor: Sensor, sequence: U64, c: Config, engine: Engine, position: nat): One
    requires Recurring(engine) && ValidConfig(c) && sequence < CountOf(sensor, c)
  {
    SensorTimely(sensor, sequence, c);
    var base := BaseEvent(ProducerOf(sensor), sequence, ScheduledTime(sequence, RateOf(sensor, c.rates)), c, engine,
        position);
    if sensor.FaultSensor? then
      var roll := Bounded(engine, base.next, 100);
      One(base.event.(payload := FaultPayload(sequence, roll.value)), roll.next)
    else
      One(base.event.(payload := SteadyPayload(sensor, sequence)), base.next)
  }

  lemma SensorTimely(sensor: Sensor, sequence: U64, c: Config)
    requires ValidConfig(c) && sequence < CountOf(sensor, c)
    ensures 0 < RateOf(sensor, c.rates) <= MAX_SENSOR_RATE_HZ
    ensures Timely(c, ScheduledTime(sequence, RateOf(sensor, c.rates)))
  {
    CountLimited(sensor, c);
    CountedBeforeEnd(c.duration, RateOf(sensor, c.rates), sequence);
    ScheduleNonNegative(sequence, RateOf(sensor, c.rates));
  }

  lemma ScheduleNonNegative(index: U64, rate: U32)
    requires index <= MAX_GENERATED_EVENTS && 0 < rate <= MAX_SENSOR_RATE_HZ
    ensures ScheduledTime(index, rate) >= 0
  {
    DivideMonotone(0, index * NANOSECONDS_PER_SECOND, rate);
  }

  /** Events made so far, and the position the engine is left at. */
  datatype Made = Made(events: seq<Event>, next: nat)

  /** The events of a sensor from sequence number `from` on. */
  ghost function Periodic(sensor: Sensor, from: U64, c: Config, engine: Engine, position: nat): (m: Made)
    requires Recurring(engine) && ValidConfig(c) && from <= CountOf(sensor, c)
    ensures |m.events| == CountOf(sensor, c) - from
    decreases CountOf(sensor, c) - from
  {
    if from == CountOf(sensor, c) then Made([], position)
    else
      var one := SensorEvent(sensor, from, c, engine, position);
      var rest := Periodic(sensor, from + 1, c, engine, one.next);
      Made([one.event] + rest.events, rest.next)
  }

  /** A phase of the controller. */
  datatype Phase = Phase(elapsed: I64, state: int)

  datatype Phases = Phases(phases: seq<Phase>, next: nat)

  function StateName(state: int): string {
    if state == STATE_INITIALIZING then "STATE_INITIALIZING"
    else if state == STATE_READY then "STATE_READY"
    else if state == STATE_DEGRADED then "STATE_DEGRADED"
    else if state == STATE_STOPPED then "STATE_STOPPED"
    else "STATE_UNSPECIFIED"
  }

  function Spread(duration: I64): (n: U64)
    requires duration > 0
    ensures n >= 1
  {
    if duration / 8 >= 1 then duration / 8 else 1
  }

  ghost function ControllerPhases(duration: I64, engine: Engine, position: nat): Phases
    requires Recurring(engine) && 0 < duration <= MAX_DURATION_NS
  {
    var ready := Bounded(engine, position, Spread(duration));
    var first := [Phase(0, STATE_INITIALIZING), Phase(duration / 4 + ready.value, STATE_READY)];
    var stopped := Phase(duration - 1, STATE_STOPPED);
    var after := AfterChance(engine, ready.next);
    if Chance(engine, ready.next, 500_000) then
      var degraded := Bounded(engine, after, Spread(duration));
      Phases(first + [Phase(duration * 5 / 8 + degraded.value, STATE_DEGRADED), stopped], degraded.next)
    else Phases(first + [stopped], after)
  }

  /** The controller's phases come in order of time and within the duration, however short it is. */
  lemma PhasesInOrder(duration: I64, engine: Engine, position: nat)
    requires Recurring(engine) && 0 < duration <= MAX_DURATION_NS
    ensures var phases := ControllerPhases(duration, engine, position).phases;
      && 3 <= |phases| <= 4
      && (forall i :: 0 <= i < |phases| ==> 0 <= phases[i].elapsed < duration)
      && (forall i, j :: 0 <= i < j < |phases| ==> phases[i].elapsed <= phases[j].elapsed)
      && (forall i :: 0 <= i < |phases| ==> STATE_INITIALIZING <= phases[i].state <= STATE_STOPPED)
  {
  }

  ghost function PhaseEvent(phase: Phase, sequence: U64, c: Config, engine: Engine, position: nat): One
    requires Recurring(engine) && Timely(c, phase.elapsed)
  {
    var base := BaseEvent(CONTROLLER, sequence, phase.elapsed, c, engine, position);
    One(base.event.(payload := ControllerStatus(phase.state, StateName(phase.state))), base.next)
  }

  ghost predicate AllTimely(phases: seq<Phase>, c: Config) {
    |phases| < TWO_64 && forall i :: 0 <= i < |phases| ==> Timely(c, phases[i].elapsed)
  }

  ghost function PhaseEvents(phases: seq<Phase>, from: U64, c: Config, engine: Engine, position: nat): (m: Made)
    requires Recurring(engine) && AllTimely(phases, c) && from <= |phases|
    ensures |m.events| == |phases| - from
    decreases |phases| - from
  {
    if from == |phases| then Made([], position)
    else
      var one := PhaseEvent(phases[from], from, c, engine, position);
      var rest := PhaseEvents(phases, from + 1, c, engine, one.next);
      Made([one.event] + rest.events, rest.next)
  }

  // All of them, in the order in which they are made.

  ghost function Then(m: Made, sensor: Sensor, c: Config, engine: Engine): Made
    requires Recurring(engine) && ValidConfig(c)
  {
    var more := Periodic(sensor, 0, c, engine, m.next);
    Made(m.events + more.events, more.next)
  }

  ghost function ThenController(m: Made, c: Config, engine: Engine): Made
    requires Recurring(engine) && ValidConfig(c)
  {
    PhasesInOrder(c.duration, engine, m.next);
    var phases := ControllerPhases(c.duration, engine, m.next);
    var more := PhaseEvents(phases.phases, 0, c, engine, phases.next);
    Made(m.events + more.events, more.next)
  }

  /** The sensors in the order in which their events are made. */
  function SensorAt(i: nat): (sensor: Sensor)
    requires i < 6
    ensures Place(sensor) == i
  {
    match i
    case 0 => AccelerometerSensor
    case 1 => GyroscopeSensor
    case 2 => CameraSensor
    case 3 => GpsSensor
    case 4 => TemperatureSensor
    case _ => FaultSensor
  }

  /** The events of the first `n` sensors. */
  ghost function FirstSensors(n: nat, c: Config, engine: Engine): Made
    requires Recurring(engine) && ValidConfig(c) && n <= 6
    decreases n, c
  {
    if n == 0 then Made([], 0) else Then(FirstSensors(n - 1, c, engine), SensorAt(n - 1), c, engine)
  }

  ghost function BaseEvents(c: Config, engine: Engine): Made
    requires Recurring(engine) && ValidConfig(c)
  {
    ThenController(FirstSensors(6, c, engine), c, engine)
  }

  // The order of time.

  predicate LexLess(a: string, b: string) {
    if b == "" then false
    else if a == "" then true
    else a[0] < b[0] || (a[0] == b[0] && LexLess(a[1..], b[1..]))
  }

  predicate Before(a: Event, b: Event) {
    if a.sourceTimestamp != b.sourceTimestamp then a.sourceTimestamp < b.sourceTimestamp
    else if a.producerId != b.producerId then LexLess(a.producerId, b.producerId)
    else a.sequenceNumber < b.sequenceNumber
  }

  function Insert(es: seq<Event>, e: Event): seq<Event> {
    if es == [] || !Before(e, es[|es| - 1]) then es + [e]
    else Insert(es[..|es| - 1], e) + [es[|es| - 1]]
  }

  function SortEvents(es: seq<Event>): seq<Event> {
    if es == [] then [] else Insert(SortEvents(es[..|es| - 1]), es[|es| - 1])
  }

  // Faults.

  datatype Injected = Injected(events: seq<Event>, dropped: nat, duplicated: nat, next: nat)

  ghost function Inject(es: seq<Event>, f: Faults, engine: Engine, position: nat): Injected
    requires Recurring(engine)
    decreases es
  {
    if es == [] then Injected([], 0, 0, position)
    else
      var after := AfterChance(engine, position);
      if Chance(engine, position, f.drop) then
        var rest := Inject(es[1..], f, engine, after);
        rest.(dropped := rest.dropped + 1)
      else
        var rest := Inject(es[1..], f, engine, AfterChance(engine, after));
        if Chance(engine, after, f.duplicate) then
          rest.(events := [es[0], es[0]] + rest.events, duplicated := rest.duplicated + 1)
        else rest.(events := [es[0]] + rest.events)
  }

  datatype Reordered = Reordered(events: seq<Event>, pairs: nat, next: nat)

  function Swapped(es: seq<Event>, i: nat): (r: seq<Event>)
    requires i + 1 < |es|
    ensures |r| == |es|
  {
    es[i := es[i + 1]][i + 1 := es[i]]
  }

  /** Swapping neighbours by chance from `i` on; an event that was swapped is passed over. */
  ghost function Reorder(es: seq<Event>, i: nat, perMillion: U32, engine: Engine, position: nat): Reordered
    requires Recurring(engine)
    decreases |es| - i
  {
    if i + 1 >= |es| then Reordered(es, 0, position)
    else
      var after := AfterChance(engine, position);
      if Chance(engine, position, perMillion) then
        var rest := Reorder(Swapped(es, i), i + 2, perMillion, engine, after);
        rest.(pairs := rest.pairs + 1)
      else Reorder(es, i + 1, perMillion, engine, after)
  }

  datatype Stats = Stats(generated: nat, dropped: nat, duplicated: nat, reorderedPairs: nat)

  datatype Generated = Generated(events: seq<Event>, stats: Stats)

  /** The workload is a function of the configuration and of the engine, that is, of its seed. */
  ghost function WorkloadOf(c: Config, engine: Engine): Generated
    requires Recurring(engine) && ValidConfig(c)
  {
    var base := BaseEvents(c, engine);
    var injected := Inject(SortEvents(base.events), c.faults, engine, base.next);
    var reordered := Reorder(injected.events, 0, c.faults.reorder, engine, injected.next);
    Generated(reordered.events, Stats(|base.events|, injected.dropped, injected.duplicated, reordered.pairs))
  }
}
