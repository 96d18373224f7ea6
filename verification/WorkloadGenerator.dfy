/** The generator as it runs: one engine, lists that grow and are changed in place, and counters. */
module WorkloadGenerators {
  import opened Bytes
  import opened Telemetry
  import opened Random
  import opened Schedule
  import opened Workload
  import opened WorkloadHash

  method MakeBaseEvent(producer: string, sequence: U64, elapsed: I64, c: Config, random: PortableRandom)
      returns (event: Event)
    requires random.Valid() && Timely(c, elapsed)
    modifies random
    ensures One(event, random.position)
        == BaseEvent(producer, sequence, elapsed, c, random.engine, old(random.position))
  {
    hide ApplyClockDrift, Jitter, Bounded;
    var jitter := SampleJitter(random, c.maxJitter);
    event := Event(SCHEMA_VERSION, producer, sequence,
                   BASE_TIMESTAMP_NS + ApplyClockDrift(elapsed, c.driftPpm) + jitter, CLOCK_UTC, NoPayload);
  }

  method MakeSensorEvent(sensor: Sensor, sequence: U64, c: Config, random: PortableRandom) returns (event: Event)
    requires random.Valid() && ValidConfig(c) && sequence < CountOf(sensor, c)
    modifies random
    ensures One(event, random.position) == SensorEvent(sensor, sequence, c, random.engine, old(random.position))
  {
    hide BaseEvent, ScheduledTime, Bounded, ValidConfig, CountOf, ProducerOf, FaultPayload, SteadyPayload;
    SensorTimely(sensor, sequence, c);
    event := MakeBaseEvent(ProducerOf(sensor), sequence, ScheduledTime(sequence, RateOf(sensor, c.rates)), c, random);
    if sensor.FaultSensor? {
      var roll := random.DrawBounded(100);
      event := event.(payload := FaultPayload(sequence, roll));
    } else {
      event := event.(payload := SteadyPayload(sensor, sequence));
    }
  }

  lemma PeriodicOnce(made: seq<Event>, sensor: Sensor, from: U64, c: Config, engine: Engine, position: nat)
    requires Recurring(engine) && ValidConfig(c) && from < CountOf(sensor, c)
    ensures var one := SensorEvent(sensor, from, c, engine, position);
      var rest := Periodic(sensor, from + 1, c, engine, one.next);
      && (made + [one.event]) + rest.events == made + Periodic(sensor, from, c, engine, position).events
      && rest.next == Periodic(sensor, from, c, engine, position).next
  {
    hide SensorEvent, ValidConfig, CountOf;
  }

  lemma PeriodicNone(made: seq<Event>, sensor: Sensor, from: U64, c: Config, engine: Engine, position: nat)
    requires Recurring(engine) && ValidConfig(c) && from == CountOf(sensor, c)
    ensures made + Periodic(sensor, from, c, engine, position).events == made
    ensures Periodic(sensor, from, c, engine, position).next == position
  {
    hide SensorEvent, ValidConfig, CountOf;
  }

  /** A sensor's events, behind the events there are already. */
  method AppendPeriodic(events: seq<Event>, sensor: Sensor, c: Config, random: PortableRandom)
      returns (more: seq<Event>)
    requires random.Valid() && ValidConfig(c)
    modifies random
    ensures Made(more, random.position) == Then(Made(events, old(random.position)), sensor, c, random.engine)
  {
    hide ValidConfig, CountOf, SensorEvent, Periodic;
    more := events;
    var count := CountOf(sensor, c);
    ghost var whole := Periodic(sensor, 0, c, random.engine, random.position);
    for sequence := 0 to count
      invariant more + Periodic(sensor, sequence, c, random.engine, random.position).events == events + whole.events
      invariant Periodic(sensor, sequence, c, random.engine, random.position).next == whole.next
    {
      PeriodicOnce(more, sensor, sequence, c, random.engine, random.position);
      var event := MakeSensorEvent(sensor, sequence, c, random);
      more := more + [event];
    }
    PeriodicNone(more, sensor, count, c, random.engine, random.position);
  }

  method ChoosePhases(duration: I64, random: PortableRandom) returns (phases: seq<Phase>)
    requires random.Valid() && 0 < duration <= MAX_DURATION_NS
    modifies random
    ensures Phases(phases, random.position) == ControllerPhases(duration, random.engine, old(random.position))
  {
    hide Bounded, Chance, AfterChance;
    var spread := Spread(duration);
    phases := [Phase(0, STATE_INITIALIZING)];
    var ready := random.DrawBounded(spread);
    phases := phases + [Phase(duration / 4 + ready, STATE_READY)];
    var degrades := random.DrawChance(500_000);
    if degrades {
      var degraded := random.DrawBounded(spread);
      phases := phases + [Phase(duration * 5 / 8 + degraded, STATE_DEGRADED)];
    }
    phases := phases + [Phase(duration - 1, STATE_STOPPED)];
  }

  lemma PhaseOnce(made: seq<Event>, phases: seq<Phase>, from: U64, c: Config, engine: Engine, position: nat)
    requires Recurring(engine) && AllTimely(phases, c) && from < |phases|
    ensures var one := PhaseEvent(phases[from], from, c, engine, position);
      var rest := PhaseEvents(phases, from + 1, c, engine, one.next);
      && (made + [one.event]) + rest.events == made + PhaseEvents(phases, from, c, engine, position).events
      && rest.next == PhaseEvents(phases, from, c, engine, position).next
  {
    hide PhaseEvent, Timely;
  }

  /** The controller's events, behind the events there are already. */
  method AppendControllerEvents(events: seq<Event>, c: Config, random: PortableRandom) returns (more: seq<Event>)
    requires random.Valid() && ValidConfig(c)
    modifies random
    ensures Made(more, random.position) == ThenController(Made(events, old(random.position)), c, random.engine)
  {
    PhasesInOrder(c.duration, random.engine, random.position);
    var phases := ChoosePhases(c.duration, random);
    hide ControllerPhases, BaseEvent, PhaseEvents, StateName;
    more := events;
    ghost var whole := PhaseEvents(phases, 0, c, random.engine, random.position);
    hide ValidConfig, Timely;
    for sequence := 0 to |phases|
      invariant more + PhaseEvents(phases, sequence, c, random.engine, random.position).events == events + whole.events
      invariant PhaseEvents(phases, sequence, c, random.engine, random.position).next == whole.next
    {
      PhaseOnce(more, phases, sequence, c, random.engine, random.position);
      var event := MakeBaseEvent(CONTROLLER, sequence, phases[sequence].elapsed, c, random);
      event := event.(payload := ControllerStatus(phases[sequence].state, StateName(phases[sequence].state)));
      more := more + [event];
    }
    PhaseNone(more, phases, c, random.engine, random.position);
  }

  lemma PhaseNone(made: seq<Event>, phases: seq<Phase>, c: Config, engine: Engine, position: nat)
    requires Recurring(engine) && AllTimely(phases, c)
    ensures made + PhaseEvents(phases, |phases|, c, engine, position).events == made
    ensures PhaseEvents(phases, |phases|, c, engine, position).next == position
  {
  }

  lemma InjectMore(made: seq<Event>, es: seq<Event>, i: nat, f: Faults, engine: Engine, position: nat)
    requires Recurring(engine) && i < |es|
    ensures var after := AfterChance(engine, position);
      var now := Inject(es[i..], f, engine, position);
      if Chance(engine, position, f.drop) then
        var rest := Inject(es[i + 1..], f, engine, after);
        now == Injected(rest.events, rest.dropped + 1, rest.duplicated, rest.next)
      else
        var rest := Inject(es[i + 1..], f, engine, AfterChance(engine, after));
        var twice := Chance(engine, after, f.duplicate);
        && made + now.events == (if twice then made + [es[i]] + [es[i]] else made + [es[i]]) + rest.events
        && now.dropped == rest.dropped
        && now.duplicated == rest.duplicated + (if twice then 1 else 0)
        && now.next == rest.next
  {
    hide Chance, AfterChance;
    assert es[i..][1..] == es[i + 1..];
  }

  /** Dropping and duplicating. */
  method InjectFaults(es: seq<Event>, f: Faults, random: PortableRandom)
      returns (events: seq<Event>, dropped: nat, duplicated: nat)
    requires random.Valid()
    modifies random
    ensures Injected(events, dropped, duplicated, random.position) == Inject(es, f, random.engine, old(random.position))
  {
    hide Chance, AfterChance, Inject;
    events, dropped, duplicated := [], 0, 0;
    ghost var whole := Inject(es, f, random.engine, random.position);
    assert es[0..] == es;
    for i := 0 to |es|
      invariant var rest := Inject(es[i..], f, random.engine, random.position);
        && events + rest.events == whole.events
        && dropped + rest.dropped == whole.dropped
        && duplicated + rest.duplicated == whole.duplicated
        && rest.next == whole.next
    {
      InjectMore(events, es, i, f, random.engine, random.position);
      var drop := random.DrawChance(f.drop);
      if drop {
        dropped := dropped + 1;
        continue;
      }
      events := events + [es[i]];
      var duplicate := random.DrawChance(f.duplicate);
      if duplicate {
        events := events + [es[i]];
        duplicated := duplicated + 1;
      }
    }
    InjectNone(events, es[|es|..], f, random.engine, random.position);
  }

  lemma InjectNone(made: seq<Event>, es: seq<Event>, f: Faults, engine: Engine, position: nat)
    requires Recurring(engine) && es == []
    ensures var out := Inject(es, f, engine, position);
      made + out.events == made && out.dropped == 0 && out.duplicated == 0 && out.next == position
  {
  }

  /** The reorder pass, in place. */
  method ReorderInPlace(events: array<Event>, perMillion: U32, random: PortableRandom) returns (pairs: nat)
    requires random.Valid()
    modifies events, random
    ensures Reordered(events[..], pairs, random.position)
        == Reorder(old(events[..]), 0, perMillion, random.engine, old(random.position))
  {
    hide Chance, AfterChance;
    pairs := 0;
    ghost var whole := Reorder(events[..], 0, perMillion, random.engine, random.position);
    var index := 0;
    while index + 1 < events.Length
      invariant var rest := Reorder(events[..], index, perMillion, random.engine, random.position);
        rest.events == whole.events && pairs + rest.pairs == whole.pairs && rest.next == whole.next
      decreases events.Length - index
    {
      ghost var before := events[..];
      var swap := random.DrawChance(perMillion);
      if swap {
        events[index], events[index + 1] := events[index + 1], events[index];
        assert events[..] == Swapped(before, index);
        pairs := pairs + 1;
        index := index + 1;
      }
      index := index + 1;
    }
  }

  /** The calls that append the sensors' events, one after the other. */
  lemma ChainOfSensors(c: Config, engine: Engine)
    requires Recurring(engine) && ValidConfig(c)
    ensures FirstSensors(6, c, engine)
         == Then(Then(Then(Then(Then(Then(Made([], 0), AccelerometerSensor, c, engine), GyroscopeSensor, c, engine),
              CameraSensor, c, engine), GpsSensor, c, engine), TemperatureSensor, c, engine), FaultSensor, c, engine)
  {
    hide Then, ValidConfig;
    assert FirstSensors(1, c, engine) == Then(FirstSensors(0, c, engine), AccelerometerSensor, c, engine);
    assert FirstSensors(2, c, engine) == Then(FirstSensors(1, c, engine), GyroscopeSensor, c, engine);
    assert FirstSensors(3, c, engine) == Then(FirstSensors(2, c, engine), CameraSensor, c, engine);
    assert FirstSensors(4, c, engine) == Then(FirstSensors(3, c, engine), GpsSensor, c, engine);
    assert FirstSensors(5, c, engine) == Then(FirstSensors(4, c, engine), TemperatureSensor, c, engine);
  }

  datatype HashedWorkload = HashedWorkload(generated: Generated, hash: U64)

  function HashedWorkloadOf(generated: Generated, codec: Codec): Option<HashedWorkload> {
    match StableHash(generated.events, codec)
    case None => None
    case Some(hash) => Some(HashedWorkload(generated, hash))
  }

  class WorkloadGenerator {
    const config: Config

    constructor (config: Config)
      requires ValidConfig(config)
      ensures this.config == config
    {
      this.config := config;
    }

    /** The workload is what the configuration and the engine determine; there is none if some
        event of it cannot be serialised. */
    method Generate(engine: Engine, codec: Codec) returns (workload: Option<HashedWorkload>)
      requires ValidConfig(config) && Recurring(engine)
      ensures workload == HashedWorkloadOf(WorkloadOf(config, engine), codec)
    {
      hide ValidConfig, Then, ThenController, SortEvents, Inject, Reorder, StableHash;
      var random := new PortableRandom(engine);
      var base := AppendPeriodic([], AccelerometerSensor, config, random);
      base := AppendPeriodic(base, GyroscopeSensor, config, random);
      base := AppendPeriodic(base, CameraSensor, config, random);
      base := AppendPeriodic(base, GpsSensor, config, random);
      base := AppendPeriodic(base, TemperatureSensor, config, random);
      base := AppendPeriodic(base, FaultSensor, config, random);
      base := AppendControllerEvents(base, config, random);
      ChainOfSensors(config, engine);
      var generated := |base|;
      base := SortEvents(base);
      var events, dropped, duplicated := InjectFaults(base, config.faults, random);
      var buffer := new Event[|events|](i requires 0 <= i < |events| => events[i]);
      assert buffer[..] == events;
      var pairs := ReorderInPlace(buffer, config.faults.reorder, random);
      var hash := StableEventHash(buffer[..], codec);
      if hash.None? {
        return None;
      }
      return Some(HashedWorkload(Generated(buffer[..], Stats(generated, dropped, duplicated, pairs)), hash.value));
    }
  }

  /** A configuration that is not valid is refused. */
  method MakeGenerator(config: Config) returns (generator: WorkloadGenerator?, error: Option<string>)
    ensures generator != null <==> ValidConfig(config)
    ensures error.None? <==> generator != null
    ensures generator != null ==> fresh(generator) && generator.config == config
  {
    hide ValidConfig;
    error := ValidateConfig(config);
    if error.Some? {
      return null, error;
    }
    generator := new WorkloadGenerator(config);
  }
}
