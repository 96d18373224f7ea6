/** The generator against the validator: which workloads every stream of which is accepted in full. */
module WorkloadTheorems {
  import opened Bytes
  import opened Telemetry
  import opened Validation
  import opened Analyzer
  import opened Random
  import opened Schedule
  import opened Workload
  import opened WorkloadOrder
  import opened WorkloadFaults

  // What a stream looks like when it is made.

  /** The events of one producer, numbered from `from`. */
  ghost predicate Steady(es: seq<Event>, p: string, from: nat) {
    forall k :: 0 <= k < |es| ==> es[k].producerId == p && es[k].sequenceNumber == from + k && Proper(es[k])
  }

  lemma BaseProper(producer: string, sequence: U64, elapsed: I64, c: Config, engine: Engine, position: nat,
          payload: Payload)
    requires Recurring(engine) && Timely(c, elapsed)
    requires 0 < |producer| <= MAX_PRODUCER_ID_BYTES && ProperPayload(payload)
    ensures Proper(BaseEvent(producer, sequence, elapsed, c, engine, position).event.(payload := payload))
  {
    hide ProperPayload;
  }

  lemma RatioBounds(n: nat, d: nat, limit: nat)
    requires d > 0 && n <= limit * d
    ensures 0.0 <= Ratio(n, d) <= limit as real
  {
    assert n as real <= limit as real * d as real;
  }

  lemma SteadyPayloadFine(sensor: Sensor, sequence: U64)
    requires !sensor.FaultSensor? && sequence <= MAX_GENERATED_EVENTS
    ensures ProperPayload(SteadyPayload(sensor, sequence))
  {
    RatioBounds(sequence, 65_536, 31);
    RatioBounds(sequence % 4, 4, 1);
    hide Ratio;
  }

  lemma FaultPayloadFine(sequence: U64, roll: U64)
    ensures ProperPayload(FaultPayload(sequence, roll))
  {
  }

  lemma NamesFine(sensor: Sensor)
    ensures 0 < |ProducerOf(sensor)| <= MAX_PRODUCER_ID_BYTES
    ensures 0 < |CONTROLLER| <= MAX_PRODUCER_ID_BYTES
  {
  }

  lemma NamesDiffer(a: Sensor, b: Sensor)
    ensures ProducerOf(a) == ProducerOf(b) ==> a == b
    ensures ProducerOf(a) != CONTROLLER
  {
    assert ProducerOf(AccelerometerSensor)[4] == 'a' && ProducerOf(GyroscopeSensor)[5] == 'y';
    assert ProducerOf(CameraSensor)[5] == 'a' && ProducerOf(GpsSensor)[5] == 'p';
    assert ProducerOf(TemperatureSensor)[4] == 't' && ProducerOf(FaultSensor)[4] == 'f';
    assert CONTROLLER[5] == 'o';
  }

  lemma SensorEventMade(sensor: Sensor, sequence: U64, c: Config, engine: Engine, position: nat)
    requires Recurring(engine) && ValidConfig(c) && sequence < CountOf(sensor, c)
    ensures var e := SensorEvent(sensor, sequence, c, engine, position).event;
      && e.producerId == ProducerOf(sensor) && e.sequenceNumber == sequence && Proper(e)
      && (c.maxJitter == 0 ==> OnSchedule(e, sensor, c))
  {
    SensorTimely(sensor, sequence, c);
    NamesFine(sensor);
    var elapsed := ScheduledTime(sequence, RateOf(sensor, c.rates));
    var base := BaseEvent(ProducerOf(sensor), sequence, elapsed, c, engine, position);
    hide ProducerOf, Proper, SteadyPayload, FaultPayload, PayloadRefusal;
    if sensor.FaultSensor? {
      var roll := Bounded(engine, base.next, 100);
      FaultPayloadFine(sequence, roll.value);
      BaseProper(ProducerOf(sensor), sequence, elapsed, c, engine, position, FaultPayload(sequence, roll.value));
    } else {
      SteadyPayloadFine(sensor, sequence);
      BaseProper(ProducerOf(sensor), sequence, elapsed, c, engine, position, SteadyPayload(sensor, sequence));
    }
  }

  predicate SensorTimed(sensor: Sensor, sequence: U64, c: Config) {
    sequence <= MAX_GENERATED_EVENTS
    && 0 < RateOf(sensor, c.rates) <= MAX_SENSOR_RATE_HZ
    && Timely(c, ScheduledTime(sequence, RateOf(sensor, c.rates)))
  }

  function SensorTime(sensor: Sensor, sequence: U64, c: Config): I64
    requires SensorTimed(sensor, sequence, c)
  {
    BASE_TIMESTAMP_NS + ApplyClockDrift(ScheduledTime(sequence, RateOf(sensor, c.rates)), c.driftPpm)
  }

  /** Stamped with the time its number is scheduled for. */
  predicate OnSchedule(e: Event, sensor: Sensor, c: Config) {
    SensorTimed(sensor, e.sequenceNumber, c) && e.sourceTimestamp == SensorTime(sensor, e.sequenceNumber, c)
  }

  /** Without jitter a sensor's clock never runs backwards from one event to a later one. */
  lemma SensorTimesOrdered(sensor: Sensor, a: Event, b: Event, c: Config)
    requires a.sequenceNumber < b.sequenceNumber && OnSchedule(a, sensor, c) && OnSchedule(b, sensor, c)
    ensures a.sourceTimestamp <= b.sourceTimestamp
  {
    hide ApplyClockDrift, ScheduledTime;
    var rate, i, j := RateOf(sensor, c.rates), a.sequenceNumber, b.sequenceNumber;
    ScheduleIncreases(i, j, rate);
    DriftMonotone(ScheduledTime(i, rate), ScheduledTime(j, rate), c.driftPpm);
  }

  lemma {:induction false} PeriodicMade(sensor: Sensor, from: U64, c: Config, engine: Engine, position: nat)
    requires Recurring(engine) && ValidConfig(c) && from <= CountOf(sensor, c)
    ensures var es := Periodic(sensor, from, c, engine, position).events;
      && Steady(es, ProducerOf(sensor), from)
      && (c.maxJitter == 0 ==> forall k :: 0 <= k < |es| ==> OnSchedule(es[k], sensor, c))
    decreases CountOf(sensor, c) - from
  {
    hide SensorEvent, OnSchedule, Proper, ValidConfig, CountOf, ProducerOf;
    if from < CountOf(sensor, c) {
      var one := SensorEvent(sensor, from, c, engine, position);
      SensorEventMade(sensor, from, c, engine, position);
      PeriodicMade(sensor, from + 1, c, engine, one.next);
      var rest := Periodic(sensor, from + 1, c, engine, one.next).events;
      var es := Periodic(sensor, from, c, engine, position).events;
      assert es == [one.event] + rest;
      forall k | 0 <= k < |es|
        ensures es[k].producerId == ProducerOf(sensor) && es[k].sequenceNumber == from + k && Proper(es[k])
      {
        if k > 0 {
          assert es[k] == rest[k - 1];
        }
      }
      if c.maxJitter == 0 {
        forall k | 0 <= k < |es| ensures OnSchedule(es[k], sensor, c) {
          if k > 0 {
            assert es[k] == rest[k - 1];
          }
        }
      }
    }
  }

  /** A stream as made: steady, and without jitter in order of time. */
  ghost predicate GoodStream(es: seq<Event>, p: string, c: Config) {
    Steady(es, p, 0) && (c.maxJitter == 0 ==> InOrder(es))
  }

  lemma InOrderFromTimes(es: seq<Event>, p: string)
    requires Steady(es, p, 0)
    requires forall i, j :: 0 <= i < j < |es| ==> es[i].sourceTimestamp <= es[j].sourceTimestamp
    ensures InOrder(es)
  {
    hide Proper;
  }

  lemma SensorStream(sensor: Sensor, c: Config, engine: Engine, position: nat)
    requires Recurring(engine) && ValidConfig(c)
    ensures GoodStream(Periodic(sensor, 0, c, engine, position).events, ProducerOf(sensor), c)
  {
    var es := Periodic(sensor, 0, c, engine, position).events;
    PeriodicMade(sensor, 0, c, engine, position);
    hide Periodic, OnSchedule, Proper, ProducerOf, InOrder, ValidConfig, CountOf;
    if c.maxJitter == 0 {
      forall i, j | 0 <= i < j < |es| ensures es[i].sourceTimestamp <= es[j].sourceTimestamp {
        SensorTimesOrdered(sensor, es[i], es[j], c);
      }
      InOrderFromTimes(es, ProducerOf(sensor));
    }
  }

  // The controller.

  lemma PhaseEventMade(phase: Phase, sequence: U64, c: Config, engine: Engine, position: nat)
    requires Recurring(engine) && Timely(c, phase.elapsed)
    requires STATE_INITIALIZING <= phase.state <= STATE_STOPPED
    ensures var e := PhaseEvent(phase, sequence, c, engine, position).event;
      && e.producerId == CONTROLLER && e.sequenceNumber == sequence && Proper(e)
      && (c.maxJitter == 0 ==> e.sourceTimestamp == BASE_TIMESTAMP_NS + ApplyClockDrift(phase.elapsed, c.driftPpm))
  {
    NamesFine(AccelerometerSensor);
    BaseProper(CONTROLLER, sequence, phase.elapsed, c, engine, position,
        ControllerStatus(phase.state, StateName(phase.state)));
    hide Proper;
  }

  ghost predicate GoodPhases(phases: seq<Phase>, c: Config) {
    && AllTimely(phases, c)
    && (forall i :: 0 <= i < |phases| ==> STATE_INITIALIZING <= phases[i].state <= STATE_STOPPED)
    && (forall i, j :: 0 <= i < j < |phases| ==> phases[i].elapsed <= phases[j].elapsed)
  }

  lemma {:induction false} PhasesMade(phases: seq<Phase>, from: U64, c: Config, engine: Engine, position: nat)
    requires Recurring(engine) && GoodPhases(phases, c) && from <= |phases|
    ensures var es := PhaseEvents(phases, from, c, engine, position).events;
      && Steady(es, CONTROLLER, from)
      && (c.maxJitter == 0 ==> forall k :: 0 <= k < |es| ==>
            es[k].sourceTimestamp == BASE_TIMESTAMP_NS + ApplyClockDrift(phases[from + k].elapsed, c.driftPpm))
    decreases |phases| - from
  {
    hide PhaseEvent, Proper, ApplyClockDrift;
    if from < |phases| {
      var one := PhaseEvent(phases[from], from, c, engine, position);
      PhaseEventMade(phases[from], from, c, engine, position);
      PhasesMade(phases, from + 1, c, engine, one.next);
      var rest := PhaseEvents(phases, from + 1, c, engine, one.next).events;
      var es := PhaseEvents(phases, from, c, engine, position).events;
      assert es == [one.event] + rest;
      forall k | 0 <= k < |es|
        ensures es[k].producerId == CONTROLLER && es[k].sequenceNumber == from + k && Proper(es[k])
      {
        if k > 0 {
          assert es[k] == rest[k - 1];
        }
      }
      if c.maxJitter == 0 {
        forall k | 0 <= k < |es|
          ensures es[k].sourceTimestamp == BASE_TIMESTAMP_NS + ApplyClockDrift(phases[from + k].elapsed, c.driftPpm)
        {
          if k > 0 {
            assert es[k] == rest[k - 1];
            assert from + k == from + 1 + (k - 1);
          }
        }
      }
    }
  }

  lemma ControllerStream(c: Config, phases: seq<Phase>, engine: Engine, position: nat)
    requires Recurring(engine) && GoodPhases(phases, c)
    ensures GoodStream(PhaseEvents(phases, 0, c, engine, position).events, CONTROLLER, c)
  {
    assert AllTimely(phases, c);
    hide ApplyClockDrift, Steady, InOrder, PhaseEvents, GoodPhases;
    var es := PhaseEvents(phases, 0, c, engine, position).events;
    PhasesMade(phases, 0, c, engine, position);
    if c.maxJitter == 0 {
      forall i, j | 0 <= i < j < |es| ensures es[i].sourceTimestamp <= es[j].sourceTimestamp {
        PhaseTimesOrdered(phases, i, j, c);
        PhaseStamp(phases, c, engine, position, i);
        PhaseStamp(phases, c, engine, position, j);
      }
      InOrderFromTimes(es, CONTROLLER);
    }
  }

  lemma PhaseStamp(phases: seq<Phase>, c: Config, engine: Engine, position: nat, k: nat)
    requires Recurring(engine) && GoodPhases(phases, c) && c.maxJitter == 0 && k < |phases|
    ensures Timely(c, phases[k].elapsed)
    ensures PhaseEvents(phases, 0, c, engine, position).events[k].sourceTimestamp
         == BASE_TIMESTAMP_NS + ApplyClockDrift(phases[k].elapsed, c.driftPpm)
  {
    hide ApplyClockDrift, Steady, PhaseEvents;
    PhasesMade(phases, 0, c, engine, position);
    assert phases[0 + k] == phases[k];
  }

  lemma PhaseTimesOrdered(phases: seq<Phase>, i: nat, j: nat, c: Config)
    requires GoodPhases(phases, c) && i < j < |phases|
    ensures Timely(c, phases[i].elapsed) && Timely(c, phases[j].elapsed)
    ensures ApplyClockDrift(phases[i].elapsed, c.driftPpm) <= ApplyClockDrift(phases[j].elapsed, c.driftPpm)
  {
    hide ApplyClockDrift;
    DriftMonotone(phases[i].elapsed, phases[j].elapsed, c.driftPpm);
  }

  lemma PhasesGood(c: Config, engine: Engine, position: nat)
    requires Recurring(engine) && ValidConfig(c)
    ensures GoodPhases(ControllerPhases(c.duration, engine, position).phases, c)
  {
    PhasesInOrder(c.duration, engine, position);
  }

  // Taking the streams out of the whole.

  lemma ThenStream(m: Made, sensor: Sensor, c: Config, engine: Engine, p: string)
    requires Recurring(engine) && ValidConfig(c)
    requires GoodStream(OfProducer(m.events, p), p, c)
    requires p == ProducerOf(sensor) ==> OfProducer(m.events, p) == []
    ensures GoodStream(OfProducer(Then(m, sensor, c, engine).events, p), p, c)
    ensures p != ProducerOf(sensor) ==> OfProducer(Then(m, sensor, c, engine).events, p) == OfProducer(m.events, p)
    ensures p == ProducerOf(sensor) ==> |OfProducer(Then(m, sensor, c, engine).events, p)| == CountOf(sensor, c)
    ensures |Then(m, sensor, c, engine).events| <= |m.events| + MAX_GENERATED_EVENTS
  {
    var more := Periodic(sensor, 0, c, engine, m.next).events;
    PeriodicMade(sensor, 0, c, engine, m.next);
    SensorStream(sensor, c, engine, m.next);
    OfProducerJoin(m.events, more, p);
    OfOnlyProducer(more, ProducerOf(sensor), p);
    assert Then(m, sensor, c, engine).events == m.events + more;
    hide *;
    NothingMore(OfProducer(m.events, p));
    NothingBefore(more);
  }

  lemma NothingBefore(es: seq<Event>)
    ensures [] + es == es
  {
  }

  lemma NoStream(p: string, c: Config)
    ensures GoodStream(OfProducer([], p), p, c) && OfProducer([], p) == []
  {
  }

  /** After `n` sensors, the streams of these are good and as long as scheduled, and no other has begun. */
  lemma {:induction false} FirstSensorsStream(n: nat, c: Config, engine: Engine, p: string)
    requires Recurring(engine) && ValidConfig(c) && n <= 6
    ensures var stream := OfProducer(FirstSensors(n, c, engine).events, p);
      && GoodStream(stream, p, c)
      && (forall sensor: Sensor :: p == ProducerOf(sensor) ==>
          |stream| == if Place(sensor) < n then CountOf(sensor, c) else 0)
      && (p == CONTROLLER ==> stream == [])
    ensures |FirstSensors(n, c, engine).events| <= n * MAX_GENERATED_EVENTS
  {
    hide GoodStream, OfProducer, Then, ProducerOf, CountOf, ValidConfig;
    if n == 0 {
      NoStream(p, c);
    } else {
      var m, sensor := FirstSensors(n - 1, c, engine), SensorAt(n - 1);
      FirstSensorsStream(n - 1, c, engine, p);
      SensorNamesDiffer();
      ThenStream(m, sensor, c, engine, p);
      forall other: Sensor | Place(other) == n - 1 ensures other == sensor {
        SamePlace(other, sensor);
      }
    }
  }

  lemma SamePlace(a: Sensor, b: Sensor)
    requires Place(a) == Place(b)
    ensures a == b
  {
  }

  /** Every stream of the base list is good; a sensor's stream has as many events as scheduled. */
  lemma BaseStream(c: Config, engine: Engine, p: string)
    requires Recurring(engine) && ValidConfig(c)
    ensures GoodStream(OfProducer(BaseEvents(c, engine).events, p), p, c)
    ensures forall sensor: Sensor :: p == ProducerOf(sensor) ==>
        |OfProducer(BaseEvents(c, engine).events, p)| == CountOf(sensor, c)
    ensures |BaseEvents(c, engine).events| <= 6 * MAX_GENERATED_EVENTS + 4
  {
    hide GoodStream, OfProducer, FirstSensors, ThenController, ProducerOf, CountOf, ValidConfig;
    SensorNamesDiffer();
    FirstSensorsStream(6, c, engine, p);
    ThenControllerStream(FirstSensors(6, c, engine), c, engine, p);
  }

  lemma SensorNamesDiffer()
    ensures forall a: Sensor, b: Sensor :: ProducerOf(a) == ProducerOf(b) ==> a == b
    ensures forall a: Sensor :: ProducerOf(a) != CONTROLLER
  {
    forall a: Sensor, b: Sensor ensures ProducerOf(a) == ProducerOf(b) ==> a == b {
      NamesDiffer(a, b);
    }
    forall a: Sensor ensures ProducerOf(a) != CONTROLLER {
      NamesDiffer(a, a);
    }
  }

  lemma ThenControllerStream(m: Made, c: Config, engine: Engine, p: string)
    requires Recurring(engine) && ValidConfig(c)
    requires GoodStream(OfProducer(m.events, p), p, c)
    requires p == CONTROLLER ==> OfProducer(m.events, p) == []
    ensures GoodStream(OfProducer(ThenController(m, c, engine).events, p), p, c)
    ensures p != CONTROLLER ==> OfProducer(ThenController(m, c, engine).events, p) == OfProducer(m.events, p)
    ensures |ThenController(m, c, engine).events| <= |m.events| + 4
  {
    var phases := ControllerPhases(c.duration, engine, m.next);
    PhasesGood(c, engine, m.next);
    var more := PhaseEvents(phases.phases, 0, c, engine, phases.next).events;
    PhasesMade(phases.phases, 0, c, engine, phases.next);
    ControllerStream(c, phases.phases, engine, phases.next);
    OfProducerJoin(m.events, more, p);
    OfOnlyProducer(more, CONTROLLER, p);
    assert ThenController(m, c, engine).events == m.events + more && |more| <= 4 by {
      PhasesInOrder(c.duration, engine, m.next);
    }
    hide *;
    NothingMore(OfProducer(m.events, p));
    NothingBefore(more);
  }

  lemma SteadyDistinguishes(stream: seq<Event>, p: string, a: Event, b: Event)
    requires Steady(stream, p, 0)
    requires a in stream && b in stream && a.sequenceNumber == b.sequenceNumber
    ensures a == b
  {
    hide Proper;
    var i :| 0 <= i < |stream| && stream[i] == a;
    var j :| 0 <= j < |stream| && stream[j] == b;
  }

  lemma BaseDistinguished(c: Config, engine: Engine, a: Event, b: Event)
    requires Recurring(engine) && ValidConfig(c)
    requires a in BaseEvents(c, engine).events && b in BaseEvents(c, engine).events && SameNumber(a, b)
    ensures a == b
  {
    var es := BaseEvents(c, engine).events;
    BaseStream(c, engine, a.producerId);
    hide BaseEvents, OfProducer, Steady, ValidConfig, InOrder;
    OfProducerMembers(es, a.producerId, a);
    OfProducerMembers(es, a.producerId, b);
    SteadyDistinguishes(OfProducer(es, a.producerId), a.producerId, a, b);
  }

  lemma SameMembers(a: seq<Event>, b: seq<Event>, i: nat)
    requires multiset(a) == multiset(b) && i < |a|
    ensures a[i] in b
  {
    assert a[i] in multiset(b);
  }

  /** No two base events share a producer and a number, so their order of time is determined:
      any algorithm that sorts them gives this list. */
  lemma SortIsDetermined(c: Config, engine: Engine, sorted: seq<Event>)
    requires Recurring(engine) && ValidConfig(c)
    requires InOrder(sorted) && multiset(sorted) == multiset(BaseEvents(c, engine).events)
    ensures sorted == SortEvents(BaseEvents(c, engine).events)
  {
    var es := BaseEvents(c, engine).events;
    hide BaseEvents, InOrder, SameNumber, ValidConfig, SortEvents;
    SortOrders(es);
    forall i, j | 0 <= i < |sorted| && 0 <= j < |sorted| && SameNumber(sorted[i], sorted[j])
      ensures sorted[i] == sorted[j]
    {
      SameMembers(sorted, es, i);
      SameMembers(sorted, es, j);
      BaseDistinguished(c, engine, sorted[i], sorted[j]);
    }
    SortDetermined(sorted, SortEvents(es));
  }

  // From the base list to the emitted one.

  predicate Forward(a: Event, b: Event) {
    a.producerId == b.producerId ==> a.sequenceNumber < b.sequenceNumber
  }

  /** Whenever two events are of one producer, the later one has the greater number. */
  ghost predicate StreamsIncrease(es: seq<Event>) {
    forall i, j :: 0 <= i < j < |es| ==> Forward(es[i], es[j])
  }

  lemma {:induction false} StreamsIncreaseOne(es: seq<Event>, p: string)
    requires StreamsIncrease(es)
    ensures Increasing(OfProducer(es, p))
    decreases es
  {
    if es == [] {
    } else {
      var front, last := es[..|es| - 1], es[|es| - 1];
      StreamsIncreaseOne(front, p);
      if last.producerId == p {
        forall k | 0 <= k < |OfProducer(front, p)|
          ensures OfProducer(front, p)[k].sequenceNumber < last.sequenceNumber
        {
          OfProducerMembers(front, p, OfProducer(front, p)[k]);
          assert Forward(OfProducer(front, p)[k], last);
        }
      }
    }
  }

  lemma {:induction false} StreamsIncreaseAll(es: seq<Event>)
    requires forall p: string :: Increasing(OfProducer(es, p))
    ensures StreamsIncrease(es)
    decreases es
  {
    if es == [] {
    } else {
      var front, last := es[..|es| - 1], es[|es| - 1];
      assert es == front + [last];
      forall p: string ensures Increasing(OfProducer(front, p)) {
        assert Increasing(OfProducer(es, p));
        OfProducerMore(front, last, p);
        IncreasingFront(OfProducer(front, p), if last.producerId == p then [last] else []);
      }
      StreamsIncreaseAll(front);
      forall i | 0 <= i < |front| ensures Forward(front[i], last) {
        if front[i].producerId == last.producerId {
          LastIsGreatest(front, last, front[i]);
        }
      }
    }
  }

  lemma IncreasingFront(front: seq<Event>, back: seq<Event>)
    requires Increasing(front + back)
    ensures Increasing(front)
  {
    assert forall i :: 0 <= i < |front| ==> front[i] == (front + back)[i];
  }

  lemma LastIsGreatest(front: seq<Event>, last: Event, e: Event)
    requires Increasing(OfProducer(front + [last], last.producerId))
    requires e in front && e.producerId == last.producerId
    ensures e.sequenceNumber < last.sequenceNumber
  {
    hide OfProducer;
    var stream := OfProducer(front, last.producerId);
    OfProducerMembers(front, last.producerId, e);
    OfProducerMore(front, last, last.producerId);
    var k :| 0 <= k < |stream| && stream[k] == e;
    assert (stream + [last])[k] == e && (stream + [last])[|stream|] == last;
  }

  ghost predicate AcceptedInFull(es: seq<Event>, p: string) {
    AcceptedOf(INITIAL, OfProducer(es, p)) == OfProducer(es, p)
  }

  lemma AcceptedIffIncreasing(es: seq<Event>, p: string)
    requires AllProper(es) && |OfProducer(es, p)| < TWO_64
    ensures AcceptedInFull(es, p) <==> Increasing(OfProducer(es, p))
  {
    var stream := OfProducer(es, p);
    hide OfProducer, Proper, AcceptedOf, Increasing;
    forall k | 0 <= k < |stream| ensures stream[k].producerId == p && Proper(stream[k]) {
      OfProducerMembers(es, p, stream[k]);
    }
    if stream != [] {
      NamedProducer(stream[0]);
    }
    StreamAcceptedExactly(stream);
  }

  lemma NamedProducer(e: Event)
    requires Proper(e)
    ensures e.producerId != ""
  {
  }

  lemma {:induction false} OfProducerShorter(es: seq<Event>, p: string)
    ensures |OfProducer(es, p)| <= |es|
    decreases es
  {
    if es == [] {
    } else {
      OfProducerShorter(es[..|es| - 1], p);
    }
  }

  lemma {:induction false} InjectMembers(es: seq<Event>, f: Faults, engine: Engine, position: nat, e: Event)
    requires Recurring(engine)
    ensures e in Inject(es, f, engine, position).events ==> e in es
    decreases es
  {
    if es == [] {
    } else {
      var after := AfterChance(engine, position);
      InjectMembers(es[1..], f, engine, after, e);
      InjectMembers(es[1..], f, engine, AfterChance(engine, after), e);
      hide Chance, AfterChance, Inject;
      InjectOnce(es, f, engine, position);
    }
  }

  lemma TwiceNeverIncreases(e: Event, rest: seq<Event>)
    ensures !StreamsIncrease([e, e] + rest)
  {
    var all := [e, e] + rest;
    assert !Forward(all[0], all[1]);
  }

  lemma IncreaseBehind(head: seq<Event>, rest: seq<Event>)
    requires StreamsIncrease(head + rest)
    ensures StreamsIncrease(rest)
  {
    hide Forward;
    forall i, j | 0 <= i < j < |rest| ensures Forward(rest[i], rest[j]) {
      assert (head + rest)[|head| + i] == rest[i] && (head + rest)[|head| + j] == rest[j];
    }
  }

  lemma IncreaseAhead(e: Event, rest: seq<Event>)
    requires StreamsIncrease(rest)
    requires forall x :: x in rest ==> Forward(e, x)
    ensures StreamsIncrease([e] + rest)
  {
    hide Forward;
    var all := [e] + rest;
    forall i, j | 0 <= i < j < |all| ensures Forward(all[i], all[j]) {
      assert all[j] == rest[j - 1] && rest[j - 1] in rest;
      if i > 0 {
        assert all[i] == rest[i - 1];
      }
    }
  }

  lemma AheadOfStreams(head: seq<Event>, e: Event, rest: seq<Event>)
    requires head == [] || head == [e] || head == [e, e]
    requires forall x :: x in rest ==> Forward(e, x)
    ensures StreamsIncrease(head + rest) <==> StreamsIncrease(rest) && |head| < 2
  {
    hide StreamsIncrease, Forward;
    if StreamsIncrease(head + rest) {
      IncreaseBehind(head, rest);
    }
    if StreamsIncrease(rest) {
      IncreaseAhead(e, rest);
      NothingBefore(rest);
    }
    TwiceNeverIncreases(e, rest);
  }

  /** Dropping events keeps the numbers of every stream increasing; duplicating any does not. */
  lemma {:induction false} InjectStreams(es: seq<Event>, f: Faults, engine: Engine, position: nat)
    requires Recurring(engine)
    requires StreamsIncrease(es)
    ensures var out := Inject(es, f, engine, position); StreamsIncrease(out.events) <==> out.duplicated == 0
    decreases es
  {
    if es == [] {
    } else {
      var after := AfterChance(engine, position);
      var drop, duplicate := Chance(engine, position, f.drop), Chance(engine, after, f.duplicate);
      var next := if drop then after else AfterChance(engine, after);
      var rest := Inject(es[1..], f, engine, next);
      var head := if drop then [] else if duplicate then [es[0], es[0]] else [es[0]];
      hide Chance, AfterChance, Inject;
      InjectOnce(es, f, engine, position);
      InjectStreams(es[1..], f, engine, next);
      forall x | x in rest.events ensures Forward(es[0], x) {
        InjectMembers(es[1..], f, engine, next, x);
      }
      assert [] + rest.events == rest.events;
      AheadOfStreams(head, es[0], rest.events);
    }
  }

  lemma SortedProper(c: Config, engine: Engine)
    requires Recurring(engine) && ValidConfig(c)
    ensures AllProper(SortEvents(BaseEvents(c, engine).events))
  {
    var base := BaseEvents(c, engine).events;
    var es := SortEvents(base);
    hide BaseEvents, OfProducer, SortEvents, Proper, InOrder, ValidConfig;
    SortOrders(base);
    forall i | 0 <= i < |es| ensures Proper(es[i]) {
      SameMembers(es, base, i);
      BaseStream(c, engine, es[i].producerId);
      OfProducerMembers(base, es[i].producerId, es[i]);
    }
  }

  /** Without jitter, sorting leaves each stream as it was made. */
  lemma SortedStream(c: Config, engine: Engine, p: string)
    requires Recurring(engine) && ValidConfig(c) && c.maxJitter == 0
    ensures OfProducer(SortEvents(BaseEvents(c, engine).events), p) == OfProducer(BaseEvents(c, engine).events, p)
    ensures Increasing(OfProducer(BaseEvents(c, engine).events, p))
  {
    BaseStream(c, engine, p);
    var base := BaseEvents(c, engine).events;
    hide BaseEvents, OfProducer, SortEvents, InOrder, ValidConfig, Steady, Increasing;
    SteadyIncreases(OfProducer(base, p), p);
    SortInStream(base, p);
    SortKeeps(OfProducer(base, p));
  }

  lemma SteadyIncreases(stream: seq<Event>, p: string)
    requires Steady(stream, p, 0)
    ensures Increasing(stream)
  {
    hide Proper;
  }

  /** Events in order of time are then in order of number too, stream by stream. */
  lemma SortedIncreases(c: Config, engine: Engine)
    requires Recurring(engine) && ValidConfig(c) && c.maxJitter == 0
    ensures StreamsIncrease(SortEvents(BaseEvents(c, engine).events))
  {
    hide BaseEvents, OfProducer, SortEvents, StreamsIncrease, Increasing, ValidConfig;
    forall p: string ensures Increasing(OfProducer(SortEvents(BaseEvents(c, engine).events), p)) {
      SortedStream(c, engine, p);
    }
    StreamsIncreaseAll(SortEvents(BaseEvents(c, engine).events));
  }

  lemma ProperMembers(es: seq<Event>, out: seq<Event>)
    requires AllProper(es)
    requires forall e :: e in out ==> e in es
    ensures AllProper(out)
  {
    hide Proper;
    forall i | 0 <= i < |out| ensures Proper(out[i]) {
      assert out[i] in es;
    }
  }

  lemma EmittedProper(c: Config, engine: Engine)
    requires Recurring(engine) && ValidConfig(c)
    ensures AllProper(WorkloadOf(c, engine).events)
    ensures |WorkloadOf(c, engine).events| < TWO_64
  {
    hide BaseEvents, SortEvents, Inject, Reorder, AllProper;
    var base := BaseEvents(c, engine);
    var sorted := SortEvents(base.events);
    var injected := Inject(sorted, c.faults, engine, base.next);
    var out := Reorder(injected.events, 0, c.faults.reorder, engine, injected.next).events;
    SortedProper(c, engine);
    SortedLength(base.events);
    BaseStream(c, engine, "");
    ReorderPermutes(injected.events, 0, c.faults.reorder, engine, injected.next);
    assert |out| == |multiset(out)| == |multiset(injected.events)| == |injected.events|;
    forall e | e in out ensures e in sorted {
      EmittedMembers(c, engine, e);
    }
    ProperMembers(sorted, out);
    InjectAtMostDoubles(sorted, c.faults, engine, base.next);
  }

  /** Whatever is emitted was made. */
  lemma EmittedMembers(c: Config, engine: Engine, e: Event)
    requires Recurring(engine) && ValidConfig(c)
    requires e in WorkloadOf(c, engine).events
    ensures e in SortEvents(BaseEvents(c, engine).events) && e in BaseEvents(c, engine).events
  {
    hide BaseEvents, SortEvents, Inject, Reorder;
    var base := BaseEvents(c, engine);
    var sorted := SortEvents(base.events);
    var injected := Inject(sorted, c.faults, engine, base.next);
    ReorderPermutes(injected.events, 0, c.faults.reorder, engine, injected.next);
    assert e in multiset(injected.events);
    InjectMembers(sorted, c.faults, engine, base.next, e);
    SortOrders(base.events);
    assert e in multiset(sorted);
  }

  lemma InjectAtMostDoubles(es: seq<Event>, f: Faults, engine: Engine, position: nat)
    requires Recurring(engine)
    ensures |Inject(es, f, engine, position).events| <= 2 * |es|
  {
    hide Inject;
    var keeps := InjectConserves(es, f, engine, position);
    MultiplicityBounded(multiset(keeps), 2);
  }

  lemma MultiplicityBounded(m: multiset<nat>, x: nat)
    ensures m[x] <= |m|
  {
    assert m == m[x := 0] + multiset{}[x := m[x]];
  }

  /** For every configuration and all chances: each stream of the workload is accepted in full
      if and only if no later event of a producer has a number as small as an earlier one's.
      Nothing else a generated event holds is ever refused. */
  lemma AcceptedIffOrdered(c: Config, engine: Engine)
    requires Recurring(engine) && ValidConfig(c)
    ensures (forall p: string :: AcceptedInFull(WorkloadOf(c, engine).events, p))
        <==> StreamsIncrease(WorkloadOf(c, engine).events)
  {
    hide WorkloadOf, AllProper, AcceptedInFull, StreamsIncrease, OfProducer, Increasing;
    var es := WorkloadOf(c, engine).events;
    EmittedProper(c, engine);
    forall p: string ensures AcceptedInFull(es, p) <==> Increasing(OfProducer(es, p)) {
      OfProducerShorter(es, p);
      AcceptedIffIncreasing(es, p);
    }
    if forall p: string :: AcceptedInFull(es, p) {
      assert forall p: string :: Increasing(OfProducer(es, p)) by {
        forall p: string ensures Increasing(OfProducer(es, p)) {
          assert AcceptedInFull(es, p);
        }
      }
      StreamsIncreaseAll(es);
    }
    if StreamsIncrease(es) {
      forall p: string ensures AcceptedInFull(es, p) {
        StreamsIncreaseOne(es, p);
      }
    }
  }

  /** Numbers along each producer's stream never fall, but may repeat. */
  ghost predicate NeverFall(es: seq<Event>) {
    forall i, j :: 0 <= i < j < |es| ==> NotBack(es[i], es[j])
  }

  predicate NotBack(a: Event, b: Event) {
    a.producerId == b.producerId ==> a.sequenceNumber <= b.sequenceNumber
  }

  lemma NeverFallBehind(head: seq<Event>, e: Event, rest: seq<Event>)
    requires forall x :: x in head ==> x == e
    requires NeverFall(rest) && forall x :: x in rest ==> Forward(e, x)
    ensures NeverFall(head + rest)
  {
    var all := head + rest;
    forall i, j | 0 <= i < j < |all| ensures NotBack(all[i], all[j]) {
      if i < |head| {
        assert all[i] in head;
        if j < |head| {
          assert all[j] in head;
        } else {
          assert all[j] == rest[j - |head|] && rest[j - |head|] in rest;
        }
      } else {
        assert all[i] == rest[i - |head|] && all[j] == rest[j - |head|];
      }
    }
  }

  /** Dropping and duplicating never make a number fall. */
  lemma {:induction false} InjectNeverFalls(es: seq<Event>, f: Faults, engine: Engine, position: nat)
    requires Recurring(engine)
    requires StreamsIncrease(es)
    ensures NeverFall(Inject(es, f, engine, position).events)
    decreases es
  {
    if es == [] {
    } else {
      var after := AfterChance(engine, position);
      var drop, duplicate := Chance(engine, position, f.drop), Chance(engine, after, f.duplicate);
      var next := if drop then after else AfterChance(engine, after);
      var rest := Inject(es[1..], f, engine, next);
      var head := if drop then [] else if duplicate then [es[0], es[0]] else [es[0]];
      hide Chance, AfterChance, Inject, NeverFall;
      InjectOnce(es, f, engine, position);
      InjectNeverFalls(es[1..], f, engine, next);
      forall x | x in rest.events ensures Forward(es[0], x) {
        InjectMembers(es[1..], f, engine, next, x);
      }
      assert [] + rest.events == rest.events;
      NeverFallBehind(head, es[0], rest.events);
    }
  }

  /** No exchange is within one producer's stream. */
  ghost predicate ExchangesAcross(out: seq<Event>, from: seq<nat>)
    requires |from| == |out| && NeighbourExchange(from)
  {
    forall k :: 0 <= k < |from| && from[k] == k + 1 ==> out[k].producerId != out[k + 1].producerId
  }

  lemma ExchangedPair(from: seq<nat>, i: nat, j: nat)
    requires NeighbourExchange(from) && i < j < |from|
    ensures from[i] < from[j] || (from[i] == i + 1 == j && from[j] == i)
  {
    assert from[from[i]] == i && from[from[j]] == j;
  }

  lemma KeptIncreasing(es: seq<Event>, out: seq<Event>, from: seq<nat>)
    requires Rearranged(es, out, from)
    requires StreamsIncrease(es) && ExchangesAcross(out, from)
    ensures StreamsIncrease(out)
  {
    hide Exchanges;
    forall i, j | 0 <= i < j < |out| ensures Forward(out[i], out[j]) {
      ExchangedPair(from, i, j);
      if from[i] < from[j] {
        assert Forward(es[from[i]], es[from[j]]);
      }
    }
  }

  lemma BroughtBack(es: seq<Event>, out: seq<Event>, from: seq<nat>)
    requires Rearranged(es, out, from)
    requires NeverFall(es) && StreamsIncrease(out)
    ensures StreamsIncrease(es) && ExchangesAcross(out, from)
  {
    forall k | 0 <= k < |from| && from[k] == k + 1 ensures out[k].producerId != out[k + 1].producerId {
      assert from[from[k]] == k;
      assert Forward(out[k], out[k + 1]) && NotBack(es[k], es[k + 1]);
    }
    forall i, j | 0 <= i < j < |es| ensures Forward(es[i], es[j]) {
      ExchangedPair(from, i, j);
      assert from[from[i]] == i && from[from[j]] == j;
      if from[i] < from[j] {
        assert Forward(out[from[i]], out[from[j]]);
      }
    }
  }

  /** What fault injection makes of the sorted events, before they are reordered. */
  ghost function InjectedOf(c: Config, engine: Engine): Injected
    requires Recurring(engine) && ValidConfig(c)
  {
    var base := BaseEvents(c, engine);
    Inject(SortEvents(base.events), c.faults, engine, base.next)
  }

  /** Without jitter, whatever is dropped, duplicated or reordered and however long or fast it runs:
      the workload is accepted in full, stream by stream, if and only if no event was duplicated and
      no two events that the reorder pass exchanged are of one producer. */
  lemma AcceptedExactly(c: Config, engine: Engine) returns (from: seq<nat>)
    requires Recurring(engine) && ValidConfig(c)
    requires c.maxJitter == 0
    ensures var w := WorkloadOf(c, engine);
      && Rearranged(InjectedOf(c, engine).events, w.events, from)
      && |Exchanges(from)| == w.stats.reorderedPairs
      && ((forall p: string :: AcceptedInFull(w.events, p))
          <==> w.stats.duplicated == 0 && ExchangesAcross(w.events, from))
  {
    AcceptedIffOrdered(c, engine);
    hide BaseEvents, SortEvents, Inject, Reorder, AllProper, AcceptedInFull, StreamsIncrease, NeverFall,
        ExchangesAcross;
    var base := BaseEvents(c, engine);
    var sorted := SortEvents(base.events);
    var injected := Inject(sorted, c.faults, engine, base.next);
    SortedIncreases(c, engine);
    InjectStreams(sorted, c.faults, engine, base.next);
    InjectNeverFalls(sorted, c.faults, engine, base.next);
    from := ReorderExchanges(injected.events, 0, c.faults.reorder, engine, injected.next);
    var out := WorkloadOf(c, engine).events;
    if StreamsIncrease(out) {
      BroughtBack(injected.events, out, from);
    }
    if StreamsIncrease(injected.events) && ExchangesAcross(out, from) {
      KeptIncreasing(injected.events, out, from);
    }
  }

  /** In particular, without reordering, if and only if no event was duplicated. */
  lemma AcceptedIffNoDuplicates(c: Config, engine: Engine)
    requires Recurring(engine) && ValidConfig(c)
    requires c.maxJitter == 0 && c.faults.reorder == 0
    ensures (forall p: string :: AcceptedInFull(WorkloadOf(c, engine).events, p))
        <==> WorkloadOf(c, engine).stats.duplicated == 0
  {
    hide AcceptedInFull;
    var from := AcceptedExactly(c, engine);
    NothingExchanged(c, engine);
    assert |Exchanges(from)| == 0;
    forall k: nat | k < |from| ensures from[k] != k + 1 {
      assert k !in Exchanges(from);
    }
  }

  lemma NothingExchanged(c: Config, engine: Engine)
    requires Recurring(engine) && ValidConfig(c) && c.faults.reorder == 0
    ensures WorkloadOf(c, engine).stats.reorderedPairs == 0
  {
    hide BaseEvents, SortEvents, Inject, Reorder;
    var injected := InjectedOf(c, engine);
    var from := ReorderExchanges(injected.events, 0, 0, engine, injected.next);
  }

  /** Without jitter and without faults, for every accepted configuration and all chances: each
      producer's events come as scheduled, the validator takes all of them and sees no gap. */
  lemma CleanWorkloadAccepted(c: Config, engine: Engine, p: string)
    requires Recurring(engine) && ValidConfig(c)
    requires c.maxJitter == 0 && c.faults == Faults(0, 0, 0)
    ensures var stream := OfProducer(WorkloadOf(c, engine).events, p);
      var end := RunStream(INITIAL, stream);
      && AcceptedOf(INITIAL, stream) == stream
      && end.acceptedEvents == |stream|
      && end.sequenceGaps == 0
      && (forall k :: 0 <= k < |stream| ==> stream[k].sequenceNumber == k)
      && (forall sensor: Sensor :: p == ProducerOf(sensor) ==> |stream| == CountOf(sensor, c))
  {
    hide BaseEvents, SortEvents, Inject, Reorder, AllProper, StreamsIncrease, OfProducer, RunStream, AcceptedOf,
        CountOf, ProducerOf, ValidConfig;
    var base := BaseEvents(c, engine);
    var sorted := SortEvents(base.events);
    var injected := Inject(sorted, c.faults, engine, base.next);
    SortedStream(c, engine, p);
    BaseStream(c, engine, p);
    InjectAtTheEnds(sorted, c.faults, engine, base.next);
    var from := ReorderExchanges(injected.events, 0, 0, engine, injected.next);
    var stream := OfProducer(WorkloadOf(c, engine).events, p);
    assert stream == OfProducer(base.events, p);
    EmittedProper(c, engine);
    OfProducerShorter(WorkloadOf(c, engine).events, p);
    hide WorkloadOf;
    CleanStream(stream, p, c);
  }

  lemma CleanStream(stream: seq<Event>, p: string, c: Config)
    requires GoodStream(stream, p, c) && |stream| < TWO_64
    ensures AcceptedOf(INITIAL, stream) == stream
    ensures RunStream(INITIAL, stream).acceptedEvents == |stream|
    ensures RunStream(INITIAL, stream).sequenceGaps == 0
    ensures forall k :: 0 <= k < |stream| ==> stream[k].sequenceNumber == k
  {
    hide AcceptedOf, RunStream, Proper, InOrder, Increasing, OneProducer;
    if stream == [] {
      NothingAccepted();
    } else {
      SteadyIncreases(stream, p);
      NamedProducer(stream[0]);
      SteadyProper(stream, p);
      StreamAcceptedExactly(stream);
      StreamTracked(stream);
    }
  }

  lemma SteadyProper(stream: seq<Event>, p: string)
    requires Steady(stream, p, 0) && (stream != [] ==> stream[0].producerId != "")
    ensures AllProper(stream) && OneProducer(stream)
  {
    hide Proper;
  }

  lemma NothingAccepted()
    ensures AcceptedOf(INITIAL, []) == [] && RunStream(INITIAL, []) == INITIAL
  {
  }
}
