/** The per-producer sequence accounting of the analyzer. */
module Analyzer {
  import opened Bytes
  import opened Telemetry
  import opened LogFormat
  import opened Validation

  datatype ProducerStats = ProducerStats(records: U64, sequenceGaps: U64, nonIncreasing: U64, previous: U64)

  /** One more record of a producer, in 64-bit arithmetic. */
  function Accounted(stats: Option<ProducerStats>, sequence: U64): ProducerStats {
    match stats
    case None => ProducerStats(1, 0, 0, sequence)
    case Some(p) =>
      if sequence <= p.previous then
        ProducerStats((p.records + 1) % TWO_64, p.sequenceGaps, (p.nonIncreasing + 1) % TWO_64, sequence)
      else
        ProducerStats((p.records + 1) % TWO_64, (p.sequenceGaps + sequence - p.previous - 1) % TWO_64,
            p.nonIncreasing, sequence)
  }

  /** The events of one producer, in record order. */
  function OfProducer(events: seq<Event>, producer: string): seq<Event> {
    if events == [] then []
    else
      var last := events[|events| - 1];
      OfProducer(events[..|events| - 1], producer) + if last.producerId == producer then [last] else []
  }

  function StatsOf(events: seq<Event>): Option<ProducerStats> {
    if events == [] then None
    else Some(Accounted(StatsOf(events[..|events| - 1]), events[|events| - 1].sequenceNumber))
  }

  function Lookup(producers: map<string, ProducerStats>, producer: string): Option<ProducerStats> {
    if producer in producers then Some(producers[producer]) else None
  }

  function EventsOfRecords(records: seq<LogRecord>): seq<Event> {
    seq(|records|, i requires 0 <= i < |records| => records[i].event)
  }

  lemma OfProducerMore(events: seq<Event>, e: Event, producer: string)
    ensures OfProducer(events + [e], producer)
         == OfProducer(events, producer) + if e.producerId == producer then [e] else []
  {
    assert (events + [e])[..|events|] == events;
  }

  lemma StatsOfMore(events: seq<Event>, e: Event)
    ensures StatsOf(events + [e]) == Some(Accounted(StatsOf(events), e.sequenceNumber))
  {
    assert (events + [e])[..|events|] == events;
  }

  /** The loop over all records keeps one accumulator per producer, and each holds what that
      producer's own records amount to. */
  method Analyze(records: seq<LogRecord>) returns (producers: map<string, ProducerStats>)
    ensures Accumulated(producers, EventsOfRecords(records))
  {
    hide StatsOf, OfProducer, Accounted;
    producers := map[];
    NothingAnalyzed();
    assert EventsOfRecords(records[..0]) == [];
    for i := 0 to |records|
      invariant Accumulated(producers, EventsOfRecords(records[..i]))
    {
      var e := records[i].event;
      OneMoreAnalyzed(producers, EventsOfRecords(records[..i]), e);
      assert EventsOfRecords(records[..i + 1]) == EventsOfRecords(records[..i]) + [e];
      producers := producers[e.producerId := Accounted(Lookup(producers, e.producerId), e.sequenceNumber)];
    }
    assert records[..|records|] == records;
  }

  ghost predicate Accumulated(producers: map<string, ProducerStats>, events: seq<Event>) {
    forall p: string :: Lookup(producers, p) == StatsOf(OfProducer(events, p))
  }

  lemma NothingAnalyzed()
    ensures Accumulated(map[], [])
  {
  }

  lemma OneMoreAnalyzed(producers: map<string, ProducerStats>, events: seq<Event>, e: Event)
    requires Accumulated(producers, events)
    ensures Accumulated(
        producers[e.producerId := Accounted(Lookup(producers, e.producerId), e.sequenceNumber)], events + [e])
  {
    hide StatsOf, OfProducer, Accounted;
    var more := producers[e.producerId := Accounted(Lookup(producers, e.producerId), e.sequenceNumber)];
    forall p: string ensures Lookup(more, p) == StatsOf(OfProducer(events + [e], p)) {
      OfProducerMore(events, e, p);
      assert Lookup(producers, p) == StatsOf(OfProducer(events, p));
      if p == e.producerId {
        StatsOfMore(OfProducer(events, p), e);
      } else {
        assert OfProducer(events, p) + [] == OfProducer(events, p);
      }
    }
  }

  // What the numbers of a producer amount to.

  /** The places at which a number is not greater than the one before it. */
  function Falls(events: seq<Event>): set<nat> {
    set i: nat | i < |events| && FallsAt(events, i)
  }

  predicate FallsAt(events: seq<Event>, i: nat)
    requires i < |events|
  {
    i > 0 && events[i].sequenceNumber <= events[i - 1].sequenceNumber
  }

  /** How many numbers are left out wherever they rise. */
  function LeftOut(events: seq<Event>): nat {
    if |events| <= 1 then 0
    else
      var n := |events| - 1;
      LeftOut(events[..n])
      + if events[n].sequenceNumber <= events[n - 1].sequenceNumber then 0
        else events[n].sequenceNumber - events[n - 1].sequenceNumber - 1
  }

  lemma FallsMore(events: seq<Event>)
    requires |events| > 1
    ensures var n := |events| - 1;
      |Falls(events)| == |Falls(events[..n])|
        + if events[n].sequenceNumber <= events[n - 1].sequenceNumber then 1 else 0
  {
    var n := |events| - 1;
    var fewer := Falls(events[..n]);
    assert n !in fewer;
    assert forall i: nat :: i < n ==> FallsAt(events[..n], i) == FallsAt(events, i);
    assert Falls(events) == if events[n].sequenceNumber <= events[n - 1].sequenceNumber then fewer + {n} else fewer;
  }

  lemma ModuloMore(a: nat, b: nat)
    ensures (a % TWO_64 + b) % TWO_64 == (a + b) % TWO_64
  {
  }

  lemma AccountedModulo(records: nat, gaps: nat, falls: nat, previous: U64, sequence: U64)
    ensures Accounted(Some(ProducerStats(records % TWO_64, gaps % TWO_64, falls % TWO_64, previous)), sequence)
         == if sequence <= previous
            then ProducerStats((records + 1) % TWO_64, gaps % TWO_64, (falls + 1) % TWO_64, sequence)
            else ProducerStats((records + 1) % TWO_64, (gaps + (sequence - previous - 1)) % TWO_64, falls % TWO_64,
                     sequence)
  {
    ModuloMore(records, 1);
    ModuloMore(falls, 1);
    if sequence > previous {
      ModuloMore(gaps, sequence - previous - 1);
    }
  }

  /** For any records of a producer at all: how many there are, how many numbers are left out where
      they rise, how often one is not greater than the one before it, and the last number. */
  lemma {:induction false} StatsCount(events: seq<Event>)
    requires events != []
    ensures StatsOf(events)
         == Some(ProducerStats(|events| % TWO_64, LeftOut(events) % TWO_64, |Falls(events)| % TWO_64,
                     events[|events| - 1].sequenceNumber))
    decreases events
  {
    hide Accounted, Falls;
    var n := |events| - 1;
    if n == 0 {
      OneRecord(events);
    } else {
      StatsCount(events[..n]);
      FallsMore(events);
      AccountedModulo(n, LeftOut(events[..n]), |Falls(events[..n])|, events[n - 1].sequenceNumber,
        events[n].sequenceNumber);
    }
  }

  lemma OneRecord(events: seq<Event>)
    requires |events| == 1
    ensures StatsOf(events) == Some(ProducerStats(1, 0, 0, events[0].sequenceNumber))
    ensures Falls(events) == {}
  {
    assert StatsOf(events[..0]) == None;
  }

  /** The validator's fields before it accepted the last event. */
  ghost function EarlierState(v: ValidatorState, taken: seq<Event>): (u: ValidatorState)
    requires Tracks(v, taken) && |taken| > 1
    ensures Tracks(u, taken[..|taken| - 1])
  {
    var n := |taken| - 1;
    SpanAtLeastCount(taken[..n]);
    v.(acceptedEvents := n, lastSequence := taken[n - 1].sequenceNumber,
       sequenceGaps := taken[n - 1].sequenceNumber - v.firstSequence + 1 - n)
  }

  /** How the fields before and after the last event are related. */
  lemma FieldsMove(v: ValidatorState, taken: seq<Event>)
    requires Tracks(v, taken) && |taken| > 1
    ensures var u := EarlierState(v, taken);
      && u.acceptedEvents + 1 == v.acceptedEvents
      && u.lastSequence < v.lastSequence == taken[|taken| - 1].sequenceNumber
      && u.sequenceGaps + (v.lastSequence - u.lastSequence - 1) == v.sequenceGaps
  {
    hide OneProducer;
    assert taken[|taken| - 2].sequenceNumber < taken[|taken| - 1].sequenceNumber;
  }

  lemma OneMoreCounted(u: ValidatorState, v: ValidatorState, taken: seq<Event>)
    requires Tracks(v, taken) && |taken| > 1 && u == EarlierState(v, taken)
    requires StatsOf(taken[..|taken| - 1]) == Some(ProducerStats(u.acceptedEvents, u.sequenceGaps, 0, u.lastSequence))
    ensures StatsOf(taken) == Some(ProducerStats(v.acceptedEvents, v.sequenceGaps, 0, v.lastSequence))
  {
    FieldsMove(v, taken);
    hide Tracks, EarlierState, StatsOf, Accounted;
    var front, last := taken[..|taken| - 1], taken[|taken| - 1];
    assert taken == front + [last];
    StatsOfMore(front, last);
    AccountedOnce(u, v);
  }

  lemma AccountedOnce(u: ValidatorState, v: ValidatorState)
    requires u.acceptedEvents + 1 == v.acceptedEvents && u.lastSequence < v.lastSequence
    requires u.sequenceGaps + (v.lastSequence - u.lastSequence - 1) == v.sequenceGaps
    ensures Accounted(Some(ProducerStats(u.acceptedEvents, u.sequenceGaps, 0, u.lastSequence)), v.lastSequence)
         == ProducerStats(v.acceptedEvents, v.sequenceGaps, 0, v.lastSequence)
  {
  }

  /** On events a validator accepted as one stream, the analyzer counts what the validator did. */
  lemma {:induction false} AgreesWithValidator(v: ValidatorState, taken: seq<Event>)
    requires Tracks(v, taken) && taken != []
    ensures StatsOf(taken) == Some(ProducerStats(v.acceptedEvents, v.sequenceGaps, 0, v.lastSequence))
    decreases taken
  {
    var n := |taken| - 1;
    if n == 0 {
      assert StatsOf(taken[..0]) == None;
    } else {
      var before := EarlierState(v, taken);
      hide StatsOf, Tracks;
      AgreesWithValidator(before, taken[..n]);
      OneMoreCounted(before, v, taken);
    }
  }

  /** Strictly increasing numbers span at least their count. */
  lemma {:induction false} SpanAtLeastCount(taken: seq<Event>)
    requires Increasing(taken) && taken != []
    ensures taken[|taken| - 1].sequenceNumber - taken[0].sequenceNumber + 1 >= |taken|
    decreases taken
  {
    if |taken| == 1 {
    } else {
      SpanAtLeastCount(taken[..|taken| - 1]);
    }
  }
}
