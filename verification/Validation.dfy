/** The validation of one stream of events. */
module Validation {
  import opened Bytes
  import opened Telemetry

  const MAX_PRODUCER_ID_BYTES: nat := 128
  const MAX_DETAIL_BYTES: nat := 1024

  predicate VectorFinite(v: Vector3) {
    v.x.Finite? && v.y.Finite? && v.z.Finite?
  }

  /** Why a payload is refused, if it is. */
  function PayloadRefusal(p: Payload): Option<string> {
    match p
    case Accelerometer(v) => if VectorFinite(v) then None else Some("accelerometer values must be finite")
    case Gyroscope(v) => if VectorFinite(v) then None else Some("gyroscope values must be finite")
    case Gps(latitude, longitude, accuracy, mocked) =>
      if !latitude.Finite? || !longitude.Finite? || !accuracy.Finite? then Some("GPS values must be finite")
      else if latitude.value < -90.0 || latitude.value > 90.0
           || longitude.value < -180.0 || longitude.value > 180.0 then
        Some("GPS coordinates are outside valid bounds")
      else if accuracy.value < 0.0 then Some("GPS accuracy cannot be negative")
      else None
    case Temperature(celsius) => if celsius.Finite? then None else Some("temperature must be finite")
    case Camera(frame, width, height, exposure) =>
      if width == 0 || height == 0 then Some("camera dimensions must be non-zero") else None
    case ControllerStatus(state, detail) =>
      if !(STATE_UNSPECIFIED <= state <= STATE_STOPPED) || state == STATE_UNSPECIFIED then
        Some("controller state must be specified")
      else if |detail| > MAX_DETAIL_BYTES then Some("controller detail is too long")
      else None
    case Fault(severity, code, message) =>
      if !(SEVERITY_UNSPECIFIED <= severity <= SEVERITY_CRITICAL) || severity == SEVERITY_UNSPECIFIED then
        Some("fault severity must be specified")
      else if |message| > MAX_DETAIL_BYTES then Some("fault message is too long")
      else None
    case NoPayload => Some("event payload is required")
  }

  datatype ValidatorState = ValidatorState(
    producerId: string,
    acceptedEvents: U64,
    firstSequence: U64,
    lastSequence: U64,
    sequenceGaps: U64)

  const INITIAL: ValidatorState := ValidatorState("", 0, 0, 0, 0)

  function Refusal(v: ValidatorState, e: Event): Option<string> {
    if e.schemaVersion != SCHEMA_VERSION then Some("unsupported telemetry schema version")
    else if e.producerId == "" then Some("producer_id is required")
    else if |e.producerId| > MAX_PRODUCER_ID_BYTES then Some("producer_id is too long")
    else if !(CLOCK_UNSPECIFIED <= e.sourceClock <= CLOCK_DEVICE_MONOTONIC) || e.sourceClock == CLOCK_UNSPECIFIED then
      Some("source clock domain is required")
    else if e.sourceTimestamp <= 0 then Some("source timestamp must be positive")
    else if v.producerId != "" && e.producerId != v.producerId then Some("producer_id cannot change within a stream")
    else if v.acceptedEvents > 0 && e.sequenceNumber <= v.lastSequence then
      Some("sequence numbers must increase within a stream")
    else PayloadRefusal(e.payload)
  }

  /** The fields after an event was accepted, in 64-bit arithmetic. */
  function AfterAccept(v: ValidatorState, e: Event): ValidatorState {
    if v.acceptedEvents == 0 then
      v.(producerId := e.producerId, firstSequence := e.sequenceNumber,
         lastSequence := e.sequenceNumber, acceptedEvents := (v.acceptedEvents + 1) % TWO_64)
    else
      v.(sequenceGaps := (v.sequenceGaps + e.sequenceNumber - v.lastSequence - 1) % TWO_64,
         lastSequence := e.sequenceNumber, acceptedEvents := (v.acceptedEvents + 1) % TWO_64)
  }

  function AfterEvent(v: ValidatorState, e: Event): ValidatorState {
    if Refusal(v, e).Some? then v else AfterAccept(v, e)
  }

  datatype Summary = Summary(
    producerId: string,
    acceptedEvents: U64,
    firstSequence: U64,
    lastSequence: U64,
    sequenceGaps: U64)

  function SummaryOf(v: ValidatorState): Summary {
    Summary(v.producerId, v.acceptedEvents, v.firstSequence, v.lastSequence, v.sequenceGaps)
  }

  class StreamValidator {
    var producerId: string
    var acceptedEvents: U64
    var firstSequence: U64
    var lastSequence: U64
    var sequenceGaps: U64

    constructor ()
      ensures State() == INITIAL
    {
      producerId, acceptedEvents, firstSequence, lastSequence, sequenceGaps := "", 0, 0, 0, 0;
    }

    function State(): ValidatorState
      reads this
    {
      ValidatorState(producerId, acceptedEvents, firstSequence, lastSequence, sequenceGaps)
    }

    method Accept(e: Event) returns (error: Option<string>)
      modifies this
      ensures error == Refusal(old(State()), e)
      ensures State() == AfterEvent(old(State()), e)
    {
      if e.schemaVersion != SCHEMA_VERSION {
        return Some("unsupported telemetry schema version");
      }
      if e.producerId == "" {
        return Some("producer_id is required");
      }
      if |e.producerId| > MAX_PRODUCER_ID_BYTES {
        return Some("producer_id is too long");
      }
      if !(CLOCK_UNSPECIFIED <= e.sourceClock <= CLOCK_DEVICE_MONOTONIC) || e.sourceClock == CLOCK_UNSPECIFIED {
        return Some("source clock domain is required");
      }
      if e.sourceTimestamp <= 0 {
        return Some("source timestamp must be positive");
      }
      if producerId != "" && e.producerId != producerId {
        return Some("producer_id cannot change within a stream");
      }
      if acceptedEvents > 0 && e.sequenceNumber <= lastSequence {
        return Some("sequence numbers must increase within a stream");
      }
      error := PayloadRefusal(e.payload);
      if error.Some? {
        return;
      }
      if acceptedEvents == 0 {
        producerId := e.producerId;
        firstSequence := e.sequenceNumber;
      } else {
        sequenceGaps := (sequenceGaps + e.sequenceNumber - lastSequence - 1) % TWO_64;
      }
      lastSequence := e.sequenceNumber;
      acceptedEvents := (acceptedEvents + 1) % TWO_64;
    }

    method PopulateSummary() returns (summary: Summary)
      ensures summary == SummaryOf(State())
    {
      summary := Summary(producerId, acceptedEvents, firstSequence, lastSequence, sequenceGaps);
    }
  }

  // What is acceptable, and what the refusals mean.

  /** The fields that every event has. */
  predicate ProperFields(e: Event) {
    && e.schemaVersion == SCHEMA_VERSION
    && 1 <= |e.producerId| <= 128
    && (e.sourceClock == CLOCK_UTC || e.sourceClock == CLOCK_DEVICE_MONOTONIC)
    && e.sourceTimestamp > 0
  }

  predicate FiniteIn(x: Double, low: real, high: real) {
    x.Finite? && low <= x.value <= high
  }

  predicate ProperPayload(p: Payload) {
    && !p.NoPayload?
    && (p.Accelerometer? ==> p.acceleration.x.Finite? && p.acceleration.y.Finite? && p.acceleration.z.Finite?)
    && (p.Gyroscope? ==> p.rotation.x.Finite? && p.rotation.y.Finite? && p.rotation.z.Finite?)
    && (p.Gps? ==>
          && FiniteIn(p.latitude, -90.0, 90.0) && FiniteIn(p.longitude, -180.0, 180.0)
          && p.accuracy.Finite? && p.accuracy.value >= 0.0)
    && (p.Temperature? ==> p.celsius.Finite?)
    && (p.Camera? ==> p.width > 0 && p.height > 0)
    && (p.ControllerStatus? ==>
          && p.state in {STATE_INITIALIZING, STATE_READY, STATE_DEGRADED, STATE_STOPPED}
          && |p.detail| <= 1024)
    && (p.Fault? ==> p.severity in {SEVERITY_WARNING, SEVERITY_ERROR, SEVERITY_CRITICAL} && |p.message| <= 1024)
  }

  predicate Proper(e: Event) {
    ProperFields(e) && ProperPayload(e.payload)
  }

  ghost predicate AllProper(taken: seq<Event>) {
    forall i :: 0 <= i < |taken| ==> Proper(taken[i])
  }

  lemma PayloadAcceptedIff(p: Payload)
    ensures PayloadRefusal(p).None? <==> ProperPayload(p)
  {
  }

  lemma AcceptedIff(v: ValidatorState, e: Event)
    ensures Refusal(v, e).None?
       <==> && Proper(e)
            && (v.producerId == "" || e.producerId == v.producerId)
            && (v.acceptedEvents == 0 || v.lastSequence < e.sequenceNumber)
  {
    hide PayloadRefusal, ProperPayload;
    PayloadAcceptedIff(e.payload);
  }

  // Whole streams.

  function RunStream(v: ValidatorState, events: seq<Event>): ValidatorState
    decreases events
  {
    if events == [] then v else RunStream(AfterEvent(v, events[0]), events[1..])
  }

  /** The events of a stream that the validator accepts. */
  function AcceptedOf(v: ValidatorState, events: seq<Event>): seq<Event>
    decreases events
  {
    if events == [] then []
    else
      (if Refusal(v, events[0]).None? then [events[0]] else [])
      + AcceptedOf(AfterEvent(v, events[0]), events[1..])
  }

  ghost predicate Increasing(taken: seq<Event>) {
    forall i, j :: 0 <= i < j < |taken| ==> taken[i].sequenceNumber < taken[j].sequenceNumber
  }

  ghost predicate OneProducer(taken: seq<Event>) {
    forall i :: 0 <= i < |taken| ==> taken[i].producerId == taken[0].producerId && taken[i].producerId != ""
  }

  /** The events accepted since the accepted count was last zero: all of them, unless there were
      2^64 or more. */
  function Latest(taken: seq<Event>): seq<Event> {
    taken[|taken| - |taken| % TWO_64..]
  }

  ghost predicate LatestIncrease(taken: seq<Event>) {
    Increasing(Latest(taken))
  }

  /** The validator's fields say exactly what was accepted, since the count was last zero. */
  ghost predicate TracksLatest(v: ValidatorState, taken: seq<Event>) {
    && OneProducer(taken)
    && AllProper(taken)
    && (if taken == [] then v == INITIAL else v.producerId == taken[0].producerId)
    && Counts(v, Latest(taken))
  }

  /** Accepted events and gaps add up to the span of the sequence numbers, which increase. */
  ghost predicate Counts(v: ValidatorState, latest: seq<Event>) {
    && v.acceptedEvents == |latest|
    && Increasing(latest)
    && if latest == [] then v.sequenceGaps == 0
       else
         && v.firstSequence == latest[0].sequenceNumber
         && v.lastSequence == latest[|latest| - 1].sequenceNumber
         && v.acceptedEvents + v.sequenceGaps == v.lastSequence - v.firstSequence + 1
  }

  /** The fields say exactly what was accepted so far. */
  ghost predicate Tracks(v: ValidatorState, taken: seq<Event>) {
    && v.acceptedEvents == |taken|
    && Increasing(taken)
    && OneProducer(taken)
    && if taken == [] then v == INITIAL
       else
         && v.producerId == taken[0].producerId
         && v.firstSequence == taken[0].sequenceNumber
         && v.lastSequence == taken[|taken| - 1].sequenceNumber
         && v.acceptedEvents + v.sequenceGaps == v.lastSequence - v.firstSequence + 1
  }

  lemma TrackedIncrease(v: ValidatorState, taken: seq<Event>)
    requires TracksLatest(v, taken)
    ensures LatestIncrease(taken)
  {
    hide Increasing, OneProducer, AllProper, Latest;
  }

  lemma TracksAll(v: ValidatorState, taken: seq<Event>)
    requires TracksLatest(v, taken) && |taken| < TWO_64
    ensures Tracks(v, taken)
  {
    assert Latest(taken) == taken;
  }

  /** What one more accepted event does to the numbers, within one round of the count. */
  lemma AcceptCounts(v: ValidatorState, latest: seq<Event>, e: Event)
    requires Counts(v, latest) && Refusal(v, e).None?
    ensures Increasing(latest + [e])
    ensures var v' := AfterAccept(v, e);
      && v'.acceptedEvents == (|latest| + 1) % TWO_64
      && v'.firstSequence == (latest + [e])[0].sequenceNumber
      && v'.lastSequence == e.sequenceNumber
      && |latest| + 1 + v'.sequenceGaps == v'.lastSequence - v'.firstSequence + 1
  {
    hide PayloadRefusal;
    if latest != [] {
      assert forall i :: 0 <= i < |latest| ==> latest[i].sequenceNumber <= v.lastSequence;
    }
  }

  lemma LatestGrows(taken: seq<Event>, e: Event)
    ensures |Latest(taken)| + 1 < TWO_64 ==> Latest(taken + [e]) == Latest(taken) + [e]
    ensures |Latest(taken)| + 1 == TWO_64 ==> Latest(taken + [e]) == []
    ensures |Latest(taken)| < TWO_64
  {
  }

  lemma ProducerKept(v: ValidatorState, taken: seq<Event>, e: Event)
    requires TracksLatest(v, taken) && Refusal(v, e).None?
    ensures OneProducer(taken + [e])
    ensures AfterAccept(v, e).producerId == (taken + [e])[0].producerId
  {
    hide PayloadRefusal, Counts, AllProper;
  }

  lemma ProperKept(v: ValidatorState, taken: seq<Event>, e: Event)
    requires AllProper(taken) && Refusal(v, e).None?
    ensures AllProper(taken + [e])
  {
    hide Refusal, Proper;
    AcceptedIff(v, e);
  }

  /** Accepting one more event keeps it so, however many there were. */
  lemma AcceptTracks(v: ValidatorState, taken: seq<Event>, e: Event)
    requires TracksLatest(v, taken)
    requires Refusal(v, e).None?
    ensures TracksLatest(AfterAccept(v, e), taken + [e])
  {
    AcceptCounts(v, Latest(taken), e);
    LatestGrows(taken, e);
    ProducerKept(v, taken, e);
    ProperKept(v, taken, e);
    hide OneProducer, AllProper, Increasing, Latest, AfterAccept, Refusal;
  }

  /** Over any stream at all: the events taken since the count was last zero strictly increase
      within one producer, accepted events and gaps span them, and the gaps never wrap. */
  lemma {:induction false} StreamTracks(v: ValidatorState, taken: seq<Event>, events: seq<Event>)
    requires TracksLatest(v, taken)
    ensures TracksLatest(RunStream(v, events), taken + AcceptedOf(v, events))
    decreases events
  {
    hide TracksLatest, Refusal, AfterAccept;
    if events == [] {
      assert taken + [] == taken;
    } else {
      var e, v' := events[0], AfterEvent(v, events[0]);
      var one := if Refusal(v, e).None? then [e] else [];
      if Refusal(v, e).None? {
        AcceptTracks(v, taken, e);
      } else {
        assert taken + [] == taken;
      }
      StreamTracks(v', taken + one, events[1..]);
      assert taken + one + AcceptedOf(v', events[1..]) == taken + AcceptedOf(v, events);
    }
  }

  lemma NothingTracked()
    ensures TracksLatest(INITIAL, [])
  {
  }

  /** A stream whose summary has not wrapped is described by it exactly. */
  lemma StreamTracked(events: seq<Event>)
    requires |AcceptedOf(INITIAL, events)| < TWO_64
    ensures Tracks(RunStream(INITIAL, events), AcceptedOf(INITIAL, events))
  {
    hide TracksLatest, Tracks, AcceptedOf, RunStream;
    NothingTracked();
    StreamTracks(INITIAL, [], events);
    assert [] + AcceptedOf(INITIAL, events) == AcceptedOf(INITIAL, events);
    TracksAll(RunStream(INITIAL, events), AcceptedOf(INITIAL, events));
  }

  /** What the validator takes next, said of what it took so far: a proper event of the same
      producer with a greater number. */
  lemma NextAccepted(v: ValidatorState, taken: seq<Event>, e: Event)
    requires TracksLatest(v, taken)
    ensures var latest := Latest(taken);
      Refusal(v, e).None?
      <==> && Proper(e)
           && (taken == [] || e.producerId == taken[0].producerId)
           && (latest == [] || latest[|latest| - 1].sequenceNumber < e.sequenceNumber)
  {
    hide Refusal, Proper, AllProper, Latest;
    AcceptedIff(v, e);
  }

  /** What a refusal says is so. */
  predicate Defect(taken: seq<Event>, latest: seq<Event>, e: Event, error: string) {
    && (error == "unsupported telemetry schema version" ==> e.schemaVersion != SCHEMA_VERSION)
    && (error == "producer_id is required" ==> |e.producerId| == 0)
    && (error == "producer_id is too long" ==> |e.producerId| > 128)
    && (error == "source clock domain is required" ==>
          e.sourceClock != CLOCK_UTC && e.sourceClock != CLOCK_DEVICE_MONOTONIC)
    && (error == "source timestamp must be positive" ==> e.sourceTimestamp <= 0)
    && (error == "producer_id cannot change within a stream" ==>
          taken != [] && e.producerId != taken[0].producerId)
    && (error == "sequence numbers must increase within a stream" ==>
          latest != [] && e.sequenceNumber <= latest[|latest| - 1].sequenceNumber)
    && (!StreamRefusal(error) ==> !ProperPayload(e.payload))
  }

  predicate StreamRefusal(error: string) {
    || error == "unsupported telemetry schema version"
    || error == "producer_id is required"
    || error == "producer_id is too long"
    || error == "source clock domain is required"
    || error == "source timestamp must be positive"
    || error == "producer_id cannot change within a stream"
    || error == "sequence numbers must increase within a stream"
  }

  lemma RefusalTrue(v: ValidatorState, taken: seq<Event>, e: Event)
    requires TracksLatest(v, taken) && Refusal(v, e).Some?
    ensures Defect(taken, Latest(taken), e, Refusal(v, e).value)
  {
    hide PayloadRefusal, ProperPayload, AllProper, Latest, StreamRefusal;
    PayloadAcceptedIff(e.payload);
    StreamRefusalsDiffer();
    if PayloadRefusal(e.payload).Some? {
      PayloadRefusalsDiffer(e.payload);
    }
  }

  lemma StreamRefusalsDiffer()
    ensures var version, none, long := "unsupported telemetry schema version", "producer_id is required",
        "producer_id is too long";
      var clock, time := "source clock domain is required", "source timestamp must be positive";
      var producer, number := "producer_id cannot change within a stream",
        "sequence numbers must increase within a stream";
      && StreamRefusal(version) && StreamRefusal(none) && StreamRefusal(long) && StreamRefusal(clock)
      && StreamRefusal(time) && StreamRefusal(producer) && StreamRefusal(number)
      && version !in {none, long, clock, time, producer, number} && none !in {long, clock, time, producer, number}
      && long !in {clock, time, producer, number} && clock !in {time, producer, number}
      && time !in {producer, number} && producer != number
  {
    var none, long := "producer_id is required", "producer_id is too long";
    assert none[|none| - 1] != long[|long| - 1];
  }

  /** The two kinds of refusals differ in length, or in the last letter. */
  lemma PayloadRefusalsDiffer(p: Payload)
    requires PayloadRefusal(p).Some?
    ensures !StreamRefusal(PayloadRefusal(p).value)
  {
    hide *;
    PayloadShape(p);
    if StreamRefusal(PayloadRefusal(p).value) {
      StreamShape(PayloadRefusal(p).value);
    }
  }

  predicate OtherShape(m: string) {
    |m| !in {23, 31, 33, 36, 41, 46} || (|m| == 31 && m[30] == 'e')
  }

  lemma PayloadShape(p: Payload)
    requires PayloadRefusal(p).Some?
    ensures OtherShape(PayloadRefusal(p).value)
  {
    OtherShapes();
    MoreShapes();
    hide VectorFinite, OtherShape;
  }

  lemma OtherShapes()
    ensures OtherShape("accelerometer values must be finite") && OtherShape("gyroscope values must be finite")
    ensures OtherShape("GPS values must be finite") && OtherShape("GPS coordinates are outside valid bounds")
    ensures OtherShape("GPS accuracy cannot be negative") && OtherShape("temperature must be finite")
  {
  }

  lemma MoreShapes()
    ensures OtherShape("camera dimensions must be non-zero") && OtherShape("controller state must be specified")
    ensures OtherShape("controller detail is too long") && OtherShape("fault severity must be specified")
    ensures OtherShape("fault message is too long") && OtherShape("event payload is required")
  {
  }

  lemma StreamShape(m: string)
    requires StreamRefusal(m)
    ensures !OtherShape(m)
  {
  }

  lemma NextFits(taken: seq<Event>, rest: seq<Event>)
    requires rest != [] && OneProducer(taken + rest) && Increasing(taken + rest)
    ensures taken != [] ==>
        rest[0].producerId == taken[0].producerId && taken[|taken| - 1].sequenceNumber < rest[0].sequenceNumber
  {
    assert (taken + rest)[|taken|] == rest[0];
    if taken != [] {
      assert (taken + rest)[0] == taken[0] && (taken + rest)[|taken| - 1] == taken[|taken| - 1];
    }
  }

  lemma {:induction false} RestAccepted(v: ValidatorState, taken: seq<Event>, rest: seq<Event>)
    requires TracksLatest(v, taken) && AllProper(rest)
    requires OneProducer(taken + rest) && Increasing(taken + rest) && |taken| + |rest| <= TWO_64
    ensures AcceptedOf(v, rest) == rest
    decreases rest
  {
    hide TracksLatest, Refusal, AfterAccept, Proper;
    if rest == [] {
    } else {
      var e := rest[0];
      NextFits(taken, rest);
      assert Latest(taken) == taken;
      NextAccepted(v, taken, e);
      AcceptTracks(v, taken, e);
      assert taken + rest == (taken + [e]) + rest[1..];
      RestAccepted(AfterAccept(v, e), taken + [e], rest[1..]);
      assert rest == [e] + rest[1..];
    }
  }

  /** A stream of up to 2^64 events is taken in full if and only if all of them are proper, of one
      producer, and numbered in increasing order. */
  lemma StreamAcceptedExactly(events: seq<Event>)
    requires |events| <= TWO_64
    ensures AcceptedOf(INITIAL, events) == events
       <==> AllProper(events) && OneProducer(events) && Increasing(events)
  {
    hide AcceptedOf, RunStream, AllProper, OneProducer, Increasing, Latest;
    NothingTracked();
    assert [] + events == events;
    if AcceptedOf(INITIAL, events) == events {
      StreamTracks(INITIAL, [], events);
      AcceptedIncrease(events);
    }
    if AllProper(events) && OneProducer(events) && Increasing(events) {
      RestAccepted(INITIAL, [], events);
    }
  }

  // The one stream on which a field wraps.

  /** The accepted count is a count modulo 2^64. */
  lemma {:induction false} CountModulo(v: ValidatorState, events: seq<Event>)
    ensures RunStream(v, events).acceptedEvents == (v.acceptedEvents + |AcceptedOf(v, events)|) % TWO_64
    decreases events
  {
    hide Refusal, AfterEvent;
    if events == [] {
    } else {
      OneCounted(v, events[0]);
      CountModulo(AfterEvent(v, events[0]), events[1..]);
      WrapsOnce(v.acceptedEvents + (if Refusal(v, events[0]).None? then 1 else 0),
        |AcceptedOf(AfterEvent(v, events[0]), events[1..])|);
    }
  }

  lemma OneCounted(v: ValidatorState, e: Event)
    ensures AfterEvent(v, e).acceptedEvents
         == (v.acceptedEvents + if Refusal(v, e).None? then 1 else 0) % TWO_64
  {
    hide Refusal;
  }

  lemma WrapsOnce(a: nat, b: nat)
    ensures (a % TWO_64 + b) % TWO_64 == (a + b) % TWO_64
  {
  }

  /** So the summary reports the number of accepted events exactly when that number is below 2^64. */
  lemma CountExact(events: seq<Event>)
    ensures RunStream(INITIAL, events).acceptedEvents == |AcceptedOf(INITIAL, events)|
       <==> |AcceptedOf(INITIAL, events)| < TWO_64
  {
    CountModulo(INITIAL, events);
  }

  ghost predicate Unused(taken: seq<Event>, n: U64) {
    forall k :: 0 <= k < |taken| ==> taken[k].sequenceNumber != n
  }

  /** Increasing numbers leave one out, unless there are 2^64 of them. */
  lemma {:induction false} SomeUnused(taken: seq<Event>, m: nat) returns (n: U64)
    requires Increasing(taken) && |taken| < TWO_64
    requires m <= |taken| && forall k :: 0 <= k < m ==> taken[k].sequenceNumber == k
    ensures Unused(taken, n)
    decreases |taken| - m
  {
    if m < |taken| && taken[m].sequenceNumber == m {
      n := SomeUnused(taken, m + 1);
    } else {
      n := m;
      if m < |taken| {
        AtLeastPlace(taken, m);
      }
    }
  }

  lemma {:induction false} AtLeastPlace(taken: seq<Event>, k: nat)
    requires Increasing(taken) && k < |taken|
    ensures taken[k].sequenceNumber >= k
    decreases k
  {
    if k == 0 {
    } else {
      AtLeastPlace(taken, k - 1);
    }
  }

  lemma {:induction false} AtMostPlace(taken: seq<Event>, k: nat)
    requires Increasing(taken) && |taken| == TWO_64 && k < TWO_64
    ensures taken[k].sequenceNumber <= k
    decreases TWO_64 - k
  {
    if k == TWO_64 - 1 {
    } else {
      AtMostPlace(taken, k + 1);
    }
  }

  function FirstRound(taken: seq<Event>): seq<Event> {
    if |taken| <= TWO_64 then taken else taken[..TWO_64]
  }

  /** The events of the first round of the count strictly increase, the last one included. */
  lemma {:induction false} FirstRoundIncreases(v: ValidatorState, taken: seq<Event>, events: seq<Event>)
    requires TracksLatest(v, taken) && |taken| <= TWO_64 && Increasing(taken)
    ensures Increasing(FirstRound(taken + AcceptedOf(v, events)))
    decreases events
  {
    hide TracksLatest, Refusal, AfterAccept, Increasing;
    if |taken| == TWO_64 {
      assert FirstRound(taken + AcceptedOf(v, events)) == taken;
    } else if events == [] {
      assert taken + [] == taken;
    } else {
      var e, v' := events[0], AfterEvent(v, events[0]);
      var one := if Refusal(v, e).None? then [e] else [];
      if Refusal(v, e).None? {
        AcceptTracks(v, taken, e);
        NextIncreases(v, taken, e);
      } else {
        assert taken + [] == taken;
      }
      FirstRoundIncreases(v', taken + one, events[1..]);
      assert taken + one + AcceptedOf(v', events[1..]) == taken + AcceptedOf(v, events);
    }
  }

  lemma NextIncreases(v: ValidatorState, taken: seq<Event>, e: Event)
    requires TracksLatest(v, taken) && |taken| < TWO_64 && Refusal(v, e).None?
    ensures Increasing(taken + [e])
  {
    assert Latest(taken) == taken;
    hide Increasing, Refusal;
    AcceptCounts(v, taken, e);
  }

  lemma AcceptedIncrease(events: seq<Event>)
    ensures Increasing(FirstRound(AcceptedOf(INITIAL, events)))
  {
    hide TracksLatest, AcceptedOf, FirstRound;
    NothingTracked();
    FirstRoundIncreases(INITIAL, [], events);
    assert [] + AcceptedOf(INITIAL, events) == AcceptedOf(INITIAL, events);
  }

  /** The summary's count is exact if and only if some sequence number was not accepted. */
  lemma CountExactly(events: seq<Event>)
    ensures RunStream(INITIAL, events).acceptedEvents == |AcceptedOf(INITIAL, events)|
       <==> exists n: U64 :: Unused(AcceptedOf(INITIAL, events), n)
  {
    var taken := AcceptedOf(INITIAL, events);
    CountExact(events);
    AcceptedIncrease(events);
    hide AcceptedOf, RunStream, Increasing;
    if |taken| < TWO_64 {
      var n := SomeUnused(taken, 0);
    } else {
      forall n: U64 ensures !Unused(taken, n) {
        AtLeastPlace(FirstRound(taken), n);
        AtMostPlace(FirstRound(taken), n);
        assert taken[n].sequenceNumber == n;
      }
    }
  }

  lemma {:induction false} AcceptedAreEvents(v: ValidatorState, events: seq<Event>, n: U64)
    requires Unused(events, n)
    ensures Unused(AcceptedOf(v, events), n)
    decreases events
  {
    hide Refusal;
    if events == [] {
    } else {
      AcceptedAreEvents(AfterEvent(v, events[0]), events[1..], n);
    }
  }

  /** So it is exact for every stream that leaves out a sequence number, which a client can tell
      before it sends anything. */
  lemma CountExactUnlessAllUsed(events: seq<Event>, n: U64)
    requires Unused(events, n)
    ensures RunStream(INITIAL, events).acceptedEvents == |AcceptedOf(INITIAL, events)|
  {
    AcceptedAreEvents(INITIAL, events, n);
    CountExactly(events);
  }

  function RampEvent(n: U64): Event {
    Event(SCHEMA_VERSION, "p", n, 1, CLOCK_UTC, Temperature(Finite(0.0)))
  }

  /** A stream that uses every sequence number up to `n`. */
  function Ramp(n: nat): seq<Event>
    requires n <= TWO_64
  {
    seq(n, i requires 0 <= i < n => RampEvent(i))
  }

  /** The bound is reached: a stream may use all 2^64 sequence numbers, and then its summary
      reports no accepted event at all. */
  lemma FullRampWraps()
    ensures |AcceptedOf(INITIAL, Ramp(TWO_64))| == TWO_64
    ensures RunStream(INITIAL, Ramp(TWO_64)).acceptedEvents == 0
  {
    RampFits(TWO_64);
    hide *;
    StreamAcceptedExactly(Ramp(TWO_64));
    CountModulo(INITIAL, Ramp(TWO_64));
    NothingAccepted();
  }

  lemma RampFits(n: nat)
    requires n <= TWO_64
    ensures AllProper(Ramp(n)) && OneProducer(Ramp(n)) && Increasing(Ramp(n)) && |Ramp(n)| == n
  {
  }

  lemma NothingAccepted()
    ensures INITIAL.acceptedEvents == 0
  {
  }
}
