/** Concurrent ingestion as a step system: any number of streams, one consumer thread and one
    thread that shuts down. A lock region, an atomic access or a notification is one step, and
    the steps of different threads interleave in any order.

    The condition variable is explicit: a consumer that finds nothing to do parks, and stays
    parked until some thread that owes a notification delivers it, or until it wakes up
    spuriously. */
module Pipeline {
  import opened Bytes
  import opened Telemetry
  import opened BoundedQueue
  import opened Validation
  import opened LogWriting

  /** A queued event, tagged with the stream it came from. The tag is not part of the program. */
  datatype Item = Item(stream: nat, collected: CollectedEvent)

  datatype Finish = FinishedOk(summary: Summary) | InvalidArgument(error: string) | ResourceExhausted | Unavailable

  datatype StreamPc =
    | Reading                          // waiting for the client
    | Checking(item: CollectedEvent)   // about to load the accepting flag
    | Pushing(item: CollectedEvent)    // about to enter the queue's lock region
    | Notifying                        // pushed, about to notify one waiter
    | Finished(finish: Finish)

  /** A stream, with the events its validator accepted and those the sink accepted. */
  datatype Stream = Stream(pc: StreamPc, validator: ValidatorState, taken: seq<Event>, sunk: seq<CollectedEvent>)

  datatype ConsumerPc =
    | Polling                          // about to lock and test the wait condition
    | Parked                           // asleep on the condition variable
    | Consuming(item: Item)            // popped an item, inside `consume`
    | Counting                         // `consume` returned true
    | Failing                          // `consume` returned false, about to count the failure
    | Refusing                         // about to clear the accepting flag
    | Closing                          // about to close the queue
    | Announcing                       // closed it, about to notify all waiters
    | Done

  datatype ShutdownPc = Running | ShutClosing | ShutAnnouncing | Joining | Joined | Flushed(ok: bool)

  /** The calls made on the log writer so far, and the writer's state before and after each. */
  datatype History = History(states: seq<WriterState>, ops: seq<Op>, oks: seq<bool>)

  datatype Sys = Sys(
    queue: QueueState<Item>,
    accepting: bool,
    consumed: nat,
    failures: nat,
    consumer: ConsumerPc,
    shutdown: ShutdownPc,
    streams: seq<Stream>,
    accepted: seq<Item>,               // every item the queue accepted, in order
    handled: seq<Item>,                // every item for which `consume` has returned
    log: History)

  function Start(capacity: nat, streams: nat, writer: WriterState): Sys {
    Sys(Empty(capacity), true, 0, 0, Polling, Running,
        seq(streams, _ => Stream(Reading, INITIAL, [], [])), [], [], History([writer], [], []))
  }

  datatype Step =
    | Read(i: nat, event: Event, arrival: I64)
    | EndOfStream(i: nat)
    | LoadFlag(i: nat)
    | Push(i: nat)
    | NotifyOne(i: nat)
    | Poll
    | WakeUp
    | Consume(writer: WriterState, ok: bool)
    | CountConsumed
    | CountFailure
    | ConsumerRefuses
    | ConsumerCloses
    | ConsumerAnnounces
    | ShutdownRefuses
    | ShutdownCloses
    | ShutdownAnnounces
    | Join
    | FlushLog(writer: WriterState, ok: bool)

  function Writer(s: Sys): WriterState
    requires s.log.states != []
  {
    s.log.states[|s.log.states| - 1]
  }

  ghost predicate Enabled(s: Sys, step: Step, codec: Codec, every: nat) {
    match step
    case Read(i, _, _) => i < |s.streams| && s.streams[i].pc.Reading?
    case EndOfStream(i) => i < |s.streams| && s.streams[i].pc.Reading?
    case LoadFlag(i) => i < |s.streams| && s.streams[i].pc.Checking?
    case Push(i) => i < |s.streams| && s.streams[i].pc.Pushing?
    case NotifyOne(i) => i < |s.streams| && s.streams[i].pc.Notifying?
    case Poll => s.consumer.Polling?
    case WakeUp => s.consumer.Parked?
    case Consume(writer, ok) =>
      && s.consumer.Consuming?
      && s.log.states != []
      && OpStep(Writer(s), writer, AppendOf(s.consumer.item), codec, every, ok)
    case CountConsumed => s.consumer.Counting?
    case CountFailure => s.consumer.Failing?
    case ConsumerRefuses => s.consumer.Refusing?
    case ConsumerCloses => s.consumer.Closing?
    case ConsumerAnnounces => s.consumer.Announcing?
    case ShutdownRefuses => s.shutdown.Running?
    case ShutdownCloses => s.shutdown.ShutClosing?
    case ShutdownAnnounces => s.shutdown.ShutAnnouncing?
    case Join => s.shutdown.Joining? && s.consumer.Done?
    case FlushLog(writer, ok) =>
      && s.shutdown.Joined?
      && s.log.states != []
      && OpStep(Writer(s), writer, Op.Flush, codec, every, ok)
  }

  function AppendOf(item: Item): Op {
    Op.Append(item.collected.event, item.collected.arrival)
  }

  // What a step does to the stream that takes it.

  function AfterRead(st: Stream, event: Event, arrival: I64): Stream {
    match Refusal(st.validator, event)
    case Some(error) => st.(pc := Finished(InvalidArgument(error)))
    case None => st.(pc := Checking(CollectedEvent(event, arrival)),
                     validator := AfterAccept(st.validator, event), taken := st.taken + [event])
  }

  function AfterEnd(st: Stream): Stream {
    st.(pc := Finished(FinishedOk(SummaryOf(st.validator))))
  }

  function AfterLoad(st: Stream, accepting: bool): Stream
    requires st.pc.Checking?
  {
    st.(pc := if accepting then Pushing(st.pc.item) else Finished(Unavailable))
  }

  function AfterPushed(st: Stream, result: PushResult): Stream
    requires st.pc.Pushing?
  {
    match result
    case Accepted => st.(pc := Notifying, sunk := st.sunk + [st.pc.item])
    case Full => st.(pc := Finished(ResourceExhausted))
    case Closed => st.(pc := Finished(Unavailable))
  }

  /** A notification wakes a parked consumer and is lost on any other. */
  function Notified(c: ConsumerPc): ConsumerPc {
    if c.Parked? then Polling else c
  }

  function AfterPoll(s: Sys): Sys {
    if !Ready(s.queue) then s.(consumer := Parked)
    else if s.queue.items == [] then s.(consumer := Done)
    else s.(consumer := Consuming(s.queue.items[0]), queue := AfterPop(s.queue))
  }

  function Extended(log: History, writer: WriterState, op: Op, ok: bool): History {
    History(log.states + [writer], log.ops + [op], log.oks + [ok])
  }

  function AfterPushStep(s: Sys, i: nat): Sys
    requires i < |s.streams| && s.streams[i].pc.Pushing?
  {
    var item := Item(i, s.streams[i].pc.item);
    var result := PushResultOf(s.queue);
    s.(streams := s.streams[i := AfterPushed(s.streams[i], result)],
       queue := AfterPush(s.queue, item),
       accepted := if result == Accepted then s.accepted + [item] else s.accepted)
  }

  function AfterConsume(s: Sys, writer: WriterState, ok: bool): Sys
    requires s.consumer.Consuming?
  {
    s.(consumer := if ok then Counting else Failing,
       handled := s.handled + [s.consumer.item],
       log := Extended(s.log, writer, AppendOf(s.consumer.item), ok))
  }

  function Apply(s: Sys, step: Step, ghost codec: Codec, ghost every: nat): Sys
    requires Enabled(s, step, codec, every)
  {
    match step
    case Read(i, event, arrival) => s.(streams := s.streams[i := AfterRead(s.streams[i], event, arrival)])
    case EndOfStream(i) => s.(streams := s.streams[i := AfterEnd(s.streams[i])])
    case LoadFlag(i) => s.(streams := s.streams[i := AfterLoad(s.streams[i], s.accepting)])
    case Push(i) => AfterPushStep(s, i)
    case NotifyOne(i) => s.(streams := s.streams[i := s.streams[i].(pc := Reading)], consumer := Notified(s.consumer))
    case Poll => AfterPoll(s)
    case WakeUp => s.(consumer := Polling)
    case Consume(writer, ok) => AfterConsume(s, writer, ok)
    case CountConsumed => s.(consumed := s.consumed + 1, consumer := Polling)
    case CountFailure => s.(failures := s.failures + 1, consumer := Refusing)
    case ConsumerRefuses => s.(accepting := false, consumer := Closing)
    case ConsumerCloses => s.(queue := AfterClose(s.queue), consumer := Announcing)
    case ConsumerAnnounces => s.(consumer := Done)
    case ShutdownRefuses => s.(accepting := false, shutdown := ShutClosing)
    case ShutdownCloses => s.(queue := AfterClose(s.queue), shutdown := ShutAnnouncing)
    case ShutdownAnnounces => s.(consumer := Notified(s.consumer), shutdown := Joining)
    case Join => s.(shutdown := Joined)
    case FlushLog(writer, ok) => s.(shutdown := Flushed(ok), log := Extended(s.log, writer, Op.Flush, ok))
  }

  /** A run: every step is enabled where it is taken. */
  ghost predicate Runs(s: Sys, steps: seq<Step>, codec: Codec, every: nat)
    decreases steps
  {
    || steps == []
    || (Enabled(s, steps[0], codec, every) && Runs(Apply(s, steps[0], codec, every), steps[1..], codec, every))
  }

  ghost function After(s: Sys, steps: seq<Step>, codec: Codec, every: nat): Sys
    requires Runs(s, steps, codec, every)
    decreases steps
  {
    if steps == [] then s else After(Apply(s, steps[0], codec, every), steps[1..], codec, every)
  }

  // What holds in every reachable state.

  function InFlight(c: ConsumerPc): seq<Item> {
    if c.Consuming? then [c.item] else []
  }

  /** Nothing is lost, duplicated or reordered on the way through the queue. */
  ghost predicate QueueInv(s: Sys) {
    && WellFormed(s.queue)
    && s.queue.acceptedItems == |s.accepted|
    && s.handled + InFlight(s.consumer) + s.queue.items == s.accepted
  }

  /** `consume` has returned false. */
  predicate HasFailed(s: Sys) {
    s.consumer.Failing? || s.failures == 1
  }

  /** Every item for which `consume` has returned is counted once, as consumed or as failed, or
      is about to be; the consumer fails at most once and then never consumes again. */
  ghost predicate CountInv(s: Sys) {
    && s.failures <= 1
    && |s.handled| == s.consumed + (if s.consumer.Counting? || s.consumer.Failing? then 1 else 0) + s.failures
    && (s.failures == 1 ==> s.consumer.Refusing? || s.consumer.Closing? || s.consumer.Announcing? || s.consumer.Done?)
    && (s.consumer.Refusing? || s.consumer.Closing? || s.consumer.Announcing? ==> s.failures == 1)
  }

  /** The phases of closing down. */
  ghost predicate CloseInv(s: Sys) {
    && (s.shutdown != Running ==> !s.accepting)
    && (s.shutdown != Running && s.shutdown != ShutClosing ==> s.queue.closed)
    && (s.consumer.Announcing? || s.consumer.Done? ==> s.queue.closed)
    && (s.consumer.Closing? || s.consumer.Announcing? ==> !s.accepting)
    && (s.shutdown.Joined? || s.shutdown.Flushed? ==> s.consumer.Done?)
    && (s.consumer.Done? && s.failures == 0 ==> s.queue.items == [])
  }

  /** Some thread is still going to notify. */
  ghost predicate NotificationOwed(s: Sys) {
    s.shutdown.ShutAnnouncing? || exists i :: 0 <= i < |s.streams| && s.streams[i].pc.Notifying?
  }

  /** No wakeup is lost: a consumer that is parked although there is something for it to do is
      owed a notification. */
  ghost predicate WakeInv(s: Sys) {
    s.consumer.Parked? && Ready(s.queue) ==> NotificationOwed(s)
  }

  function Events(items: seq<CollectedEvent>): seq<Event> {
    seq(|items|, i requires 0 <= i < |items| => items[i].event)
  }

  /** What the stream's validator accepted and what the sink accepted of it agree, but for an
      event that is between the two, or that the sink refused and that ended the stream. */
  ghost predicate StreamInv(st: Stream) {
    && TracksLatest(st.validator, st.taken)
    && LatestIncrease(Events(st.sunk))
    && match st.pc
       case Reading => Events(st.sunk) == st.taken
       case Checking(item) => Events(st.sunk) + [item.event] == st.taken
       case Pushing(item) => Events(st.sunk) + [item.event] == st.taken
       case Notifying => Events(st.sunk) == st.taken
       case Finished(FinishedOk(summary)) => Events(st.sunk) == st.taken && summary == SummaryOf(st.validator)
       case Finished(_) => Events(st.sunk) <= st.taken && |st.taken| <= |st.sunk| + 1
  }

  /** The items of one stream, in order. */
  function OfStream(items: seq<Item>, i: nat): seq<CollectedEvent> {
    if items == [] then []
    else
      var last := items[|items| - 1];
      OfStream(items[..|items| - 1], i) + if last.stream == i then [last.collected] else []
  }

  ghost predicate StreamsInv(s: Sys) {
    && (forall i :: 0 <= i < |s.streams| ==> StreamInv(s.streams[i]) && s.streams[i].sunk == OfStream(s.accepted, i))
    && forall k :: 0 <= k < |s.accepted| ==> s.accepted[k].stream < |s.streams|
  }

  function AppendsOf(items: seq<Item>): seq<Op> {
    seq(|items|, i requires 0 <= i < |items| => AppendOf(items[i]))
  }

  /** The log writer was called once for each handled item, in order, and at the end for the
      final flush; all calls but a failing last one succeeded. */
  ghost predicate LogInv(s: Sys, codec: Codec, every: nat) {
    && WriterRun(s.log.states, s.log.ops, s.log.oks, codec, every)
    && s.log.ops == AppendsOf(s.handled) + (if s.shutdown.Flushed? then [Op.Flush] else [])
    && (forall i :: 0 <= i < |s.handled| ==> s.log.oks[i] == !(HasFailed(s) && i == |s.handled| - 1))
    && (s.shutdown.Flushed? ==> s.log.oks[|s.handled|] == s.shutdown.ok)
  }

  ghost predicate Inv(s: Sys, codec: Codec, every: nat) {
    && QueueInv(s)
    && CountInv(s)
    && CloseInv(s)
    && WakeInv(s)
    && StreamsInv(s)
    && LogInv(s, codec, every)
  }

  lemma StartInv(capacity: nat, streams: nat, writer: WriterState, codec: Codec, every: nat)
    requires capacity > 0
    ensures Inv(Start(capacity, streams, writer), codec, every)
  {
  }

  lemma QueueKept(s: Sys, step: Step, codec: Codec, every: nat)
    requires QueueInv(s) && Enabled(s, step, codec, every)
    ensures QueueInv(Apply(s, step, codec, every))
  {
    hide OpStep;
    match step
    case Push(i) => PushKeeps(s.queue, Item(i, s.streams[i].pc.item), s.handled + InFlight(s.consumer), s.accepted);
    case Poll =>
      if s.queue.items != [] {
        PopKeeps(s.queue, s.handled, s.accepted);
      }
    case Consume(_, _) => assert s.handled + [s.consumer.item] + [] == s.handled + [s.consumer.item];
    case _ =>
  }

  lemma CountKept(s: Sys, step: Step, codec: Codec, every: nat)
    requires CountInv(s) && Enabled(s, step, codec, every)
    ensures CountInv(Apply(s, step, codec, every))
  {
    hide OpStep;
  }

  lemma CloseKept(s: Sys, step: Step, codec: Codec, every: nat)
    requires CloseInv(s) && CountInv(s) && Enabled(s, step, codec, every)
    ensures CloseInv(Apply(s, step, codec, every))
  {
    hide OpStep;
  }

  lemma WakeKept(s: Sys, step: Step, codec: Codec, every: nat)
    requires WakeInv(s) && CloseInv(s) && Enabled(s, step, codec, every)
    ensures WakeInv(Apply(s, step, codec, every))
  {
    hide OpStep;
    var s' := Apply(s, step, codec, every);
    if s'.consumer.Parked? && Ready(s'.queue) {
      if Ready(s.queue) {
        if !s.shutdown.ShutAnnouncing? {
          var i :| 0 <= i < |s.streams| && s.streams[i].pc.Notifying?;
          assert s'.streams[i].pc.Notifying?;
        }
      } else if step.Push? {
        assert s'.streams[step.i].pc.Notifying?;
      }
    }
  }

  lemma ReadKept(st: Stream, event: Event, arrival: I64)
    requires StreamInv(st) && st.pc.Reading?
    ensures StreamInv(AfterRead(st, event, arrival))
  {
    hide PayloadRefusal, AfterAccept, TracksLatest, LatestIncrease;
    if Refusal(st.validator, event).None? {
      AcceptTracks(st.validator, st.taken, event);
    }
  }

  lemma PushedKept(st: Stream, result: PushResult)
    requires StreamInv(st) && st.pc.Pushing?
    ensures StreamInv(AfterPushed(st, result))
  {
    hide TracksLatest, LatestIncrease;
    TrackedIncrease(st.validator, st.taken);
    assert Events(st.sunk + [st.pc.item]) == Events(st.sunk) + [st.pc.item.event];
  }

  lemma OfStreamMore(items: seq<Item>, item: Item, i: nat)
    ensures OfStream(items + [item], i) == OfStream(items, i) + if item.stream == i then [item.collected] else []
  {
    assert (items + [item])[..|items|] == items;
  }

  lemma StreamsKept(s: Sys, step: Step, codec: Codec, every: nat)
    requires StreamsInv(s) && Enabled(s, step, codec, every)
    ensures StreamsInv(Apply(s, step, codec, every))
  {
    hide OpStep, TracksLatest, LatestIncrease, Refusal, AfterAccept, OfStream, AfterPush;
    match step
    case Read(i, event, arrival) =>
      ReadKept(s.streams[i], event, arrival);
      hide AfterRead, StreamInv;
    case Push(i) => PushKept(s, i);
    case _ =>
  }

  lemma PushKept(s: Sys, i: nat)
    requires StreamsInv(s) && i < |s.streams| && s.streams[i].pc.Pushing?
    ensures StreamsInv(AfterPushStep(s, i))
  {
    hide StreamInv, OfStream, AfterPush, PushResultOf;
    assert StreamInv(s.streams[i]);
    PushedKept(s.streams[i], PushResultOf(s.queue));
    forall j | 0 <= j < |s.streams|
      ensures OfStream(s.accepted + [Item(i, s.streams[i].pc.item)], j)
           == OfStream(s.accepted, j) + if i == j then [s.streams[i].pc.item] else []
    {
      OfStreamMore(s.accepted, Item(i, s.streams[i].pc.item), j);
    }
  }

  lemma LogKept(s: Sys, step: Step, codec: Codec, every: nat)
    requires LogInv(s, codec, every) && CountInv(s) && CloseInv(s) && Enabled(s, step, codec, every)
    ensures LogInv(Apply(s, step, codec, every), codec, every)
  {
    hide OpStep, LogInv, CountInv, CloseInv;
    match step
    case Consume(writer, ok) => ConsumeLogged(s, writer, ok, codec, every);
    case FlushLog(writer, ok) => FlushLogged(s, writer, ok, codec, every);
    case _ => LogUntouched(s, step, codec, every);
  }

  lemma LogUntouched(s: Sys, step: Step, codec: Codec, every: nat)
    requires LogInv(s, codec, every) && CountInv(s) && CloseInv(s) && Enabled(s, step, codec, every)
    requires !step.Consume? && !step.FlushLog?
    ensures LogInv(Apply(s, step, codec, every), codec, every)
  {
    hide OpStep, WriterRun, AppendsOf;
  }

  lemma FlushLogged(s: Sys, writer: WriterState, ok: bool, codec: Codec, every: nat)
    requires LogInv(s, codec, every) && CountInv(s) && CloseInv(s) && Enabled(s, FlushLog(writer, ok), codec, every)
    ensures LogInv(Apply(s, FlushLog(writer, ok), codec, every), codec, every)
  {
    RunExtended(s.log, writer, Op.Flush, ok, codec, every);
    hide OpStep, WriterRun;
    assert AppendsOf(s.handled) + [] == AppendsOf(s.handled);
    assert |s.log.oks| == |s.log.ops|;
  }

  lemma RunExtended(log: History, writer: WriterState, op: Op, ok: bool, codec: Codec, every: nat)
    requires WriterRun(log.states, log.ops, log.oks, codec, every)
    requires log.states != [] && OpStep(log.states[|log.states| - 1], writer, op, codec, every, ok)
    ensures var more := Extended(log, writer, op, ok); WriterRun(more.states, more.ops, more.oks, codec, every)
  {
    hide OpStep;
  }

  lemma ConsumeLogged(s: Sys, writer: WriterState, ok: bool, codec: Codec, every: nat)
    requires LogInv(s, codec, every) && CountInv(s) && CloseInv(s) && Enabled(s, Consume(writer, ok), codec, every)
    ensures LogInv(AfterConsume(s, writer, ok), codec, every)
  {
    RunExtended(s.log, writer, AppendOf(s.consumer.item), ok, codec, every);
    hide OpStep, WriterRun;
    assert AppendsOf(s.handled + [s.consumer.item]) == AppendsOf(s.handled) + [AppendOf(s.consumer.item)];
    assert |s.log.oks| == |s.log.ops|;
  }

  /** Every step of every thread keeps all of it. */
  lemma StepKeepsInv(s: Sys, step: Step, codec: Codec, every: nat)
    requires Inv(s, codec, every) && Enabled(s, step, codec, every)
    ensures Inv(Apply(s, step, codec, every), codec, every)
  {
    hide QueueInv, CountInv, CloseInv, WakeInv, StreamsInv, LogInv, Apply, Enabled;
    QueueKept(s, step, codec, every);
    CountKept(s, step, codec, every);
    CloseKept(s, step, codec, every);
    WakeKept(s, step, codec, every);
    StreamsKept(s, step, codec, every);
    LogKept(s, step, codec, every);
  }

  lemma {:induction false} RunKeepsInv(s: Sys, steps: seq<Step>, codec: Codec, every: nat)
    requires Inv(s, codec, every) && Runs(s, steps, codec, every)
    ensures Inv(After(s, steps, codec, every), codec, every)
    decreases steps
  {
    hide Inv, Apply, Enabled;
    if steps == [] {
    } else {
      StepKeepsInv(s, steps[0], codec, every);
      RunKeepsInv(Apply(s, steps[0], codec, every), steps[1..], codec, every);
    }
  }

  /** In every reachable state of every interleaving: items popped and queued are the accepted
      items in order; consumed, failed, in-flight and queued items add up to the accepted ones;
      at most `capacity + 1` accepted events are unaccounted for; there is at most one failure;
      and no wakeup is lost. */
  lemma Reachable(capacity: nat, streams: nat, writer: WriterState, steps: seq<Step>, codec: Codec, every: nat)
    requires capacity > 0
    requires Runs(Start(capacity, streams, writer), steps, codec, every)
    ensures var s := After(Start(capacity, streams, writer), steps, codec, every);
      && Inv(s, codec, every)
      && s.queue.capacity == capacity
      && |s.queue.items| <= s.queue.highWatermark <= capacity
      && s.handled + InFlight(s.consumer) + s.queue.items == s.accepted
      && s.failures <= 1
      && (s.failures == 1 ==> |s.accepted| - s.consumed <= capacity + 1)
      && (s.consumer.Done? && s.failures == 0 ==> s.consumed == |s.accepted| && s.handled == s.accepted)
  {
    var start := Start(capacity, streams, writer);
    StartInv(capacity, streams, writer, codec, every);
    CapacityFixed(start, steps, codec, every);
    RunKeepsInv(start, steps, codec, every);
    hide Runs, After, StreamsInv, LogInv, WakeInv;
    var s := After(start, steps, codec, every);
    assert QueueInv(s) && CountInv(s) && CloseInv(s);
    assert s.consumer.Done? && s.failures == 0 ==> s.handled + [] + [] == s.handled;
  }

  lemma {:induction false} CapacityFixed(s: Sys, steps: seq<Step>, codec: Codec, every: nat)
    requires Runs(s, steps, codec, every)
    ensures After(s, steps, codec, every).queue.capacity == s.queue.capacity
    decreases steps
  {
    hide OpStep;
    if steps == [] {
    } else {
      CapacityFixed(Apply(s, steps[0], codec, every), steps[1..], codec, every);
    }
  }

  // Termination of the consumer once the queue is closed.

  function Rank(c: ConsumerPc): nat {
    match c
    case Done => 0
    case Announcing => 1
    case Polling => 1
    case Closing => 2
    case Parked => 2
    case Refusing => 3
    case Counting => 3
    case Failing => 4
    case Consuming(_) => 5
  }

  /** How far the consumer is from the end of its loop. */
  function Distance(s: Sys): nat {
    8 * |s.queue.items| + Rank(s.consumer)
  }

  predicate ConsumerStep(step: Step) {
    step.Poll? || step.Consume? || step.CountConsumed? || step.CountFailure?
    || step.ConsumerRefuses? || step.ConsumerCloses? || step.ConsumerAnnounces?
  }

  /** Behind a closed queue no step takes the consumer further from its end, and its own steps
      take it nearer. */
  lemma DistanceShrinks(s: Sys, step: Step, codec: Codec, every: nat)
    requires s.queue.closed && Enabled(s, step, codec, every)
    ensures Apply(s, step, codec, every).queue.closed
    ensures Distance(Apply(s, step, codec, every)) <= Distance(s)
    ensures ConsumerStep(step) ==> Distance(Apply(s, step, codec, every)) < Distance(s)
  {
    hide OpStep;
  }

  function ConsumerSteps(steps: seq<Step>): nat {
    if steps == [] then 0 else (if ConsumerStep(steps[0]) then 1 else 0) + ConsumerSteps(steps[1..])
  }

  /** So behind a closed queue the consumer takes a bounded number of steps, whatever the other
      threads do. */
  lemma {:induction false} ConsumerTerminates(s: Sys, steps: seq<Step>, codec: Codec, every: nat)
    requires s.queue.closed && Runs(s, steps, codec, every)
    ensures After(s, steps, codec, every).queue.closed
    ensures ConsumerSteps(steps) + Distance(After(s, steps, codec, every)) <= Distance(s)
    decreases steps
  {
    hide Apply, Enabled, Distance;
    if steps == [] {
    } else {
      DistanceShrinks(s, steps[0], codec, every);
      ConsumerTerminates(Apply(s, steps[0], codec, every), steps[1..], codec, every);
    }
  }

  /** And it is never stuck: until it is done, either it is inside `consume`, or one of its own
      steps is enabled, or it is parked and a notification that wakes it is enabled. */
  lemma ConsumerNotStuck(s: Sys, codec: Codec, every: nat) returns (step: Step)
    requires Inv(s, codec, every) && s.queue.closed
    requires !s.consumer.Done? && !s.consumer.Consuming?
    ensures Enabled(s, step, codec, every)
    ensures (ConsumerStep(step) && !step.Consume?) || step.NotifyOne? || step.ShutdownAnnounces?
    ensures Distance(Apply(s, step, codec, every)) < Distance(s)
  {
    hide OpStep, StreamsInv, LogInv, QueueInv;
    match s.consumer
    case Polling => step := Poll;
    case Parked =>
      if s.shutdown.ShutAnnouncing? {
        step := ShutdownAnnounces;
      } else {
        var i :| 0 <= i < |s.streams| && s.streams[i].pc.Notifying?;
        step := NotifyOne(i);
      }
    case Counting => step := CountConsumed;
    case Failing => step := CountFailure;
    case Refusing => step := ConsumerRefuses;
    case Closing => step := ConsumerCloses;
    case Announcing => step := ConsumerAnnounces;
  }
}
