/** The sink and a stream's reactor as they run, each call from its start to its end with no other
    thread in between. Every call is proved to be a run of the step system in Pipeline, so what
    holds in all of its reachable states holds before and after every call. */
module Ingestion {
  import opened Bytes
  import opened Telemetry
  import opened BoundedQueue
  import opened Validation
  import opened LogWriting
  import opened LogWriter
  import opened Pipeline

  datatype SinkResult = SinkAccepted | Overloaded | SinkUnavailable

  // Runs that grow.

  lemma {:induction false} RunsMore(s: Sys, steps: seq<Step>, step: Step, codec: Codec, every: nat)
    requires Runs(s, steps, codec, every)
    requires Enabled(After(s, steps, codec, every), step, codec, every)
    ensures Runs(s, steps + [step], codec, every)
    ensures After(s, steps + [step], codec, every) == Apply(After(s, steps, codec, every), step, codec, every)
    decreases steps
  {
    hide Enabled, Apply;
    if steps == [] {
      assert [step][1..] == [];
      assert [] + [step] == [step];
    } else {
      RunsMore(Apply(s, steps[0], codec, every), steps[1..], step, codec, every);
      assert (steps + [step])[1..] == steps[1..] + [step];
    }
  }

  lemma {:induction false} RunsJoin(s: Sys, steps: seq<Step>, more: seq<Step>, codec: Codec, every: nat)
    requires Runs(s, steps, codec, every)
    requires Runs(After(s, steps, codec, every), more, codec, every)
    ensures Runs(s, steps + more, codec, every)
    ensures After(s, steps + more, codec, every) == After(After(s, steps, codec, every), more, codec, every)
    decreases steps
  {
    hide Enabled, Apply;
    if steps == [] {
      assert [] + more == more;
    } else {
      RunsJoin(Apply(s, steps[0], codec, every), steps[1..], more, codec, every);
      assert (steps + more)[1..] == steps[1..] + more;
    }
  }

  /** The queue between the streams and the consumer, and the log writer that consumes. */
  class QueuedTelemetrySink {
    const queue: BoundedQueue<Item>
    const consumer: LogWriter
    var accepting: bool
    var consumed: nat
    var failures: nat
    var thread: ConsumerPc             // where the consumer thread is

    constructor (queue: BoundedQueue<Item>, consumer: LogWriter)
      ensures this.queue == queue && this.consumer == consumer
      ensures accepting && consumed == 0 && failures == 0 && thread == Polling
    {
      this.queue, this.consumer := queue, consumer;
      accepting, consumed, failures, thread := true, 0, 0, Polling;
    }

    ghost predicate Matches(s: Sys)
      reads this, queue, consumer, consumer.output
    {
      && consumer.Valid()
      && s.queue == queue.State()
      && s.accepting == accepting && s.consumed == consumed && s.failures == failures
      && s.consumer == thread
      && s.log.states != [] && Writer(s) == consumer.State()
    }

    /** An accepted event wakes the consumer thread if it is asleep. */
    method TryAccept(item: Item) returns (result: SinkResult)
      modifies queue, this`thread
      ensures !accepting ==> result == SinkUnavailable && queue.State() == old(queue.State())
      ensures accepting ==> queue.State() == AfterPush(old(queue.State()), item)
      ensures result == SinkUnavailable <==> !accepting || old(queue.closed)
      ensures result == Overloaded <==> accepting && !old(queue.closed) && |old(queue.items)| == queue.capacity
      ensures queue.items == old(queue.items) + if result == SinkAccepted then [item] else []
      ensures thread == if result == SinkAccepted then Notified(old(thread)) else old(thread)
    {
      if !accepting {
        return SinkUnavailable;
      }
      var pushed := queue.TryPush(item);
      match pushed
      case Accepted =>
        thread := Notified(thread);
        return SinkAccepted;
      case Full => return Overloaded;
      case Closed => return SinkUnavailable;
    }

    /** Waiting for an item, up to where the thread has one, has been told that none will come,
        or falls asleep. */
    method WaitPop(ghost codec: Codec, ghost s: Sys) returns (item: Option<Item>)
      requires Matches(s) && s.consumer.Polling?
      modifies this`thread, queue`items
      ensures Enabled(s, Poll, codec, consumer.flushEvery)
      ensures var s' := Apply(s, Poll, codec, consumer.flushEvery);
        Matches(s') && s'.shutdown == s.shutdown && s'.streams == s.streams
      ensures match item
        case Some(it) => thread == Consuming(it) && |queue.items| < |old(queue.items)|
        case None => queue.items == [] && thread == if queue.closed then Done else Parked
    {
      hide OpStep;
      if !queue.closed && queue.items == [] {
        thread := Parked;
        return None;
      }
      item := queue.PopAfterWait();
      thread := if item.None? then Done else Consuming(item.value);
    }

    /** Handing the item to the consumer, which appends it to the log. */
    method ConsumeItem(codec: Codec, ghost s: Sys) returns (ok: bool, ghost step: Step)
      requires Matches(s) && thread.Consuming?
      modifies this`thread, consumer, consumer.output
      ensures step.Consume? && step.ok == ok
      ensures Enabled(s, step, codec, consumer.flushEvery)
      ensures var s' := Apply(s, step, codec, consumer.flushEvery);
        Matches(s') && s'.shutdown == s.shutdown && s'.streams == s.streams
      ensures thread == if ok then Counting else Failing
    {
      hide OpStep;
      var item := thread.item;
      ok := consumer.Append(item.collected.event, item.collected.arrival, codec);
      step := Consume(consumer.State(), ok);
      thread := if ok then Counting else Failing;
    }

    method CountItem(ghost codec: Codec, ghost s: Sys)
      requires Matches(s) && thread.Counting?
      modifies this`thread, this`consumed
      ensures Enabled(s, CountConsumed, codec, consumer.flushEvery)
      ensures var s' := Apply(s, CountConsumed, codec, consumer.flushEvery);
        Matches(s') && s'.shutdown == s.shutdown && s'.streams == s.streams
      ensures thread.Polling?
    {
      hide OpStep;
      consumed := consumed + 1;
      thread := Polling;
    }

    /** The part of the consumer's loop behind a failed `consume`, from wherever the thread is in it. */
    method StopConsuming(ghost codec: Codec, ghost s: Sys) returns (ghost steps: seq<Step>)
      requires Matches(s) && Stopping(thread)
      modifies this`failures, this`accepting, this`thread, queue`closed
      ensures Runs(s, steps, codec, consumer.flushEvery)
      ensures var s' := After(s, steps, codec, consumer.flushEvery);
        Matches(s') && s'.shutdown == s.shutdown && s'.streams == s.streams
      ensures thread.Done?
      ensures failures == old(failures) + if old(thread).Failing? then 1 else 0
      ensures old(thread).Failing? ==> queue.closed && !accepting
      ensures (old(queue.closed) ==> queue.closed) && (accepting ==> old(accepting))
    {
      hide OpStep, Runs, After;
      steps := StoppingSteps(thread);
      StoppingRuns(s, codec, consumer.flushEvery);
      if thread.Failing? {
        failures := failures + 1;
        thread := Refusing;
      }
      if thread.Refusing? {
        accepting := false;
        thread := Closing;
      }
      if thread.Closing? {
        queue.Close();
        thread := Announcing;
      }
      thread := Done;
    }

    /** The consumer thread's loop: it takes only steps of its own and ends asleep in front of an
        open empty queue, or done behind a closed one, which it has drained unless `consume` failed. */
    method ConsumeLoop(codec: Codec, ghost s: Sys) returns (ghost steps: seq<Step>)
      requires Matches(s) && thread.Polling?
      modifies this, queue, consumer, consumer.output
      ensures Runs(s, steps, codec, consumer.flushEvery)
      ensures var s' := After(s, steps, codec, consumer.flushEvery);
        Matches(s') && s'.shutdown == s.shutdown && s'.streams == s.streams
      ensures thread.Done? || (thread.Parked? && !queue.closed)
      ensures old(queue.closed) ==> queue.closed
      ensures accepting ==> old(accepting)
      ensures failures == old(failures) ==> queue.items == []
    {
      hide OpStep, Runs, After, Apply, Enabled;
      ghost var every: nat := consumer.flushEvery;
      ghost var now := s;
      steps := [];
      RunsNothing(s, codec, every);
      while true
        invariant Runs(s, steps, codec, every) && now == After(s, steps, codec, every)
        invariant Matches(now) && thread.Polling?
        invariant now.shutdown == s.shutdown && now.streams == s.streams
        invariant failures == old(failures) && accepting == old(accepting) && queue.closed == old(queue.closed)
        decreases |queue.items|
      {
        var item := WaitPop(codec, now);
        RunsMore(s, steps, Poll, codec, every);
        steps, now := steps + [Poll], Apply(now, Poll, codec, every);
        if item.None? {
          return;
        }
        ghost var step;
        var ok;
        ok, step := ConsumeItem(codec, now);
        RunsMore(s, steps, step, codec, every);
        steps, now := steps + [step], Apply(now, step, codec, every);
        if !ok {
          ghost var last := StopConsuming(codec, now);
          RunsJoin(s, steps, last, codec, every);
          steps := steps + last;
          return;
        }
        CountItem(codec, now);
        RunsMore(s, steps, CountConsumed, codec, every);
        steps, now := steps + [CountConsumed], Apply(now, CountConsumed, codec, every);
      }
    }

    /** Behind a closed queue the thread comes to its end from wherever it is, also from inside
        `consume`. */
    method FinishThread(codec: Codec, ghost s: Sys) returns (ghost steps: seq<Step>)
      requires Matches(s) && !thread.Parked? && queue.closed
      modifies this, queue, consumer, consumer.output
      ensures Runs(s, steps, codec, consumer.flushEvery)
      ensures var s' := After(s, steps, codec, consumer.flushEvery);
        Matches(s') && s'.shutdown == s.shutdown && s'.streams == s.streams
      ensures thread.Done? && queue.closed && (accepting ==> old(accepting))
    {
      hide OpStep, Runs, After, Apply, Enabled;
      ghost var every: nat := consumer.flushEvery;
      ghost var now := s;
      ghost var more;
      steps := [];
      RunsNothing(s, codec, every);
      if thread.Consuming? {
        ghost var step;
        var ok;
        ok, step := ConsumeItem(codec, now);
        RunsMore(s, steps, step, codec, every);
        steps, now := steps + [step], Apply(now, step, codec, every);
      }
      if Stopping(thread) {
        more := StopConsuming(codec, now);
        RunsJoin(s, steps, more, codec, every);
        steps := steps + more;
        return;
      }
      if thread.Counting? {
        CountItem(codec, now);
        RunsMore(s, steps, CountConsumed, codec, every);
        steps, now := steps + [CountConsumed], Apply(now, CountConsumed, codec, every);
      }
      if thread.Polling? {
        more := ConsumeLoop(codec, now);
        RunsJoin(s, steps, more, codec, every);
        steps := steps + more;
      }
    }

    /** Shutting down, wherever the consumer thread is by then: no more events, no more waiting, and
        the thread is joined. */
    method Shutdown(codec: Codec, ghost s: Sys) returns (ghost steps: seq<Step>)
      requires Matches(s) && s.shutdown.Running?
      modifies this, queue, consumer, consumer.output
      ensures Runs(s, steps, codec, consumer.flushEvery)
      ensures var s' := After(s, steps, codec, consumer.flushEvery);
        Matches(s') && s'.consumer.Done? && s'.shutdown.Joined? && s'.streams == s.streams
      ensures !accepting && queue.closed
    {
      hide OpStep, Runs, After;
      ghost var every: nat := consumer.flushEvery;
      accepting := false;
      queue.Close();
      thread := Notified(thread);
      ClosingSteps(s, codec, every);
      steps := [ShutdownRefuses, ShutdownCloses, ShutdownAnnounces];
      ghost var now := After(s, steps, codec, every);
      ghost var more := FinishThread(codec, now);
      RunsJoin(s, steps, more, codec, every);
      steps, now := steps + more, After(now, more, codec, every);
      RunsMore(s, steps, Join, codec, every);
      steps := steps + [Join];
    }
  }

  predicate Stopping(pc: ConsumerPc) {
    pc.Failing? || pc.Refusing? || pc.Closing? || pc.Announcing?
  }

  /** The steps that are left from there to the end. */
  function StoppingSteps(pc: ConsumerPc): seq<Step> {
    match pc
    case Failing => [CountFailure, ConsumerRefuses, ConsumerCloses, ConsumerAnnounces]
    case Refusing => [ConsumerRefuses, ConsumerCloses, ConsumerAnnounces]
    case Closing => [ConsumerCloses, ConsumerAnnounces]
    case Announcing => [ConsumerAnnounces]
    case _ => []
  }

  lemma RunsNothing(s: Sys, codec: Codec, every: nat)
    ensures Runs(s, [], codec, every) && After(s, [], codec, every) == s
  {
  }

  lemma RunsOne(s: Sys, step: Step, codec: Codec, every: nat)
    requires Enabled(s, step, codec, every)
    ensures Runs(s, [step], codec, every) && After(s, [step], codec, every) == Apply(s, step, codec, every)
  {
    hide Enabled, Apply;
    RunsNothing(s, codec, every);
    RunsMore(s, [], step, codec, every);
    assert [] + [step] == [step];
  }

  lemma RunsTwo(s: Sys, a: Step, b: Step, codec: Codec, every: nat)
    requires Enabled(s, a, codec, every)
    requires Enabled(Apply(s, a, codec, every), b, codec, every)
    ensures Runs(s, [a, b], codec, every)
    ensures After(s, [a, b], codec, every) == Apply(Apply(s, a, codec, every), b, codec, every)
  {
    hide Enabled, Apply, Runs, After;
    RunsOne(s, a, codec, every);
    RunsMore(s, [a], b, codec, every);
    assert [a] + [b] == [a, b];
  }

  lemma RunsFirst(s: Sys, step: Step, more: seq<Step>, codec: Codec, every: nat)
    requires Enabled(s, step, codec, every)
    requires Runs(Apply(s, step, codec, every), more, codec, every)
    ensures Runs(s, [step] + more, codec, every)
    ensures After(s, [step] + more, codec, every) == After(Apply(s, step, codec, every), more, codec, every)
  {
    hide Enabled, Apply, Runs, After;
    RunsOne(s, step, codec, every);
    RunsJoin(s, [step], more, codec, every);
  }

  lemma StoppingRuns(s: Sys, codec: Codec, every: nat)
    requires Stopping(s.consumer)
    ensures Runs(s, StoppingSteps(s.consumer), codec, every)
    ensures After(s, StoppingSteps(s.consumer), codec, every) == Stopped(s)
    decreases Rank(s.consumer)
  {
    hide OpStep, Runs, After;
    var steps := StoppingSteps(s.consumer);
    assert steps == [steps[0]] + steps[1..];
    var next := Apply(s, steps[0], codec, every);
    if s.consumer.Announcing? {
      RunsNothing(next, codec, every);
    } else {
      StoppingRuns(next, codec, every);
    }
    RunsFirst(s, steps[0], steps[1..], codec, every);
  }

  /** The state at the end, whichever of the steps are left. */
  function Stopped(s: Sys): Sys {
    s.(failures := s.failures + (if s.consumer.Failing? then 1 else 0),
       accepting := s.accepting && !(s.consumer.Failing? || s.consumer.Refusing?),
       queue := if s.consumer.Announcing? then s.queue else AfterClose(s.queue),
       consumer := Done)
  }

  lemma ClosingSteps(s: Sys, codec: Codec, every: nat)
    requires s.shutdown.Running?
    ensures var steps := [ShutdownRefuses, ShutdownCloses, ShutdownAnnounces];
      && Runs(s, steps, codec, every)
      && After(s, steps, codec, every)
         == s.(accepting := false, queue := AfterClose(s.queue), shutdown := Joining, consumer := Notified(s.consumer))
  {
    hide OpStep, Runs, After;
    RunsTwo(s, ShutdownRefuses, ShutdownCloses, codec, every);
    RunsMore(s, [ShutdownRefuses, ShutdownCloses], ShutdownAnnounces, codec, every);
    assert [ShutdownRefuses, ShutdownCloses] + [ShutdownAnnounces]
        == [ShutdownRefuses, ShutdownCloses, ShutdownAnnounces];
  }

  // The order in which the program closes down: the sink first, then the log.

  method CloseDown(sink: QueuedTelemetrySink, codec: Codec, ghost s: Sys)
      returns (flushed: bool, ghost steps: seq<Step>)
    requires sink.Matches(s) && s.shutdown.Running?
    modifies sink, sink.queue, sink.consumer, sink.consumer.output
    ensures Runs(s, steps, codec, sink.consumer.flushEvery)
    ensures var s' := After(s, steps, codec, sink.consumer.flushEvery);
      sink.Matches(s') && s'.shutdown == Flushed(flushed) && s'.streams == s.streams
    ensures flushed ==> sink.consumer.output.flushed == |sink.consumer.output.taken|
  {
    hide OpStep, Runs, After;
    steps := sink.Shutdown(codec, s);
    ghost var every: nat := sink.consumer.flushEvery;
    ghost var now := After(s, steps, codec, every);
    flushed := sink.consumer.Flush();
    ghost var step := FlushLog(sink.consumer.State(), flushed);
    RunsMore(s, steps, step, codec, every);
    steps := steps + [step];
  }

  // Streams.

  /** One call of the reactor with nothing in between: read, check, push and notify. */
  ghost function AfterCall(s: Sys, i: nat, event: Event, arrival: I64): Sys
    requires i < |s.streams| && s.streams[i].pc.Reading?
  {
    var st := AfterRead(s.streams[i], event, arrival);
    if st.pc.Finished? then s.(streams := s.streams[i := st])
    else if !s.accepting then s.(streams := s.streams[i := AfterLoad(st, false)])
    else
      var result, item := PushResultOf(s.queue), Item(i, st.pc.item);
      var pushed := AfterPushed(AfterLoad(st, true), result);
      s.(streams := s.streams[i := if result == Accepted then pushed.(pc := Reading) else pushed],
         queue := AfterPush(s.queue, item),
         accepted := if result == Accepted then s.accepted + [item] else s.accepted,
         consumer := if result == Accepted then Notified(s.consumer) else s.consumer)
  }

  lemma CallRuns(s: Sys, i: nat, event: Event, arrival: I64, codec: Codec, every: nat) returns (steps: seq<Step>)
    requires i < |s.streams| && s.streams[i].pc.Reading?
    ensures Runs(s, steps, codec, every) && After(s, steps, codec, every) == AfterCall(s, i, event, arrival)
    ensures forall k :: 0 <= k < |steps| ==> StepOf(steps[k], i)
  {
    hide OpStep, Runs, After, AfterAccept, Refusal, AfterPush;
    RunsOne(s, Step.Read(i, event, arrival), codec, every);
    steps := [Step.Read(i, event, arrival)];
    var s1 := Apply(s, Step.Read(i, event, arrival), codec, every);
    if !s1.streams[i].pc.Finished? {
      RunsMore(s, steps, LoadFlag(i), codec, every);
      steps := steps + [LoadFlag(i)];
      var s2 := Apply(s1, LoadFlag(i), codec, every);
      if !s2.streams[i].pc.Finished? {
        RunsMore(s, steps, Push(i), codec, every);
        steps := steps + [Push(i)];
        var s3 := Apply(s2, Push(i), codec, every);
        if s3.streams[i].pc.Notifying? {
          RunsMore(s, steps, NotifyOne(i), codec, every);
          steps := steps + [NotifyOne(i)];
        }
      }
    }
  }

  /** A step taken by stream `i`. */
  predicate StepOf(step: Step, i: nat) {
    match step
    case Read(j, _, _) => i == j
    case EndOfStream(j) => i == j
    case LoadFlag(j) => i == j
    case Push(j) => i == j
    case NotifyOne(j) => i == j
    case _ => false
  }

  /** The server side of one stream. */
  class StreamReactor {
    const sink: QueuedTelemetrySink
    const validator: StreamValidator
    const stream: nat
    var finish: Option<Finish>

    constructor (sink: QueuedTelemetrySink, validator: StreamValidator, stream: nat)
      ensures this.sink == sink && this.validator == validator && this.stream == stream && finish == None
    {
      this.sink, this.validator, this.stream := sink, validator, stream;
      finish := None;
    }

    ghost predicate Matches(s: Sys)
      reads this, validator, sink, sink.queue, sink.consumer, sink.consumer.output
    {
      && sink.Matches(s)
      && stream < |s.streams|
      && s.streams[stream].validator == validator.State()
      && match finish
         case None => s.streams[stream].pc.Reading?
         case Some(f) => s.streams[stream].pc == Finished(f)
    }

    /** The client has sent an event, or has no more to send. */
    method OnReadDone(read: Option<Event>, arrival: I64, ghost s: Sys, ghost codec: Codec)
        returns (ghost steps: seq<Step>)
      requires Matches(s) && finish.None?
      modifies this, validator, sink.queue, sink`thread
      ensures Runs(s, steps, codec, sink.consumer.flushEvery)
      ensures Matches(After(s, steps, codec, sink.consumer.flushEvery))
      ensures forall k :: 0 <= k < |steps| ==> StepOf(steps[k], stream)
      ensures read.None? ==> finish == Some(FinishedOk(SummaryOf(validator.State())))
      ensures read.Some? && finish.None? ==>
        sink.queue.items == old(sink.queue.items) + [Item(stream, CollectedEvent(read.value, arrival))]
      ensures finish.Some? && finish.value.ResourceExhausted? ==>
        !old(sink.queue.closed) && |old(sink.queue.items)| == sink.queue.capacity
      ensures finish.Some? && finish.value.Unavailable? ==> !sink.accepting || old(sink.queue.closed)
      ensures finish.Some? && !finish.value.FinishedOk? ==> sink.queue.items == old(sink.queue.items)
    {
      hide OpStep, Runs, After, AfterAccept, Refusal, AfterPush;
      ghost var every: nat := sink.consumer.flushEvery;
      if read.None? {
        var summary := validator.PopulateSummary();
        finish := Some(FinishedOk(summary));
        RunsOne(s, EndOfStream(stream), codec, every);
        return [EndOfStream(stream)];
      }
      var event := read.value;
      steps := CallRuns(s, stream, event, arrival, codec, every);
      var error := validator.Accept(event);
      if error.Some? {
        finish := Some(InvalidArgument(error.value));
        return;
      }
      var result := sink.TryAccept(Item(stream, CollectedEvent(event, arrival)));
      match result
      case SinkAccepted =>
      case Overloaded => finish := Some(ResourceExhausted);
      case SinkUnavailable => finish := Some(Unavailable);
    }
  }
}
