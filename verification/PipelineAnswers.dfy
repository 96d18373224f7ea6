/** What the clients and the statistics are told of a run: why a stream ends, and what the queue counts. */
module PipelineAnswers {
  import opened Telemetry
  import opened BoundedQueue
  import opened Validation
  import opened LogWriting
  import opened Pipeline

  /** Ingestion has been asked to end, or `consume` has failed. */
  predicate Ending(s: Sys) {
    !s.shutdown.Running? || s.failures == 1
  }

  // One push.

  /** What a push is answered, said of the queue that it meets. */
  lemma PushAnswered(s: Sys, i: nat, codec: Codec, every: nat)
    requires Enabled(s, Push(i), codec, every)
    ensures var s', item := Apply(s, Push(i), codec, every), Item(i, s.streams[i].pc.item);
      if s.queue.closed || |s.queue.items| == s.queue.capacity then
        && s'.streams[i].pc == Finished(if s.queue.closed then Unavailable else ResourceExhausted)
        && s'.accepted == s.accepted
        && s'.queue == s.queue.(rejectedItems := s.queue.rejectedItems + 1)
      else
        && s'.streams[i].pc.Notifying?
        && s'.accepted == s.accepted + [item]
        && s'.queue.items == s.queue.items + [item]
        && s'.queue.rejectedItems == s.queue.rejectedItems
  {
  }

  // Why streams end.

  /** The step that ends stream `i` so, in the state that it meets. */
  predicate EndsStream(s: Sys, step: Step, i: nat, finish: Finish)
    requires i < |s.streams|
  {
    match finish
    case FinishedOk(summary) => step == EndOfStream(i) && summary == SummaryOf(s.streams[i].validator)
    case InvalidArgument(error) => step.Read? && step.i == i && s.streams[i].pc.Reading?
        && Defect(s.streams[i].taken, Latest(s.streams[i].taken), step.event, error)
    case ResourceExhausted => step == Push(i) && !s.queue.closed && |s.queue.items| == s.queue.capacity
    case Unavailable => Ending(s) && (step == LoadFlag(i) || (step == Push(i) && s.queue.closed))
  }

  /** Events are refused and the queue is closed only if ingestion ends. */
  ghost predicate EndingInv(s: Sys) {
    !s.accepting || s.queue.closed ==> Ending(s)
  }

  lemma StartEnding(capacity: nat, streams: nat, writer: WriterState)
    ensures EndingInv(Start(capacity, streams, writer))
  {
  }

  lemma EndingKept(s: Sys, step: Step, codec: Codec, every: nat)
    requires CountInv(s) && EndingInv(s) && Enabled(s, step, codec, every)
    ensures EndingInv(Apply(s, step, codec, every))
  {
    hide OpStep;
  }

  lemma StepEnds(s: Sys, step: Step, i: nat, codec: Codec, every: nat)
    requires Enabled(s, step, codec, every) && i < |s.streams|
    requires EndingInv(s) && StreamsInv(s)
    requires !s.streams[i].pc.Finished?
    ensures var s' := Apply(s, step, codec, every);
      && i < |s'.streams|
      && (s'.streams[i].pc.Finished? ==> EndsStream(s, step, i, s'.streams[i].pc.finish))
  {
    hide OpStep, Refusal, AfterAccept, Defect, Latest, LatestIncrease, TracksLatest;
    if step.Read? && step.i == i {
      assert StreamInv(s.streams[i]);
      if Refusal(s.streams[i].validator, step.event).Some? {
        RefusalTrue(s.streams[i].validator, s.streams[i].taken, step.event);
      }
    }
  }

  /** In every interleaving, a stream that has ended was ended by a step for which there was this
      reason: its client had no more to send, and was told what was accepted; or it sent an event
      with the defect that it was told; or a push met an open queue filled to its capacity; or
      ingestion was ending. */
  lemma {:induction false} StreamEnded(s: Sys, steps: seq<Step>, i: nat, codec: Codec, every: nat) returns (k: nat)
    requires Inv(s, codec, every) && EndingInv(s) && Runs(s, steps, codec, every)
    requires i < |s.streams| && !s.streams[i].pc.Finished?
    requires i < |After(s, steps, codec, every).streams|
    requires After(s, steps, codec, every).streams[i].pc.Finished?
    ensures k < |steps| && Runs(s, steps[..k], codec, every)
    ensures var met := After(s, steps[..k], codec, every);
      && i < |met.streams|
      && EndsStream(met, steps[k], i, After(s, steps, codec, every).streams[i].pc.finish)
    decreases steps
  {
    hide Inv, Apply, Enabled, EndsStream, EndingInv;
    assert steps != [];
    var s' := Apply(s, steps[0], codec, every);
    PartsOfInv(s, codec, every);
    StepEnds(s, steps[0], i, codec, every);
    if s'.streams[i].pc.Finished? {
      StaysFinished(s', steps[1..], i, codec, every);
      k := 0;
      assert steps[..0] == [];
    } else {
      StepKeepsInv(s, steps[0], codec, every);
      EndingKept(s, steps[0], codec, every);
      k := StreamEnded(s', steps[1..], i, codec, every);
      k := k + 1;
      assert steps[..k][0] == steps[0] && steps[..k][1..] == steps[1..][..k - 1];
    }
  }

  /** So it is for every run of the whole program. */
  lemma EndedFromStart(capacity: nat, streams: nat, writer: WriterState, steps: seq<Step>, i: nat, codec: Codec,
          every: nat) returns (k: nat)
    requires capacity > 0 && i < streams
    requires Runs(Start(capacity, streams, writer), steps, codec, every)
    requires var end := After(Start(capacity, streams, writer), steps, codec, every);
      i < |end.streams| && end.streams[i].pc.Finished?
    ensures k < |steps| && Runs(Start(capacity, streams, writer), steps[..k], codec, every)
    ensures var start := Start(capacity, streams, writer);
      var met := After(start, steps[..k], codec, every);
      && i < |met.streams|
      && EndsStream(met, steps[k], i, After(start, steps, codec, every).streams[i].pc.finish)
  {
    hide Inv, Runs, After, EndsStream, EndingInv;
    StartInv(capacity, streams, writer, codec, every);
    StartEnding(capacity, streams, writer);
    k := StreamEnded(Start(capacity, streams, writer), steps, i, codec, every);
  }

  lemma PartsOfInv(s: Sys, codec: Codec, every: nat)
    requires Inv(s, codec, every)
    ensures CountInv(s) && StreamsInv(s) && QueueInv(s)
  {
    hide CountInv, StreamsInv, QueueInv, CloseInv, WakeInv, LogInv;
  }

  lemma {:induction false} StaysFinished(s: Sys, steps: seq<Step>, i: nat, codec: Codec, every: nat)
    requires Runs(s, steps, codec, every)
    requires i < |s.streams| && s.streams[i].pc.Finished?
    ensures var end := After(s, steps, codec, every); i < |end.streams| && end.streams[i].pc == s.streams[i].pc
    decreases steps
  {
    hide Apply, Enabled;
    if steps == [] {
    } else {
      FinishedStays(s, steps[0], i, codec, every);
      StaysFinished(Apply(s, steps[0], codec, every), steps[1..], i, codec, every);
    }
  }

  lemma FinishedStays(s: Sys, step: Step, i: nat, codec: Codec, every: nat)
    requires Enabled(s, step, codec, every)
    requires i < |s.streams| && s.streams[i].pc.Finished?
    ensures var s' := Apply(s, step, codec, every); i < |s'.streams| && s'.streams[i].pc == s.streams[i].pc
  {
    hide OpStep;
  }

  // What the queue counts.

  predicate Refused(s: Sys, step: Step) {
    step.Push? && (s.queue.closed || |s.queue.items| == s.queue.capacity)
  }

  /** How many pushes of a run were refused. */
  ghost function Refusals(s: Sys, steps: seq<Step>, codec: Codec, every: nat): nat
    requires Runs(s, steps, codec, every)
    decreases steps
  {
    if steps == [] then 0
    else
      (if Refused(s, steps[0]) then 1 else 0)
      + Refusals(Apply(s, steps[0], codec, every), steps[1..], codec, every)
  }

  /** The greatest number of items queued at any moment of a run. */
  ghost function Peak(s: Sys, steps: seq<Step>, codec: Codec, every: nat): nat
    requires Runs(s, steps, codec, every)
    decreases steps
  {
    if steps == [] then |s.queue.items|
    else Max(|s.queue.items|, Peak(Apply(s, steps[0], codec, every), steps[1..], codec, every))
  }

  lemma StepCounts(s: Sys, step: Step, codec: Codec, every: nat)
    requires QueueInv(s) && Enabled(s, step, codec, every)
    ensures var s' := Apply(s, step, codec, every);
      && s'.queue.rejectedItems == s.queue.rejectedItems + (if Refused(s, step) then 1 else 0)
      && s'.queue.highWatermark == Max(s.queue.highWatermark, |s'.queue.items|)
  {
    hide OpStep;
  }

  /** In every run the queue counts exactly the pushes that it refused, and its watermark is the
      greatest number of items that were queued at any moment. */
  lemma {:induction false} QueueCounts(s: Sys, steps: seq<Step>, codec: Codec, every: nat)
    requires Inv(s, codec, every) && Runs(s, steps, codec, every)
    ensures var end := After(s, steps, codec, every);
      && end.queue.rejectedItems == s.queue.rejectedItems + Refusals(s, steps, codec, every)
      && end.queue.highWatermark == Max(s.queue.highWatermark, Peak(s, steps, codec, every))
    decreases steps
  {
    hide Inv, Apply, Enabled, Refused;
    PartsOfInv(s, codec, every);
    if steps == [] {
    } else {
      StepCounts(s, steps[0], codec, every);
      StepKeepsInv(s, steps[0], codec, every);
      QueueCounts(Apply(s, steps[0], codec, every), steps[1..], codec, every);
    }
  }
}
