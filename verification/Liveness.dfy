/** Infinite runs of the pipeline. The scheduler may let any thread wait, but not for ever: a step
    of the consumer or of the closing down, or a notification that is owed, does not stay enabled
    without being taken. Nothing is asked of the clients, nor of `consume`, which may not return. */
module Liveness {
  import opened Telemetry
  import opened LogWriting
  import opened Pipeline

  /** The states of a run, and the step taken at each moment, if any. */
  datatype Run = Run(state: nat -> Sys, move: nat -> Option<Step>)

  ghost predicate MovesAt(r: Run, i: nat, codec: Codec, every: nat) {
    match r.move(i)
    case None => r.state(i + 1) == r.state(i)
    case Some(step) =>
      && Enabled(r.state(i), step, codec, every)
      && r.state(i + 1) == Apply(r.state(i), step, codec, every)
  }

  ghost predicate Behaves(r: Run, codec: Codec, every: nat) {
    forall i: nat :: MovesAt(r, i, codec, every)
  }

  /** The steps that must not be put off for ever. */
  predicate Urgent(step: Step) {
    || (ConsumerStep(step) && !step.Consume?)
    || step.NotifyOne?
    || step.ShutdownCloses? || step.ShutdownAnnounces? || step.Join?
  }

  ghost predicate TakenOrNot(r: Run, step: Step, j: nat, codec: Codec, every: nat) {
    !Enabled(r.state(j), step, codec, every) || r.move(j) == Some(step)
  }

  ghost predicate FairFrom(r: Run, step: Step, i: nat, codec: Codec, every: nat) {
    exists j: nat :: i <= j && TakenOrNot(r, step, j, codec, every)
  }

  ghost predicate FairTo(r: Run, step: Step, codec: Codec, every: nat) {
    forall i: nat :: FairFrom(r, step, i, codec, every)
  }

  ghost predicate Fair(r: Run, codec: Codec, every: nat) {
    forall step: Step :: Urgent(step) ==> FairTo(r, step, codec, every)
  }

  // Nothing takes the consumer further from its end.

  /** Behind a closed queue from here on. */
  ghost predicate Closing(r: Run, i: nat, codec: Codec, every: nat) {
    Inv(r.state(i), codec, every) && r.state(i).queue.closed
  }

  lemma NextMoment(r: Run, i: nat, codec: Codec, every: nat)
    requires Behaves(r, codec, every) && Closing(r, i, codec, every)
    ensures Closing(r, i + 1, codec, every)
    ensures Distance(r.state(i + 1)) <= Distance(r.state(i))
    ensures r.state(i).consumer.Consuming? && !r.state(i + 1).consumer.Consuming? ==>
      Distance(r.state(i + 1)) < Distance(r.state(i))
    ensures r.state(i).consumer.Done? ==> r.state(i + 1).consumer.Done?
  {
    hide Inv, Enabled, Apply, Distance;
    assert MovesAt(r, i, codec, every);
    match r.move(i)
    case None =>
    case Some(step) =>
      StepKeepsInv(r.state(i), step, codec, every);
      DistanceShrinks(r.state(i), step, codec, every);
      LeavesConsuming(r.state(i), step, codec, every);
  }

  lemma LeavesConsuming(s: Sys, step: Step, codec: Codec, every: nat)
    requires Enabled(s, step, codec, every)
    ensures s.consumer.Consuming? && !Apply(s, step, codec, every).consumer.Consuming? ==> ConsumerStep(step)
    ensures s.consumer.Done? ==> Apply(s, step, codec, every).consumer.Done?
  {
    hide OpStep;
  }

  lemma {:induction false} LaterMoment(r: Run, i: nat, j: nat, codec: Codec, every: nat)
    requires Behaves(r, codec, every) && Closing(r, i, codec, every)
    requires i <= j
    ensures Closing(r, j, codec, every)
    ensures Distance(r.state(j)) <= Distance(r.state(i))
    ensures r.state(i).consumer.Consuming? && !r.state(j).consumer.Consuming? ==>
      Distance(r.state(j)) < Distance(r.state(i))
    ensures r.state(i).consumer.Done? ==> r.state(j).consumer.Done?
    decreases j - i
  {
    hide Behaves, Closing, Distance;
    if i == j {
    } else {
      LaterMoment(r, i, j - 1, codec, every);
      NextMoment(r, j - 1, codec, every);
    }
  }

  // Help arrives.

  /** A step that is enabled and takes the consumer nearer to its end. */
  ghost predicate Helps(s: Sys, step: Step, codec: Codec, every: nat) {
    Enabled(s, step, codec, every) && Distance(Apply(s, step, codec, every)) < Distance(s)
  }

  /** What a step of another thread leaves of the consumer behind a closed queue. */
  lemma OthersLeave(s: Sys, other: Step, codec: Codec, every: nat)
    requires s.queue.closed && Enabled(s, other, codec, every) && !ConsumerStep(other)
    ensures var s' := Apply(s, other, codec, every);
      && s'.queue.items == s.queue.items && s'.queue.closed
      && (s'.consumer == s.consumer || (s.consumer.Parked? && s'.consumer.Polling?))
  {
    hide OpStep;
  }

  /** What it leaves of the threads that owe a notification. */
  lemma OthersKeepOwing(s: Sys, step: Step, other: Step, codec: Codec, every: nat)
    requires Enabled(s, other, codec, every) && other != step
    requires step.NotifyOne? || step.ShutdownAnnounces?
    requires Enabled(s, step, codec, every)
    ensures Enabled(Apply(s, other, codec, every), step, codec, every)
  {
    hide OpStep;
  }

  lemma HelpWhileParked(s: Sys, step: Step, codec: Codec, every: nat)
    requires Urgent(step) && Helps(s, step, codec, every)
    ensures s.consumer.Parked? ==> step.NotifyOne? || step.ShutdownAnnounces?
    ensures !s.consumer.Parked? ==> ConsumerStep(step) && !step.Consume?
  {
    hide OpStep;
  }

  /** Whether a step of the consumer's own is enabled, and helps, is up to the consumer and its queue. */
  lemma OwnStepsAgree(s: Sys, t: Sys, step: Step, codec: Codec, every: nat)
    requires ConsumerStep(step) && !step.Consume?
    requires s.consumer == t.consumer && s.queue.items == t.queue.items && s.queue.closed && t.queue.closed
    requires Helps(s, step, codec, every)
    ensures Helps(t, step, codec, every)
  {
    hide OpStep;
  }

  lemma NotificationHelps(s: Sys, step: Step, codec: Codec, every: nat)
    requires s.consumer.Parked? && (step.NotifyOne? || step.ShutdownAnnounces?)
    requires Enabled(s, step, codec, every)
    ensures Helps(s, step, codec, every)
  {
    hide OpStep;
  }

  lemma WokenIsNearer(s: Sys, t: Sys)
    requires s.consumer.Parked? && t.consumer.Polling? && s.queue.items == t.queue.items
    ensures Distance(t) < Distance(s)
  {
  }

  /** Another step either takes the consumer nearer too, or leaves that one enabled and helpful. */
  lemma HelpPersists(s: Sys, step: Step, other: Step, codec: Codec, every: nat)
    requires s.queue.closed && Urgent(step) && Helps(s, step, codec, every)
    requires Enabled(s, other, codec, every) && other != step
    ensures var s' := Apply(s, other, codec, every);
      Distance(s') < Distance(s) || Helps(s', step, codec, every)
  {
    hide Apply, Enabled, Distance;
    var s' := Apply(s, other, codec, every);
    DistanceShrinks(s, other, codec, every);
    HelpWhileParked(s, step, codec, every);
    if !ConsumerStep(other) {
      OthersLeave(s, other, codec, every);
      if s.consumer != s'.consumer {
        WokenIsNearer(s, s');
      } else if s.consumer.Parked? {
        OthersKeepOwing(s, step, other, codec, every);
        NotificationHelps(s', step, codec, every);
      } else {
        OwnStepsAgree(s, s', step, codec, every);
      }
    }
  }

  lemma {:induction false} HelpOrProgress(r: Run, i: nat, j: nat, step: Step, codec: Codec, every: nat) returns (k: nat)
    requires Behaves(r, codec, every) && Closing(r, i, codec, every)
    requires Urgent(step) && Helps(r.state(i), step, codec, every)
    requires i <= j
    ensures i <= k <= j && Distance(r.state(k)) <= Distance(r.state(i))
    ensures Distance(r.state(k)) < Distance(r.state(i)) || (k == j && Helps(r.state(j), step, codec, every))
    ensures k < j ==> r.state(k) != r.state(i) && Distance(r.state(k)) < Distance(r.state(i))
    decreases j - i
  {
    hide Behaves, Closing, Distance, Helps, Urgent;
    if i == j {
      k := j;
    } else {
      k := HelpOrProgress(r, i, j - 1, step, codec, every);
      if Distance(r.state(k)) == Distance(r.state(i)) {
        LaterMoment(r, i, j - 1, codec, every);
        OneMoreMoment(r, j - 1, step, codec, every);
        NextMoment(r, j - 1, codec, every);
        k := j;
      }
    }
  }

  lemma OneMoreMoment(r: Run, j: nat, step: Step, codec: Codec, every: nat)
    requires Behaves(r, codec, every) && Closing(r, j, codec, every)
    requires Urgent(step) && Helps(r.state(j), step, codec, every)
    ensures Distance(r.state(j + 1)) < Distance(r.state(j)) || Helps(r.state(j + 1), step, codec, every)
  {
    hide Inv, Enabled, Apply, Distance, Urgent;
    assert MovesAt(r, j, codec, every);
    match r.move(j)
    case None =>
    case Some(other) =>
      if other != step {
        HelpPersists(r.state(j), step, other, codec, every);
      }
  }

  /** A helpful step is taken in the end, or another one brings the consumer nearer before. */
  lemma Progress(r: Run, i: nat, step: Step, codec: Codec, every: nat) returns (k: nat)
    requires Behaves(r, codec, every) && FairTo(r, step, codec, every) && Closing(r, i, codec, every)
    requires Urgent(step) && Helps(r.state(i), step, codec, every)
    ensures i <= k && Distance(r.state(k)) < Distance(r.state(i))
  {
    hide Apply, Enabled, Distance, Inv, Behaves, Closing, Urgent;
    assert FairFrom(r, step, i, codec, every);
    var j: nat :| i <= j && TakenOrNot(r, step, j, codec, every);
    k := HelpOrProgress(r, i, j, step, codec, every);
    if Distance(r.state(k)) == Distance(r.state(i)) {
      MoveTaken(r, j, codec, every);
      k := j + 1;
    }
  }

  lemma MoveTaken(r: Run, j: nat, codec: Codec, every: nat)
    requires Behaves(r, codec, every) && r.move(j).Some?
    ensures Enabled(r.state(j), r.move(j).value, codec, every)
    ensures r.state(j + 1) == Apply(r.state(j), r.move(j).value, codec, every)
  {
    hide Enabled, Apply;
    assert MovesAt(r, j, codec, every);
  }

  /** In every fair run, behind a closed queue, the consumer comes to its end, unless some call of
      `consume` never returns. */
  lemma {:induction false} ConsumerEnds(r: Run, i: nat, codec: Codec, every: nat) returns (j: nat)
    requires Behaves(r, codec, every) && Fair(r, codec, every)
    requires Inv(r.state(i), codec, every) && r.state(i).queue.closed
    ensures i <= j
    ensures r.state(j).consumer.Done? || forall k: nat :: j <= k ==> r.state(k).consumer.Consuming?
    decreases Distance(r.state(i))
  {
    hide Behaves, Distance, Enabled, Apply, Inv;
    if r.state(i).consumer.Done? {
      j := i;
    } else if r.state(i).consumer.Consuming? {
      if forall k: nat :: i <= k ==> r.state(k).consumer.Consuming? {
        j := i;
      } else {
        var k: nat :| i <= k && !r.state(k).consumer.Consuming?;
        LaterMoment(r, i, k, codec, every);
        j := ConsumerEnds(r, k, codec, every);
      }
    } else {
      var step := ConsumerNotStuck(r.state(i), codec, every);
      assert Urgent(step) && FairTo(r, step, codec, every);
      var k := Progress(r, i, step, codec, every);
      LaterMoment(r, i, k, codec, every);
      j := ConsumerEnds(r, k, codec, every);
    }
  }

  // Shutting down returns.

  /** The step that the thread that shuts down is about to take. */
  function NextOfShutdown(s: Sys): Option<Step> {
    match s.shutdown
    case ShutClosing => Some(ShutdownCloses)
    case ShutAnnouncing => Some(ShutdownAnnounces)
    case Joining => if s.consumer.Done? then Some(Join) else None
    case _ => None
  }

  function PhaseAfter(s: Sys): ShutdownPc {
    match s.shutdown
    case ShutClosing => ShutAnnouncing
    case ShutAnnouncing => Joining
    case Joining => Joined
    case other => other
  }

  lemma ShutdownPersists(s: Sys, step: Step, codec: Codec, every: nat)
    requires NextOfShutdown(s).Some? && Enabled(s, step, codec, every)
    ensures Enabled(s, NextOfShutdown(s).value, codec, every) && Urgent(NextOfShutdown(s).value)
    ensures var s' := Apply(s, step, codec, every);
      if step == NextOfShutdown(s).value then s'.shutdown == PhaseAfter(s)
      else s'.shutdown == s.shutdown && NextOfShutdown(s') == NextOfShutdown(s)
  {
    hide OpStep;
  }

  lemma ShutdownReady(s: Sys, codec: Codec, every: nat)
    requires NextOfShutdown(s).Some?
    ensures Enabled(s, NextOfShutdown(s).value, codec, every) && Urgent(NextOfShutdown(s).value)
  {
    hide OpStep;
  }

  lemma {:induction false} ShutdownWaits(r: Run, i: nat, j: nat, codec: Codec, every: nat) returns (k: nat)
    requires Behaves(r, codec, every) && NextOfShutdown(r.state(i)).Some? && i <= j
    ensures i <= k <= j
    ensures r.state(k).shutdown == PhaseAfter(r.state(i))
         || (k == j && r.state(j).shutdown == r.state(i).shutdown
             && NextOfShutdown(r.state(j)) == NextOfShutdown(r.state(i)))
    decreases j - i
  {
    hide Enabled, Apply;
    if i == j {
      k := j;
    } else {
      k := ShutdownWaits(r, i, j - 1, codec, every);
      if r.state(k).shutdown != PhaseAfter(r.state(i)) {
        assert MovesAt(r, j - 1, codec, every);
        if r.move(j - 1).Some? {
          ShutdownPersists(r.state(j - 1), r.move(j - 1).value, codec, every);
        }
        k := j;
      }
    }
  }

  lemma ShutdownAdvances(r: Run, i: nat, codec: Codec, every: nat) returns (k: nat)
    requires Behaves(r, codec, every) && Fair(r, codec, every) && NextOfShutdown(r.state(i)).Some?
    ensures i <= k && r.state(k).shutdown == PhaseAfter(r.state(i))
  {
    var step := NextOfShutdown(r.state(i)).value;
    ShutdownReady(r.state(i), codec, every);
    assert FairTo(r, step, codec, every);
    assert FairFrom(r, step, i, codec, every);
    var j: nat :| i <= j && TakenOrNot(r, step, j, codec, every);
    k := ShutdownWaits(r, i, j, codec, every);
    if r.state(k).shutdown != PhaseAfter(r.state(i)) {
      ShutdownReady(r.state(j), codec, every);
      assert MovesAt(r, j, codec, every);
      hide Enabled, Apply;
      ShutdownPersists(r.state(j), step, codec, every);
      k := j + 1;
    }
  }

  lemma {:induction false} InvAt(r: Run, i: nat, j: nat, codec: Codec, every: nat)
    requires Behaves(r, codec, every) && Inv(r.state(i), codec, every) && i <= j
    ensures Inv(r.state(j), codec, every)
    decreases j - i
  {
    hide Inv, Enabled, Apply;
    if i == j {
    } else {
      InvAt(r, i, j - 1, codec, every);
      assert MovesAt(r, j - 1, codec, every);
      if r.move(j - 1).Some? {
        StepKeepsInv(r.state(j - 1), r.move(j - 1).value, codec, every);
      }
    }
  }

  predicate BeyondAnnouncing(s: Sys) {
    s.shutdown.Joining? || s.shutdown.Joined? || s.shutdown.Flushed?
  }

  lemma StaysBeyond(s: Sys, step: Step, codec: Codec, every: nat)
    requires Enabled(s, step, codec, every) && BeyondAnnouncing(s)
    ensures BeyondAnnouncing(Apply(s, step, codec, every))
  {
    hide OpStep;
  }

  lemma {:induction false} NeverUnjoined(r: Run, i: nat, j: nat, codec: Codec, every: nat)
    requires Behaves(r, codec, every) && i <= j
    requires BeyondAnnouncing(r.state(i))
    ensures BeyondAnnouncing(r.state(j))
    decreases j - i
  {
    hide Enabled, Apply, BeyondAnnouncing;
    if i == j {
    } else {
      NeverUnjoined(r, i, j - 1, codec, every);
      assert MovesAt(r, j - 1, codec, every);
      if r.move(j - 1).Some? {
        StaysBeyond(r.state(j - 1), r.move(j - 1).value, codec, every);
      }
    }
  }

  lemma ClosedWhenJoining(s: Sys, codec: Codec, every: nat)
    requires Inv(s, codec, every) && s.shutdown.Joining?
    ensures s.queue.closed
  {
    hide QueueInv, CountInv, WakeInv, StreamsInv, LogInv;
  }

  /** In every fair run in which shutting down has begun it comes to its end: the join returns,
      unless some call of `consume` never does. */
  lemma ShutdownReturns(r: Run, i: nat, codec: Codec, every: nat) returns (j: nat)
    requires Behaves(r, codec, every) && Fair(r, codec, every)
    requires Inv(r.state(i), codec, every) && r.state(i).shutdown != Running
    ensures i <= j
    ensures r.state(j).shutdown.Joined? || r.state(j).shutdown.Flushed?
         || forall k: nat :: j <= k ==> r.state(k).consumer.Consuming?
  {
    hide Behaves, Fair, Inv;
    j := i;
    if r.state(j).shutdown.ShutClosing? {
      j := ShutdownAdvances(r, j, codec, every);
    }
    if r.state(j).shutdown.ShutAnnouncing? {
      j := ShutdownAdvances(r, j, codec, every);
    }
    if r.state(j).shutdown.Joining? {
      InvAt(r, i, j, codec, every);
      ClosedWhenJoining(r.state(j), codec, every);
      var k := ConsumerEnds(r, j, codec, every);
      NeverUnjoined(r, j, k, codec, every);
      j := k;
      if r.state(j).shutdown.Joining? && r.state(j).consumer.Done? {
        j := ShutdownAdvances(r, j, codec, every);
      }
    }
  }
}
