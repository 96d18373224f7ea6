/** From the streams to the log and back: what a reader finds of what the streams sent. */
module EndToEnd {
  import opened Bytes
  import opened Telemetry
  import opened Validation
  import opened LogFormat
  import opened RecordCodec
  import opened LogTheorems
  import opened LogContents
  import opened LogWriting
  import opened Pipeline
  import opened Analyzer

  function MessageSize(item: Item, codec: Codec): nat {
    match codec.serialize(item.collected.event)
    case None => 0
    case Some(message) => |message|
  }

  /** The space that items take in a log: a header each, and the messages. */
  function SpaceOf(items: seq<Item>, codec: Codec): nat {
    if items == [] then 0 else RECORD_HEADER_SIZE + MessageSize(items[0], codec) + SpaceOf(items[1..], codec)
  }

  /** What the reader returned is what the queue accepted first, in that order: each event with its
      arrival time, numbered in turn, behind the file header and the records before it. */
  ghost predicate ReadsBack(records: seq<LogRecord>, accepted: seq<Item>, codec: Codec) {
    && |records| <= |accepted|
    && forall k :: 0 <= k < |records| ==> ReadBackAs(records[k], accepted, k, codec)
  }

  predicate ReadBackAs(r: LogRecord, accepted: seq<Item>, k: nat, codec: Codec)
    requires k < |accepted|
  {
    && CollectedEvent(r.event, r.arrival) == accepted[k].collected
    && r.recordIndex == k
    && r.fileOffset == FILE_HEADER_SIZE + SpaceOf(accepted[..k], codec)
  }

  /** The item's event is one the writer does not refuse. */
  predicate Encodable(item: Item, codec: Codec) {
    Encoded(item.collected.event, item.collected.arrival, codec).Some?
  }

  /** The records of items that can all be stored but possibly the last. */
  ghost predicate RecordsFor(rs: seq<Record>, items: seq<Item>, codec: Codec) {
    && |rs| <= |items|
    && forall k :: 0 <= k < |rs| ==> Some(rs[k]) == Encoded(items[k].collected.event, items[k].collected.arrival, codec)
  }

  lemma {:induction false} RequestsOfAppends(items: seq<Item>, codec: Codec)
    requires forall k :: 0 <= k < |items| - 1 ==> Encodable(items[k], codec)
    ensures RecordsFor(Requests(AppendsOf(items), codec), items, codec)
    ensures (forall k :: 0 <= k < |items| ==> Encodable(items[k], codec)) ==>
        |Requests(AppendsOf(items), codec)| == |items|
    decreases items
  {
    hide Encoded;
    if items == [] {
    } else {
      var n := |items| - 1;
      RequestsOfAppends(items[..n], codec);
      assert AppendsOf(items)[..n] == AppendsOf(items[..n]);
      assert AppendsOf(items)[n] == AppendOf(items[n]);
    }
  }

  lemma RequestsWithFlush(ops: seq<Op>, codec: Codec)
    ensures Requests(ops + [Op.Flush], codec) == Requests(ops, codec)
  {
    assert (ops + [Op.Flush])[..|ops|] == ops;
  }

  lemma OkMeansEncodable(s: WriterState, s': WriterState, item: Item, codec: Codec, every: nat)
    requires OpStep(s, s', AppendOf(item), codec, every, true)
    ensures Encodable(item, codec)
  {
    hide Encoded, AfterRecord, Possible;
  }

  lemma HandledEncodable(s: Sys, k: nat, codec: Codec, every: nat)
    requires LogInv(s, codec, every)
    requires k < |s.handled| && s.log.oks[k]
    ensures Encodable(s.handled[k], codec)
  {
    hide OpStep, Encodable;
    assert s.log.ops[k] == AppendOf(s.handled[k]);
    assert OpStep(s.log.states[k], s.log.states[k + 1], s.log.ops[k], codec, every, s.log.oks[k]);
    OkMeansEncodable(s.log.states[k], s.log.states[k + 1], s.handled[k], codec, every);
  }

  /** The writer's requests are the handled items, in order. */
  lemma RequestsOfLog(s: Sys, codec: Codec, every: nat)
    requires LogInv(s, codec, every)
    ensures RecordsFor(Requests(s.log.ops, codec), s.handled, codec)
    ensures |Requests(s.log.ops, codec)| <= |s.handled|
    ensures !HasFailed(s) ==> |Requests(s.log.ops, codec)| == |s.handled|
  {
    hide OpStep, Encodable;
    forall k | 0 <= k < |s.handled| && s.log.oks[k] ensures Encodable(s.handled[k], codec) {
      HandledEncodable(s, k, codec, every);
    }
    hide AppendsOf, Requests, RecordsFor, WriterRun;
    RequestsOfAppends(s.handled, codec);
    RequestsWithFlush(AppendsOf(s.handled), codec);
    assert AppendsOf(s.handled) + [] == AppendsOf(s.handled);
  }

  lemma {:induction false} SpaceOfRecords(rs: seq<Record>, items: seq<Item>, codec: Codec)
    requires RecordsFor(rs, items, codec) && |rs| == |items|
    ensures SizeOf(rs) == SpaceOf(items, codec)
    decreases rs
  {
    if rs == [] {
    } else {
      assert Some(rs[0]) == Encoded(items[0].collected.event, items[0].collected.arrival, codec);
      hide Encoded;
      SpaceOfRecords(rs[1..], items[1..], codec);
    }
  }

  lemma EventOfItem(r: Record, item: Item, codec: Codec)
    requires RoundTrips(codec)
    requires Some(r) == Encoded(item.collected.event, item.collected.arrival, codec)
    ensures r.arrival == item.collected.arrival && codec.parse(r.payload) == Some(item.collected.event)
  {
  }

  /** Records read back as the events they were made from. */
  lemma FoundOfItems(rs: seq<Record>, items: seq<Item>, codec: Codec)
    requires RoundTrips(codec)
    requires RecordsFor(rs, items, codec)
    requires AllLoadable(rs, codec)
    ensures ReadsBack(LogRecords(FoundOf(FILE_HEADER_SIZE, 0, rs, codec)), items, codec)
  {
    hide FoundOf, Loadable, Encoded, RoundTrips, SizeOf, SpaceOf, LogRecordOf;
    var records := LogRecords(FoundOf(FILE_HEADER_SIZE, 0, rs, codec));
    forall k | 0 <= k < |rs| ensures ReadBackAs(records[k], items, k, codec) {
      FoundReported(rs, k, codec);
      EventOfItem(rs[k], items[k], codec);
      SpaceOfRecords(rs[..k], items[..k], codec);
    }
  }

  lemma {:induction false} HistoryStart(s: Sys, steps: seq<Step>, codec: Codec, every: nat)
    requires s.log.states != [] && Runs(s, steps, codec, every)
    ensures After(s, steps, codec, every).log.states != []
    ensures After(s, steps, codec, every).log.states[0] == s.log.states[0]
    decreases steps
  {
    hide OpStep;
    if steps == [] {
    } else {
      HistoryStart(Apply(s, steps[0], codec, every), steps[1..], codec, every);
    }
  }

  /** A state that some interleaving reaches, from a writer whose file header got through. */
  ghost predicate Reached(s: Sys, created: I64, codec: Codec, every: nat) {
    && Inv(s, codec, every)
    && s.log.states != []
    && Good(s.log.states[0])
    && Follows(s.log.states[0], created, [], [])
  }

  lemma RunsReach(capacity: nat, streams: nat, writer: WriterState, created: I64, steps: seq<Step>, codec: Codec,
          every: nat)
    requires capacity > 0
    requires Good(writer) && Follows(writer, created, [], [])
    requires Runs(Start(capacity, streams, writer), steps, codec, every)
    ensures Reached(After(Start(capacity, streams, writer), steps, codec, every), created, codec, every)
  {
    hide Runs, After, Inv;
    var start := Start(capacity, streams, writer);
    StartInv(capacity, streams, writer, codec, every);
    HistoryStart(start, steps, codec, every);
    RunKeepsInv(start, steps, codec, every);
  }

  /** In every interleaving, at every moment, whatever part of the log a crash leaves behind its
      file header: the events read back are a prefix of the events the queue accepted, in that
      order, and the log reads as complete or truncated, never as corrupt. Nothing consumed is
      missing from an undisturbed file, nor from one that keeps the flushed part, as far as a
      flush was due. */
  lemma CrashedLogIsPrefix(s: Sys, created: I64, codec: Codec, every: nat, cut: nat, limit: nat)
    requires RoundTrips(codec)
    requires Reached(s, created, codec, every)
    requires FILE_HEADER_SIZE <= cut <= |Writer(s).taken|
    requires |s.accepted| <= limit < TWO_64
    ensures var r := ReadBytes(Writer(s).taken[..cut], limit, true, codec);
      && (r.status == Complete || r.status == TruncatedTail)
      && ReadsBack(r.records, s.accepted, codec)
      && (cut == |Writer(s).taken| ==> |r.records| >= s.consumed)
      && (Writer(s).flushed <= cut ==> ReachesFlushes(|r.records|, s.consumed, every))
  {
    hide *;
    LogOfReached(s, created, codec, every);
    RequestsOfLog(s, codec, every);
    AcknowledgedConsumed(s, codec, every);
    var rs, n := CrashedRunReads(s.log.states, s.log.ops, s.log.oks, created, codec, every, cut, limit, true);
    PrefixReadsBack(rs, n, Requests(s.log.ops, codec), s.handled, s.accepted, codec);
    if Writer(s).flushed <= cut {
      ReachesFewer(n, |Acknowledged(s.log.ops, s.log.oks, codec)|, s.consumed, every);
    }
  }

  /** So a crash that keeps the flushed part keeps every consumed event up to the last multiple of
      the flush interval. */
  lemma FlushedSurvive(s: Sys, created: I64, codec: Codec, every: nat, cut: nat, limit: nat, m: nat)
    requires RoundTrips(codec)
    requires Reached(s, created, codec, every)
    requires FILE_HEADER_SIZE <= cut <= |Writer(s).taken| && Writer(s).flushed <= cut
    requires |s.accepted| <= limit < TWO_64
    requires 0 < m <= s.consumed && every > 0 && m % every == 0
    ensures var r := ReadBytes(Writer(s).taken[..cut], limit, true, codec);
      |r.records| >= m && ReadsBack(r.records, s.accepted, codec)
  {
    LogOfReached(s, created, codec, every);
    ConsumedAccepted(s);
    assert FlushDue(Wrap(m), every);
    hide *;
    CrashedLogIsPrefix(s, created, codec, every, cut, limit);
    ReachesAt(|ReadBytes(Writer(s).taken[..cut], limit, true, codec).records|, s.consumed, every, m);
  }

  lemma ReachesAt(n: nat, consumed: nat, every: nat, m: nat)
    requires ReachesFlushes(n, consumed, every)
    requires 0 < m <= consumed && FlushDue(Wrap(m), every)
    ensures m <= n
  {
    hide FlushDue, Wrap;
  }

  lemma ConsumedAccepted(s: Sys)
    requires CountInv(s) && s.handled <= s.accepted
    ensures s.consumed <= |s.accepted|
  {
  }

  lemma ReachesFewer(n: nat, acknowledged: nat, consumed: nat, every: nat)
    requires ReachesFlushes(n, acknowledged, every) && consumed <= acknowledged
    ensures ReachesFlushes(n, consumed, every)
  {
    hide FlushDue, Wrap;
  }

  lemma LogOfReached(s: Sys, created: I64, codec: Codec, every: nat)
    requires Reached(s, created, codec, every)
    ensures LogInv(s, codec, every) && CountInv(s)
    ensures s.handled <= s.accepted
    ensures WriterRun(s.log.states, s.log.ops, s.log.oks, codec, every)
    ensures |s.log.states| == |s.log.ops| + 1 && |s.log.oks| == |s.log.ops|
    ensures Writer(s) == s.log.states[|s.log.ops|]
    ensures Good(s.log.states[0]) && Follows(s.log.states[0], created, [], [])
  {
    hide StreamsInv, WakeInv, CloseInv, OpStep, Follows;
  }

  lemma PrefixReadsBack(rs: seq<Record>, n: nat, requests: seq<Record>, handled: seq<Item>, accepted: seq<Item>,
          codec: Codec)
    requires RoundTrips(codec)
    requires AllLoadable(rs, codec)
    requires n <= |rs| && rs <= requests && handled <= accepted
    requires RecordsFor(requests, handled, codec)
    ensures ReadsBack(LogRecords(FoundOf(FILE_HEADER_SIZE, 0, rs[..n], codec)), accepted, codec)
    ensures |LogRecords(FoundOf(FILE_HEADER_SIZE, 0, rs[..n], codec))| == n
  {
    hide LogRecords, FoundOf, Loadable, Encoded, RoundTrips;
    assert RecordsFor(rs[..n], handled, codec);
    FoundOfItems(rs[..n], handled, codec);
    SameFirst(handled, accepted);
  }

  lemma SameFirst(handled: seq<Item>, accepted: seq<Item>)
    requires handled <= accepted
    ensures forall k :: 0 <= k <= |handled| ==> handled[..k] == accepted[..k]
  {
  }

  lemma AcknowledgedConsumed(s: Sys, codec: Codec, every: nat)
    requires LogInv(s, codec, every) && CountInv(s)
    ensures |Acknowledged(s.log.ops, s.log.oks, codec)| >= s.consumed
  {
    hide OpStep;
    var m := if HasFailed(s) then |s.handled| - 1 else |s.handled|;
    assert forall k :: 0 <= k < m ==> s.log.ops[k] == AppendOf(s.handled[k]);
    AcknowledgedAtLeast(s.log.states, s.log.ops, s.log.oks, codec, every, m);
  }

  lemma {:induction false} AcknowledgedAtLeast(ss: seq<WriterState>, ops: seq<Op>, oks: seq<bool>, codec: Codec,
          every: nat, m: nat)
    requires WriterRun(ss, ops, oks, codec, every)
    requires m <= |ops| && forall k :: 0 <= k < m ==> ops[k].Append? && oks[k]
    ensures |Acknowledged(ops, oks, codec)| >= m
    decreases |ops|
  {
    hide OpStep, Encoded;
    if ops == [] {
    } else {
      var n := |ops| - 1;
      if m == |ops| {
        assert OpStep(ss[n], ss[n + 1], ops[n], codec, every, oks[n]);
        OkMeansEncodable(ss[n], ss[n + 1], Item(0, CollectedEvent(ops[n].event, ops[n].arrival)), codec, every);
        AcknowledgedAtLeast(ss[..n + 1], ops[..n], oks[..n], codec, every, m - 1);
      } else {
        AcknowledgedAtLeast(ss[..n + 1], ops[..n], oks[..n], codec, every, m);
      }
    }
  }

  // A clean shutdown.

  /** The consumer never failed, and the final flush succeeded. */
  predicate CleanlyShutDown(s: Sys) {
    s.shutdown == Flushed(true) && s.failures == 0
  }

  /** After a clean shutdown the writer's stream holds a log of the accepted events, no more and
      no less, in the order in which the queue accepted them, and all of it has been flushed. */
  lemma CleanLog(s: Sys, created: I64, codec: Codec, every: nat) returns (rs: seq<Record>)
    requires RoundTrips(codec)
    requires Reached(s, created, codec, every)
    requires CleanlyShutDown(s)
    ensures AllLoadable(rs, codec)
    ensures RecordsFor(rs, s.accepted, codec) && |rs| == |s.accepted|
    ensures s.consumed == |s.accepted|
    ensures Writer(s).taken == LogBytes(created, rs)
    ensures Writer(s).flushed == |Writer(s).taken|
  {
    assert Inv(s, codec, every) && s.shutdown == Flushed(true);
    hide *;
    LogOfReached(s, created, codec, every);
    RequestsOfLog(s, codec, every);
    AllHandled(s, codec, every);
    FlushedIsGood(s, codec, every);
    rs := Requests(s.log.ops, codec);
    var counted, attempted := WriterRunFollows(s.log.states, s.log.ops, s.log.oks, created, codec, every);
    AllAcknowledged(s.log.states, s.log.ops, s.log.oks, codec, every);
    OnStream(Writer(s), created, counted);
    RequestsLoadable(s.log.ops, codec);
  }

  /** So the log reads as complete, and what is read back are the accepted events. */
  lemma CleanLogIsAccepted(s: Sys, created: I64, codec: Codec, every: nat, limit: nat)
    requires RoundTrips(codec)
    requires Reached(s, created, codec, every)
    requires CleanlyShutDown(s)
    requires |s.accepted| <= limit < TWO_64
    ensures s.consumed == |s.accepted|
    ensures Writer(s).flushed == |Writer(s).taken|
    ensures var r := ReadBytes(Writer(s).taken, limit, true, codec);
      && r.status == Complete
      && |r.records| == |s.accepted|
      && ReadsBack(r.records, s.accepted, codec)
  {
    LogOfReached(s, created, codec, every);
    hide *;
    var rs := CleanLog(s, created, codec, every);
    LogRoundTrips(created, rs, limit, true, codec);
    FoundOfItems(rs, s.accepted, codec);
  }

  lemma AllHandled(s: Sys, codec: Codec, every: nat)
    requires Inv(s, codec, every) && CleanlyShutDown(s)
    ensures s.handled == s.accepted && s.consumed == |s.accepted| && !HasFailed(s)
    ensures LogInv(s, codec, every)
  {
    hide StreamsInv, WakeInv, LogInv;
    assert s.handled + [] + [] == s.handled;
  }

  lemma FlushedIsGood(s: Sys, codec: Codec, every: nat)
    requires LogInv(s, codec, every) && s.shutdown == Flushed(true)
    ensures Good(Writer(s)) && Writer(s).flushed == |Writer(s).taken|
  {
    var n := |s.handled|;
    assert s.log.ops[n] == Op.Flush;
    assert OpStep(s.log.states[n], s.log.states[n + 1], s.log.ops[n], codec, every, s.log.oks[n]);
  }

  /** Each stream's share of that order is what the sink accepted of it, all of one producer; since
      the count was last zero its sequence numbers strictly increase, and a stream that finished OK
      reported exactly the number of these events, and the gaps between them. Below 2^64 events of
      the stream, these are all of them. */
  lemma StreamOrder(s: Sys, codec: Codec, every: nat, i: nat)
    requires Inv(s, codec, every)
    requires i < |s.streams|
    ensures OfStream(s.accepted, i) == s.streams[i].sunk
    ensures var pc, events := s.streams[i].pc, Events(s.streams[i].sunk);
      var latest := Latest(events);
      && OneProducer(events)
      && Increasing(latest)
      && (|events| < TWO_64 ==> latest == events)
      && (pc.Finished? && pc.finish.FinishedOk? ==>
            && pc.finish.summary.acceptedEvents == |latest|
            && (events != [] ==> pc.finish.summary.producerId == events[0].producerId)
            && (latest != [] ==>
                  && pc.finish.summary.firstSequence == latest[0].sequenceNumber
                  && pc.finish.summary.lastSequence == latest[|latest| - 1].sequenceNumber
                  && |latest| + pc.finish.summary.sequenceGaps
                      == pc.finish.summary.lastSequence - pc.finish.summary.firstSequence + 1))
  {
    ThisStream(s, codec, every, i);
    hide *;
    StreamSunk(s.streams[i]);
  }

  lemma {:induction false} OfStreamMembers(items: seq<Item>, k: nat)
    requires k < |items|
    ensures items[k].collected in OfStream(items, items[k].stream)
    decreases items
  {
    if k < |items| - 1 {
      OfStreamMembers(items[..|items| - 1], k);
    }
  }

  lemma SunkProper(st: Stream, c: CollectedEvent)
    requires StreamInv(st) && c in st.sunk
    ensures Proper(c.event)
  {
    hide Proper, Latest, LatestIncrease, OneProducer, Counts;
    var i :| 0 <= i < |st.sunk| && st.sunk[i] == c;
    assert Events(st.sunk)[i] == c.event;
    assert Events(st.sunk) <= st.taken;
    assert st.taken[i] == c.event;
  }

  /** Every event that the queue accepted is a proper one. */
  lemma AcceptedProper(s: Sys, codec: Codec, every: nat, k: nat)
    requires Inv(s, codec, every) && k < |s.accepted|
    ensures Proper(s.accepted[k].collected.event)
  {
    var i := s.accepted[k].stream;
    ThisStream(s, codec, every, i);
    OfStreamMembers(s.accepted, k);
    hide *;
    SunkProper(s.streams[i], s.accepted[k].collected);
  }

  lemma FailedAppend(s: WriterState, s': WriterState, event: Event, arrival: I64, codec: Codec, every: nat)
    requires Good(s) && OpStep(s, s', Op.Append(event, arrival), codec, every, false)
    requires event.schemaVersion == SCHEMA_VERSION
    ensures || codec.serialize(event).None?
            || |codec.serialize(event).value| > MAXIMUM_PAYLOAD_SIZE
            || !s'.streamGood
  {
    hide AfterWrite, RecordHeader;
  }

  /** `consume` fails on an accepted event for one of three reasons: the event cannot be serialised,
      it is too large, or the writer's stream has failed. What a client puts into an event's other
      fields never stops ingestion. */
  lemma ConsumeFailsOnly(s: Sys, created: I64, codec: Codec, every: nat)
    requires Reached(s, created, codec, every)
    requires HasFailed(s)
    ensures s.handled != [] && |s.handled| < |s.log.states|
    ensures var event := s.handled[|s.handled| - 1].collected.event;
      || codec.serialize(event).None?
      || |codec.serialize(event).value| > 4_194_304
      || !s.log.states[|s.handled|].streamGood
  {
    LogOfReached(s, created, codec, every);
    HandledFailing(s);
    var n := |s.handled| - 1;
    var states, ops, oks := s.log.states, s.log.ops, s.log.oks;
    assert oks[n] == false && ops[n] == AppendOf(s.handled[n]) && |ops| > n by {
      hide WriterRun;
    }
    hide LogInv, Inv, CountInv, Follows, OpStep, Good, Proper;
    assert forall i :: 0 <= i < n ==> oks[..n][i] by {
      EarlierOk(s, codec, every, n);
    }
    assert OpStep(states[n], states[n + 1], ops[n], codec, every, oks[n]);
    GoodIffAllOk(states[..n + 1], ops[..n], oks[..n], codec, every);
    AcceptedProper(s, codec, every, n);
    assert s.accepted[n] == s.handled[n];
    var item := s.handled[n];
    ProperVersion(item.collected.event);
    FailedAppend(states[n], states[n + 1], item.collected.event, item.collected.arrival, codec, every);
  }

  lemma ProperVersion(e: Event)
    requires Proper(e)
    ensures e.schemaVersion == SCHEMA_VERSION
  {
    hide ProperPayload;
  }

  lemma HandledFailing(s: Sys)
    requires CountInv(s) && HasFailed(s)
    ensures |s.handled| >= 1
  {
  }

  lemma EarlierOk(s: Sys, codec: Codec, every: nat, n: nat)
    requires LogInv(s, codec, every) && n == |s.handled| - 1 && n <= |s.log.oks|
    ensures forall i :: 0 <= i < n ==> s.log.oks[..n][i]
  {
    hide WriterRun;
  }

  lemma ThisStream(s: Sys, codec: Codec, every: nat, i: nat)
    requires Inv(s, codec, every) && i < |s.streams|
    ensures StreamInv(s.streams[i]) && s.streams[i].sunk == OfStream(s.accepted, i)
  {
    hide QueueInv, CountInv, CloseInv, WakeInv, LogInv, StreamInv;
  }

  lemma StreamSunk(st: Stream)
    requires StreamInv(st)
    ensures var pc, events := st.pc, Events(st.sunk);
      var latest := Latest(events);
      && OneProducer(events)
      && Increasing(latest)
      && (|events| < TWO_64 ==> latest == events)
      && (pc.Finished? && pc.finish.FinishedOk? ==>
            && pc.finish.summary.acceptedEvents == |latest|
            && (events != [] ==> pc.finish.summary.producerId == events[0].producerId)
            && (latest != [] ==>
                  && pc.finish.summary.firstSequence == latest[0].sequenceNumber
                  && pc.finish.summary.lastSequence == latest[|latest| - 1].sequenceNumber
                  && |latest| + pc.finish.summary.sequenceGaps
                      == pc.finish.summary.lastSequence - pc.finish.summary.firstSequence + 1))
  {
    hide Events;
    if |Events(st.sunk)| < TWO_64 {
      LatestIsAll(Events(st.sunk));
    }
    hide Increasing, Latest;
    OneProducerPrefix(Events(st.sunk), st.taken);
  }

  lemma LatestIsAll(events: seq<Event>)
    requires |events| < TWO_64
    ensures Latest(events) == events
  {
  }

  lemma OneProducerPrefix(events: seq<Event>, taken: seq<Event>)
    requires OneProducer(taken) && events <= taken
    ensures OneProducer(events)
  {
  }

  lemma {:induction false} OfStreamFewer(items: seq<Item>, i: nat)
    ensures |OfStream(items, i)| <= |items|
    decreases items
  {
    if items == [] {
    } else {
      OfStreamFewer(items[..|items| - 1], i);
    }
  }

  /** The analyzer, run on the log of a clean shutdown, reports for the producer of a stream that
      finished OK the very numbers that the stream's client was told, provided no other stream
      used the same producer. */
  lemma AnalyzerAgrees(s: Sys, created: I64, codec: Codec, every: nat, limit: nat, i: nat, summary: Summary)
    requires RoundTrips(codec)
    requires Reached(s, created, codec, every)
    requires CleanlyShutDown(s)
    requires |s.accepted| <= limit < TWO_64
    requires i < |s.streams| && s.streams[i].pc == Finished(FinishedOk(summary)) && s.streams[i].sunk != []
    requires forall k :: 0 <= k < |s.accepted| && s.accepted[k].collected.event.producerId == summary.producerId ==>
        s.accepted[k].stream == i
    ensures var read := EventsOfRecords(ReadBytes(Writer(s).taken, limit, true, codec).records);
      StatsOf(OfProducer(read, summary.producerId))
         == Some(ProducerStats(summary.acceptedEvents, summary.sequenceGaps, 0, summary.lastSequence))
  {
    CleanLogIsAccepted(s, created, codec, every, limit);
    FinishedTracks(s, codec, every, i, summary);
    var events, v := Events(OfStream(s.accepted, i)), s.streams[i].validator;
    assert forall k :: 0 <= k < |OfStream(s.accepted, i)| ==> events[k].producerId == summary.producerId;
    var records := ReadBytes(Writer(s).taken, limit, true, codec).records;
    hide *;
    SameEvents(records, s.accepted, codec);
    ProducerIsStream(s.accepted, i, summary.producerId);
    AgreesWithValidator(v, events);
  }

  lemma FinishedTracks(s: Sys, codec: Codec, every: nat, i: nat, summary: Summary)
    requires Inv(s, codec, every)
    requires i < |s.streams| && |s.accepted| < TWO_64
    requires s.streams[i].pc == Finished(FinishedOk(summary)) && s.streams[i].sunk != []
    ensures var v, events := s.streams[i].validator, Events(OfStream(s.accepted, i));
      && events != []
      && Tracks(v, events)
      && summary == SummaryOf(v)
      && forall k :: 0 <= k < |events| ==> events[k].producerId == summary.producerId
  {
    ThisStream(s, codec, every, i);
    OfStreamFewer(s.accepted, i);
    hide QueueInv, CountInv, CloseInv, WakeInv, LogInv, StreamsInv;
    TracksAll(s.streams[i].validator, s.streams[i].taken);
    hide TracksLatest;
  }

  function CollectedEvents(items: seq<Item>): seq<Event> {
    seq(|items|, k requires 0 <= k < |items| => items[k].collected.event)
  }

  lemma SameEvents(records: seq<LogRecord>, accepted: seq<Item>, codec: Codec)
    requires ReadsBack(records, accepted, codec) && |records| == |accepted|
    ensures EventsOfRecords(records) == CollectedEvents(accepted)
  {
    assert forall k :: 0 <= k < |records| ==>
        records[k].event == CollectedEvent(records[k].event, records[k].arrival).event;
  }

  /** When only stream `i` uses a producer, selecting by producer and by stream is the same. */
  lemma {:induction false} ProducerIsStream(items: seq<Item>, i: nat, producer: string)
    requires forall k :: 0 <= k < |items| && items[k].collected.event.producerId == producer ==> items[k].stream == i
    requires forall k :: 0 <= k < |OfStream(items, i)| ==> Events(OfStream(items, i))[k].producerId == producer
    ensures OfProducer(CollectedEvents(items), producer) == Events(OfStream(items, i))
    decreases items
  {
    if items == [] {
    } else {
      var n := |items| - 1;
      var front, last := items[..n], items[n];
      var streamed := OfStream(front, i);
      assert CollectedEvents(items)[..n] == CollectedEvents(front);
      assert forall k :: 0 <= k < |streamed| ==> Events(streamed)[k] == Events(OfStream(items, i))[k];
      ProducerIsStream(front, i, producer);
      if last.stream == i {
        assert OfStream(items, i) == streamed + [last.collected];
        assert Events(OfStream(items, i))[|streamed|].producerId == producer;
        assert Events(streamed + [last.collected]) == Events(streamed) + [last.collected.event];
      }
    }
  }
}
