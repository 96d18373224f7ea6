# TraceForge: a verified model

TraceForge records telemetry from many producers into a checksummed append-only log, recovers the
log after a crash, and replays it in a fixed order. This project models the parts of it that have
to agree with one another, and proves that they do. `dafny verify dfyconfig.toml` checks all of it.

## What is modelled

**The recording container** (`src/recording/log.cpp`).
`Octets`, `Bytes` and `Castagnoli` give bytes, the little-endian codec and CRC32C, the digest of
section 12.1 of RFC 3720. `LogFormat` says what the writer lays down and what the reader takes up;
`RecordCodec` proves that one record's printer and parser invert each other; `LogTheorems`,
`LogLimits` and `Canonicity` prove round trip, canonical form, crash safety, damage detection and
recovery for whole files, and `LogContents` says record by record what reading returns and where it
stops. `CastagnoliCheck` is the checksum's published check value. `LogReader` is the reading loop and
the recovery tool, `LogWriter` the writer as a class over a stream whose writes may fail after any part
of their bytes and which keeps for certain only what was flushed, and `LogWriting` its runs.

**Concurrent ingestion** (`src/telemetry/`, `include/traceforge/concurrency/bounded_queue.hpp`).
`BoundedQueue`, `Validation` and `Ingestion` are the classes; `Pipeline` is the step system in which
any number of streams, the consumer thread and the thread that shuts down interleave. A lock region,
an access to the accepting flag and a notification are one step each; the condition variable is a
parked consumer and the notifications still owed. `Liveness` is about its infinite runs under a fair
scheduler; `PipelineAnswers` is about what clients and statistics are told. `EndToEnd` follows the events from the streams through the queue and the writer to what a
reader finds, also after a crash, and on to the analyzer (`Analyzer`), and `Playback` on to a replay.

**Indexed replay** (`src/replay/replay.cpp`).
`Timeline` is the order and the window, `Fnv` the FNV-1a hash of section 2 of draft-eastlake-fnv,
`Replay` what replay computes, `ReplayEngine` how it runs, with the sequential fast path or without
it, `ReplayIndex` and `ReplayTheorems` what follows. `ReplayAnswers` says of the bytes on disk what is
delivered and where and why a replay stops. `HashDetection` and `ReplayHash` are about the
changes that the hash always shows, and `HashCollision` is one that it does not.

**The workload generator** (`src/generator/workload_generator.cpp`).
`Random` is rejection sampling over an arbitrary 64-bit engine, `Schedule` the exact integer times,
`Workload` what is generated, `WorkloadHash` its content hash, `WorkloadGenerator` how;
`WorkloadOrder`, `WorkloadFaults` and `WorkloadTheorems` prove what sorting and fault injection do
and which workloads the collector's validator takes in full; `WorkloadContents` says in numbers what
the events hold.

## What is trusted

- The message encoding is a pair of functions (`Telemetry.Codec`) that round-trips; either may refuse.
  An empty message parses, if at all, to schema version zero (`Telemetry.EmptyIsNotCurrent`); this is
  used only to show that a set next offset is the position of the replay's stream.
- The scheduler is fair to the consumer, to notifications and to the closing down; this is used only
  in `Liveness`.
- The engine's values are arbitrary, but upper-half values keep coming, so that a draw ends.
- The file a reader sees is one sequence of bytes; a failing write may get any part of its bytes through.
- `std::sort` puts its range in order. The two orders it is used with leave it no choice: see
  `Timeline.OrderDetermined` and `WorkloadTheorems.SortIsDetermined`.

## Where promises and code differ

- The format description promises that a reader keeps every record before an incomplete tail and that
  recovery removes just that tail. The reader tests its record limit before it looks at the tail, so
  this holds exactly when the limit leaves room: `LogLimits.CrashSafeExactly`.
- It also calls the file header's flags and reserved bytes zero. The reader does not look at them: an
  empty log with a flag set reads complete (`Canonicity.FlaggedLogReads`), and they may hold anything
  (`Canonicity.AnyFlagsIntact`). Nor does it ask whether a payload is what its event is serialised to, so a
  log with a padded integer in a message reads complete although no event is stored so
  (`Canonicity.ForeignEncodingReads`, with an instance in `Canonicity.OverlongVersionReads`). These two are
  all: a file is byte for byte one that the writer lays down if and only if it reads complete, the eight
  bytes are zero, and every event read is serialised to the payload it was read from
  (`Canonicity.WrittenExactly`). Such files are exactly what the writer's successful runs leave
  (`Canonicity.RunIsWritten`, `Canonicity.WrittenByRun`).
- A stream's summary counts accepted events modulo 2^64. It is exact if and only if some sequence number
  was not accepted (`Validation.CountExactly`), so it is exact for every stream that leaves out a number,
  which a client knows beforehand (`Validation.CountExactUnlessAllUsed`). A stream that uses all 2^64
  numbers is accepted in full and reported as empty (`Validation.FullRampWraps`).
- The replay contract says that the hash detects changes. A change of a payload within six consecutive
  bytes always is detected (`ReplayHash.ChangedReplayTold`, `ReplayHash.ChangedLogTold`), and six is the most
  that can be said: two temperature events whose readings differ in seven consecutive bytes replay to the
  same hash (`HashCollision.ChangeMissed`). What is hashed determines the records
  (`ReplayHash.HashInputsInjective`).

## Model

| member | source | states |
|---|---|---|
| Bytes.DecodeEncode | src/recording/log.cpp:28-51 | decoding what was encoded gives the value back, for every width that holds it |
| Bytes.EncodeDecode | src/recording/log.cpp:28-51 | encoding what was decoded gives the bytes back, whatever they are |
| Bytes.EncodeWraps | src/recording/log.cpp:28-38 | a field keeps exactly the value modulo its width |
| Bytes.EncodeLittleEndian | src/recording/log.cpp:28-38 | the loop writes the field's bytes, least significant first, and leaves the rest of the buffer alone |
| Bytes.DecodeLittleEndian | src/recording/log.cpp:40-51 | the loop reads the field at its offset |
| Castagnoli.Crc32c | src/recording/log.cpp:78-90 | the two nested loops compute the reflected checksum, byte by byte and bit by bit |
| Castagnoli.BitStepLinear | src/recording/log.cpp:83-87 | one step of the register is linear over exclusive or |
| Castagnoli.BitStepInjective | src/recording/log.cpp:83-87 | one step loses nothing, because the polynomial's top bit is set |
| Castagnoli.RegisterIsFeed | src/recording/log.cpp:81-88 | reading bytes is taking up their bits one by one, least significant first |
| Castagnoli.RegisterOfWord | src/recording/log.cpp:81-88 | four bytes act on the register as one 32-bit word does |
| Castagnoli.StepKeepsParity | src/recording/log.cpp:79-87 | one step keeps the parity of the register, because the polynomial has an odd number of terms below the highest |
| Castagnoli.BurstDetected | src/recording/log.cpp:78-90 | two messages that differ within 32 consecutive bits, wherever these begin, never share a checksum |
| Castagnoli.FourBytesAgree | src/recording/log.cpp:78-90 | a difference within four consecutive bytes is one within 32 consecutive bits |
| Castagnoli.OddFlipsDetected | src/recording/log.cpp:78-90 | nor do two messages of the same length that differ in an odd number of bits |
| Castagnoli.SealedExactly | src/recording/log.cpp:159-160 | a message followed by four bytes brings the register to the fixed residue if and only if those bytes are its checksum |
| Castagnoli.SealBroken | src/recording/log.cpp:159-160 | so whatever the checksum tells apart in a sealed message shows, also where it spans message and seal |
| CastagnoliCheck.CheckValue | src/recording/log.cpp:78-91 | the digits one to nine have the published checksum E3069283 |
| RecordCodec.HeaderFields | src/recording/log.cpp:147-160 | where each field of a record header lies |
| LogTheorems.FileHeaderFields | src/recording/log.cpp:197-207 | and of the file header |
| RecordCodec.DecodePrintedHeader | src/recording/log.cpp:147-160 | a printed record header decodes to its fields and is intact |
| RecordCodec.PrintDecodedHeader | src/recording/log.cpp:292-312 | a header that decodes intact is the printed one, bit for bit |
| RecordCodec.HeaderTold | src/recording/log.cpp:305-309 | a header that the checksum tells apart from the printed one is never intact, so its length is never used |
| RecordCodec.ParsePrinted | src/recording/log.cpp:287-355 | a printed record parses back, whatever follows it |
| RecordCodec.PrintParsed | src/recording/log.cpp:287-355 | a record that parses is what the writer prints for it |
| RecordCodec.ParseCut | src/recording/log.cpp:281-322 | a record cut anywhere reads as cut, never as damaged |
| RecordCodec.ParseTold | src/recording/log.cpp:292-333 | a record with damage that a checksum tells, in its header or in its payload alone, is refused as damaged |
| RecordCodec.BurstTold | src/recording/log.cpp:292-333 | any damage of a record within 32 consecutive bits is such damage |
| LogTheorems.ScanPrinted | src/recording/log.cpp:275-373 | the scan passes over printed records, reports each at its offset, and goes on behind them |
| LogTheorems.ScanAccepts | src/recording/log.cpp:275-373 | whatever the bytes, what the scan accepted is what the writer prints for some records, and the offset is the sum of their sizes |
| LogTheorems.LogRoundTrips | src/recording/log.cpp:227-378 | a written log within the record limit reads complete, with every record and the creation time |
| LogTheorems.CompleteExactly | src/recording/log.cpp:227-378 | a file reads complete if and only if its header is intact and the rest is the writer's encoding of some loadable records |
| LogTheorems.RecordsBytesInjective | src/recording/log.cpp:127-171 | two lists of records never share an encoding |
| LogContents.AnyFileReports | src/recording/log.cpp:227-378 | whatever the bytes behind an intact header: they begin with the writer's encoding of some records; record k is reported with number k, its offset, its arrival time and the event its payload parses to, in index and records alike; and reading stops behind them for exactly one reason, with its status |
| LogContents.NothingRead | src/recording/log.cpp:227-268 | a file that cannot be read, or without an intact header, is answered so, with nothing in it |
| LogContents.CutReports | src/recording/log.cpp:275-378 | a written log cut anywhere behind its header reports exactly its first records so, those wholly inside as far as the limit goes |
| Canonicity.AnyFlagsIntact | src/recording/log.cpp:252-268 | whatever the flags and the reserved bytes hold, there is an intact header that holds them |
| Canonicity.WrittenHeaderExactly | src/recording/log.cpp:197-208 | an intact header is one that the writer lays down if and only if flags and reserved bytes are zero |
| Canonicity.EncodesExactly | src/recording/log.cpp:132-145 | a record is one that the writer makes of some event if and only if it loads and its payload is its event's own encoding |
| Canonicity.WrittenExactly | src/recording/log.cpp:92-378 | a file is one that the writer lays down for some events if and only if it reads complete, these bytes are zero, and every event read is serialised to the payload it was read from |
| Canonicity.RunIsWritten | src/recording/log.cpp:92-171 | what a run leaves while the writer is good is such a file |
| Canonicity.WrittenByRun | src/recording/log.cpp:92-171 | and every such file is left by some run |
| Canonicity.FlaggedLogReads | src/recording/log.cpp:252-268 | an empty log with a flag set reads complete and is none that the writer lays down |
| Canonicity.ForeignEncodingReads | src/recording/log.cpp:345-355 | nor is a log of a record whose payload parses to an event that is serialised to something else; with nothing set in its header it reads complete |
| Canonicity.OverlongVersionReads | src/recording/log.cpp:345-355 | such a log: a schema version in one byte more than it needs |
| LogTheorems.ToldDamageDetected | src/recording/log.cpp:252-333 | if a checksum tells the first damage of a written log, it reads as corrupt with exactly the records before it indexed, and recovery leaves the file alone |
| LogTheorems.DamageDetected | src/recording/log.cpp:252-333 | this is so for any change within 32 consecutive bits of a written log, four consecutive bytes among them, wherever they begin |
| LogTheorems.OddDamageDetected | src/recording/log.cpp:252-333 | and for any odd number of flipped bits in the file header, a record's header, or a payload behind an intact header |
| LogTheorems.CrashSafe | src/recording/log.cpp:275-378 | a written log cut at any byte behind its header indexes exactly the records wholly inside, complete between records and truncated otherwise |
| LogLimits.LimitReached | src/recording/log.cpp:276-280 | past the record limit the records up to it are indexed, the status is the resource limit, and recovery refuses |
| LogLimits.CrashSafeExactly | src/recording/log.cpp:275-286 | a cut log reads complete or truncated if and only if the limit leaves room for every record it touches |
| LogTheorems.RecoveryExact | src/recording/log.cpp:396-428 | for any file at all, recovery keeps every indexed record, removes less than one record of the largest size, leaves a file that reads complete with the same index, and is idempotent |
| LogReader.ReadRecord | src/recording/log.cpp:281-355 | one turn of the reading loop refuses in the order the source does |
| LogReader.ReadRecords | src/recording/log.cpp:273-376 | the reading loop finds what the scan finds, with its status, index, records and valid bytes |
| LogReader.ReadLog | src/recording/log.cpp:227-378 | reading a path, whether it is missing, cannot be opened or can be read |
| LogReader.RecoverTruncatedTail | src/recording/log.cpp:396-428 | recovery truncates exactly a truncated log, if the system permits, and reports what it did |
| LogWriter.OutputStream.Write | src/recording/log.cpp:210-219 | a write gets all or any part of its bytes through; a failed stream takes nothing more, and a reliable one does not fail |
| LogWriter.MakeFileHeader | src/recording/log.cpp:197-207 | the buffer is filled with exactly the file header |
| LogWriter.MakeRecordHeader | src/recording/log.cpp:149-160 | the buffer is filled with exactly the record header |
| LogWriter.LogWriter.constructor | src/recording/log.cpp:92-119 | a new writer is ready behind its header, as it is for a new file on a reliable stream, or stillborn with part of it, or has written nothing |
| LogWriter.LogWriter.WriteBytes | src/recording/log.cpp:210-219 | all bytes and the count, or a failure behind part of them |
| LogWriter.LogWriter.WriteFileHeader | src/recording/log.cpp:197-208 | the header, or a failure within it |
| LogWriter.LogWriter.Flush | src/recording/log.cpp:173-183 | success means that everything the stream took has been flushed; a flush that fails makes the writer fail for good |
| LogWriter.LogWriter.Append | src/recording/log.cpp:127-171 | an append is one of the outcomes that the runs are made of: refused, cut in header or payload, stored but not flushed, or stored, and flushed when that is due; on a reliable stream every event that can be stored is |
| LogWriting.WriterRunFollows | src/recording/log.cpp:127-225 | over every run, whatever write fails where: header, acknowledged records in order, and at most one more attempted record, whole or in part |
| LogWriting.AllAcknowledged | src/recording/log.cpp:127-171 | as long as the writer is good, every append that it did not refuse was acknowledged |
| LogWriting.GoodIffAllOk | src/recording/log.cpp:127-183 | the writer is good exactly as long as every call has succeeded: a refused event makes it fail for good, too |
| LogWriting.RunSecured | src/recording/log.cpp:166-169 | over every run, each acknowledged record up to the last one at which a flush was due lies in the flushed part |
| LogWriting.FlushedUpTo | src/recording/log.cpp:166-169 | below 2^64 records: each one up to the last multiple of the interval |
| LogWriting.FlushSecures | src/recording/log.cpp:173-183 | what the stream took before a flush that succeeded stays flushed |
| LogWriting.NothingAfterFailure | src/recording/log.cpp:129-131 | once the writer has failed, no call succeeds and nothing is written again |
| LogWriting.CrashedRunReads | src/recording/log.cpp:127-378 | whatever part of a run's bytes a crash leaves behind the header reads as a prefix of the requested records, and never as corrupt; if it leaves the flushed part, as far as flushes were due |
| BoundedQueue.BoundedQueue.TryPush | include/traceforge/concurrency/bounded_queue.hpp:40-61 | closed if and only if the queue is closed, full if and only if it is open and holds as many items as its capacity, accepted otherwise; only then the item is queued, and everything else is counted as rejected |
| BoundedQueue.BoundedQueue.PopAfterWait | include/traceforge/concurrency/bounded_queue.hpp:66-73 | behind the wait: the oldest item, or none from a closed empty queue |
| BoundedQueue.BoundedQueue.Close | include/traceforge/concurrency/bounded_queue.hpp:75-81 | closes and changes nothing else |
| BoundedQueue.MakeQueue | include/traceforge/concurrency/bounded_queue.hpp:31-35 | a queue without room is refused |
| BoundedQueue.PushKeeps | include/traceforge/concurrency/bounded_queue.hpp:40-61 | popped items followed by queued items stay the accepted items, within capacity and watermark |
| BoundedQueue.PopKeeps | include/traceforge/concurrency/bounded_queue.hpp:62-73 | and so they do over a pop |
| BoundedQueue.PushesFill | include/traceforge/concurrency/bounded_queue.hpp:40-61 | pushes with no pop in between: an open queue takes exactly the first ones for which it has room, rejects and counts the rest, and its watermark is the most it held |
| Validation.StreamValidator.Accept | src/telemetry/validation.cpp:92-133 | refuses for the first reason that applies and changes nothing, or takes the event into its fields |
| Validation.AcceptedIff | src/telemetry/validation.cpp:24-111 | an event is taken if and only if it is proper (current version, a name of 1 to 128 bytes, a known clock, a positive time, a payload within its bounds), of the stream's producer, and numbered beyond the last one |
| Validation.RefusalTrue | src/telemetry/validation.cpp:24-111 | each refusal names a defect that the event has |
| Validation.NextAccepted | src/telemetry/validation.cpp:92-133 | the same as AcceptedIff, said of the events taken so far |
| Validation.StreamAcceptedExactly | src/telemetry/validation.cpp:92-133 | a stream of up to 2^64 events is taken in full if and only if all are proper, of one producer, and increasing |
| Validation.StreamValidator.PopulateSummary | src/telemetry/validation.cpp:135-141 | the summary is the validator's fields |
| Validation.AcceptTracks | src/telemetry/validation.cpp:112-131 | one more accepted event keeps the fields true of what was accepted since the count was last zero, however many there were |
| Validation.StreamTracks | src/telemetry/validation.cpp:92-133 | over any stream of any length: all events taken are proper; since the count was last zero numbers strictly increase within one producer, accepted events plus gaps span first to last, and the gaps never wrap |
| Validation.StreamTracked | src/telemetry/validation.cpp:92-133 | below 2^64 accepted events that is all of them |
| Validation.CountExact | src/telemetry/validation.cpp:131 | the reported count is the number of accepted events if and only if that is below 2^64 |
| Validation.CountExactly | src/telemetry/validation.cpp:112-131 | and if and only if some sequence number was not accepted |
| Validation.CountExactUnlessAllUsed | src/telemetry/validation.cpp:112-131 | so it is for every stream that leaves out a sequence number |
| Validation.FullRampWraps | src/telemetry/validation.cpp:131 | a stream of all 2^64 sequence numbers is accepted in full and reported as empty |
| Pipeline.StepKeepsInv | src/telemetry/queued_sink.cpp:14-57 | every step of every thread keeps order, counts, closing phases, owed notifications, streams and log in agreement |
| Pipeline.RunKeepsInv | src/telemetry/queued_sink.cpp:14-57 | and so does every interleaving |
| Pipeline.Reachable | src/telemetry/queued_sink.cpp:14-57 | in every reachable state: popped, in-flight and queued items are the accepted ones in order, at most one failure, at most capacity + 1 accepted events unconsumed after it, and none after a clean end |
| Pipeline.WakeKept | include/traceforge/concurrency/bounded_queue.hpp:40-81 | a consumer parked before a queue that is closed or not empty is owed a notification |
| PipelineAnswers.PushAnswered | src/telemetry/queued_sink.cpp:14-28 | a push that meets a closed or a full queue ends its stream as unavailable or exhausted and is counted; any other is accepted |
| PipelineAnswers.StreamEnded | src/telemetry/collector_service.cpp:27-59 | in every interleaving a stream ended OK because its client had no more to send, invalid because an event had the defect it was told, exhausted because a push met an open queue filled to its capacity, unavailable because shutting down had begun or `consume` had failed |
| PipelineAnswers.EndedFromStart | src/telemetry/collector_service.cpp:27-59 | so it is for every run from the start, whatever the capacity and the number of streams |
| PipelineAnswers.QueueCounts | include/traceforge/concurrency/bounded_queue.hpp:40-61 | over every run the queue counts exactly the pushes it refused, and the watermark is the greatest number of items queued at any moment |
| Pipeline.DistanceShrinks | src/telemetry/queued_sink.cpp:47-57 | behind a closed queue no step takes the consumer further from its end, and its own take it nearer |
| Pipeline.ConsumerTerminates | src/telemetry/queued_sink.cpp:30-57 | so it takes a bounded number of steps, whatever the others do |
| Pipeline.ConsumerNotStuck | src/telemetry/queued_sink.cpp:30-57 | and until it is done or inside `consume`, a step that takes it nearer is enabled |
| Liveness.HelpPersists | src/telemetry/queued_sink.cpp:30-57 | another step takes the consumer nearer too, or leaves that one enabled and helpful |
| Liveness.ConsumerEnds | src/telemetry/queued_sink.cpp:47-57 | in every fair infinite run behind a closed queue the consumer comes to its end, unless some call of `consume` never returns |
| Liveness.ShutdownReturns | src/telemetry/queued_sink.cpp:30-36 | in every fair infinite run in which shutting down has begun the join returns, with the same exception |
| Ingestion.QueuedTelemetrySink.TryAccept | src/telemetry/queued_sink.cpp:14-28 | unavailable if and only if events are refused or the queue is closed, overloaded if and only if the open queue is full; an accepted event is queued and wakes a sleeping consumer |
| Ingestion.QueuedTelemetrySink.WaitPop | include/traceforge/concurrency/bounded_queue.hpp:62-73 | takes the oldest item, or ends the thread at a closed empty queue, or falls asleep at an open one |
| Ingestion.QueuedTelemetrySink.StopConsuming | src/telemetry/queued_sink.cpp:49-54 | a failed `consume` is counted, refuses further events, closes the queue and ends the thread, from wherever the thread is in this |
| Ingestion.QueuedTelemetrySink.ConsumeItem | src/recording/log_consumer.cpp:11-13 | consuming an item is appending its event to the log |
| Ingestion.QueuedTelemetrySink.ConsumeLoop | src/telemetry/queued_sink.cpp:47-57 | the loop is a run of the step system that ends asleep at an open empty queue or done at a closed one, drained unless `consume` failed |
| Ingestion.QueuedTelemetrySink.FinishThread | src/telemetry/queued_sink.cpp:47-57 | behind a closed queue the thread comes to its end from wherever it is, also from inside `consume` |
| Ingestion.QueuedTelemetrySink.Shutdown | src/telemetry/queued_sink.cpp:30-36 | shutting down, wherever the consumer thread is by then, is a run of the step system that ends with the consumer joined |
| Ingestion.CloseDown | app/main.cpp:401-407 | the sink is shut down before the log is flushed, and that is a run that ends flushed; success means that all of the log is |
| Ingestion.StreamReactor.OnReadDone | src/telemetry/collector_service.cpp:27-59 | one callback is a run of its own stream's steps: validate, stamp, offer to the sink, and read on or finish, for which reason |
| EndToEnd.RunsReach | app/main.cpp:401-407 | every interleaving from a fresh writer reaches only states of which the following holds |
| EndToEnd.CrashedLogIsPrefix | src/telemetry/queued_sink.cpp:47-57 | at every moment of every interleaving, any part of the log behind its header reads as a prefix of the events the queue accepted, in that order, numbered in turn, each at its offset; nothing consumed is missing from an undisturbed file |
| EndToEnd.FlushedSurvive | src/recording/log.cpp:166-183 | a crash that keeps the flushed part keeps every consumed event up to the last multiple of the flush interval |
| EndToEnd.AcceptedProper | src/telemetry/validation.cpp:92-133 | every event the queue ever accepted is proper |
| EndToEnd.ConsumeFailsOnly | src/telemetry/queued_sink.cpp:49-54 | `consume` fails on an accepted event only if it cannot be serialised, is too large, or the writer's stream has failed, never because of what a client put into its fields |
| EndToEnd.CleanLog | app/main.cpp:401-407 | after a clean shutdown the writer's stream holds, byte for byte, a log of the accepted events in order, all of it flushed |
| EndToEnd.CleanLogIsAccepted | app/main.cpp:401-407 | it reads complete, and what is read back are exactly these events, numbered in turn, each at its offset |
| Playback.AcceptedReplayed | src/replay/replay.cpp:94-217 | replaying it delivers exactly the accepted events that arrived in the window, by arrival time and then in the order of acceptance |
| EndToEnd.StreamOrder | src/telemetry/collector_service.cpp:27-59 | each stream's share is what the sink accepted of it, of one producer; since the count was last zero its numbers strictly increase, and a stream that finished OK reported exactly these events and their gaps, which below 2^64 events are all |
| EndToEnd.AnalyzerAgrees | src/analysis/analyzer.cpp:118-134 | for one stream per producer, the analyzer of the resulting log reports the counts and gaps that the stream's client was told |
| Analyzer.Analyze | src/analysis/analyzer.cpp:118-134 | the loop keeps for each producer what that producer's own records amount to |
| Analyzer.StatsCount | src/analysis/analyzer.cpp:125-134 | for any records of a producer: how many, how many numbers are left out where they rise, how often one is not greater than the one before it, and the last |
| Analyzer.AgreesWithValidator | src/analysis/analyzer.cpp:125-134 | on events one validator accepted, the analyzer's counts are the validator's |
| Timeline.SortedOrders | src/replay/replay.cpp:73-83 | sorting puts the index in order of arrival time and then of append index, and loses nothing |
| Timeline.OrderDetermined | src/replay/replay.cpp:74-83 | the order is total: any two orderings of the same entries are equal |
| Timeline.LowerBound | src/replay/replay.cpp:118-126 | binary search finds where the window begins |
| Timeline.VisitedIsWindow | src/replay/replay.cpp:118-143 | seeking to the lower bound and stopping at the first late entry visits exactly the half-open window |
| Timeline.WindowsMeet | src/replay/replay.cpp:118-143 | two windows that meet make one |
| Fnv.HashByteLoop | src/replay/replay.cpp:198-200 | hashing a payload byte by byte |
| Fnv.HashLittleEndian | src/replay/replay.cpp:30-38 | hashing an integer is hashing its little-endian bytes |
| Fnv.TimesInjective | src/replay/replay.cpp:25-28 | multiplying by the prime modulo 2^64 loses nothing |
| Fnv.HashInjective | src/replay/replay.cpp:25-28 | from different states the same bytes lead to different hashes |
| Fnv.ChangeShownAtOnce | src/replay/replay.cpp:25-28 | what follows a change neither hides it nor brings it to light |
| HashDetection.Balanced | src/replay/replay.cpp:25-38 | if two hashes agree in the end, what the bytes added to their states differs by nothing, weighed by powers of the prime modulo 2^64 |
| HashDetection.SixBytesDetected | src/replay/replay.cpp:25-38 | two equally long streams that differ only within six consecutive bytes never hash alike |
| ReplayIndex.ScanLeadsBack | src/recording/log.cpp:357-366 | whatever the file, each index entry is numbered in turn and leads back to a payload that passes all of replay's checks |
| ReplayIndex.ReadNumbered | src/recording/log.cpp:357-371 | the reader numbers entries in file order |
| ReplayIndex.ReadNotEmpty | src/recording/log.cpp:345-366 | the reader never indexes an empty payload |
| ReplayEngines.InputStream.Ignore | src/replay/replay.cpp:45-47 | skipping forward moves with the offset skipped, and raises at most the end flag |
| ReplayEngines.InputStream.Read | src/replay/replay.cpp:55-58 | a read under a raised flag or past the end yields too few bytes |
| ReplayEngines.ReadPayload | src/replay/replay.cpp:40-59 | reading on and seeking read the same payload or fail alike, whatever is on disk by now, and leave the stream right behind it |
| ReplayEngines.PayloadEvent | src/replay/replay.cpp:156-175 | the event of a payload that is still what was indexed |
| ReplayEngines.HashDelivery | src/replay/replay.cpp:193-200 | the four hash updates hash one record's encoding |
| ReplayEngines.Deliver | src/replay/replay.cpp:193-211 | a record is hashed, handed over, and counted unless it was refused |
| ReplayEngines.ReplayTurn | src/replay/replay.cpp:139-211 | one turn of the loop, on either path, is the turn of the always-seek definition |
| ReplayEngines.ReplayEngine.constructor | src/replay/replay.cpp:63-84 | indexing reads the log without its records and sorts, or fails unless the log is complete; no entry is empty |
| ReplayEngines.ReplayEngine.Replay | src/replay/replay.cpp:94-217 | for every index, window, consumer and file content, the loop gives the same status, deliveries, counts and hash with the fast path and without it |
| ReplayTheorems.ReplayInOrder | src/replay/replay.cpp:118-216 | whatever the disk and the consumer: deliveries are the window in order, all of it on completion and a prefix otherwise; hash and counts describe exactly them |
| ReplayAnswers.ReplayAnswered | src/replay/replay.cpp:94-217 | for every index, window, disk and consumer: each delivered payload is the disk's bytes at its entry's place, has the checksum that was indexed and parses to the event delivered, current and of the source time that was indexed; and the replay stops at the entry behind what it delivered, for exactly one reason, with its status |
| ReplayAnswers.ChangedSinceIndexed | src/replay/replay.cpp:156-160 | a payload that changed within 32 consecutive bits since it was indexed ends the replay with an error of the log, just before it |
| ReplayTheorems.ReplayDelivers | src/replay/replay.cpp:94-217 | replaying an unchanged complete log to a consumer that takes everything completes and delivers exactly the window |
| ReplayTheorems.ReplaysMeet | src/replay/replay.cpp:118-143 | replaying up to a time and then from it is replaying the whole, at any speeds, and the hash carries on |
| ReplayTheorems.WrittenReplayed | src/replay/replay.cpp:63-217 | of a written log, exactly the records in the window come back, payload and event as appended, by arrival time and then append order |
| ReplayHash.HashInputsInjective | src/replay/replay.cpp:193-200 | the hashed bytes determine index, arrival time and payload of every delivered record |
| ReplayHash.HashInputFields | src/replay/replay.cpp:193-200 | where index, arrival time, size and payload lie in what is hashed |
| ReplayHash.ChangedReplayTold | src/replay/replay.cpp:193-200 | any two replays, of whatever indexes and files, that delivered the same but for one payload changed within six consecutive bytes report different hashes |
| ReplayHash.DeliveredInOrder | src/replay/replay.cpp:118-143 | which records a replay delivers, and in which order, depends on the arrival times alone |
| ReplayHash.ChangedLogTold | src/replay/replay.cpp:63-217 | changing one payload of a log within six consecutive bytes changes the hash of its replay over every window that holds the record |
| HashCollision.ChangeMissed | src/replay/replay.cpp:63-217 | the logs of two temperature events whose readings differ in seven consecutive bytes replay completely, to different payloads and the same hash |
| Random.PortableRandom.DrawBounded | src/generator/workload_generator.cpp:32-45 | the loop ends at the first value that is not rejected and returns its remainder |
| Random.PortableRandom.DrawChance | src/generator/workload_generator.cpp:47-49 | a chance is a draw below a million |
| Random.Unbiased | src/generator/workload_generator.cpp:32-45 | every result below the bound comes from the same number of engine values |
| Random.ChanceFair | src/generator/workload_generator.cpp:47-49 | a chance comes true on exactly its share of the engine values that are not rejected |
| Random.DrawnFrom | src/generator/workload_generator.cpp:32-45 | a draw is decided by the first engine value that leads to any result |
| Random.ChanceDrawn | src/generator/workload_generator.cpp:47-49 | and so is a chance, which comes true on its share of these values |
| Schedule.CombineRates | src/generator/workload_generator.cpp:84-95 | the loop sums the rates, or stops at one that is too high |
| Schedule.ValidateConfig | src/generator/workload_generator.cpp:55-104 | exactly the valid configurations pass, and the sums stay within 64 bits |
| WorkloadContents.ValidMeans | src/generator/workload_generator.cpp:55-104 | which configurations are valid, in their own units |
| Schedule.EventCount | src/generator/workload_generator.cpp:106-118 | the count is the floor of duration times rate over 10^9, computed within 64 bits |
| Schedule.ScheduledTime | src/generator/workload_generator.cpp:120-128 | the time is the floor of index times 10^9 over rate, computed within 64 bits |
| Schedule.ScheduleIncreases | src/generator/workload_generator.cpp:120-128 | scheduled times strictly increase |
| Schedule.CountedBeforeEnd | src/generator/workload_generator.cpp:106-128 | an event is counted only if it is due before the end, and what is not counted is followed by an event due at the end or later |
| Schedule.PeriodicEventsLimited | src/generator/workload_generator.cpp:84-103 | a valid configuration never schedules more than 2,000,000 events, all sensors together |
| Schedule.ApplyClockDrift | src/generator/workload_generator.cpp:130-136 | drift adds the elapsed time times ppm over 10^6, truncated towards zero, within 64 bits, and never goes below zero |
| Schedule.DriftMonotone | src/generator/workload_generator.cpp:130-136 | a drifting clock never runs backwards |
| Schedule.SampleJitter | src/generator/workload_generator.cpp:138-149 | jitter stays within its bound and draws nothing when there is none |
| Schedule.JitterEven | src/generator/workload_generator.cpp:138-149 | every jitter comes from the same number of engine values |
| WorkloadContents.StampDrawn | src/generator/workload_generator.cpp:151-166 | the stamp is the scheduled and drifted time, less the greatest jitter, plus the number drawn |
| Workload.PhasesInOrder | src/generator/workload_generator.cpp:186-202 | the controller's phases come in order of time and within the duration, for every duration from one nanosecond on |
| WorkloadContents.DegradesByHalf | src/generator/workload_generator.cpp:186-204 | the controller degrades if and only if a draw lies in the lower half |
| WorkloadOrder.SortOrders | src/generator/workload_generator.cpp:313-323 | sorting puts events in order of time, producer and number, and loses nothing |
| WorkloadOrder.SortedMeans | src/generator/workload_generator.cpp:313-323 | of two sorted events the first is earlier, or at equal times has the smaller name by its first difference, or is of the same producer with no greater number |
| WorkloadOrder.SortInStream | src/generator/workload_generator.cpp:313-323 | sorting everything sorts each producer's stream |
| WorkloadTheorems.SortIsDetermined | src/generator/workload_generator.cpp:313-323 | no two base events share producer and number, so every sorting gives the same list |
| WorkloadFaults.InjectConserves | src/generator/workload_generator.cpp:325-338 | what is emitted is the list with each event kept zero, one or two times in place, and the statistics count the zeros and twos |
| WorkloadFaults.InjectAtTheEnds | src/generator/workload_generator.cpp:328-338 | probabilities of zero and of a million leave nothing to chance |
| WorkloadFaults.ReorderExchanges | src/generator/workload_generator.cpp:340-346 | the reorder pass exchanges neighbours in pairs and moves every event at most one place, with the greatest number of exchanges at a million |
| WorkloadFaults.ReorderPermutes | src/generator/workload_generator.cpp:340-346 | it loses and invents nothing |
| WorkloadFaults.WorkloadConserves | src/generator/workload_generator.cpp:325-346 | emitted events are generated minus dropped plus duplicated |
| WorkloadGenerators.AppendPeriodic | src/generator/workload_generator.cpp:168-181 | the loop appends the sensor's events and leaves the engine where they leave it |
| WorkloadGenerators.AppendControllerEvents | src/generator/workload_generator.cpp:183-214 | the phases drawn become the controller's events |
| WorkloadGenerators.InjectFaults | src/generator/workload_generator.cpp:325-338 | the loop drops and duplicates by chance and counts both |
| WorkloadGenerators.ReorderInPlace | src/generator/workload_generator.cpp:340-346 | the pass over the array, passing over what it swapped |
| WorkloadHash.StableEventHash | src/generator/workload_generator.cpp:352-372 | the loop hashes each message's length and bytes, or fails if one cannot be serialised |
| WorkloadHash.StableInputInjective | src/generator/workload_generator.cpp:352-372 | what is hashed determines the events |
| WorkloadGenerators.WorkloadGenerator.Generate | src/generator/workload_generator.cpp:245-350 | events, statistics and hash are a function of the configuration and the engine |
| WorkloadGenerators.MakeGenerator | src/generator/workload_generator.cpp:240-243 | an invalid configuration is refused |
| WorkloadTheorems.PeriodicMade | src/generator/workload_generator.cpp:151-181 | a sensor's events carry its name and consecutive numbers, pass every check that looks at one event only, and without jitter are stamped with their scheduled times |
| WorkloadTheorems.BaseStream | src/generator/workload_generator.cpp:245-311 | so every producer's stream is numbered from zero, as long as scheduled, and without jitter in order of time |
| WorkloadContents.SensorCounts | src/generator/workload_generator.cpp:245-310 | each sensor makes as many events as its own rate calls for |
| WorkloadContents.EmittedScripted | src/generator/workload_generator.cpp:151-310 | every emitted event is a sensor's, with the reading that belongs to its number, stamped within the jitter of its scheduled and drifted time, or one of the controller's states at its time |
| WorkloadContents.SeverityShares | src/generator/workload_generator.cpp:301-306 | of a hundred rolls seventy are warnings, twenty-five errors and five critical |
| WorkloadTheorems.AcceptedIffOrdered | src/telemetry/validation.cpp:92-133 | for every configuration: each stream of the workload is accepted in full if and only if numbers increase along each producer's stream |
| WorkloadTheorems.InjectStreams | src/generator/workload_generator.cpp:328-338 | dropping keeps streams increasing, duplicating any event does not |
| WorkloadTheorems.AcceptedExactly | src/generator/workload_generator.cpp:313-346 | without jitter, whatever is dropped, duplicated or reordered: the workload is accepted in full if and only if nothing was duplicated and no two events that the reorder pass exchanged are of one producer |
| WorkloadTheorems.AcceptedIffNoDuplicates | src/generator/workload_generator.cpp:313-346 | in particular, without reordering, if and only if nothing was duplicated |
| WorkloadTheorems.CleanWorkloadAccepted | src/generator/workload_generator.cpp:245-350 | without jitter and faults, for every accepted configuration and all chances, the validator takes every producer's stream in full and sees no gap |

## Left out

- gRPC, sockets, signals, threads as objects of the operating system, and the command line: of `app/main.cpp` only the order of shutting down and flushing remains.
- The Protobuf wire format and its checks of character encoding: library code, represented by a pair of functions.
- Fields of a message that the schema does not know: an event is its known fields, and its encoding a function of them.
- The texts of error messages, other than those of the validator and of the configuration check.
- Pacing of a replay (`src/replay/replay.cpp:177-191`): sleeping has no effect on the result, and no model of wall-clock time is given.
- Wall clocks: arrival and creation times are parameters, and nothing is assumed of their order.
- Changes to a file during one read or one replay, and read errors in the middle of a file: a reader sees one sequence of bytes throughout. Between indexing and replay a file may change in any way.
- `fsync`, page caches and competing writers to one path: a crash may leave any prefix of what the stream took.
- The destructor of `LogWriter`, which flushes once more and adds no bytes.
- The analyzer's rates, percentiles, jitter and clock deltas: floating-point statistics. Its fault counters and timestamp regressions: one branch each.
- The Mersenne Twister: any engine is allowed whose upper-half values keep coming.
- Doubles in payloads are real numbers or not finite; the generator's values are exact in binary, and signed zero is not told from zero.
- Ingestion.QueuedTelemetrySink.ConsumeLoop: the class runs one call after another, a thread that falls asleep ends its call; interleaving is in `Pipeline`, where the calls are split into atomic steps.
- Liveness.ConsumerEnds: asks for a scheduler that is fair to the consumer, to owed notifications and to the closing down; whether `consume` returns is up to the consumer.
- Pipeline.Reachable: relates counters of one state only; `QueuedTelemetrySink::stats` reads them one after the other and is not one snapshot.
- BoundedQueue.BoundedQueue.TryPush: its counters and those of the sink are unbounded numbers; that the source's wrap at 2^64 is not modelled.
- LogTheorems.DamageDetected: holds within the record limit; damage behind the limit is not read at all.
- Timeline.SortedOrders: `std::sort` is a specified function here, not an algorithm; that the order is total makes every algorithm give the same list.
- Offsets beyond the range of a stream offset: file positions are natural numbers.
- The Flutter client, generated bindings, benchmarks, the fuzzing harness and the build files.
