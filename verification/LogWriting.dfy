/** What the writer does to its stream, step by step and over whole runs. */
module LogWriting {
  import opened Octets
  import opened Bytes
  import opened Castagnoli
  import opened Telemetry
  import opened LogFormat
  import opened RecordCodec
  import opened LogTheorems

  /** The writer and its stream; `taken` is every byte the stream took, in order, and the first
      `flushed` of them have been flushed. */
  datatype WriterState = WriterState(
    taken: seq<Byte>,
    flushed: nat,
    isOpen: bool,
    streamGood: bool,
    failed: bool,
    count: U64,
    written: U64)

  predicate Good(s: WriterState) {
    !s.failed && s.isOpen && s.streamGood
  }

  function Wrap(n: nat): U64 {
    n % TWO_64
  }

  /** What an event is stored as, unless the writer refuses it. */
  function Encoded(event: Event, arrival: I64, codec: Codec): Option<Record> {
    if event.schemaVersion != SCHEMA_VERSION then None
    else match codec.serialize(event)
      case None => None
      case Some(payload) => if |payload| > MAXIMUM_PAYLOAD_SIZE then None else Some(Record(arrival, payload))
  }

  /** How a write may go: all of the bytes, or a failure after some of them. */
  function AfterWrite(s: WriterState, bytes: seq<Byte>): WriterState {
    s.(taken := s.taken + bytes, written := Wrap(s.written + |bytes|))
  }

  function AfterCut(s: WriterState, bytes: seq<Byte>, n: nat): WriterState
    requires n <= |bytes|
  {
    s.(taken := s.taken + bytes[..n], streamGood := false, failed := true)
  }

  function AfterBadFlush(s: WriterState): WriterState {
    s.(streamGood := false, failed := true)
  }

  function AfterFlush(s: WriterState): WriterState {
    s.(flushed := |s.taken|)
  }

  /** The writer flushes whenever the number of records is a multiple of `every`. */
  predicate FlushDue(count: U64, every: nat) {
    every != 0 && count % every == 0
  }

  datatype Outcome = HeaderCut(n: nat) | PayloadCut(n: nat) | FlushFailed | Stored

  predicate Possible(s: WriterState, r: Record, every: nat, outcome: Outcome) {
    match outcome
    case HeaderCut(n) => n <= RECORD_HEADER_SIZE
    case PayloadCut(n) => n <= |r.payload|
    case FlushFailed => FlushDue(Wrap(s.count + 1), every)
    case Stored => true
  }

  function AfterRecord(s: WriterState, r: Record, every: nat, outcome: Outcome): WriterState
    requires Possible(s, r, every, outcome)
  {
    var header := RecordHeader(s.count, r);
    var all := AfterWrite(AfterWrite(s, header), r.payload).(count := Wrap(s.count + 1));
    match outcome
    case HeaderCut(n) => AfterCut(s, header, n)
    case PayloadCut(n) => AfterCut(AfterWrite(s, header), r.payload, n)
    case FlushFailed => AfterBadFlush(all)
    case Stored => if FlushDue(all.count, every) then AfterFlush(all) else all
  }

  datatype Op = Append(event: Event, arrival: I64) | Flush

  /** One call of `append` or `flush` that returns `ok`. */
  ghost predicate OpStep(s: WriterState, s': WriterState, op: Op, codec: Codec, every: nat, ok: bool) {
    if !Good(s) then !ok && s' == s
    else match op
      case Flush => s' == if ok then AfterFlush(s) else AfterBadFlush(s)
      case Append(event, arrival) =>
        match Encoded(event, arrival, codec)
        case None => !ok && s' == s.(failed := true)
        case Some(r) =>
          exists outcome :: Possible(s, r, every, outcome) && s' == AfterRecord(s, r, every, outcome)
              && ok == (outcome == Stored)
  }

  // The state between two calls.

  /** The records `counted` are on the stream behind the header, possibly followed by part of
      one more, `attempted`, which is the last thing ever written. */
  ghost predicate Follows(s: WriterState, created: I64, counted: seq<Record>, attempted: seq<Record>) {
    && s.count == Wrap(|counted|)
    && s.flushed <= |s.taken|
    && |attempted| <= 1
    && LogBytes(created, counted) <= s.taken <= LogBytes(created, counted + attempted)
    && (Good(s) ==> attempted == [] && s.written == Wrap(|s.taken|))
  }

  /** The header itself did not get through, so nothing else ever will. */
  ghost predicate StillBorn(s: WriterState, created: I64) {
    && !Good(s)
    && s.taken <= FileHeader(created)
  }

  lemma RecordsBytesAppend(index: nat, rs: seq<Record>, r: Record)
    ensures RecordsBytes(index, rs + [r]) == RecordsBytes(index, rs) + RecordBytes(index + |rs|, r)
  {
    hide RecordBytes;
    RecordsBytesSplit(index, rs + [r], |rs|);
    assert (rs + [r])[..|rs|] == rs && (rs + [r])[|rs|..] == [r];
    assert [r][1..] == [];
    assert RecordsBytes(index + |rs|, [r]) == RecordBytes(index + |rs|, r) + [];
  }

  lemma LogBytesAppend(created: I64, rs: seq<Record>, r: Record)
    ensures LogBytes(created, rs + [r]) == LogBytes(created, rs) + RecordBytes(|rs|, r)
  {
    hide FileHeader, RecordsBytes, RecordBytes;
    RecordsBytesAppend(0, rs, r);
  }

  /** The index field holds 64 bits, so a wrapped counter lays down the same header. */
  lemma WrappedIndex(index: nat, r: Record)
    ensures RecordHeader(Wrap(index), r) == RecordHeader(index, r)
  {
    RadixValues();
    hide EncodeLE, WordBytes, Checksum, Radix;
    EncodeWraps(index, 8);
  }

  lemma WrapSum(a: nat, b: nat)
    ensures Wrap(Wrap(a) + b) == Wrap(a + b)
  {
  }

  lemma StepFollows(s: WriterState, created: I64, counted: seq<Record>, r: Record, every: nat, outcome: Outcome)
    requires Good(s) && Follows(s, created, counted, [])
    requires Possible(s, r, every, outcome)
    ensures var s' := AfterRecord(s, r, every, outcome);
      if outcome.Stored? || outcome.FlushFailed? then Follows(s', created, counted + [r], [])
      else Follows(s', created, counted, [r])
  {
    hide *;
    RecordOutcome(s, r, every, outcome);
    OnStream(s, created, counted);
    OneMore(s, created, counted, r);
    if outcome.Stored? || outcome.FlushFailed? {
      AllFollows(s, AfterRecord(s, r, every, outcome), created, counted, r);
    } else {
      CutFollows(s, AfterRecord(s, r, every, outcome), created, counted, r);
    }
  }

  lemma RecordOutcome(s: WriterState, r: Record, every: nat, outcome: Outcome)
    requires Good(s) && Possible(s, r, every, outcome)
    ensures var s', header := AfterRecord(s, r, every, outcome), RecordHeader(s.count, r);
      && (Good(s') <==> outcome == Stored)
      && (s.flushed <= |s.taken| ==> s.flushed <= s'.flushed <= |s'.taken|)
      && if outcome.Stored? || outcome.FlushFailed? then
           && s'.count == Wrap(s.count + 1)
           && s'.taken == s.taken + header + r.payload
           && s'.written == Wrap(Wrap(s.written + |header|) + |r.payload|)
         else
           && s'.count == s.count && s'.failed
           && ((exists n :: 0 <= n <= RECORD_HEADER_SIZE && s'.taken == s.taken + header[..n])
               || (exists n :: 0 <= n <= |r.payload| && s'.taken == s.taken + header + r.payload[..n]))
  {
    hide RecordHeader, Wrap;
  }

  lemma OnStream(s: WriterState, created: I64, counted: seq<Record>)
    requires Follows(s, created, counted, [])
    ensures s.taken == LogBytes(created, counted) && s.count == Wrap(|counted|)
    ensures s.flushed <= |s.taken|
    ensures Good(s) ==> s.written == Wrap(|s.taken|)
  {
    hide LogBytes;
    assert counted + [] == counted;
  }

  lemma OneMore(s: WriterState, created: I64, counted: seq<Record>, r: Record)
    requires s.count == Wrap(|counted|)
    ensures LogBytes(created, counted + [r]) == LogBytes(created, counted) + (RecordHeader(s.count, r) + r.payload)
  {
    LogBytesAppend(created, counted, r);
    WrappedIndex(|counted|, r);
    hide LogBytes, RecordHeader, Wrap;
  }

  lemma CutFollows(s: WriterState, s': WriterState, created: I64, counted: seq<Record>, r: Record)
    requires s.taken == LogBytes(created, counted) && s.count == Wrap(|counted|)
    requires LogBytes(created, counted + [r]) == LogBytes(created, counted) + (RecordHeader(s.count, r) + r.payload)
    requires s'.count == s.count && s'.failed && s'.flushed <= |s'.taken|
    requires (exists n :: 0 <= n <= RECORD_HEADER_SIZE && s'.taken == s.taken + RecordHeader(s.count, r)[..n])
          || (exists n :: 0 <= n <= |r.payload| && s'.taken == s.taken + RecordHeader(s.count, r) + r.payload[..n])
    ensures Follows(s', created, counted, [r])
  {
    hide RecordHeader, LogBytes, Wrap;
    var header := RecordHeader(s.count, r);
    if n :| 0 <= n <= RECORD_HEADER_SIZE && s'.taken == s.taken + header[..n] {
      assert LogBytes(created, counted + [r]) == s'.taken + (header[n..] + r.payload);
    } else {
      var n :| 0 <= n <= |r.payload| && s'.taken == s.taken + header + r.payload[..n];
      assert LogBytes(created, counted + [r]) == s'.taken + r.payload[n..];
    }
  }

  lemma AllFollows(s: WriterState, s': WriterState, created: I64, counted: seq<Record>, r: Record)
    requires s.taken == LogBytes(created, counted) && s.count == Wrap(|counted|)
    requires LogBytes(created, counted + [r]) == LogBytes(created, counted) + (RecordHeader(s.count, r) + r.payload)
    requires s'.count == Wrap(s.count + 1) && s'.flushed <= |s'.taken|
    requires s'.taken == s.taken + RecordHeader(s.count, r) + r.payload
    requires Good(s') ==> s'.written == Wrap(Wrap(Wrap(|s.taken|) + |RecordHeader(s.count, r)|) + |r.payload|)
    ensures Follows(s', created, counted + [r], [])
  {
    hide RecordHeader, LogBytes, Wrap;
    WrapSum(|counted|, 1);
    WrapSum(|s.taken|, |RecordHeader(s.count, r)|);
    WrapSum(|s.taken| + |RecordHeader(s.count, r)|, |r.payload|);
    assert counted + [r] + [] == counted + [r];
    assert LogBytes(created, counted + [r]) == s'.taken;
  }

  // Whole runs.

  ghost predicate WriterRun(ss: seq<WriterState>, ops: seq<Op>, oks: seq<bool>, codec: Codec, every: nat) {
    && |ss| == |ops| + 1 == |oks| + 1
    && forall i :: 0 <= i < |ops| ==> OpStep(ss[i], ss[i + 1], ops[i], codec, every, oks[i])
  }

  /** The records of the appends that returned true. */
  ghost function Acknowledged(ops: seq<Op>, oks: seq<bool>, codec: Codec): seq<Record>
    requires |ops| == |oks|
  {
    if ops == [] then []
    else
      var n := |ops| - 1;
      Acknowledged(ops[..n], oks[..n], codec) + AcknowledgedBy(ops[n], oks[n], codec)
  }

  ghost function AcknowledgedBy(op: Op, ok: bool, codec: Codec): seq<Record> {
    if ok then RequestedBy(op, codec) else []
  }

  /** The records of all appends that the writer does not refuse, in the order of the calls. */
  ghost function Requests(ops: seq<Op>, codec: Codec): seq<Record> {
    if ops == [] then []
    else Requests(ops[..|ops| - 1], codec) + RequestedBy(ops[|ops| - 1], codec)
  }

  ghost function RequestedBy(op: Op, codec: Codec): seq<Record> {
    if op.Append? && Encoded(op.event, op.arrival, codec).Some? then
      [Encoded(op.event, op.arrival, codec).value]
    else []
  }

  /** Over every run of a writer whose header got through, whatever part of whatever write fails:
      the stream holds the header, the acknowledged records in order, and at most one more
      record, whole or in part, whose append returned false and which is the last thing written. */
  lemma {:induction false} WriterRunFollows(ss: seq<WriterState>, ops: seq<Op>, oks: seq<bool>, created: I64,
          codec: Codec, every: nat)
      returns (counted: seq<Record>, attempted: seq<Record>)
    requires WriterRun(ss, ops, oks, codec, every)
    requires Good(ss[0]) && Follows(ss[0], created, [], [])
    ensures Follows(ss[|ops|], created, counted, attempted)
    ensures var acknowledged := Acknowledged(ops, oks, codec);
      && acknowledged <= counted
      && |counted| + |attempted| <= |acknowledged| + 1
      && (Good(ss[|ops|]) ==> counted == acknowledged && attempted == [])
    ensures counted + attempted <= Requests(ops, codec)
    decreases |ops|
  {
    hide Follows, Good, OpStep, Encoded;
    if ops == [] {
      counted, attempted := [], [];
    } else {
      var n := |ops| - 1;
      counted, attempted := WriterRunFollows(ss[..n + 1], ops[..n], oks[..n], created, codec, every);
      assert OpStep(ss[n], ss[n + 1], ops[n], codec, every, oks[n]);
      if Good(ss[n]) {
        AllAcknowledged(ss[..n + 1], ops[..n], oks[..n], codec, every);
      }
      var counted', attempted' := CallFollows(ss[n], ss[n + 1], ops[n], codec, every, oks[n], created, counted,
          attempted);
      counted, attempted := counted', attempted';
    }
  }

  /** As long as the writer is good, every append was acknowledged. */
  lemma {:induction false} AllAcknowledged(ss: seq<WriterState>, ops: seq<Op>, oks: seq<bool>, codec: Codec, every: nat)
    requires WriterRun(ss, ops, oks, codec, every)
    requires Good(ss[|ops|])
    ensures Acknowledged(ops, oks, codec) == Requests(ops, codec)
    decreases |ops|
  {
    hide AfterRecord, Encoded, Possible;
    if ops == [] {
    } else {
      var n := |ops| - 1;
      var s, s' := ss[n], ss[n + 1];
      assert OpStep(s, s', ops[n], codec, every, oks[n]);
      GoodExactly(s, s', ops[n], codec, every, oks[n]);
      AllAcknowledged(ss[..n + 1], ops[..n], oks[..n], codec, every);
    }
  }

  /** One call keeps the stream so. */
  lemma CallFollows(s: WriterState, s': WriterState, op: Op, codec: Codec, every: nat, ok: bool,
                    created: I64, counted: seq<Record>, attempted: seq<Record>)
      returns (counted': seq<Record>, attempted': seq<Record>)
    requires OpStep(s, s', op, codec, every, ok)
    requires Follows(s, created, counted, attempted)
    ensures Follows(s', created, counted', attempted')
    ensures !Good(s) ==> !ok && !Good(s') && counted' == counted && attempted' == attempted
    ensures Good(s) && !Good(s') ==> !ok && counted <= counted'
    ensures Good(s) && !Good(s') ==>
        counted' + attempted' == counted || counted' + attempted' == counted + RequestedBy(op, codec)
    ensures Good(s) && Good(s') ==> counted' == counted + AcknowledgedBy(op, ok, codec) && attempted' == []
  {
    hide Follows, AfterRecord, Encoded, Possible;
    counted', attempted' := counted, attempted;
    if Good(s) {
      NothingAttempted(s, created, counted, attempted);
      match op
      case Flush =>
        FlushFollows(s, created, counted);
      case Append(event, arrival) =>
        if Encoded(event, arrival, codec).None? {
          RefusalFollows(s, created, counted);
        } else {
          var r := Encoded(event, arrival, codec).value;
          var outcome :| Possible(s, r, every, outcome) && s' == AfterRecord(s, r, every, outcome)
              && ok == (outcome == Stored);
          StepFollows(s, created, counted, r, every, outcome);
          RecordOutcome(s, r, every, outcome);
          if outcome.Stored? || outcome.FlushFailed? {
            counted' := counted + [r];
          } else {
            attempted' := [r];
          }
        }
    }
  }

  lemma NothingAttempted(s: WriterState, created: I64, counted: seq<Record>, attempted: seq<Record>)
    requires Good(s) && Follows(s, created, counted, attempted)
    ensures attempted == []
  {
  }

  lemma FlushFollows(s: WriterState, created: I64, counted: seq<Record>)
    requires Good(s) && Follows(s, created, counted, [])
    ensures Follows(AfterFlush(s), created, counted, []) && Follows(AfterBadFlush(s), created, counted, [])
  {
    hide LogBytes;
  }

  lemma RefusalFollows(s: WriterState, created: I64, counted: seq<Record>)
    requires Good(s) && Follows(s, created, counted, [])
    ensures Follows(s.(failed := true), created, counted, [])
  {
    hide LogBytes;
  }

  /** A writer is good exactly as long as every call has succeeded: a refused event, too, makes it
      fail for good. */
  lemma {:induction false} GoodIffAllOk(ss: seq<WriterState>, ops: seq<Op>, oks: seq<bool>, codec: Codec, every: nat)
    requires WriterRun(ss, ops, oks, codec, every)
    requires Good(ss[0])
    ensures Good(ss[|ops|]) <==> forall i :: 0 <= i < |oks| ==> oks[i]
    decreases |ops|
  {
    hide Good, OpStep;
    if ops == [] {
    } else {
      var n := |ops| - 1;
      assert OpStep(ss[n], ss[n + 1], ops[n], codec, every, oks[n]);
      GoodExactly(ss[n], ss[n + 1], ops[n], codec, every, oks[n]);
      GoodIffAllOk(ss[..n + 1], ops[..n], oks[..n], codec, every);
      assert forall i :: 0 <= i < n ==> oks[..n][i] == oks[i];
    }
  }

  lemma GoodExactly(s: WriterState, s': WriterState, op: Op, codec: Codec, every: nat, ok: bool)
    requires OpStep(s, s', op, codec, every, ok)
    ensures Good(s') <==> Good(s) && ok
    ensures ok ==> Good(s)
  {
    hide AfterRecord, Encoded, Possible;
    if Good(s) && op.Append? && Encoded(op.event, op.arrival, codec).Some? {
      var r := Encoded(op.event, op.arrival, codec).value;
      var outcome :| Possible(s, r, every, outcome) && s' == AfterRecord(s, r, every, outcome)
          && ok == (outcome == Stored);
      RecordOutcome(s, r, every, outcome);
    }
  }

  /** Once a writer is no longer good, no call succeeds and nothing is ever written again. */
  lemma {:induction false} NothingAfterFailure(ss: seq<WriterState>, ops: seq<Op>, oks: seq<bool>, codec: Codec,
          every: nat, i: nat, j: nat)
    requires WriterRun(ss, ops, oks, codec, every)
    requires i <= j < |ss|
    requires !Good(ss[i])
    ensures ss[j] == ss[i]
    ensures forall k :: i <= k < j ==> !oks[k]
    decreases j
  {
    if i < j {
      NothingAfterFailure(ss, ops, oks, codec, every, i, j - 1);
      assert OpStep(ss[j - 1], ss[j], ops[j - 1], codec, every, oks[j - 1]);
    }
  }

  // What survives.

  /** Every acknowledged record up to the last one at which a flush was due has been flushed. */
  ghost predicate Secured(s: WriterState, acknowledged: seq<Record>, every: nat) {
    forall m: nat :: 0 < m <= |acknowledged| && FlushDue(Wrap(m), every) ==>
        FILE_HEADER_SIZE + SizeOf(acknowledged[..m]) <= s.flushed
  }

  lemma StillSecured(s: WriterState, s': WriterState, acknowledged: seq<Record>, every: nat)
    requires Secured(s, acknowledged, every) && s.flushed <= s'.flushed
    ensures Secured(s', acknowledged, every)
  {
    hide SizeOf, FlushDue, Wrap;
  }

  lemma OneMoreSecured(s: WriterState, s': WriterState, acknowledged: seq<Record>, r: Record, every: nat)
    requires Secured(s, acknowledged, every) && s.flushed <= s'.flushed
    requires FlushDue(Wrap(|acknowledged| + 1), every) ==>
        FILE_HEADER_SIZE + SizeOf(acknowledged + [r]) <= s'.flushed
    ensures Secured(s', acknowledged + [r], every)
  {
    hide SizeOf, FlushDue, Wrap;
    var more := acknowledged + [r];
    forall m: nat | 0 < m <= |more| && FlushDue(Wrap(m), every)
      ensures FILE_HEADER_SIZE + SizeOf(more[..m]) <= s'.flushed
    {
      if m <= |acknowledged| {
        assert more[..m] == acknowledged[..m];
      } else {
        assert more[..m] == more;
      }
    }
  }

  lemma StoredFlushes(s: WriterState, r: Record, every: nat)
    requires Possible(s, r, every, Stored)
    ensures var s' := AfterRecord(s, r, every, Stored);
      FlushDue(Wrap(s.count + 1), every) ==> s'.flushed == |s'.taken|
  {
    hide RecordHeader, Wrap;
  }

  lemma StoredSecured(s: WriterState, r: Record, created: I64, acknowledged: seq<Record>, every: nat)
    requires Good(s) && Follows(s, created, acknowledged, []) && Secured(s, acknowledged, every)
    requires Possible(s, r, every, Stored)
    ensures Secured(AfterRecord(s, r, every, Stored), acknowledged + [r], every)
  {
    hide *;
    var s' := AfterRecord(s, r, every, Stored);
    OnStream(s, created, acknowledged);
    StepFollows(s, created, acknowledged, r, every, Stored);
    OnStream(s', created, acknowledged + [r]);
    RecordOutcome(s, r, every, Stored);
    StoredFlushes(s, r, every);
    WrapSum(|acknowledged|, 1);
    LogBytesSize(created, acknowledged + [r]);
    OneMoreSecured(s, s', acknowledged, r, every);
  }

  lemma CallSecured(s: WriterState, s': WriterState, op: Op, codec: Codec, every: nat, ok: bool, created: I64,
          acknowledged: seq<Record>)
    requires OpStep(s, s', op, codec, every, ok)
    requires s.flushed <= |s.taken| && Secured(s, acknowledged, every)
    requires Good(s) ==> Follows(s, created, acknowledged, [])
    ensures s.flushed <= s'.flushed
    ensures Secured(s', acknowledged + AcknowledgedBy(op, ok, codec), every)
  {
    hide Follows, AfterRecord, Encoded, Possible, Secured, Good;
    assert acknowledged + [] == acknowledged;
    if Good(s) && op.Append? && Encoded(op.event, op.arrival, codec).Some? {
      var r := Encoded(op.event, op.arrival, codec).value;
      var outcome :| Possible(s, r, every, outcome) && s' == AfterRecord(s, r, every, outcome)
          && ok == (outcome == Stored);
      RecordOutcome(s, r, every, outcome);
      if ok {
        StoredSecured(s, r, created, acknowledged, every);
      } else {
        StillSecured(s, s', acknowledged, every);
      }
    } else {
      StillSecured(s, s', acknowledged, every);
    }
  }

  lemma CallGrows(s: WriterState, s': WriterState, op: Op, codec: Codec, every: nat, ok: bool)
    requires OpStep(s, s', op, codec, every, ok) && s.flushed <= |s.taken|
    ensures s.flushed <= s'.flushed <= |s'.taken|
    ensures Good(s) && op.Flush? && ok ==> s'.flushed == |s.taken|
  {
    hide AfterRecord, Encoded, Possible;
    if Good(s) && op.Append? && Encoded(op.event, op.arrival, codec).Some? {
      var r := Encoded(op.event, op.arrival, codec).value;
      var outcome :| Possible(s, r, every, outcome) && s' == AfterRecord(s, r, every, outcome)
          && ok == (outcome == Stored);
      RecordOutcome(s, r, every, outcome);
    }
  }

  lemma {:induction false} FlushedGrows(ss: seq<WriterState>, ops: seq<Op>, oks: seq<bool>, codec: Codec, every: nat,
          i: nat, j: nat)
    requires WriterRun(ss, ops, oks, codec, every)
    requires i <= j < |ss| && ss[i].flushed <= |ss[i].taken|
    ensures ss[i].flushed <= ss[j].flushed <= |ss[j].taken|
    decreases j
  {
    hide OpStep;
    if i < j {
      FlushedGrows(ss, ops, oks, codec, every, i, j - 1);
      assert OpStep(ss[j - 1], ss[j], ops[j - 1], codec, every, oks[j - 1]);
      CallGrows(ss[j - 1], ss[j], ops[j - 1], codec, every, oks[j - 1]);
    }
  }

  /** A flush that reports success has flushed everything there was, for good. */
  lemma FlushSecures(ss: seq<WriterState>, ops: seq<Op>, oks: seq<bool>, codec: Codec, every: nat, i: nat, j: nat)
    requires WriterRun(ss, ops, oks, codec, every)
    requires ss[0].flushed <= |ss[0].taken|
    requires i < j < |ss| && ops[i].Flush? && oks[i]
    ensures |ss[i].taken| <= ss[j].flushed
  {
    hide OpStep;
    FlushedGrows(ss, ops, oks, codec, every, 0, i);
    FlushedGrows(ss, ops, oks, codec, every, 0, i + 1);
    FlushedGrows(ss, ops, oks, codec, every, i + 1, j);
    assert OpStep(ss[i], ss[i + 1], ops[i], codec, every, oks[i]);
    CallGrows(ss[i], ss[i + 1], ops[i], codec, every, oks[i]);
    GoodExactly(ss[i], ss[i + 1], ops[i], codec, every, oks[i]);
  }

  /** Over every run, the flushed part holds every acknowledged record up to the last one whose
      number calls for a flush. */
  lemma {:induction false} RunSecured(ss: seq<WriterState>, ops: seq<Op>, oks: seq<bool>, created: I64, codec: Codec,
          every: nat)
    requires WriterRun(ss, ops, oks, codec, every)
    requires Good(ss[0]) && Follows(ss[0], created, [], [])
    ensures Secured(ss[|ops|], Acknowledged(ops, oks, codec), every)
    decreases |ops|
  {
    hide Follows, Good, OpStep, Encoded, Secured;
    if ops == [] {
      NothingToSecure(ss[0], every);
    } else {
      var n := |ops| - 1;
      var counted, attempted := WriterRunFollows(ss[..n + 1], ops[..n], oks[..n], created, codec, every);
      FlushedWithin(ss[n], created, counted, attempted);
      RunSecured(ss[..n + 1], ops[..n], oks[..n], created, codec, every);
      assert OpStep(ss[n], ss[n + 1], ops[n], codec, every, oks[n]);
      CallSecured(ss[n], ss[n + 1], ops[n], codec, every, oks[n], created, Acknowledged(ops[..n], oks[..n], codec));
    }
  }

  lemma FlushedWithin(s: WriterState, created: I64, counted: seq<Record>, attempted: seq<Record>)
    requires Follows(s, created, counted, attempted)
    ensures s.flushed <= |s.taken|
  {
    hide LogBytes;
  }

  lemma NothingToSecure(s: WriterState, every: nat)
    ensures Secured(s, [], every)
  {
  }

  /** In particular, below 2^64 records, every acknowledged record up to the last multiple of the
      interval. */
  lemma FlushedUpTo(ss: seq<WriterState>, ops: seq<Op>, oks: seq<bool>, created: I64, codec: Codec, every: nat, m: nat)
    requires WriterRun(ss, ops, oks, codec, every)
    requires Good(ss[0]) && Follows(ss[0], created, [], [])
    requires |ops| == |oks|
    requires 0 < m <= |Acknowledged(ops, oks, codec)| && m < TWO_64
    requires every > 0 && m % every == 0
    ensures FILE_HEADER_SIZE + SizeOf(Acknowledged(ops, oks, codec)[..m]) <= ss[|ops|].flushed
  {
    assert FlushDue(Wrap(m), every);
    hide *;
    RunSecured(ss, ops, oks, created, codec, every);
    SecuredAt(ss[|ops|], Acknowledged(ops, oks, codec), every, m);
  }

  lemma SecuredAt(s: WriterState, acknowledged: seq<Record>, every: nat, m: nat)
    requires Secured(s, acknowledged, every)
    requires 0 < m <= |acknowledged| && FlushDue(Wrap(m), every)
    ensures FILE_HEADER_SIZE + SizeOf(acknowledged[..m]) <= s.flushed
  {
    hide SizeOf, FlushDue, Wrap;
  }

  lemma RequestsLoadable(ops: seq<Op>, codec: Codec)
    requires RoundTrips(codec)
    ensures AllLoadable(Requests(ops, codec), codec)
  {
    if ops != [] {
      RequestsLoadable(ops[..|ops| - 1], codec);
    }
  }

  /** Writer, crash and reader together: whatever part of what the writer's stream took a crash
      leaves on disk, past the file header, reading it yields a prefix of the requested records
      that the writer got to, as a complete log or as a truncated one, and never as a corrupt one. */
  lemma CrashedRunReads(ss: seq<WriterState>, ops: seq<Op>, oks: seq<bool>, created: I64, codec: Codec, every: nat,
                        cut: nat, limit: nat, retain: bool)
      returns (rs: seq<Record>, n: nat)
    requires RoundTrips(codec)
    requires WriterRun(ss, ops, oks, codec, every)
    requires Good(ss[0]) && Follows(ss[0], created, [], [])
    requires FILE_HEADER_SIZE <= cut <= |ss[|ops|].taken|
    requires |Requests(ops, codec)| <= limit < TWO_64
    ensures AllLoadable(rs, codec)
    ensures Acknowledged(ops, oks, codec) <= rs <= Requests(ops, codec)
    ensures |rs| <= |Acknowledged(ops, oks, codec)| + 1
    ensures n <= |rs|
    ensures var r := ReadBytes(ss[|ops|].taken[..cut], limit, retain, codec);
      && r.status == (if cut == FILE_HEADER_SIZE + SizeOf(rs[..n]) then Complete else TruncatedTail)
      && r.index == Entries(FoundOf(FILE_HEADER_SIZE, 0, rs[..n], codec))
      && r.records == if retain then LogRecords(FoundOf(FILE_HEADER_SIZE, 0, rs[..n], codec)) else []
    ensures cut == |ss[|ops|].taken| ==> n >= |Acknowledged(ops, oks, codec)|
    ensures ss[|ops|].flushed <= cut ==> ReachesFlushes(n, |Acknowledged(ops, oks, codec)|, every)
  {
    assert |ss| == |ops| + 1 && |oks| == |ops|;
    hide *;
    var whole;
    rs, whole := RunImage(ss, ops, oks, created, codec, every);
    ImagePrefix(ss[|ops|].taken, LogBytes(created, rs), cut);
    n := CrashSafe(created, rs, cut, limit, retain, codec);
    if n < whole {
      SizeOfGrows(rs, n + 1, whole);
    }
    RunSecured(ss, ops, oks, created, codec, every);
    if ss[|ops|].flushed <= cut {
      FlushedRead(ss[|ops|], Acknowledged(ops, oks, codec), rs, n, cut, every);
    }
  }

  /** The first `n` of `acknowledged` records reach as far as the flushes that were due. */
  ghost predicate ReachesFlushes(n: nat, acknowledged: nat, every: nat) {
    forall m: nat :: 0 < m <= acknowledged && FlushDue(Wrap(m), every) ==> m <= n
  }

  lemma FlushedRead(s: WriterState, acknowledged: seq<Record>, rs: seq<Record>, n: nat, cut: nat, every: nat)
    requires Secured(s, acknowledged, every) && acknowledged <= rs && s.flushed <= cut
    requires n <= |rs| && (n < |rs| ==> cut < FILE_HEADER_SIZE + SizeOf(rs[..n + 1]))
    ensures ReachesFlushes(n, |acknowledged|, every)
  {
    hide SizeOf, FlushDue, Wrap;
    forall m: nat | 0 < m <= |acknowledged| && FlushDue(Wrap(m), every) ensures m <= n {
      assert acknowledged[..m] == rs[..m];
      if n < m {
        SizeOfGrows(rs, n + 1, m);
      }
    }
  }

  lemma ImagePrefix(image: seq<Byte>, log: seq<Byte>, cut: nat)
    requires cut <= |image| && image <= log
    ensures cut <= |log| && image[..cut] == log[..cut]
  {
  }

  /** The stream after a run, as part of a log: `whole` of its records are certainly there. */
  lemma RunImage(ss: seq<WriterState>, ops: seq<Op>, oks: seq<bool>, created: I64, codec: Codec, every: nat)
      returns (rs: seq<Record>, whole: nat)
    requires RoundTrips(codec)
    requires WriterRun(ss, ops, oks, codec, every)
    requires Good(ss[0]) && Follows(ss[0], created, [], [])
    ensures AllLoadable(rs, codec)
    ensures Acknowledged(ops, oks, codec) <= rs <= Requests(ops, codec)
    ensures |rs| <= |Acknowledged(ops, oks, codec)| + 1
    ensures |Acknowledged(ops, oks, codec)| <= whole <= |rs|
    ensures FILE_HEADER_SIZE + SizeOf(rs[..whole]) <= |ss[|ops|].taken|
    ensures ss[|ops|].taken <= LogBytes(created, rs)
  {
    hide Acknowledged, RoundTrips, LogBytes, Requests, SizeOf, Good, OpStep, Loadable;
    var counted, attempted := WriterRunFollows(ss, ops, oks, created, codec, every);
    rs, whole := counted + attempted, |counted|;
    assert rs[..whole] == counted;
    LogBytesSize(created, counted);
    RequestsLoadable(ops, codec);
  }

  lemma LogBytesSize(created: I64, rs: seq<Record>)
    ensures |LogBytes(created, rs)| == FILE_HEADER_SIZE + SizeOf(rs)
  {
    hide FileHeader, RecordsBytes, SizeOf;
    RecordsBytesSize(0, rs);
  }

  lemma SizeOfGrows(rs: seq<Record>, m: nat, n: nat)
    requires m <= n <= |rs|
    ensures SizeOf(rs[..m]) <= SizeOf(rs[..n])
  {
    hide RecordsBytes, SizeOf;
    RecordsBytesSplit(0, rs[..n], m);
    assert rs[..n][..m] == rs[..m];
  }
}
