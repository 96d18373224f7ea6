/** Which files are, byte for byte, logs that the writer lays down. The reader checks neither the
    flags nor the reserved bytes of the file header, nor whether a payload is what the event in it
    is serialised to; these are all that it leaves open. */
module Canonicity {
  import opened Octets
  import opened Bytes
  import opened Castagnoli
  import opened Telemetry
  import opened LogFormat
  import opened RecordCodec
  import opened LogTheorems
  import opened LogWriting
  import opened Replay

  /** A file header with anything in the bytes that the reader does not check, under its own checksum. */
  function OpenHeader(created: I64, flags: seq<Byte>, reserved: seq<Byte>): (h: seq<Byte>)
    requires |flags| == 4 && |reserved| == 4
    ensures |h| == FILE_HEADER_SIZE
  {
    var body := OpenHeaderBody(created, flags, reserved);
    body + WordBytes(Checksum(body))
  }

  function OpenHeaderBody(created: I64, flags: seq<Byte>, reserved: seq<Byte>): (body: seq<Byte>)
    requires |flags| == 4 && |reserved| == 4
    ensures |body| == 28
  {
    FILE_MAGIC + EncodeLE(LOG_FORMAT_VERSION, 2) + EncodeLE(FILE_HEADER_SIZE, 2) + flags
    + EncodeLE(ToUnsigned(created), 8) + reserved
  }

  lemma OpenHeaderFields(created: I64, flags: seq<Byte>, reserved: seq<Byte>)
    requires |flags| == 4 && |reserved| == 4
    ensures var h := OpenHeader(created, flags, reserved);
      && h[..8] == FILE_MAGIC
      && h[8..10] == EncodeLE(LOG_FORMAT_VERSION, 2)
      && h[10..12] == EncodeLE(FILE_HEADER_SIZE, 2)
      && h[12..16] == flags
      && h[16..24] == EncodeLE(ToUnsigned(created), 8)
      && h[24..28] == reserved
      && h[28..32] == WordBytes(Checksum(h[..28]))
  {
    hide EncodeLE, WordBytes, Checksum;
    assert OpenHeader(created, flags, reserved)[..28] == OpenHeaderBody(created, flags, reserved);
  }

  /** Whatever the flags and the reserved bytes hold, there is an intact header that holds them. */
  lemma AnyFlagsIntact(created: I64, flags: seq<Byte>, reserved: seq<Byte>)
    requires |flags| == 4 && |reserved| == 4
    ensures var h := OpenHeader(created, flags, reserved);
      HeaderIntact(h) && h[12..16] == flags && h[24..28] == reserved && SignedField(h[16..24]) == created
  {
    OpenHeaderFields(created, flags, reserved);
    SmallFields();
    hide OpenHeader, FILE_MAGIC, EncodeLE, DecodeLE, WordBytes, Word, Checksum, SignedField;
    WordOfBytes(Checksum(OpenHeader(created, flags, reserved)[..28]));
    SignedFieldPrinted(created);
  }

  /** An intact header is made up of its time, flags and reserved bytes. */
  lemma IntactIsOpen(h: seq<Byte>)
    requires HeaderIntact(h)
    ensures h == OpenHeader(SignedField(h[16..24]), h[12..16], h[24..28])
  {
    RadixValues();
    hide EncodeLE, DecodeLE, WordBytes, Word, Checksum, SignedField;
    EncodeDecode(h[8..10]);
    EncodeDecode(h[10..12]);
    SignedFieldParsed(h[16..24]);
    BytesOfWord(h[28..32]);
    UpTo(h, 8, 10);
    UpTo(h, 10, 12);
    UpTo(h, 12, 16);
    UpTo(h, 16, 24);
    UpTo(h, 24, 28);
    UpTo(h, 28, 32);
    assert h[..32] == h;
  }

  predicate NothingReserved(h: seq<Byte>) {
    |h| == FILE_HEADER_SIZE && h[12..16] == EncodeLE(0, 4) && h[24..28] == EncodeLE(0, 4)
  }

  lemma WrittenIsOpen(created: I64)
    ensures FileHeader(created) == OpenHeader(created, EncodeLE(0, 4), EncodeLE(0, 4))
  {
    hide EncodeLE, WordBytes, Checksum;
  }

  /** An intact header is one that the writer lays down if and only if the bytes that the reader
      leaves open are zero. */
  lemma WrittenHeaderExactly(h: seq<Byte>)
    requires HeaderIntact(h)
    ensures (exists created: I64 :: h == FileHeader(created)) <==> NothingReserved(h)
  {
    IntactIsOpen(h);
    hide HeaderIntact, EncodeLE, OpenHeader, FileHeader, SignedField;
    if created: I64 :| h == FileHeader(created) {
      WrittenIsOpen(created);
      OpenHeaderFields(created, EncodeLE(0, 4), EncodeLE(0, 4));
    }
    if NothingReserved(h) {
      WrittenIsOpen(SignedField(h[16..24]));
    }
  }

  // Whole files.

  /** A record that the writer makes of some event and arrival time. */
  ghost predicate Encodes(r: Record, codec: Codec) {
    exists event: Event, arrival: I64 :: Encoded(event, arrival, codec) == Some(r)
  }

  ghost predicate AllEncode(rs: seq<Record>, codec: Codec) {
    forall i :: 0 <= i < |rs| ==> Encodes(rs[i], codec)
  }

  /** Those are the loadable records whose payload is its event's own encoding. */
  lemma EncodesExactly(r: Record, codec: Codec)
    requires RoundTrips(codec)
    ensures Encodes(r, codec) <==> Loadable(r, codec) && codec.serialize(EventOf(r, codec)) == Some(r.payload)
  {
    if Loadable(r, codec) && codec.serialize(EventOf(r, codec)) == Some(r.payload) {
      assert Encoded(EventOf(r, codec), r.arrival, codec) == Some(r);
    }
  }

  /** A log that the writer lays down for some events. */
  ghost predicate Written(file: seq<Byte>, limit: nat, codec: Codec) {
    exists created: I64, rs :: AllEncode(rs, codec) && |rs| <= limit && file == LogBytes(created, rs)
  }

  /** Every event that was read is serialised to the payload that it was read from. */
  predicate OwnEncodings(file: seq<Byte>, r: ReadResult, codec: Codec) {
    |r.index| == |r.records|
    && forall k :: 0 <= k < |r.records| ==>
        codec.serialize(r.records[k].event)
        == PayloadAt(file, r.index[k].fileOffset + RECORD_HEADER_SIZE, r.index[k].payloadSize)
  }

  lemma RecordRead(created: I64, rs: seq<Record>, k: nat, codec: Codec)
    requires AllLoadable(rs, codec) && k < |rs|
    ensures var f := FoundOf(FILE_HEADER_SIZE, 0, rs, codec)[k];
      && f.event == EventOf(rs[k], codec)
      && PayloadAt(LogBytes(created, rs), f.entry.fileOffset + RECORD_HEADER_SIZE, f.entry.payloadSize)
         == Some(rs[k].payload)
  {
    hide FoundOf, LogBytes, SizeOf, Loadable, EventOf, Checksum;
    FoundOfAt(FILE_HEADER_SIZE, 0, rs, k, codec);
    PayloadOnDisk(created, rs, k);
  }

  /** What reading a laid down log says about the encodings in it. */
  lemma EncodingsRead(created: I64, rs: seq<Record>, limit: nat, codec: Codec)
    requires RoundTrips(codec) && AllLoadable(rs, codec)
    requires |rs| <= limit < TWO_64
    ensures ReadBytes(LogBytes(created, rs), limit, true, codec).status == Complete
    ensures OwnEncodings(LogBytes(created, rs), ReadBytes(LogBytes(created, rs), limit, true, codec), codec)
       <==> AllEncode(rs, codec)
  {
    hide FoundOf, LogBytes, Loadable, EventOf, Encodes, RoundTrips, PayloadAt, ReadBytes;
    var file, found := LogBytes(created, rs), FoundOf(FILE_HEADER_SIZE, 0, rs, codec);
    LogRoundTrips(created, rs, limit, true, codec);
    var r := ReadBytes(file, limit, true, codec);
    forall k | 0 <= k < |rs|
      ensures Encodes(rs[k], codec)
         <==> (codec.serialize(r.records[k].event)
               == PayloadAt(file, r.index[k].fileOffset + RECORD_HEADER_SIZE, r.index[k].payloadSize))
    {
      RecordRead(created, rs, k, codec);
      EncodesExactly(rs[k], codec);
      assert r.index[k] == found[k].entry && r.records[k].event == found[k].event;
    }
  }

  lemma EncodeLoadable(rs: seq<Record>, codec: Codec)
    requires RoundTrips(codec) && AllEncode(rs, codec)
    ensures AllLoadable(rs, codec)
  {
    hide Encodes, RoundTrips, EventOf;
    forall i | 0 <= i < |rs| ensures Loadable(rs[i], codec) {
      EncodesExactly(rs[i], codec);
    }
  }

  /** A file is one that the writer lays down if and only if it reads complete, the bytes of its
      header that the reader leaves open are zero, and every event in it is in its own encoding. */
  lemma WrittenExactly(header: seq<Byte>, body: seq<Byte>, limit: nat, codec: Codec)
    requires RoundTrips(codec)
    requires |header| == FILE_HEADER_SIZE && limit < TWO_64
    ensures var r := ReadBytes(header + body, limit, true, codec);
      Written(header + body, limit, codec)
      <==> r.status == Complete && NothingReserved(header) && OwnEncodings(header + body, r, codec)
  {
    hide HeaderIntact, RecordsBytes, FileHeader, ReadBytes, NothingReserved, AllLoadable, AllEncode, OwnEncodings,
        RoundTrips;
    if created: I64, rs :| AllEncode(rs, codec) && |rs| <= limit && header + body == LogBytes(created, rs) {
      SameParts(header, body, FileHeader(created), RecordsBytes(0, rs));
      FileHeaderIntact(created);
      WrittenHeaderExactly(header);
      EncodeLoadable(rs, codec);
      EncodingsRead(created, rs, limit, codec);
    }
    var r := ReadBytes(header + body, limit, true, codec);
    if r.status == Complete && NothingReserved(header) && OwnEncodings(header + body, r, codec) {
      CompleteExactly(header, body, limit, true, codec);
      WrittenHeaderExactly(header);
      var created: I64 :| header == FileHeader(created);
      var rs :| AllLoadable(rs, codec) && |rs| <= limit && body == RecordsBytes(0, rs);
      EncodingsRead(created, rs, limit, codec);
      assert header + body == LogBytes(created, rs);
    }
  }

  lemma SameParts(a: seq<Byte>, b: seq<Byte>, c: seq<Byte>, d: seq<Byte>)
    requires |a| == |c| && a + b == c + d
    ensures a == c && b == d
  {
    assert a == (a + b)[..|a|] && c == (c + d)[..|c|];
    assert b == (a + b)[|a|..] && d == (c + d)[|c|..];
  }

  // What the reader leaves open.

  /** An input on which the format's promise of zero bytes goes unchecked: an empty log with a flag
      set reads complete, and the writer never lays it down. */
  lemma FlaggedLogReads(created: I64, limit: nat, codec: Codec)
    requires RoundTrips(codec) && limit < TWO_64
    ensures var h := OpenHeader(created, [1, 0, 0, 0], [0, 0, 0, 0]);
      && ReadBytes(h, limit, false, codec).status == Complete
      && !Written(h, limit, codec)
  {
    var h := OpenHeader(created, [1, 0, 0, 0], [0, 0, 0, 0]);
    AnyFlagsIntact(created, [1, 0, 0, 0], [0, 0, 0, 0]);
    NotZero();
    hide OpenHeader, EncodeLE, ReadBytes, HeaderIntact, RecordsBytes, RoundTrips, OwnEncodings, Written;
    assert h + [] == h;
    assert RecordsBytes(0, []) == [] by {
      NoRecords();
    }
    var none: seq<Record> := [];
    assert AllLoadable(none, codec) && |none| <= limit;
    CompleteExactly(h, [], limit, false, codec);
    WrittenExactly(h, [], limit, codec);
  }

  /** And one on which a payload goes unchecked: a log of one record whose payload parses to an event
      that is serialised to something else. It reads complete, with nothing set in its header. */
  lemma ForeignEncodingReads(created: I64, r: Record, limit: nat, codec: Codec)
    requires RoundTrips(codec) && Loadable(r, codec)
    requires codec.serialize(EventOf(r, codec)) != Some(r.payload)
    requires 1 <= limit < TWO_64
    ensures ReadBytes(LogBytes(created, [r]), limit, false, codec).status == Complete
    ensures NothingReserved(LogBytes(created, [r])[..FILE_HEADER_SIZE])
    ensures !Written(LogBytes(created, [r]), limit, codec)
  {
    assert AllLoadable([r], codec);
    assert !AllEncode([r], codec) by {
      EncodesExactly(r, codec);
      assert [r][0] == r;
    }
    hide HeaderIntact, RecordsBytes, FileHeader, ReadBytes, NothingReserved, AllLoadable, AllEncode, OwnEncodings,
        RoundTrips, Written, Loadable, EventOf;
    EncodingsRead(created, [r], limit, codec);
    LogRoundTrips(created, [r], limit, false, codec);
    FileHeaderIntact(created);
    WrittenHeaderExactly(FileHeader(created));
    assert LogBytes(created, [r])[..FILE_HEADER_SIZE] == FileHeader(created);
    WrittenExactly(FileHeader(created), RecordsBytes(0, [r]), limit, codec);
  }

  /** An encoding of one event, which carries a schema version and nothing else: field 1, as a
      variable-length integer, which the parser accepts in one byte more than it needs. */
  const BARE: Event := Event(SCHEMA_VERSION, "", 0, 0, CLOCK_UNSPECIFIED, NoPayload)

  function BareCodec(): Codec {
    Codec(event => if event == BARE then Some([8, 1]) else None,
          payload => if payload == [8, 1] || payload == [8, 129, 0] then Some(BARE) else None)
  }

  lemma OverlongVersionReads(created: I64, limit: nat)
    requires 1 <= limit < TWO_64
    ensures var file := LogBytes(created, [Record(0, [8, 129, 0])]);
      && RoundTrips(BareCodec())
      && ReadBytes(file, limit, false, BareCodec()).status == Complete
      && NothingReserved(file[..FILE_HEADER_SIZE])
      && !Written(file, limit, BareCodec())
  {
    var r := Record(0, [8, 129, 0]);
    assert RoundTrips(BareCodec());
    assert Loadable(r, BareCodec()) && EventOf(r, BareCodec()) == BARE;
    var own: seq<Byte> := [8, 1];
    assert |own| != |r.payload| && BareCodec().serialize(BARE) == Some(own);
    hide *;
    ForeignEncodingReads(created, r, limit, BareCodec());
  }

  // The runs of the writer.

  /** Whatever a run has laid down while the writer is good is such a file. */
  lemma RunIsWritten(ss: seq<WriterState>, ops: seq<Op>, oks: seq<bool>, created: I64, codec: Codec, every: nat,
          limit: nat)
    requires WriterRun(ss, ops, oks, codec, every)
    requires Good(ss[0]) && Follows(ss[0], created, [], [])
    requires Good(ss[|ops|]) && |Acknowledged(ops, oks, codec)| <= limit
    ensures Written(ss[|ops|].taken, limit, codec)
  {
    hide WriterRun, Good, Follows, Acknowledged, Requests, Encodes, LogBytes;
    assert |oks| == |ops| && |ss| == |ops| + 1 by {
      RunLengths(ss, ops, oks, codec, every);
    }
    var counted, attempted := WriterRunFollows(ss, ops, oks, created, codec, every);
    AllAcknowledged(ss, ops, oks, codec, every);
    OnStream(ss[|ops|], created, counted);
    RequestsEncode(ops, codec);
  }

  lemma RunLengths(ss: seq<WriterState>, ops: seq<Op>, oks: seq<bool>, codec: Codec, every: nat)
    requires WriterRun(ss, ops, oks, codec, every)
    ensures |ss| == |ops| + 1 == |oks| + 1
  {
  }

  lemma {:induction false} RequestsEncode(ops: seq<Op>, codec: Codec)
    ensures AllEncode(Requests(ops, codec), codec)
    decreases ops
  {
    if ops == [] {
    } else {
      RequestsEncode(ops[..|ops| - 1], codec);
    }
  }

  /** And every such file is laid down by some run. */
  lemma {:induction false} WrittenByRun(created: I64, rs: seq<Record>, codec: Codec, every: nat)
      returns (ss: seq<WriterState>, ops: seq<Op>, oks: seq<bool>)
    requires AllEncode(rs, codec)
    ensures WriterRun(ss, ops, oks, codec, every)
    ensures Good(ss[0]) && Follows(ss[0], created, [], [])
    ensures Good(ss[|ops|]) && ss[|ops|].taken == LogBytes(created, rs)
    ensures Follows(ss[|ops|], created, rs, [])
    decreases rs
  {
    hide Encoded, AfterRecord, Follows, LogBytes;
    if rs == [] {
      ss, ops, oks := [FreshWriter(created)], [], [];
      FreshFollows(created);
    } else {
      var n := |rs| - 1;
      assert Encodes(rs[n], codec);
      var event: Event, arrival: I64 :| Encoded(event, arrival, codec) == Some(rs[n]);
      ss, ops, oks := WrittenByRun(created, rs[..n], codec, every);
      var s := ss[|ops|];
      var s' := AfterRecord(s, rs[n], every, Stored);
      StepFollows(s, created, rs[..n], rs[n], every, Stored);
      RecordOutcome(s, rs[n], every, Stored);
      assert rs[..n] + [rs[n]] == rs;
      assert OpStep(s, s', Append(event, arrival), codec, every, true);
      ss, ops, oks := ss + [s'], ops + [Append(event, arrival)], oks + [true];
    }
    OnStream(ss[|ops|], created, rs);
  }

  function FreshWriter(created: I64): WriterState {
    WriterState(FileHeader(created), 0, true, true, false, 0, FILE_HEADER_SIZE)
  }

  lemma FreshFollows(created: I64)
    ensures Good(FreshWriter(created)) && Follows(FreshWriter(created), created, [], [])
  {
    hide FileHeader;
    NoRecords();
    var none: seq<Record> := [];
    assert none + none == none;
    assert LogBytes(created, none) == FileHeader(created) + [];
  }

  lemma NoRecords()
    ensures RecordsBytes(0, []) == []
  {
  }

  lemma NotZero()
    ensures EncodeLE(0, 4) != [1, 0, 0, 0]
  {
    assert EncodeLE(0, 4)[0] == Low(Shifted(0, 0)) == Low(0) == 0;
  }
}
