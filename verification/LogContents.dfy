/** What reading returns, record by record: number, offset, arrival time and event of each, for
    every file, and for a written log cut anywhere. */
module LogContents {
  import opened Octets
  import opened Bytes
  import opened Castagnoli
  import opened Telemetry
  import opened LogFormat
  import opened LogTheorems
  import opened LogLimits

  /** The index entry of record `k` of a log of `rs`. */
  ghost predicate ReportsEntry(e: IndexEntry, rs: seq<Record>, k: nat, codec: Codec)
    requires k < |rs|
  {
    var event := codec.parse(rs[k].payload);
    && e.recordIndex == k
    && e.fileOffset == FILE_HEADER_SIZE + SizeOf(rs[..k])
    && e.payloadSize == |rs[k].payload|
    && e.payloadCrc == Checksum(rs[k].payload)
    && e.arrival == rs[k].arrival
    && event.Some? && e.sourceTimestamp == event.value.sourceTimestamp
  }

  /** What is returned for it. */
  ghost predicate ReportsRecord(r: LogRecord, rs: seq<Record>, k: nat, codec: Codec)
    requires k < |rs|
  {
    && r.recordIndex == k
    && r.fileOffset == FILE_HEADER_SIZE + SizeOf(rs[..k])
    && r.arrival == rs[k].arrival
    && codec.parse(rs[k].payload) == Some(r.event)
  }

  ghost predicate Reports(r: ReadResult, rs: seq<Record>, retain: bool, codec: Codec) {
    && |r.index| == |rs|
    && |r.records| == (if retain then |rs| else 0)
    && r.validBytes == FILE_HEADER_SIZE + SizeOf(rs)
    && (forall k :: 0 <= k < |rs| ==> ReportsEntry(r.index[k], rs, k, codec))
    && (forall k :: 0 <= k < |r.records| ==> ReportsRecord(r.records[k], rs, k, codec))
  }

  lemma FoundReported(rs: seq<Record>, k: nat, codec: Codec)
    requires AllLoadable(rs, codec) && k < |rs|
    ensures var f := FoundOf(FILE_HEADER_SIZE, 0, rs, codec)[k];
      ReportsEntry(f.entry, rs, k, codec) && ReportsRecord(LogRecordOf(f), rs, k, codec)
  {
    hide FoundOf, SizeOf, Checksum;
    FoundOfAt(FILE_HEADER_SIZE, 0, rs, k, codec);
  }

  lemma FoundReports(r: ReadResult, rs: seq<Record>, retain: bool, codec: Codec)
    requires AllLoadable(rs, codec)
    requires var found := FoundOf(FILE_HEADER_SIZE, 0, rs, codec);
      r.index == Entries(found) && r.records == if retain then LogRecords(found) else []
    requires r.validBytes == FILE_HEADER_SIZE + SizeOf(rs)
    ensures Reports(r, rs, retain, codec)
  {
    hide FoundOf, SizeOf, AllLoadable, ReportsEntry, ReportsRecord, LogRecordOf;
    forall k | 0 <= k < |rs|
      ensures ReportsEntry(r.index[k], rs, k, codec)
      ensures retain ==> ReportsRecord(r.records[k], rs, k, codec)
    {
      FoundReported(rs, k, codec);
    }
  }

  // Where reading stops.

  predicate HeaderAhead(rest: seq<Byte>) {
    |rest| >= RECORD_HEADER_SIZE && DecodeHeader(rest[..RECORD_HEADER_SIZE]).intact
  }

  /** The number of payload bytes that the header ahead announces. */
  function Announced(rest: seq<Byte>): nat
    requires |rest| >= RECORD_HEADER_SIZE
  {
    DecodeHeader(rest[..RECORD_HEADER_SIZE]).payloadSize
  }

  /** The announced payload is there, and is what the header says of it. */
  predicate RecordAhead(rest: seq<Byte>, index: nat, codec: Codec) {
    && HeaderAhead(rest)
    && |rest| >= RECORD_HEADER_SIZE + Announced(rest)
    && var payload := rest[RECORD_HEADER_SIZE..RECORD_HEADER_SIZE + Announced(rest)];
      && DecodeHeader(rest[..RECORD_HEADER_SIZE]).payloadCrc == Checksum(payload)
      && DecodeHeader(rest[..RECORD_HEADER_SIZE]).index == index
      && codec.parse(payload).Some?
      && codec.parse(payload).value.schemaVersion == SCHEMA_VERSION
  }

  /** Why reading stops in front of `rest`, after `index` records. */
  predicate Stops(status: Status, rest: seq<Byte>, index: nat, limit: nat, codec: Codec) {
    match status
    case Complete => rest == []
    case ResourceLimit =>
      rest != [] && (index == limit || (HeaderAhead(rest) && Announced(rest) > 4_194_304))
    case TruncatedTail =>
      && rest != [] && index != limit
      && (|rest| < RECORD_HEADER_SIZE
          || (HeaderAhead(rest) && Announced(rest) <= 4_194_304
              && |rest| < RECORD_HEADER_SIZE + Announced(rest)))
    case Corrupt =>
      && index != limit && |rest| >= RECORD_HEADER_SIZE
      && (!HeaderAhead(rest)
          || (Announced(rest) <= 4_194_304 && |rest| >= RECORD_HEADER_SIZE + Announced(rest)
              && !RecordAhead(rest, index, codec)))
    case IoError => false
  }

  lemma ScanStopped(rest: seq<Byte>, offset: nat, index: nat, limit: nat, codec: Codec)
    requires ScanTail(rest, offset, index, limit, codec).found == []
    ensures Stops(ScanTail(rest, offset, index, limit, codec).status, rest, index, limit, codec)
  {
    hide DecodeHeader, Checksum;
  }

  /** The bytes behind the header begin with the encoding of these records. */
  ghost predicate BeginsWith(body: seq<Byte>, rs: seq<Record>, limit: nat, codec: Codec) {
    && AllLoadable(rs, codec) && |rs| <= limit
    && SizeOf(rs) <= |body|
    && body[..SizeOf(rs)] == RecordsBytes(0, rs)
  }

  lemma ScanReports(body: seq<Byte>, limit: nat, codec: Codec) returns (rs: seq<Record>)
    requires limit < TWO_64
    ensures BeginsWith(body, rs, limit, codec) && SizeOf(rs) <= |body| && AllLoadable(rs, codec)
    ensures var scan := ScanTail(body, FILE_HEADER_SIZE, 0, limit, codec);
      && scan.found == FoundOf(FILE_HEADER_SIZE, 0, rs, codec)
      && scan.end == FILE_HEADER_SIZE + SizeOf(rs)
      && Stops(scan.status, body[SizeOf(rs)..], |rs|, limit, codec)
  {
    hide RecordsBytes, FoundOf, SizeOf, ScanTail, Stops, AllLoadable;
    rs := ScanAccepts(body, FILE_HEADER_SIZE, 0, limit, codec);
    ScanStopped(body[SizeOf(rs)..], FILE_HEADER_SIZE + SizeOf(rs), |rs|, limit, codec);
  }

  /** Whatever the bytes behind an intact header: they begin with the writer's encoding of some
      records, reading reports these, each by its number, its place and what was stored, and it
      stops behind them for one reason. */
  lemma AnyFileReports(file: seq<Byte>, limit: nat, retain: bool, codec: Codec) returns (rs: seq<Record>)
    requires |file| >= FILE_HEADER_SIZE && HeaderIntact(file[..FILE_HEADER_SIZE])
    requires limit < TWO_64
    ensures BeginsWith(file[FILE_HEADER_SIZE..], rs, limit, codec) && SizeOf(rs) <= |file[FILE_HEADER_SIZE..]|
    ensures var r := ReadBytes(file, limit, retain, codec);
      && Reports(r, rs, retain, codec)
      && Stops(r.status, file[FILE_HEADER_SIZE..][SizeOf(rs)..], |rs|, limit, codec)
      && r.created == SignedField(file[16..24]) && r.fileSize == |file|
      && r.errorOffset == if r.status == Complete then 0 else r.validBytes
  {
    hide *;
    HeaderRead(file, limit, retain, codec);
    rs := ScanReports(file[FILE_HEADER_SIZE..], limit, codec);
    FoundReports(ReadBytes(file, limit, retain, codec), rs, retain, codec);
  }

  lemma HeaderRead(file: seq<Byte>, limit: nat, retain: bool, codec: Codec)
    requires |file| >= FILE_HEADER_SIZE && HeaderIntact(file[..FILE_HEADER_SIZE])
    ensures var r := ReadBytes(file, limit, retain, codec);
      var scan := ScanTail(file[FILE_HEADER_SIZE..], FILE_HEADER_SIZE, 0, limit, codec);
      && r.index == Entries(scan.found) && r.records == (if retain then LogRecords(scan.found) else [])
      && r.status == scan.status && r.validBytes == scan.end
      && r.created == SignedField(file[16..24]) && r.fileSize == |file|
      && r.errorOffset == if r.status == Complete then 0 else r.validBytes
  {
    hide ScanTail, HeaderIntact, Entries, LogRecords, SignedField;
    assert file[..FILE_HEADER_SIZE][16..24] == file[16..24];
  }

  /** And a file that cannot be read, that has no whole header, or whose header is not intact. */
  lemma NothingRead(file: FileState, limit: nat, retain: bool, codec: Codec)
    requires file.Readable? ==>
        |file.bytes| < FILE_HEADER_SIZE || !HeaderIntact(file.bytes[..FILE_HEADER_SIZE])
    ensures var r := ReadFile(file, limit, retain, codec);
      && r.status == (if file.Readable? then Corrupt else IoError)
      && r.index == [] && r.records == []
      && r.created == 0 && r.validBytes == 0 && r.errorOffset == 0
      && r.fileSize == if file.Missing? then 0xFFFF_FFFF_FFFF_FFFF else |file.bytes|
  {
    hide HeaderIntact, ScanTail, Entries, LogRecords, SignedField;
  }

  /** A written log, cut anywhere behind its header, reports exactly its first records: those wholly
      inside, as far as the limit goes. */
  lemma CutReports(created: I64, rs: seq<Record>, cut: nat, limit: nat, retain: bool, codec: Codec) returns (n: nat)
    requires AllLoadable(rs, codec) && limit < TWO_64
    requires FILE_HEADER_SIZE <= cut <= |LogBytes(created, rs)|
    ensures n <= |rs| && n <= limit
    ensures FILE_HEADER_SIZE + SizeOf(rs[..n]) <= cut
    ensures n < |rs| && n < limit ==> cut < FILE_HEADER_SIZE + SizeOf(rs[..n + 1])
    ensures var r := ReadBytes(LogBytes(created, rs)[..cut], limit, retain, codec);
      r.created == created && r.fileSize == cut && Reports(r, rs[..n], retain, codec)
  {
    hide *;
    if |rs| <= limit {
      n := CutWithinLimit(created, rs, cut, limit, retain, codec);
    } else if cut <= FILE_HEADER_SIZE + SizeOf(rs[..limit]) {
      n := CutBelowLimit(created, rs, cut, limit, retain, codec);
    } else {
      n := limit;
      CutPastLimit(created, rs, cut, limit, retain, codec);
    }
  }

  lemma CutWithinLimit(created: I64, rs: seq<Record>, cut: nat, limit: nat, retain: bool, codec: Codec)
      returns (n: nat)
    requires AllLoadable(rs, codec) && |rs| <= limit < TWO_64
    requires FILE_HEADER_SIZE <= cut <= |LogBytes(created, rs)|
    ensures n <= |rs|
    ensures FILE_HEADER_SIZE + SizeOf(rs[..n]) <= cut
    ensures n < |rs| ==> cut < FILE_HEADER_SIZE + SizeOf(rs[..n + 1])
    ensures var r := ReadBytes(LogBytes(created, rs)[..cut], limit, retain, codec);
      r.created == created && r.fileSize == cut && Reports(r, rs[..n], retain, codec)
  {
    hide *;
    n := CrashSafe(created, rs, cut, limit, retain, codec);
    FirstLoadable(rs, n, codec);
    FoundReports(ReadBytes(LogBytes(created, rs)[..cut], limit, retain, codec), rs[..n], retain, codec);
  }

  lemma CutPastLimit(created: I64, rs: seq<Record>, cut: nat, limit: nat, retain: bool, codec: Codec)
    requires AllLoadable(rs, codec) && limit < |rs| && limit < TWO_64
    requires FILE_HEADER_SIZE + SizeOf(rs[..limit]) < cut <= |LogBytes(created, rs)|
    ensures var r := ReadBytes(LogBytes(created, rs)[..cut], limit, retain, codec);
      r.created == created && r.fileSize == cut && Reports(r, rs[..limit], retain, codec)
  {
    hide *;
    FirstLoadable(rs, limit, codec);
    LimitReached(created, rs, cut, limit, retain, codec);
    FoundReports(ReadBytes(LogBytes(created, rs)[..cut], limit, retain, codec), rs[..limit], retain, codec);
  }

  lemma CutBelowLimit(created: I64, rs: seq<Record>, cut: nat, limit: nat, retain: bool, codec: Codec)
      returns (n: nat)
    requires AllLoadable(rs, codec) && limit < |rs| && limit < TWO_64
    requires FILE_HEADER_SIZE <= cut <= |LogBytes(created, rs)|
    requires cut <= FILE_HEADER_SIZE + SizeOf(rs[..limit])
    ensures n <= limit
    ensures FILE_HEADER_SIZE + SizeOf(rs[..n]) <= cut
    ensures n < limit ==> cut < FILE_HEADER_SIZE + SizeOf(rs[..n + 1])
    ensures var r := ReadBytes(LogBytes(created, rs)[..cut], limit, retain, codec);
      r.created == created && r.fileSize == cut && Reports(r, rs[..n], retain, codec)
  {
    hide *;
    FirstLoadable(rs, limit, codec);
    SameUpToLimit(created, rs, cut, limit);
    n := CrashSafe(created, rs[..limit], cut, limit, retain, codec);
    FirstOfFirst(rs, n, limit);
    if n < limit {
      FirstOfFirst(rs, n + 1, limit);
    }
    FirstLoadable(rs, n, codec);
    FoundReports(ReadBytes(LogBytes(created, rs)[..cut], limit, retain, codec), rs[..n], retain, codec);
  }

  lemma FirstOfFirst(rs: seq<Record>, n: nat, m: nat)
    requires n <= m <= |rs|
    ensures rs[..m][..n] == rs[..n]
  {
  }
}
