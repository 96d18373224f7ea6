/** The recording container: the bytes the writer lays down, and the bytes the reader takes up. */
module LogFormat {
  import opened Octets
  import opened Bytes
  import opened Castagnoli
  import opened Telemetry

  const LOG_FORMAT_VERSION: nat := 1
  const RECORD_FORMAT_VERSION: nat := 1
  const FILE_HEADER_SIZE: nat := 32
  const RECORD_HEADER_SIZE: nat := 36
  const MAXIMUM_PAYLOAD_SIZE: nat := 4 * 1024 * 1024

  const FILE_MAGIC: seq<Byte> := [0x54, 0x46, 0x4C, 0x4F, 0x47, 0x0D, 0x0A, 0x1A]
  const RECORD_MAGIC: seq<Byte> := [0x54, 0x46, 0x52, 0x31]

  // What the writer lays down.

  /** What the container stores of one event. */
  datatype Record = Record(arrival: I64, payload: seq<Byte>)

  function FileHeaderBody(created: I64): (s: seq<Byte>)
    ensures |s| == 28
  {
    FILE_MAGIC + EncodeLE(LOG_FORMAT_VERSION, 2) + EncodeLE(FILE_HEADER_SIZE, 2) + EncodeLE(0, 4)
    + EncodeLE(ToUnsigned(created), 8) + EncodeLE(0, 4)
  }

  function FileHeader(created: I64): (s: seq<Byte>)
    ensures |s| == FILE_HEADER_SIZE
  {
    FileHeaderBody(created) + WordBytes(Checksum(FileHeaderBody(created)))
  }

  function RecordHeaderBody(index: nat, r: Record): (s: seq<Byte>)
    ensures |s| == 32
  {
    RECORD_MAGIC + EncodeLE(RECORD_HEADER_SIZE, 2) + EncodeLE(RECORD_FORMAT_VERSION, 2)
    + EncodeLE(|r.payload|, 4) + WordBytes(Checksum(r.payload)) + EncodeLE(index, 8)
    + EncodeLE(ToUnsigned(r.arrival), 8)
  }

  function RecordHeader(index: nat, r: Record): (s: seq<Byte>)
    ensures |s| == RECORD_HEADER_SIZE
  {
    RecordHeaderBody(index, r) + WordBytes(Checksum(RecordHeaderBody(index, r)))
  }

  function RecordBytes(index: nat, r: Record): (s: seq<Byte>)
    ensures |s| == RECORD_HEADER_SIZE + |r.payload|
  {
    RecordHeader(index, r) + r.payload
  }

  /** Records one after the other, numbered from `index`. */
  function RecordsBytes(index: nat, rs: seq<Record>): seq<Byte>
    decreases rs
  {
    if rs == [] then [] else RecordBytes(index, rs[0]) + RecordsBytes(index + 1, rs[1..])
  }

  function LogBytes(created: I64, rs: seq<Record>): seq<Byte> {
    FileHeader(created) + RecordsBytes(0, rs)
  }

  // What the reader takes up.

  datatype Status = Complete | TruncatedTail | Corrupt | IoError | ResourceLimit

  datatype IndexEntry = IndexEntry(
    recordIndex: nat,
    fileOffset: nat,
    payloadSize: nat,
    payloadCrc: bv32,
    arrival: I64,
    sourceTimestamp: I64)

  datatype LogRecord = LogRecord(recordIndex: nat, fileOffset: nat, arrival: I64, event: Event)

  datatype ReadResult = ReadResult(
    status: Status,
    created: I64,
    fileSize: nat,
    validBytes: nat,
    errorOffset: nat,
    index: seq<IndexEntry>,
    records: seq<LogRecord>)

  /** A decoded record header; it is intact when its magic, size, version and checksum are right. */
  datatype Header = Header(intact: bool, payloadSize: nat, payloadCrc: bv32, index: nat, arrival: I64)

  function DecodeHeader(h: seq<Byte>): Header
    requires |h| == RECORD_HEADER_SIZE
  {
    Header(
      && h[..4] == RECORD_MAGIC
      && DecodeLE(h[4..6]) == RECORD_HEADER_SIZE
      && DecodeLE(h[6..8]) == RECORD_FORMAT_VERSION
      && Word(h[32..36]) == Checksum(h[..32]),
      DecodeLE(h[8..12]),
      Word(h[12..16]),
      DecodeLE(h[16..24]),
      SignedField(h[24..32]))
  }

  function SignedField(field: seq<Byte>): I64 {
    ToSigned(DecodeLE(field) % TWO_64)
  }

  /** One record, or the reason there is none. */
  datatype Parsed =
    | Short
    | Damaged
    | Oversized
    | Whole(arrival: I64, payload: seq<Byte>, event: Event)

  function ParseRecord(tail: seq<Byte>, index: nat, codec: Codec): Parsed {
    if |tail| < RECORD_HEADER_SIZE then Short
    else
      var header := DecodeHeader(tail[..RECORD_HEADER_SIZE]);
      if !header.intact then Damaged
      else if header.payloadSize > MAXIMUM_PAYLOAD_SIZE then Oversized
      else if |tail| - RECORD_HEADER_SIZE < header.payloadSize then Short
      else ParsePayload(header, tail[RECORD_HEADER_SIZE..RECORD_HEADER_SIZE + header.payloadSize], index, codec)
  }

  function ParsePayload(header: Header, payload: seq<Byte>, index: nat, codec: Codec): Parsed {
    if header.payloadCrc != Checksum(payload) then Damaged
    else if header.index != index then Damaged
    else match codec.parse(payload)
      case None => Damaged
      case Some(event) =>
        if event.schemaVersion != SCHEMA_VERSION then Damaged
        else Whole(header.arrival, payload, event)
  }

  datatype Found = Found(entry: IndexEntry, event: Event)

  function FoundAt(offset: nat, index: nat, arrival: I64, payload: seq<Byte>, event: Event): Found {
    Found(IndexEntry(index, offset, |payload|, Checksum(payload), arrival, event.sourceTimestamp), event)
  }

  /** How the scan ends, what it finds on the way, and the offset up to which it found it. */
  datatype Scan = Scan(status: Status, found: seq<Found>, end: nat)

  function ScanTail(tail: seq<Byte>, offset: nat, index: nat, limit: nat, codec: Codec): Scan
    decreases |tail|
  {
    if tail == [] then Scan(Complete, [], offset)
    else if index == limit then Scan(ResourceLimit, [], offset)
    else match ParseRecord(tail, index, codec)
      case Short => Scan(TruncatedTail, [], offset)
      case Damaged => Scan(Corrupt, [], offset)
      case Oversized => Scan(ResourceLimit, [], offset)
      case Whole(arrival, payload, event) =>
        var size := RECORD_HEADER_SIZE + |payload|;
        var rest := ScanTail(tail[size..], offset + size, index + 1, limit, codec);
        Scan(rest.status, [FoundAt(offset, index, arrival, payload, event)] + rest.found, rest.end)
  }

  /** A file header whose magic, version, size and checksum are right. The flags and the
      reserved bytes may hold anything. */
  predicate HeaderIntact(h: seq<Byte>) {
    && |h| == FILE_HEADER_SIZE
    && h[..8] == FILE_MAGIC
    && DecodeLE(h[8..10]) == LOG_FORMAT_VERSION
    && DecodeLE(h[10..12]) == FILE_HEADER_SIZE
    && Word(h[28..32]) == Checksum(h[..28])
  }

  /** What the operating system has under a path. */
  datatype FileState = Missing | Unopenable(bytes: seq<Byte>) | Readable(bytes: seq<Byte>)

  function Entries(found: seq<Found>): (es: seq<IndexEntry>)
    ensures |es| == |found|
  {
    seq(|found|, i requires 0 <= i < |found| => found[i].entry)
  }

  function LogRecordOf(f: Found): LogRecord {
    LogRecord(f.entry.recordIndex, f.entry.fileOffset, f.entry.arrival, f.event)
  }

  function LogRecords(found: seq<Found>): (rs: seq<LogRecord>)
    ensures |rs| == |found|
  {
    seq(|found|, i requires 0 <= i < |found| => LogRecordOf(found[i]))
  }

  /** Reading a file header and what follows it; `limit` is the greatest number of records to index. */
  function ReadParts(header: seq<Byte>, body: seq<Byte>, limit: nat, retain: bool, codec: Codec): ReadResult
    requires |header| == FILE_HEADER_SIZE
  {
    var size := FILE_HEADER_SIZE + |body|;
    if !HeaderIntact(header) then ReadResult(Corrupt, 0, size, 0, 0, [], [])
    else
      var scan := ScanTail(body, FILE_HEADER_SIZE, 0, limit, codec);
      ReadResult(scan.status, SignedField(header[16..24]), size, scan.end,
                 if scan.status == Complete then 0 else scan.end,
                 Entries(scan.found), if retain then LogRecords(scan.found) else [])
  }

  function ReadBytes(file: seq<Byte>, limit: nat, retain: bool, codec: Codec): ReadResult {
    if |file| < FILE_HEADER_SIZE then ReadResult(Corrupt, 0, |file|, 0, 0, [], [])
    else ReadParts(file[..FILE_HEADER_SIZE], file[FILE_HEADER_SIZE..], limit, retain, codec)
  }

  function ReadFile(file: FileState, limit: nat, retain: bool, codec: Codec): ReadResult {
    match file
    // The size query reports its failure as the largest value.
    case Missing => ReadResult(IoError, 0, TWO_64 - 1, 0, 0, [], [])
    case Unopenable(bytes) => ReadResult(IoError, 0, |bytes|, 0, 0, [], [])
    case Readable(bytes) => ReadBytes(bytes, limit, retain, codec)
  }
}
