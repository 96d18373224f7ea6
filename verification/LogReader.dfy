/** The reader and the recovery tool as they run, proved to compute what LogFormat says. */
module LogReader {
  import opened Octets
  import opened Bytes
  import opened Castagnoli
  import opened Telemetry
  import opened LogFormat
  import opened LogTheorems

  method FileHeaderGood(h: seq<Byte>) returns (good: bool)
    requires |h| == FILE_HEADER_SIZE
    ensures good == HeaderIntact(h)
  {
    hide DecodeLE, Checksum, Word;
    if h[..8] != FILE_MAGIC {
      return false;
    }
    var version := DecodeLittleEndian(h, 8, 2);
    var size := DecodeLittleEndian(h, 10, 2);
    if version != LOG_FORMAT_VERSION || size != FILE_HEADER_SIZE {
      return false;
    }
    var checksum := Crc32c(h[..28]);
    return Word(h[28..32]) == checksum;
  }

  method RecordHeaderGood(h: seq<Byte>) returns (good: bool)
    requires |h| == RECORD_HEADER_SIZE
    ensures good == DecodeHeader(h).intact
  {
    hide DecodeLE, Checksum, Word, SignedField;
    if h[..4] != RECORD_MAGIC {
      return false;
    }
    var size := DecodeLittleEndian(h, 4, 2);
    var version := DecodeLittleEndian(h, 6, 2);
    if size != RECORD_HEADER_SIZE || version != RECORD_FORMAT_VERSION {
      return false;
    }
    var checksum := Crc32c(h[..32]);
    return Word(h[32..36]) == checksum;
  }

  method SignedAt(h: seq<Byte>, offset: nat) returns (value: I64)
    requires offset + 8 <= |h|
    ensures value == SignedField(h[offset..offset + 8])
  {
    hide DecodeLE;
    var unsigned := DecodeLittleEndian(h, offset, 8);
    value := ToSigned(unsigned % TWO_64);
  }

  /** One turn of the reading loop, up to the point where a record is accepted or refused. */
  method ReadRecord(tail: seq<Byte>, index: nat, codec: Codec) returns (parsed: Parsed)
    ensures parsed == ParseRecord(tail, index, codec)
  {
    hide DecodeLE, Checksum, Word, SignedField;
    if |tail| < RECORD_HEADER_SIZE {
      return Short;
    }
    var h := tail[..RECORD_HEADER_SIZE];
    var good := RecordHeaderGood(h);
    if !good {
      return Damaged;
    }
    var payloadSize := DecodeLittleEndian(h, 8, 4);
    if payloadSize > MAXIMUM_PAYLOAD_SIZE {
      return Oversized;
    }
    if |tail| - RECORD_HEADER_SIZE < payloadSize {
      return Short;
    }
    var payload := tail[RECORD_HEADER_SIZE..RECORD_HEADER_SIZE + payloadSize];
    var checksum := Crc32c(payload);
    if Word(h[12..16]) != checksum {
      return Damaged;
    }
    var recordIndex := DecodeLittleEndian(h, 16, 8);
    if recordIndex != index {
      return Damaged;
    }
    var arrival := SignedAt(h, 24);
    match codec.parse(payload)
    case None => return Damaged;
    case Some(event) =>
      if event.schemaVersion != SCHEMA_VERSION {
        return Damaged;
      }
      return Whole(arrival, payload, event);
  }

  method ReadRecords(file: seq<Byte>, limit: nat, retain: bool, codec: Codec)
      returns (status: Status, index: seq<IndexEntry>, records: seq<LogRecord>, validBytes: nat)
    requires |file| >= FILE_HEADER_SIZE
    ensures var scan := ScanTail(file[FILE_HEADER_SIZE..], FILE_HEADER_SIZE, 0, limit, codec);
      && status == scan.status
      && index == Entries(scan.found)
      && records == (if retain then LogRecords(scan.found) else [])
      && validBytes == scan.end
  {
    hide ParseRecord, ScanTail, Continue, Entries, LogRecords;
    ghost var found: seq<Found> := [];
    index, records := [], [];
    EmptyEntries();
    var offset := FILE_HEADER_SIZE;
    ContinueNothing(ScanTail(file[FILE_HEADER_SIZE..], FILE_HEADER_SIZE, 0, limit, codec));
    while offset < |file|
      invariant FILE_HEADER_SIZE <= offset <= |file|
      invariant |index| == |found|
      invariant index == Entries(found)
      invariant records == if retain then LogRecords(found) else []
      invariant ScanTail(file[FILE_HEADER_SIZE..], FILE_HEADER_SIZE, 0, limit, codec)
             == Continue(found, ScanTail(file[offset..], offset, |found|, limit, codec))
    {
      ScanOnce(file, offset, found, limit, codec);
      if |index| == limit {
        status, validBytes := ResourceLimit, offset;
        return;
      }
      var parsed := ReadRecord(file[offset..], |index|, codec);
      match parsed
      case Short =>
        status, validBytes := TruncatedTail, offset;
        return;
      case Damaged =>
        status, validBytes := Corrupt, offset;
        return;
      case Oversized =>
        status, validBytes := ResourceLimit, offset;
        return;
      case Whole(arrival, payload, event) =>
        var one := FoundAt(offset, |index|, arrival, payload, event);
        MoreEntries(found, one);
        index := index + [one.entry];
        if retain {
          records := records + [LogRecordOf(one)];
        }
        found := found + [one];
        offset := offset + RECORD_HEADER_SIZE + |payload|;
    }
    ScanNothing(file, offset, found, limit, codec);
    status, validBytes := Complete, offset;
  }

  /** A scan that has found something already. */
  ghost function Continue(found: seq<Found>, rest: Scan): Scan {
    Scan(rest.status, found + rest.found, rest.end)
  }

  lemma ContinueNothing(rest: Scan)
    ensures Continue([], rest) == rest
  {
  }

  lemma ScanNothing(file: seq<Byte>, offset: nat, found: seq<Found>, limit: nat, codec: Codec)
    requires offset == |file|
    ensures Continue(found, ScanTail(file[offset..], offset, |found|, limit, codec)) == Scan(Complete, found, offset)
  {
    assert file[offset..] == [];
    assert found + [] == found;
  }

  /** What one turn of the loop does to the scan that remains. */
  lemma ScanOnce(file: seq<Byte>, offset: nat, found: seq<Found>, limit: nat, codec: Codec)
    requires offset < |file|
    ensures var now := Continue(found, ScanTail(file[offset..], offset, |found|, limit, codec));
      if |found| == limit then now == Scan(ResourceLimit, found, offset)
      else match ParseRecord(file[offset..], |found|, codec)
        case Short => now == Scan(TruncatedTail, found, offset)
        case Damaged => now == Scan(Corrupt, found, offset)
        case Oversized => now == Scan(ResourceLimit, found, offset)
        case Whole(arrival, payload, event) =>
          var next := offset + RECORD_HEADER_SIZE + |payload|;
          && next <= |file|
          && now == Continue(found + [FoundAt(offset, |found|, arrival, payload, event)],
                             ScanTail(file[next..], next, |found| + 1, limit, codec))
  {
    hide ParseRecord, FoundAt;
    assert found + [] == found;
    if |found| != limit && ParseRecord(file[offset..], |found|, codec).Whole? {
      var parsed := ParseRecord(file[offset..], |found|, codec);
      AcceptedFits(file[offset..], |found|, codec);
      var size := RECORD_HEADER_SIZE + |parsed.payload|;
      AfterOne(file, offset, size);
      var rest := ScanTail(file[offset + size..], offset + size, |found| + 1, limit, codec);
      var one := FoundAt(offset, |found|, parsed.arrival, parsed.payload, parsed.event);
      assert found + ([one] + rest.found) == found + [one] + rest.found;
    }
  }

  lemma EmptyEntries()
    ensures Entries([]) == [] && LogRecords([]) == []
  {
  }

  lemma MoreEntries(found: seq<Found>, one: Found)
    ensures Entries(found + [one]) == Entries(found) + [one.entry]
    ensures LogRecords(found + [one]) == LogRecords(found) + [LogRecordOf(one)]
  {
  }

  lemma AcceptedFits(tail: seq<Byte>, index: nat, codec: Codec)
    requires ParseRecord(tail, index, codec).Whole?
    ensures RECORD_HEADER_SIZE + |ParseRecord(tail, index, codec).payload| <= |tail|
  {
    hide DecodeHeader, Checksum;
  }

  lemma AfterOne(file: seq<Byte>, offset: nat, size: nat)
    requires offset + size <= |file|
    ensures file[offset..][size..] == file[offset + size..]
  {
  }

  method ReadLog(file: FileState, limit: nat, retain: bool, codec: Codec) returns (result: ReadResult)
    ensures result == ReadFile(file, limit, retain, codec)
  {
    hide ScanTail, HeaderIntact, SignedField, Entries, LogRecords;
    match file
    case Missing => return ReadResult(IoError, 0, TWO_64 - 1, 0, 0, [], []);
    case Unopenable(bytes) => return ReadResult(IoError, 0, |bytes|, 0, 0, [], []);
    case Readable(bytes) =>
      result := ReadResult(Corrupt, 0, |bytes|, 0, 0, [], []);
      if |bytes| < FILE_HEADER_SIZE {
        return;
      }
      var h := bytes[..FILE_HEADER_SIZE];
      var good := FileHeaderGood(h);
      if !good {
        return;
      }
      var created := SignedAt(h, 16);
      var status, index, records, validBytes := ReadRecords(bytes, limit, retain, codec);
      var errorOffset := if status == Complete then 0 else validBytes;
      result := ReadResult(status, created, |bytes|, validBytes, errorOffset, index, records);
  }

  /** A file on disk, which the operating system may refuse to resize. */
  class LogFile {
    var state: FileState

    constructor (initial: FileState)
      ensures state == initial
    {
      state := initial;
    }

    method Resize(size: nat, permitted: bool) returns (resized: bool)
      requires state.Readable? && size <= |state.bytes|
      modifies this
      ensures resized == permitted
      ensures state == if permitted then Readable(old(state.bytes)[..size]) else old(state)
    {
      if permitted {
        state := Readable(state.bytes[..size]);
      }
      resized := permitted;
    }
  }

  datatype RecoveryResult = RecoveryResult(succeeded: bool, changed: bool, originalSize: nat, recoveredSize: nat)

  /** Recovery shortens a truncated file to its accepted part if it may, and leaves any other
      file alone; it reports success exactly when the file then holds no incomplete tail. */
  method RecoverTruncatedTail(file: LogFile, limit: nat, codec: Codec, permitted: bool)
      returns (recovery: RecoveryResult)
    requires limit < TWO_64
    modifies file
    ensures var before := ReadFile(old(file.state), limit, false, codec);
      && (before.status == TruncatedTail && permitted ==>
            && old(file.state).Readable?
            && file.state == Readable(Recovered(old(file.state).bytes, limit, codec))
            && recovery == RecoveryResult(true, true, before.fileSize, before.validBytes))
      && (before.status == TruncatedTail && !permitted ==>
            file.state == old(file.state) && recovery == RecoveryResult(false, false, before.fileSize, before.fileSize))
      && (before.status != TruncatedTail ==>
            && file.state == old(file.state)
            && recovery == RecoveryResult(before.status == Complete, false, before.fileSize, before.fileSize))
  {
    hide ReadBytes;
    var read := ReadLog(file.state, limit, true, codec);
    if file.state.Readable? {
      RetainingChangesNoStatus(file.state.bytes, limit, codec);
      RecoveryKeepsHeader(file.state.bytes, limit, codec);
    }
    if read.status == Complete {
      return RecoveryResult(true, false, read.fileSize, read.fileSize);
    }
    if read.status != TruncatedTail || read.validBytes < FILE_HEADER_SIZE {
      return RecoveryResult(false, false, read.fileSize, read.fileSize);
    }
    var resized := file.Resize(read.validBytes, permitted);
    if !resized {
      return RecoveryResult(false, false, read.fileSize, read.fileSize);
    }
    return RecoveryResult(true, true, read.fileSize, read.validBytes);
  }

  lemma RetainingChangesNoStatus(file: seq<Byte>, limit: nat, codec: Codec)
    ensures ReadBytes(file, limit, true, codec).(records := []) == ReadBytes(file, limit, false, codec)
  {
    hide HeaderIntact, ScanTail, Entries, LogRecords, SignedField;
  }

  lemma RecoveryKeepsHeader(file: seq<Byte>, limit: nat, codec: Codec)
    requires limit < TWO_64
    ensures var r := ReadBytes(file, limit, false, codec);
      && r.fileSize == |file|
      && (r.status == TruncatedTail ==> FILE_HEADER_SIZE <= r.validBytes <= |file|)
  {
    hide HeaderIntact, ScanTail, Entries, LogRecords, SignedField;
    if ReadBytes(file, limit, false, codec).status == TruncatedTail {
      var size := ScanTruncated(file[FILE_HEADER_SIZE..], FILE_HEADER_SIZE, 0, limit, codec);
    }
  }
}
