/** The record limit. The reader looks at it before it looks at the tail, so a log that is cut
    short reads as truncated, and can be recovered, exactly when the limit is not what stops it. */
module LogLimits {
  import opened Octets
  import opened Bytes
  import opened Telemetry
  import opened LogFormat
  import opened LogTheorems

  lemma CutBehind(front: seq<Byte>, back: seq<Byte>, size: nat)
    requires |front| <= size <= |front| + |back|
    ensures (front + back)[..size] == front + back[..size - |front|]
  {
  }

  lemma FirstLoadable(rs: seq<Record>, n: nat, codec: Codec)
    requires AllLoadable(rs, codec) && n <= |rs|
    ensures AllLoadable(rs[..n], codec)
  {
  }

  lemma ScanAtLimit(rest: seq<Byte>, offset: nat, limit: nat, codec: Codec)
    requires rest != []
    ensures ScanTail(rest, offset, limit, limit, codec) == Scan(ResourceLimit, [], offset)
  {
  }

  lemma ScanLimited(rs: seq<Record>, size: nat, offset: nat, limit: nat, codec: Codec)
    requires AllLoadable(rs, codec) && limit < |rs| && limit < TWO_64
    requires SizeOf(rs[..limit]) < size <= |RecordsBytes(0, rs)|
    ensures ScanTail(RecordsBytes(0, rs)[..size], offset, 0, limit, codec)
         == Scan(ResourceLimit, FoundOf(offset, 0, rs[..limit], codec), offset + SizeOf(rs[..limit]))
  {
    hide *;
    var front, back := RecordsBytes(0, rs[..limit]), RecordsBytes(limit, rs[limit..]);
    FirstLoadable(rs, limit, codec);
    RecordsBytesSplit(0, rs, limit);
    RecordsBytesSize(0, rs[..limit]);
    CutBehind(front, back, size);
    var rest := back[..size - |front|];
    ScanPrinted(0, rs[..limit], rest, offset, limit, codec);
    ScanAtLimit(rest, offset + SizeOf(rs[..limit]), limit, codec);
    NothingFound(FoundOf(offset, 0, rs[..limit], codec));
  }

  lemma LimitedParts(created: I64, body: seq<Byte>, found: seq<Found>, end: nat, limit: nat, retain: bool, codec: Codec)
    requires ScanTail(body, FILE_HEADER_SIZE, 0, limit, codec) == Scan(ResourceLimit, found, end)
    ensures ReadParts(FileHeader(created), body, limit, retain, codec)
         == ReadResult(ResourceLimit, created, FILE_HEADER_SIZE + |body|, end, end, Entries(found),
                       if retain then LogRecords(found) else [])
  {
    hide FileHeader, ScanTail, Entries, LogRecords, SignedField, HeaderIntact;
    FileHeaderIntact(created);
  }

  /** Past the limit, whatever follows is not looked at: the records up to the limit are indexed,
      the log is neither complete nor truncated, and recovery leaves it alone. */
  lemma LimitReached(created: I64, rs: seq<Record>, cut: nat, limit: nat, retain: bool, codec: Codec)
    requires AllLoadable(rs, codec) && limit < |rs| && limit < TWO_64
    requires FILE_HEADER_SIZE + SizeOf(rs[..limit]) < cut <= |LogBytes(created, rs)|
    ensures AllLoadable(rs[..limit], codec)
    ensures var found := FoundOf(FILE_HEADER_SIZE, 0, rs[..limit], codec);
      var end := FILE_HEADER_SIZE + SizeOf(rs[..limit]);
      ReadBytes(LogBytes(created, rs)[..cut], limit, retain, codec)
      == ReadResult(ResourceLimit, created, cut, end, end, Entries(found), if retain then LogRecords(found) else [])
    ensures Recovered(LogBytes(created, rs)[..cut], limit, codec) == LogBytes(created, rs)[..cut]
  {
    hide *;
    FirstLoadable(rs, limit, codec);
    LogCut(created, rs, cut);
    var body := RecordsBytes(0, rs)[..cut - FILE_HEADER_SIZE];
    ScanLimited(rs, cut - FILE_HEADER_SIZE, FILE_HEADER_SIZE, limit, codec);
    var found, end := FoundOf(FILE_HEADER_SIZE, 0, rs[..limit], codec), FILE_HEADER_SIZE + SizeOf(rs[..limit]);
    LimitedParts(created, body, found, end, limit, retain, codec);
    LimitedParts(created, body, found, end, limit, false, codec);
    ReadJoined(FileHeader(created), body, limit, retain, codec);
    ReadJoined(FileHeader(created), body, limit, false, codec);
    NotTruncated(FileHeader(created) + body, limit, codec);
  }

  lemma SameUpToLimit(created: I64, rs: seq<Record>, cut: nat, limit: nat)
    requires limit <= |rs|
    requires FILE_HEADER_SIZE <= cut <= FILE_HEADER_SIZE + SizeOf(rs[..limit])
    ensures cut <= |LogBytes(created, rs[..limit])| && cut <= |LogBytes(created, rs)|
    ensures LogBytes(created, rs)[..cut] == LogBytes(created, rs[..limit])[..cut]
  {
    hide *;
    RecordsBytesSplit(0, rs, limit);
    RecordsBytesSize(0, rs[..limit]);
    LogBytesAre(created, rs);
    LogBytesAre(created, rs[..limit]);
    CutInMiddle(FileHeader(created), RecordsBytes(0, rs[..limit]), RecordsBytes(limit, rs[limit..]), cut);
  }

  lemma LogBytesAre(created: I64, rs: seq<Record>)
    ensures LogBytes(created, rs) == FileHeader(created) + RecordsBytes(0, rs)
  {
  }

  lemma CutInMiddle(a: seq<Byte>, b: seq<Byte>, c: seq<Byte>, cut: nat)
    requires cut <= |a| + |b|
    ensures (a + (b + c))[..cut] == (a + b)[..cut]
    ensures |a + b| == |a| + |b| <= |a + (b + c)|
  {
  }

  /** Crash safety for every limit: a written log cut anywhere behind its header reads as complete
      or as truncated if and only if the limit leaves room for every record it may touch. */
  lemma CrashSafeExactly(created: I64, rs: seq<Record>, cut: nat, limit: nat, retain: bool, codec: Codec)
    requires AllLoadable(rs, codec)
    requires FILE_HEADER_SIZE <= cut <= |LogBytes(created, rs)|
    requires limit < TWO_64
    ensures var status := ReadBytes(LogBytes(created, rs)[..cut], limit, retain, codec).status;
      status == Complete || status == TruncatedTail
      <==> |rs| <= limit || cut <= FILE_HEADER_SIZE + SizeOf(rs[..limit])
  {
    hide *;
    if |rs| <= limit {
      var n := CrashSafe(created, rs, cut, limit, retain, codec);
    } else if cut <= FILE_HEADER_SIZE + SizeOf(rs[..limit]) {
      FirstLoadable(rs, limit, codec);
      SameUpToLimit(created, rs, cut, limit);
      var n := CrashSafe(created, rs[..limit], cut, limit, retain, codec);
    } else {
      LimitReached(created, rs, cut, limit, retain, codec);
    }
  }
}
