/** What reading guarantees about whole files: round trips, crashes, damage and recovery. */
module LogTheorems {
  import opened Octets
  import opened Bytes
  import opened Castagnoli
  import opened Telemetry
  import opened LogFormat
  import opened RecordCodec

  ghost predicate AllLoadable(rs: seq<Record>, codec: Codec) {
    forall i :: 0 <= i < |rs| ==> Loadable(rs[i], codec)
  }

  /** What the scan reports for records laid down from `offset`, numbered from `index`. */
  ghost function FoundOf(offset: nat, index: nat, rs: seq<Record>, codec: Codec): (found: seq<Found>)
    requires AllLoadable(rs, codec)
    ensures |found| == |rs|
    decreases rs
  {
    if rs == [] then []
    else
      [FoundAt(offset, index, rs[0].arrival, rs[0].payload, EventOf(rs[0], codec))]
      + FoundOf(offset + RECORD_HEADER_SIZE + |rs[0].payload|, index + 1, rs[1..], codec)
  }

  /** The size of records on disk: a header each, and the payloads. */
  ghost function SizeOf(rs: seq<Record>): nat {
    if rs == [] then 0 else RECORD_HEADER_SIZE + |rs[0].payload| + SizeOf(rs[1..])
  }

  lemma {:induction false} RecordsBytesSize(index: nat, rs: seq<Record>)
    ensures |RecordsBytes(index, rs)| == SizeOf(rs)
    decreases rs
  {
    hide RecordBytes;
    if rs == [] {
    } else {
      RecordsBytesSize(index + 1, rs[1..]);
    }
  }

  lemma BytesOfFirst(index: nat, rs: seq<Record>)
    requires rs != []
    ensures RecordsBytes(index, rs) == RecordBytes(index, rs[0]) + RecordsBytes(index + 1, rs[1..])
    ensures SizeOf(rs) == RECORD_HEADER_SIZE + |rs[0].payload| + SizeOf(rs[1..])
  {
    hide RecordBytes;
  }

  lemma {:induction false} RecordsBytesSplit(index: nat, rs: seq<Record>, n: nat)
    requires n <= |rs|
    ensures RecordsBytes(index, rs) == RecordsBytes(index, rs[..n]) + RecordsBytes(index + n, rs[n..])
    ensures SizeOf(rs) == SizeOf(rs[..n]) + SizeOf(rs[n..])
    decreases rs
  {
    hide RecordBytes;
    if n == 0 {
      assert rs[..0] == [] && rs[0..] == rs;
    } else {
      RecordsBytesSplit(index + 1, rs[1..], n - 1);
      assert rs[1..][..n - 1] == rs[..n][1..];
      assert rs[1..][n - 1..] == rs[n..];
      BytesOfFirst(index, rs);
      BytesOfFirst(index, rs[..n]);
      hide RecordsBytes, SizeOf;
    }
  }

  // Scanning.

  /** The scan passes over records laid down by the writer and reports each of them. */
  lemma {:induction false} ScanPrinted(index: nat, rs: seq<Record>, rest: seq<Byte>, offset: nat, limit: nat,
          codec: Codec)
    requires AllLoadable(rs, codec)
    requires index + |rs| <= limit < TWO_64
    ensures var tail := ScanTail(rest, offset + SizeOf(rs), index + |rs|, limit, codec);
      ScanTail(RecordsBytes(index, rs) + rest, offset, index, limit, codec)
      == Scan(tail.status, FoundOf(offset, index, rs, codec) + tail.found, tail.end)
    decreases rs
  {
    hide RecordBytes, ScanTail, FoundAt;
    if rs == [] {
      assert RecordsBytes(index, rs) + rest == rest;
      assert FoundOf(offset, index, rs, codec) == [];
    } else {
      var later := RecordsBytes(index + 1, rs[1..]) + rest;
      assert RecordsBytes(index, rs) + rest == RecordBytes(index, rs[0]) + later;
      ScanPrintedOne(index, rs[0], later, offset, limit, codec);
      ScanPrinted(index + 1, rs[1..], rest, offset + RECORD_HEADER_SIZE + |rs[0].payload|, limit, codec);
    }
  }

  lemma ScanPrintedAll(index: nat, rs: seq<Record>, offset: nat, limit: nat, codec: Codec)
    requires AllLoadable(rs, codec)
    requires index + |rs| <= limit < TWO_64
    ensures ScanTail(RecordsBytes(index, rs), offset, index, limit, codec)
         == Scan(Complete, FoundOf(offset, index, rs, codec), offset + SizeOf(rs))
  {
    hide RecordsBytes, ParseRecord, FoundOf, SizeOf;
    ScanPrinted(index, rs, [], offset, limit, codec);
    assert RecordsBytes(index, rs) + [] == RecordsBytes(index, rs);
  }

  lemma ScanPrintedOne(index: nat, r: Record, later: seq<Byte>, offset: nat, limit: nat, codec: Codec)
    requires Loadable(r, codec)
    requires index < limit < TWO_64
    ensures var tail := ScanTail(later, offset + RECORD_HEADER_SIZE + |r.payload|, index + 1, limit, codec);
      ScanTail(RecordBytes(index, r) + later, offset, index, limit, codec)
      == Scan(tail.status, [FoundAt(offset, index, r.arrival, r.payload, EventOf(r, codec))] + tail.found, tail.end)
  {
    hide RecordBytes, ParseRecord, FoundAt;
    ParsePrinted(index, r, later, codec);
    assert (RecordBytes(index, r) + later)[RECORD_HEADER_SIZE + |r.payload|..] == later;
  }

  lemma SlicesBehind(s: seq<Byte>, i: nat, j: nat)
    requires i + j <= |s|
    ensures s[..i + j] == s[..i] + s[i..][..j]
    ensures s[i + j..] == s[i..][j..]
  {
  }

  /** Conversely, whatever bytes are scanned, the part that was accepted is what the writer
      lays down for some records, and nothing of the rest was accepted. */
  lemma {:induction false} ScanAccepts(tail: seq<Byte>, offset: nat, index: nat, limit: nat, codec: Codec)
      returns (rs: seq<Record>)
    requires index <= limit < TWO_64
    ensures AllLoadable(rs, codec)
    ensures index + |rs| <= limit
    ensures SizeOf(rs) <= |tail|
    ensures tail[..SizeOf(rs)] == RecordsBytes(index, rs)
    ensures var scan := ScanTail(tail, offset, index, limit, codec);
      && scan.found == FoundOf(offset, index, rs, codec)
      && scan.end == offset + SizeOf(rs)
      && ScanTail(tail[SizeOf(rs)..], scan.end, index + |rs|, limit, codec) == Scan(scan.status, [], scan.end)
    decreases |tail|
  {
    hide RecordBytes, ParseRecord, FoundAt;
    rs := [];
    assert tail[0..] == tail;
    if tail != [] && index != limit && ParseRecord(tail, index, codec).Whole? {
      var parsed := ParseRecord(tail, index, codec);
      var r := Record(parsed.arrival, parsed.payload);
      var size := RECORD_HEADER_SIZE + |r.payload|;
      PrintParsed(tail, index, codec);
      var more := ScanAccepts(tail[size..], offset + size, index + 1, limit, codec);
      rs := [r] + more;
      assert rs[1..] == more;
      BytesOfFirst(index, rs);
      SlicesBehind(tail, size, SizeOf(more));
      hide RecordsBytes, SizeOf;
    }
  }

  /** Records cut short end in a truncated tail, unless the cut falls between two records. */
  lemma ScanCut(index: nat, rs: seq<Record>, n: nat, cut: nat, offset: nat, limit: nat, codec: Codec)
    requires AllLoadable(rs, codec)
    requires index + |rs| <= limit < TWO_64
    requires n < |rs| && cut < RECORD_HEADER_SIZE + |rs[n].payload|
    ensures SizeOf(rs[..n]) + cut <= SizeOf(rs) == |RecordsBytes(index, rs)|
    ensures ScanTail(RecordsBytes(index, rs)[..SizeOf(rs[..n]) + cut], offset, index, limit, codec)
         == Scan(if cut == 0 then Complete else TruncatedTail, FoundOf(offset, index, rs[..n], codec),
                 offset + SizeOf(rs[..n]))
  {
    hide RecordBytes, ParseRecord, FoundAt;
    RecordsBytesSplit(index, rs, n);
    RecordsBytesSize(index, rs[..n]);
    RecordsBytesSize(index, rs);
    var part := RecordBytes(index + n, rs[n])[..cut];
    assert RecordsBytes(index, rs)[..SizeOf(rs[..n]) + cut] == RecordsBytes(index, rs[..n]) + part by {
      assert rs[n..][0] == rs[n];
    }
    ScanPrinted(index, rs[..n], part, offset, limit, codec);
    if cut > 0 {
      ParseCut(index + n, rs[n], cut, codec);
    }
  }

  // Damage.

  /** Record `n` is the first one whose bytes are not as they were laid down. */
  ghost predicate FirstDamaged(index: nat, rs: seq<Record>, tail: seq<Byte>, n: nat) {
    var whole := RecordsBytes(index, rs);
    && n < |rs|
    && SizeOf(rs[..n]) <= SizeOf(rs[..n + 1]) <= |tail| == |whole|
    && tail[..SizeOf(rs[..n])] == whole[..SizeOf(rs[..n])]
    && tail[SizeOf(rs[..n])..SizeOf(rs[..n + 1])] != whole[SizeOf(rs[..n])..SizeOf(rs[..n + 1])]
  }

  lemma FirstIsDamaged(index: nat, rs: seq<Record>, tail: seq<Byte>)
    requires rs != [] && |tail| == |RecordsBytes(index, rs)|
    requires tail[..RECORD_HEADER_SIZE + |rs[0].payload|] != RecordBytes(index, rs[0])
    ensures FirstDamaged(index, rs, tail, 0)
  {
    hide RecordBytes;
    assert rs[..0] == [] && rs[..1] == [rs[0]] && rs[..1][1..] == [];
    assert SizeOf(rs[..1]) == RECORD_HEADER_SIZE + |rs[0].payload|;
  }

  lemma LaterIsDamaged(index: nat, rs: seq<Record>, tail: seq<Byte>, n: nat)
    requires rs != []
    requires FirstDamaged(index + 1, rs[1..], tail, n)
    ensures FirstDamaged(index, rs, RecordBytes(index, rs[0]) + tail, n + 1)
    ensures n + 1 < |rs|
    ensures SizeOf(rs[..n + 1]) == RECORD_HEADER_SIZE + |rs[0].payload| + SizeOf(rs[1..][..n])
  {
    hide RecordBytes;
    assert rs[..n + 1][1..] == rs[1..][..n];
    assert rs[..n + 2][1..] == rs[1..][..n + 1];
    var front, later := RecordBytes(index, rs[0]), RecordsBytes(index + 1, rs[1..]);
    var i, j := SizeOf(rs[1..][..n]), SizeOf(rs[1..][..n + 1]);
    assert SizeOf(rs[..n + 1]) == |front| + i && SizeOf(rs[..n + 2]) == |front| + j;
    assert RecordsBytes(index, rs) == front + later;
    hide *;
    BehindFront(front, tail, i, j);
    BehindFront(front, later, i, j);
    assert FirstDamaged(index, rs, front + tail, n + 1) by {
      DamageBehindFront(index, rs, front, later, tail, n, i, j);
    }
  }

  lemma DamageBehindFront(index: nat, rs: seq<Record>, front: seq<Byte>, later: seq<Byte>, tail: seq<Byte>, n: nat,
          i: nat, j: nat)
    requires n + 1 < |rs|
    requires RecordsBytes(index, rs) == front + later
    requires SizeOf(rs[..n + 1]) == |front| + i && SizeOf(rs[..n + 2]) == |front| + j
    requires i <= j <= |tail| == |later|
    requires tail[..i] == later[..i] && tail[i..j] != later[i..j]
    ensures FirstDamaged(index, rs, front + tail, n + 1)
  {
    hide SizeOf, RecordsBytes;
    BehindFront(front, tail, i, j);
    BehindFront(front, later, i, j);
  }

  lemma BehindFront(front: seq<Byte>, s: seq<Byte>, i: nat, j: nat)
    requires i <= j <= |s|
    ensures (front + s)[..|front| + i] == front + s[..i]
    ensures (front + s)[|front| + i..|front| + j] == s[i..j]
  {
  }

  /** Some record is the first one that is not as it was laid down. */
  lemma {:induction false} FindDamage(index: nat, rs: seq<Record>, tail: seq<Byte>) returns (n: nat)
    requires |tail| == |RecordsBytes(index, rs)| && tail != RecordsBytes(index, rs)
    ensures FirstDamaged(index, rs, tail, n)
    decreases rs
  {
    hide RecordBytes, FirstDamaged;
    var size := RECORD_HEADER_SIZE + |rs[0].payload|;
    if tail[..size] == RecordBytes(index, rs[0]) {
      var rest := tail[size..];
      assert tail == RecordBytes(index, rs[0]) + rest;
      n := FindDamage(index + 1, rs[1..], rest);
      LaterIsDamaged(index, rs, rest, n);
      n := n + 1;
    } else {
      n := 0;
      FirstIsDamaged(index, rs, tail);
    }
  }

  /** The records before the first damaged one, and what is there instead of it and of the rest. */
  lemma DamageParts(index: nat, rs: seq<Record>, tail: seq<Byte>, n: nat)
    requires FirstDamaged(index, rs, tail, n)
    ensures n < |rs|
    ensures var before, later := RecordsBytes(index, rs[..n]), RecordsBytes(index + n + 1, rs[n + 1..]);
      var size := RECORD_HEADER_SIZE + |rs[n].payload|;
      && SizeOf(rs[..n]) == |before| <= |tail|
      && RecordsBytes(index, rs) == before + (RecordBytes(index + n, rs[n]) + later)
      && tail == before + tail[|before|..]
      && |tail[|before|..]| == |RecordBytes(index + n, rs[n]) + later|
      && tail[|before|..][..size] != RecordBytes(index + n, rs[n])
  {
    hide RecordBytes;
    RecordsBytesSplit(index, rs, n);
    RecordsBytesSize(index, rs[..n]);
    OneMoreSize(rs, n);
    assert rs[n..][1..] == rs[n + 1..];
    var before, later := RecordsBytes(index, rs[..n]), RecordsBytes(index + n + 1, rs[n + 1..]);
    assert RecordsBytes(index, rs) == before + (RecordBytes(index + n, rs[n]) + later);
    hide RecordsBytes, SizeOf;
    MiddleOf(before, RecordBytes(index + n, rs[n]), later);
  }

  lemma LoadableUpTo(rs: seq<Record>, n: nat, codec: Codec)
    requires AllLoadable(rs, codec) && n < |rs|
    ensures AllLoadable(rs[..n], codec) && |rs[n].payload| <= MAXIMUM_PAYLOAD_SIZE
  {
  }

  lemma OneMoreSize(rs: seq<Record>, n: nat)
    requires n < |rs|
    ensures SizeOf(rs[..n + 1]) == SizeOf(rs[..n]) + RECORD_HEADER_SIZE + |rs[n].payload|
  {
    RecordsBytesSplit(0, rs[..n + 1], n);
    assert rs[..n + 1][..n] == rs[..n] && rs[..n + 1][n..] == [rs[n]];
    assert [rs[n]][1..] == [];
    hide RecordsBytes;
  }

  lemma MiddleOf(a: seq<Byte>, b: seq<Byte>, c: seq<Byte>)
    ensures (a + (b + c))[..|a|] == a
    ensures (a + (b + c))[|a|..|a| + |b|] == b
  {
  }

  /** The scan finds the records before the first damaged one, and ends there in corruption if
      a checksum tells it from what was laid down. */
  lemma ScanTold(index: nat, rs: seq<Record>, tail: seq<Byte>, n: nat, offset: nat, limit: nat, codec: Codec)
    requires AllLoadable(rs, codec)
    requires index + |rs| <= limit < TWO_64
    requires FirstDamaged(index, rs, tail, n)
    requires RecordTold(index + n, rs[n], tail[SizeOf(rs[..n])..])
    ensures ScanTail(tail, offset, index, limit, codec)
         == Scan(Corrupt, FoundOf(offset, index, rs[..n], codec), offset + SizeOf(rs[..n]))
  {
    hide *;
    DamageParts(index, rs, tail, n);
    LoadableUpTo(rs, n, codec);
    var rest := tail[SizeOf(rs[..n])..];
    ParseTold(index + n, rs[n], rest, codec);
    ScanDamagedHere(rest, offset + SizeOf(rs[..n]), index + n, limit, codec);
    ScanPrinted(index, rs[..n], rest, offset, limit, codec);
    NothingFound(FoundOf(offset, index, rs[..n], codec));
  }

  lemma ScanDamagedHere(tail: seq<Byte>, offset: nat, index: nat, limit: nat, codec: Codec)
    requires index < limit && ParseRecord(tail, index, codec) == Damaged
    ensures ScanTail(tail, offset, index, limit, codec) == Scan(Corrupt, [], offset)
  {
    hide DecodeHeader, Checksum, ParsePayload;
  }

  lemma NothingFound(found: seq<Found>)
    ensures found + [] == found
  {
  }

  // The file header.

  lemma FileHeaderFields(created: I64)
    ensures var h := FileHeader(created);
      && h[..8] == FILE_MAGIC == [0x54, 0x46, 0x4C, 0x4F, 0x47, 0x0D, 0x0A, 0x1A]
      && h[8..10] == EncodeLE(LOG_FORMAT_VERSION, 2) && LOG_FORMAT_VERSION == 1
      && h[10..12] == EncodeLE(FILE_HEADER_SIZE, 2) && FILE_HEADER_SIZE == 32 == |h|
      && h[12..16] == EncodeLE(0, 4) == h[24..28]
      && h[16..24] == EncodeLE(ToUnsigned(created), 8)
      && h[28..32] == WordBytes(Checksum(h[..28]))
  {
    hide EncodeLE, WordBytes, Checksum;
    assert FileHeader(created)[..28] == FileHeaderBody(created);
  }

  lemma FileHeaderIntact(created: I64)
    ensures HeaderIntact(FileHeader(created))
    ensures SignedField(FileHeader(created)[16..24]) == created
  {
    FileHeaderFields(created);
    SmallFields();
    hide FileHeader, FILE_MAGIC, EncodeLE, DecodeLE, WordBytes, Word, Checksum, SignedField;
    WordOfBytes(Checksum(FileHeader(created)[..28]));
    SignedFieldPrinted(created);
  }

  lemma SmallFields()
    ensures DecodeLE(EncodeLE(LOG_FORMAT_VERSION, 2)) == LOG_FORMAT_VERSION
    ensures DecodeLE(EncodeLE(FILE_HEADER_SIZE, 2)) == FILE_HEADER_SIZE
  {
    RadixValues();
    hide EncodeLE, DecodeLE;
    DecodeEncode(LOG_FORMAT_VERSION, 2);
    DecodeEncode(FILE_HEADER_SIZE, 2);
  }

  lemma ReadJoined(header: seq<Byte>, body: seq<Byte>, limit: nat, retain: bool, codec: Codec)
    requires |header| == FILE_HEADER_SIZE
    ensures ReadBytes(header + body, limit, retain, codec) == ReadParts(header, body, limit, retain, codec)
  {
    hide ReadParts;
    assert (header + body)[..FILE_HEADER_SIZE] == header;
    assert (header + body)[FILE_HEADER_SIZE..] == body;
  }

  /** A file header that the checksum tells apart from the one laid down is never intact. */
  lemma FileHeaderTold(created: I64, h: seq<Byte>)
    requires ToldApart(FileHeader(created), h)
    ensures !HeaderIntact(h)
  {
    hide FileHeaderBody, DecodeLE, WordBytes, Word, Checksum, Register;
    SealMismatch(FileHeaderBody(created), h);
    assert |h| == 32 && h[28..] == h[28..32];
  }

  // Complete logs.

  /** Every log the writer completes reads back complete, with exactly its records. */
  lemma LogRoundTrips(created: I64, rs: seq<Record>, limit: nat, retain: bool, codec: Codec)
    requires AllLoadable(rs, codec)
    requires |rs| <= limit < TWO_64
    ensures var size := |LogBytes(created, rs)|;
      var found := FoundOf(FILE_HEADER_SIZE, 0, rs, codec);
      ReadBytes(LogBytes(created, rs), limit, retain, codec)
      == ReadResult(Complete, created, size, size, 0, Entries(found), if retain then LogRecords(found) else [])
  {
    hide FileHeader, RecordsBytes, FoundOf, Entries, LogRecords, ReadBytes, ScanTail, SizeOf, SignedField, HeaderIntact;
    FileHeaderIntact(created);
    ReadJoined(FileHeader(created), RecordsBytes(0, rs), limit, retain, codec);
    RecordsBytesSize(0, rs);
    ScanPrintedAll(0, rs, FILE_HEADER_SIZE, limit, codec);
  }

  /** A file reads complete exactly when its header is intact and everything after the header
      is what the writer lays down for some records within the limit. */
  lemma CompleteExactly(header: seq<Byte>, body: seq<Byte>, limit: nat, retain: bool, codec: Codec)
    requires |header| == FILE_HEADER_SIZE
    requires limit < TWO_64
    ensures ReadBytes(header + body, limit, retain, codec).status == Complete
       <==> HeaderIntact(header) && exists rs :: AllLoadable(rs, codec) && |rs| <= limit && body == RecordsBytes(0, rs)
  {
    hide ScanTail, RecordsBytes, HeaderIntact, ReadBytes, Entries, LogRecords, SignedField;
    ReadJoined(header, body, limit, retain, codec);
    if ReadParts(header, body, limit, retain, codec).status == Complete {
      var rs := ScanAcceptsAll(body, FILE_HEADER_SIZE, 0, limit, codec);
    }
    if rs :| AllLoadable(rs, codec) && |rs| <= limit && body == RecordsBytes(0, rs) {
      ScanPrintedAll(0, rs, FILE_HEADER_SIZE, limit, codec);
    }
  }

  lemma ScanAcceptsAll(tail: seq<Byte>, offset: nat, index: nat, limit: nat, codec: Codec) returns (rs: seq<Record>)
    requires index <= limit < TWO_64
    requires ScanTail(tail, offset, index, limit, codec).status == Complete
    ensures AllLoadable(rs, codec) && index + |rs| <= limit
    ensures tail == RecordsBytes(index, rs)
    ensures ScanTail(tail, offset, index, limit, codec).found == FoundOf(offset, index, rs, codec)
  {
    hide RecordsBytes, FoundOf, SizeOf, ParseRecord;
    rs := ScanAccepts(tail, offset, index, limit, codec);
    assert tail[SizeOf(rs)..] == [];
    assert tail[..SizeOf(rs)] == tail;
  }

  /** Two lists of records that are laid down alike are the same list, so the records behind a
      complete log are unique. */
  lemma {:induction false} RecordsBytesInjective(index: nat, rs: seq<Record>, qs: seq<Record>, codec: Codec)
    requires AllLoadable(rs, codec) && AllLoadable(qs, codec)
    requires index + |rs| <= TWO_64 && index + |qs| <= TWO_64
    requires RecordsBytes(index, rs) == RecordsBytes(index, qs)
    ensures rs == qs
    decreases rs
  {
    hide RecordBytes, ParseRecord;
    if rs != [] && qs != [] {
      var r, q := rs[0], qs[0];
      var a, b := RecordsBytes(index + 1, rs[1..]), RecordsBytes(index + 1, qs[1..]);
      ParsePrinted(index, r, a, codec);
      ParsePrinted(index, q, b, codec);
      assert a == (RecordBytes(index, r) + a)[RECORD_HEADER_SIZE + |r.payload|..];
      assert b == (RecordBytes(index, q) + b)[RECORD_HEADER_SIZE + |q.payload|..];
      RecordsBytesInjective(index + 1, rs[1..], qs[1..], codec);
      assert rs == [r] + rs[1..] && qs == [q] + qs[1..];
    }
  }

  // Where a record lies.

  lemma {:induction false} FoundOfAt(offset: nat, index: nat, rs: seq<Record>, k: nat, codec: Codec)
    requires AllLoadable(rs, codec) && k < |rs|
    ensures FoundOf(offset, index, rs, codec)[k]
         == FoundAt(offset + SizeOf(rs[..k]), index + k, rs[k].arrival, rs[k].payload, EventOf(rs[k], codec))
    decreases rs
  {
    hide FoundAt, EventOf, Loadable;
    if k == 0 {
    } else {
      FoundOfAt(offset + RECORD_HEADER_SIZE + |rs[0].payload|, index + 1, rs[1..], k - 1, codec);
      assert rs[..k][1..] == rs[1..][..k - 1];
    }
  }

  lemma PayloadOnDisk(created: I64, rs: seq<Record>, k: nat)
    requires k < |rs|
    ensures var start := FILE_HEADER_SIZE + SizeOf(rs[..k]) + RECORD_HEADER_SIZE;
      && start + |rs[k].payload| <= |LogBytes(created, rs)|
      && LogBytes(created, rs)[start..start + |rs[k].payload|] == rs[k].payload
  {
    hide FileHeader, RecordHeader, SizeOf;
    RecordsBytesSplit(0, rs, k);
    RecordsBytesSize(0, rs[..k]);
    hide RecordBytes;
    assert RecordsBytes(k, rs[k..]) == RecordBytes(k, rs[k]) + RecordsBytes(k + 1, rs[k..][1..]);
    hide RecordsBytes;
    PayloadIn(FileHeader(created), RecordsBytes(0, rs[..k]), k, rs[k], RecordsBytes(k + 1, rs[k..][1..]));
  }

  lemma PayloadIn(header: seq<Byte>, front: seq<Byte>, k: nat, r: Record, back: seq<Byte>)
    ensures var start := |header| + |front| + RECORD_HEADER_SIZE;
      var whole := header + (front + (RecordBytes(k, r) + back));
      && start + |r.payload| <= |whole|
      && whole[start..start + |r.payload|] == r.payload
  {
    hide RecordHeader;
  }

  // Damage.

  /** What reading a damaged log reports: corruption, with exactly the records before the first
      damaged one indexed, and none if it is the file header that is damaged. */
  ghost predicate CorruptFromFirstDamage(created: I64, rs: seq<Record>, header: seq<Byte>, body: seq<Byte>,
          r: ReadResult, codec: Codec)
    requires AllLoadable(rs, codec)
  {
    && r.status == Corrupt
    && if header != FileHeader(created) then r.index == [] && r.errorOffset == 0
       else exists n :: IndexedUpTo(rs, body, r, n, codec)
  }

  ghost predicate IndexedUpTo(rs: seq<Record>, body: seq<Byte>, r: ReadResult, n: nat, codec: Codec)
    requires AllLoadable(rs, codec)
  {
    && n < |rs|
    && FirstDamaged(0, rs, body, n)
    && r.index == Entries(FoundOf(FILE_HEADER_SIZE, 0, rs[..n], codec))
    && r.errorOffset == r.validBytes == FILE_HEADER_SIZE + SizeOf(rs[..n])
  }

  /** The first damage is where a checksum tells it: in the file header, or in a record. */
  ghost predicate DamageTold(created: I64, rs: seq<Record>, header: seq<Byte>, body: seq<Byte>) {
    || ToldApart(FileHeader(created), header)
    || (header == FileHeader(created) && exists n: nat :: RecordDamageTold(rs, body, n))
  }

  ghost predicate RecordDamageTold(rs: seq<Record>, body: seq<Byte>, n: nat) {
    FirstDamaged(0, rs, body, n) && RecordTold(n, rs[n], body[SizeOf(rs[..n])..])
  }

  /** Damage that a checksum tells is reported as corruption, never as a complete, a truncated or
      an oversized log; recovery then leaves the file alone. */
  lemma ToldDamageDetected(created: I64, rs: seq<Record>, header: seq<Byte>, body: seq<Byte>, limit: nat, retain: bool,
          codec: Codec)
    requires AllLoadable(rs, codec)
    requires |rs| <= limit < TWO_64
    requires |header| == FILE_HEADER_SIZE
    requires DamageTold(created, rs, header, body)
    ensures CorruptFromFirstDamage(created, rs, header, body, ReadBytes(header + body, limit, retain, codec), codec)
    ensures Recovered(header + body, limit, codec) == header + body
  {
    hide *;
    ReadJoined(header, body, limit, retain, codec);
    ReadJoined(header, body, limit, false, codec);
    DamagedParts(created, rs, header, body, limit, retain, codec);
    DamagedParts(created, rs, header, body, limit, false, codec);
    NotTruncated(header + body, limit, codec);
  }

  lemma NotTruncated(file: seq<Byte>, limit: nat, codec: Codec)
    requires ReadBytes(file, limit, false, codec).status != TruncatedTail
    ensures Recovered(file, limit, codec) == file
  {
    hide ReadBytes;
  }

  lemma DamagedParts(created: I64, rs: seq<Record>, header: seq<Byte>, body: seq<Byte>, limit: nat, retain: bool,
          codec: Codec)
    requires AllLoadable(rs, codec)
    requires |rs| <= limit < TWO_64
    requires |header| == FILE_HEADER_SIZE
    requires DamageTold(created, rs, header, body)
    ensures ReadParts(header, body, limit, retain, codec).status == Corrupt
    ensures CorruptFromFirstDamage(created, rs, header, body, ReadParts(header, body, limit, retain, codec), codec)
  {
    hide FileHeader, RecordsBytes, FoundOf, SizeOf, FirstDamaged, ScanTail, Entries, LogRecords, SignedField,
        HeaderIntact;
    hide ToldApart, RecordTold;
    if header != FileHeader(created) {
      FileHeaderTold(created, header);
    } else {
      FileHeaderIntact(created);
      if ToldApart(FileHeader(created), header) {
        FileHeaderTold(created, header);
      }
      var n: nat :| RecordDamageTold(rs, body, n);
      assert n < |rs| by {
        DamageWithin(rs, body, n);
      }
      ScanTold(0, rs, body, n, FILE_HEADER_SIZE, limit, codec);
      assert IndexedUpTo(rs, body, ReadParts(header, body, limit, retain, codec), n, codec);
    }
  }

  lemma DamageWithin(rs: seq<Record>, body: seq<Byte>, n: nat)
    requires FirstDamaged(0, rs, body, n)
    ensures n < |rs| && SizeOf(rs[..n]) <= |body|
  {
    hide RecordsBytes, SizeOf;
  }

  /** Any damage within 32 consecutive bits of a complete log, wherever they begin, is reported as
      corruption, with exactly the records before the first damaged one indexed. */
  lemma DamageDetected(created: I64, rs: seq<Record>, header: seq<Byte>, body: seq<Byte>, p: int, limit: nat,
          retain: bool, codec: Codec)
    requires AllLoadable(rs, codec)
    requires |rs| <= limit < TWO_64
    requires |header| == FILE_HEADER_SIZE
    requires AgreeOutside(LogBytes(created, rs), header + body, p)
    requires header + body != LogBytes(created, rs)
    ensures CorruptFromFirstDamage(created, rs, header, body, ReadBytes(header + body, limit, retain, codec), codec)
    ensures Recovered(header + body, limit, codec) == header + body
  {
    assert |FileHeader(created)| == FILE_HEADER_SIZE;
    assert LogBytes(created, rs) == FileHeader(created) + RecordsBytes(0, rs);
    hide *;
    AgreeOnParts(FileHeader(created), RecordsBytes(0, rs), header, body, p);
    BurstDamageTold(created, rs, header, body, p);
    ToldDamageDetected(created, rs, header, body, limit, retain, codec);
  }

  lemma BurstDamageTold(created: I64, rs: seq<Record>, header: seq<Byte>, body: seq<Byte>, p: int)
    requires AgreeOutside(FileHeader(created), header, p)
    requires AgreeOutside(RecordsBytes(0, rs), body, p - 8 * |FileHeader(created)|)
    requires header != FileHeader(created) || body != RecordsBytes(0, rs)
    ensures DamageTold(created, rs, header, body)
  {
    hide FileHeader, RecordsBytes, RecordBytes, BitsAgreeOutside, ToldApart, RecordTold, FirstDamaged, SizeOf;
    if header != FileHeader(created) {
      BurstToldApart(FileHeader(created), header, p);
    } else {
      var q := p - 8 * |FileHeader(created)|;
      var n := FindDamage(0, rs, body);
      DamageWithin(rs, body, n);
      DamageParts(0, rs, body, n);
      var before, later := RecordsBytes(0, rs[..n]), RecordsBytes(n + 1, rs[n + 1..]);
      var rest := body[|before|..];
      AgreeOnParts(before, RecordBytes(n, rs[n]) + later, before, rest, q);
      BurstTold(n, rs[n], later, rest, q - 8 * |before|);
      assert RecordDamageTold(rs, body, n);
    }
  }

  /** The first damage is an odd number of flipped bits in the file header, in a record's header,
      or in a payload behind an intact header. */
  ghost predicate OddDamage(created: I64, rs: seq<Record>, header: seq<Byte>, body: seq<Byte>) {
    || OddlyFlipped(FileHeader(created), header)
    || (header == FileHeader(created)
        && exists n: nat :: OddRecordDamage(rs, body, n))
  }

  ghost predicate OddRecordDamage(rs: seq<Record>, body: seq<Byte>, n: nat) {
    FirstDamaged(0, rs, body, n) && RecordOddlyFlipped(n, rs[n], body[SizeOf(rs[..n])..])
  }

  /** Any odd number of flipped bits, spread over such a part in any way, is reported so too. */
  lemma OddDamageDetected(created: I64, rs: seq<Record>, header: seq<Byte>, body: seq<Byte>, limit: nat, retain: bool,
          codec: Codec)
    requires AllLoadable(rs, codec)
    requires |rs| <= limit < TWO_64
    requires |header| == FILE_HEADER_SIZE
    requires OddDamage(created, rs, header, body)
    ensures CorruptFromFirstDamage(created, rs, header, body, ReadBytes(header + body, limit, retain, codec), codec)
    ensures Recovered(header + body, limit, codec) == header + body
  {
    hide FileHeader, FirstDamaged, RecordOddlyFlipped, RecordTold, OddlyFlipped, ToldApart, SizeOf;
    hide CorruptFromFirstDamage, Recovered, ReadBytes;
    if OddlyFlipped(FileHeader(created), header) {
      OddFlipsToldApart(FileHeader(created), header);
    } else {
      var n: nat :| OddRecordDamage(rs, body, n);
      DamageWithin(rs, body, n);
      OddFlipsTold(n, rs[n], body[SizeOf(rs[..n])..]);
      assert RecordDamageTold(rs, body, n);
    }
    ToldDamageDetected(created, rs, header, body, limit, retain, codec);
  }

  // Crashes.

  /** A log cut at any byte after its header, as a crash may leave it: reading indexes exactly
      the records that lie wholly inside; it reports a complete log when the cut falls between
      two records, and a truncated tail otherwise. */
  lemma CrashSafe(created: I64, rs: seq<Record>, cut: nat, limit: nat, retain: bool, codec: Codec)
      returns (n: nat)
    requires AllLoadable(rs, codec)
    requires |rs| <= limit < TWO_64
    requires FILE_HEADER_SIZE <= cut <= |LogBytes(created, rs)|
    ensures n <= |rs|
    ensures FILE_HEADER_SIZE + SizeOf(rs[..n]) <= cut
    ensures n < |rs| ==> cut < FILE_HEADER_SIZE + SizeOf(rs[..n + 1])
    ensures var found := FoundOf(FILE_HEADER_SIZE, 0, rs[..n], codec);
      var end := FILE_HEADER_SIZE + SizeOf(rs[..n]);
      ReadBytes(LogBytes(created, rs)[..cut], limit, retain, codec)
      == ReadResult(if cut == end then Complete else TruncatedTail, created, cut, end, if cut == end then 0 else end,
                    Entries(found), if retain then LogRecords(found) else [])
  {
    hide *;
    LogCut(created, rs, cut);
    RecordsBytesSize(0, rs);
    n := WholeRecords(rs, cut - FILE_HEADER_SIZE);
    CrashedParts(created, rs, n, cut - FILE_HEADER_SIZE, limit, retain, codec);
    ReadJoined(FileHeader(created), RecordsBytes(0, rs)[..cut - FILE_HEADER_SIZE], limit, retain, codec);
  }

  lemma CrashedParts(created: I64, rs: seq<Record>, n: nat, size: nat, limit: nat, retain: bool, codec: Codec)
    requires AllLoadable(rs, codec)
    requires |rs| <= limit < TWO_64
    requires n <= |rs| && SizeOf(rs[..n]) <= size <= |RecordsBytes(0, rs)|
    requires n < |rs| ==> size < SizeOf(rs[..n]) + RECORD_HEADER_SIZE + |rs[n].payload|
    requires n == |rs| ==> size == SizeOf(rs)
    ensures var found := FoundOf(FILE_HEADER_SIZE, 0, rs[..n], codec);
      var end := FILE_HEADER_SIZE + SizeOf(rs[..n]);
      var cut := FILE_HEADER_SIZE + size;
      ReadParts(FileHeader(created), RecordsBytes(0, rs)[..size], limit, retain, codec)
      == ReadResult(if cut == end then Complete else TruncatedTail, created, cut, end, if cut == end then 0 else end,
                    Entries(found), if retain then LogRecords(found) else [])
  {
    hide FileHeader, RecordsBytes, FoundOf, SizeOf, ScanTail, Entries, LogRecords, SignedField, HeaderIntact;
    FileHeaderIntact(created);
    ScanPrefix(0, rs, n, size, FILE_HEADER_SIZE, limit, codec);
  }

  lemma LogCut(created: I64, rs: seq<Record>, cut: nat)
    requires FILE_HEADER_SIZE <= cut <= |LogBytes(created, rs)|
    ensures cut - FILE_HEADER_SIZE <= |RecordsBytes(0, rs)|
    ensures LogBytes(created, rs)[..cut] == FileHeader(created) + RecordsBytes(0, rs)[..cut - FILE_HEADER_SIZE]
  {
    hide FileHeader, RecordsBytes;
  }

  lemma ScanPrefix(index: nat, rs: seq<Record>, n: nat, size: nat, offset: nat, limit: nat, codec: Codec)
    requires AllLoadable(rs, codec)
    requires index + |rs| <= limit < TWO_64
    requires n <= |rs| && SizeOf(rs[..n]) <= size <= |RecordsBytes(index, rs)|
    requires n < |rs| ==> size < SizeOf(rs[..n]) + RECORD_HEADER_SIZE + |rs[n].payload|
    requires n == |rs| ==> size == SizeOf(rs)
    ensures ScanTail(RecordsBytes(index, rs)[..size], offset, index, limit, codec)
         == Scan(if size == SizeOf(rs[..n]) then Complete else TruncatedTail, FoundOf(offset, index, rs[..n], codec),
                 offset + SizeOf(rs[..n]))
  {
    hide RecordsBytes, FoundOf, SizeOf, ScanTail;
    if n < |rs| {
      ScanCut(index, rs, n, size - SizeOf(rs[..n]), offset, limit, codec);
    } else {
      RecordsBytesSize(index, rs);
      assert rs[..n] == rs && RecordsBytes(index, rs)[..size] == RecordsBytes(index, rs);
      ScanPrintedAll(index, rs, offset, limit, codec);
    }
  }

  /** How many records fit into `size` bytes. */
  lemma {:induction false} WholeRecords(rs: seq<Record>, size: nat) returns (n: nat)
    requires size <= SizeOf(rs)
    ensures n <= |rs| && SizeOf(rs[..n]) <= size
    ensures n < |rs| ==> size < SizeOf(rs[..n]) + RECORD_HEADER_SIZE + |rs[n].payload| == SizeOf(rs[..n + 1])
    ensures n == |rs| ==> size == SizeOf(rs)
    decreases rs
  {
    if rs == [] || size < RECORD_HEADER_SIZE + |rs[0].payload| {
      n := 0;
      assert rs[..0] == [];
      if rs != [] {
        assert rs[..1][1..] == [];
      }
    } else {
      n := WholeRecords(rs[1..], size - RECORD_HEADER_SIZE - |rs[0].payload|);
      n := n + 1;
      assert rs[..n][1..] == rs[1..][..n - 1];
      if n < |rs| {
        assert rs[..n + 1][1..] == rs[1..][..n];
      }
    }
  }

  // Recovery.

  /** The file that recovery leaves behind, which for anything but a truncated tail is the file itself. */
  function Recovered(file: seq<Byte>, limit: nat, codec: Codec): seq<Byte> {
    var r := ReadBytes(file, limit, false, codec);
    if r.status == TruncatedTail && FILE_HEADER_SIZE <= r.validBytes <= |file| then file[..r.validBytes] else file
  }

  /** Whatever the bytes of a file: if it reads as truncated, recovery keeps every indexed
      record, removes less than one record of the largest size, and leaves a file that reads
      complete with the same index. Otherwise it changes nothing. In both cases a second
      recovery changes nothing. */
  lemma RecoveryExact(file: seq<Byte>, limit: nat, retain: bool, codec: Codec)
    requires limit < TWO_64
    ensures var before := ReadBytes(file, limit, retain, codec);
      var kept := Recovered(file, limit, codec);
      var after := ReadBytes(kept, limit, retain, codec);
      && kept <= file
      && (before.status != TruncatedTail ==> kept == file)
      && (before.status == TruncatedTail ==>
            && 0 < |file| - |kept| < RECORD_HEADER_SIZE + MAXIMUM_PAYLOAD_SIZE
            && |kept| == before.validBytes
            && after == before.(status := Complete, fileSize := |kept|, errorOffset := 0))
      && Recovered(kept, limit, codec) == kept
  {
    hide HeaderIntact, ScanTail, Entries, LogRecords, SignedField;
    if ReadBytes(file, limit, retain, codec).status == TruncatedTail {
      var header, body := file[..FILE_HEADER_SIZE], file[FILE_HEADER_SIZE..];
      var size := ScanTruncated(body, FILE_HEADER_SIZE, 0, limit, codec);
      assert file[..FILE_HEADER_SIZE + size] == header + body[..size];
      ReadJoined(header, body[..size], limit, retain, codec);
      ReadJoined(header, body[..size], limit, false, codec);
    }
  }

  /** The accepted part of truncated bytes scans complete, with the same finds. */
  lemma ScanTruncated(tail: seq<Byte>, offset: nat, index: nat, limit: nat, codec: Codec) returns (size: nat)
    requires index <= limit < TWO_64
    requires ScanTail(tail, offset, index, limit, codec).status == TruncatedTail
    ensures size <= |tail| && 0 < |tail| - size < RECORD_HEADER_SIZE + MAXIMUM_PAYLOAD_SIZE
    ensures ScanTail(tail, offset, index, limit, codec).end == offset + size
    ensures ScanTail(tail[..size], offset, index, limit, codec)
         == Scan(Complete, ScanTail(tail, offset, index, limit, codec).found, offset + size)
  {
    hide RecordsBytes, FoundOf, SizeOf, ParseRecord;
    var rs := ScanAccepts(tail, offset, index, limit, codec);
    size := SizeOf(rs);
    ScanPrintedAll(index, rs, offset, limit, codec);
    ShortIsSmall(tail[size..], index + |rs|, codec);
  }

  lemma ShortIsSmall(tail: seq<Byte>, index: nat, codec: Codec)
    requires ParseRecord(tail, index, codec) == Short
    ensures |tail| < RECORD_HEADER_SIZE + MAXIMUM_PAYLOAD_SIZE
  {
    hide DecodeHeader, Checksum;
  }
}
