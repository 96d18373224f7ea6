/** One record: the parser inverts the printer, and the printer inverts the parser. */
module RecordCodec {
  import opened Octets
  import opened Bytes
  import opened Castagnoli
  import opened Telemetry
  import opened LogFormat

  /** A record the reader can take up: it fits, and its payload parses to a current event. */
  ghost predicate Loadable(r: Record, codec: Codec) {
    && |r.payload| <= MAXIMUM_PAYLOAD_SIZE
    && codec.parse(r.payload).Some?
    && codec.parse(r.payload).value.schemaVersion == SCHEMA_VERSION
  }

  ghost function EventOf(r: Record, codec: Codec): Event
    requires Loadable(r, codec)
  {
    codec.parse(r.payload).value
  }

  // Headers.

  lemma SignedRoundTrip(i: I64, u: U64)
    ensures ToSigned(ToUnsigned(i)) == i
    ensures ToUnsigned(ToSigned(u)) == u
  {
  }

  lemma SignedFieldPrinted(i: I64)
    ensures SignedField(EncodeLE(ToUnsigned(i), 8)) == i
  {
    RadixValues();
    hide EncodeLE, DecodeLE, Radix;
    DecodeEncode(ToUnsigned(i), 8);
    SignedRoundTrip(i, 0);
  }

  lemma SignedFieldParsed(field: seq<Byte>)
    requires |field| == 8
    ensures EncodeLE(ToUnsigned(SignedField(field)), 8) == field
  {
    RadixValues();
    hide EncodeLE, DecodeLE, Radix;
    EncodeDecode(field);
    SignedRoundTrip(0, DecodeLE(field));
  }

  /** Where each of seven fields and the seal behind them lies. */
  lemma HeaderParts(a: seq<Byte>, b: seq<Byte>, c: seq<Byte>, d: seq<Byte>, e: seq<Byte>, f: seq<Byte>, g: seq<Byte>,
          seal: seq<Byte>)
    ensures var h := a + b + c + d + e + f + g + seal;
      var (bEnd, cEnd, dEnd) := (|a| + |b|, |a| + |b| + |c|, |a| + |b| + |c| + |d|);
      var (eEnd, fEnd, gEnd) := (dEnd + |e|, dEnd + |e| + |f|, dEnd + |e| + |f| + |g|);
      && |h| == gEnd + |seal|
      && h[..|a|] == a && h[|a|..bEnd] == b && h[bEnd..cEnd] == c && h[cEnd..dEnd] == d && h[dEnd..eEnd] == e
      && h[eEnd..fEnd] == f && h[fEnd..gEnd] == g && h[gEnd..] == seal
      && h[..gEnd] == a + b + c + d + e + f + g
  {
    var h := a + b + c + d + e + f + g + seal;
    assert h[..|a + b + c + d + e + f + g|] == a + b + c + d + e + f + g;
    LastPart(h, a + b + c + d + e + f, g);
    LastPart(h, a + b + c + d + e, f);
    LastPart(h, a + b + c + d, e);
    LastPart(h, a + b + c, d);
    LastPart(h, a + b, c);
    LastPart(h, a, b);
  }

  lemma LastPart(h: seq<Byte>, front: seq<Byte>, part: seq<Byte>)
    requires |front| + |part| <= |h| && h[..|front| + |part|] == front + part
    ensures h[..|front|] == front && h[|front|..|front| + |part|] == part
  {
    assert front == (front + part)[..|front|] && part == (front + part)[|front|..];
  }

  /** Where each field of a record header lies. */
  lemma HeaderFields(index: nat, r: Record)
    ensures var h := RecordHeader(index, r);
      && h[..4] == RECORD_MAGIC == [0x54, 0x46, 0x52, 0x31]
      && h[4..6] == EncodeLE(RECORD_HEADER_SIZE, 2) && RECORD_HEADER_SIZE == 36 == |h|
      && h[6..8] == EncodeLE(RECORD_FORMAT_VERSION, 2) && RECORD_FORMAT_VERSION == 1
      && h[8..12] == EncodeLE(|r.payload|, 4)
      && h[12..16] == WordBytes(Checksum(r.payload))
      && h[16..24] == EncodeLE(index, 8)
      && h[24..32] == EncodeLE(ToUnsigned(r.arrival), 8)
      && h[..32] == RecordHeaderBody(index, r)
      && h[32..36] == WordBytes(Checksum(h[..32]))
  {
    hide EncodeLE, WordBytes, Checksum;
    HeaderParts(RECORD_MAGIC, EncodeLE(RECORD_HEADER_SIZE, 2), EncodeLE(RECORD_FORMAT_VERSION, 2),
      EncodeLE(|r.payload|, 4), WordBytes(Checksum(r.payload)), EncodeLE(index, 8), EncodeLE(ToUnsigned(r.arrival), 8),
      WordBytes(Checksum(RecordHeaderBody(index, r))));
  }

  lemma HeaderFromFields(index: nat, r: Record, h: seq<Byte>)
    requires |h| == RECORD_HEADER_SIZE
    requires h[..4] == RECORD_MAGIC
    requires h[4..6] == EncodeLE(RECORD_HEADER_SIZE, 2)
    requires h[6..8] == EncodeLE(RECORD_FORMAT_VERSION, 2)
    requires h[8..12] == EncodeLE(|r.payload|, 4)
    requires h[12..16] == WordBytes(Checksum(r.payload))
    requires h[16..24] == EncodeLE(index, 8)
    requires h[24..32] == EncodeLE(ToUnsigned(r.arrival), 8)
    requires h[32..36] == WordBytes(Checksum(h[..32]))
    ensures h == RecordHeader(index, r)
  {
    hide EncodeLE, WordBytes, Checksum;
    UpTo(h, 4, 6);
    UpTo(h, 6, 8);
    UpTo(h, 8, 12);
    UpTo(h, 12, 16);
    UpTo(h, 16, 24);
    UpTo(h, 24, 32);
    UpTo(h, 32, 36);
    assert h[..36] == h;
  }

  lemma UpTo(h: seq<Byte>, i: nat, j: nat)
    requires i <= j <= |h|
    ensures h[..j] == h[..i] + h[i..j]
  {
  }

  lemma DecodePrintedHeader(index: nat, r: Record)
    requires |r.payload| <= MAXIMUM_PAYLOAD_SIZE && index < TWO_64
    ensures DecodeHeader(RecordHeader(index, r)) == Header(true, |r.payload|, Checksum(r.payload), index, r.arrival)
  {
    HeaderFields(index, r);
    RadixValues();
    hide RecordHeader, EncodeLE, DecodeLE, WordBytes, Word, Checksum, SignedField;
    DecodeEncode(RECORD_HEADER_SIZE, 2);
    DecodeEncode(RECORD_FORMAT_VERSION, 2);
    DecodeEncode(|r.payload|, 4);
    DecodeEncode(index, 8);
    WordOfBytes(Checksum(r.payload));
    WordOfBytes(Checksum(RecordHeader(index, r)[..32]));
    SignedFieldPrinted(r.arrival);
  }

  lemma PrintDecodedHeader(h: seq<Byte>, index: nat, r: Record)
    requires |h| == RECORD_HEADER_SIZE
    requires DecodeHeader(h) == Header(true, |r.payload|, Checksum(r.payload), index, r.arrival)
    ensures index < TWO_64
    ensures h == RecordHeader(index, r)
  {
    RadixValues();
    hide RecordHeader, EncodeLE, DecodeLE, WordBytes, Word, Checksum, SignedField;
    EncodeDecode(h[4..6]);
    EncodeDecode(h[6..8]);
    EncodeDecode(h[8..12]);
    EncodeDecode(h[16..24]);
    SignedFieldParsed(h[24..32]);
    BytesOfWord(h[12..16]);
    BytesOfWord(h[32..36]);
    HeaderFromFields(index, r, h);
  }

  /** A header that the checksum tells apart from the printed one is never intact. */
  lemma HeaderTold(index: nat, r: Record, h: seq<Byte>)
    requires ToldApart(RecordHeader(index, r), h)
    ensures !DecodeHeader(h).intact
  {
    hide RecordHeaderBody, WordBytes, Word, Checksum, Register, DecodeLE, SignedField;
    SealMismatch(RecordHeaderBody(index, r), h);
    assert h[32..] == h[32..36];
  }

  /** The comparison that a reader makes fails. */
  lemma SealMismatch(body: seq<Byte>, sealed: seq<Byte>)
    requires ToldApart(body + WordBytes(Checksum(body)), sealed)
    ensures Word(sealed[|body|..]) != Checksum(sealed[..|body|])
  {
    hide WordBytes, Word, Checksum, Register;
    assert sealed == sealed[..|body|] + sealed[|body|..];
    SealBroken(body, sealed[..|body|], sealed[|body|..]);
    BytesOfWord(sealed[|body|..]);
  }

  // Records.

  /** Parsing what was printed gives it back, whatever follows. */
  lemma ParsePrinted(index: nat, r: Record, rest: seq<Byte>, codec: Codec)
    requires Loadable(r, codec)
    requires index < TWO_64
    ensures ParseRecord(RecordBytes(index, r) + rest, index, codec) == Whole(r.arrival, r.payload, EventOf(r, codec))
  {
    hide RecordHeader, DecodeHeader, Checksum;
    var tail := RecordBytes(index, r) + rest;
    assert tail[..36] == RecordHeader(index, r);
    assert tail[36..36 + |r.payload|] == r.payload;
    DecodePrintedHeader(index, r);
  }

  /** Printing what was parsed gives back the bytes it was parsed from. */
  lemma PrintParsed(tail: seq<Byte>, index: nat, codec: Codec)
    requires ParseRecord(tail, index, codec).Whole?
    ensures var p := ParseRecord(tail, index, codec);
      && index < TWO_64
      && Loadable(Record(p.arrival, p.payload), codec)
      && EventOf(Record(p.arrival, p.payload), codec) == p.event
      && |tail| >= RECORD_HEADER_SIZE + |p.payload|
      && tail[..RECORD_HEADER_SIZE + |p.payload|] == RecordBytes(index, Record(p.arrival, p.payload))
  {
    hide RecordHeader, DecodeHeader, Checksum;
    var p := ParseRecord(tail, index, codec);
    PrintDecodedHeader(tail[..36], index, Record(p.arrival, p.payload));
    assert tail[..36 + |p.payload|] == tail[..36] + tail[36..36 + |p.payload|];
  }

  /** A record cut anywhere is recognised as cut, not as damaged. */
  lemma ParseCut(index: nat, r: Record, cut: nat, codec: Codec)
    requires |r.payload| <= MAXIMUM_PAYLOAD_SIZE
    requires index < TWO_64
    requires cut < RECORD_HEADER_SIZE + |r.payload|
    ensures ParseRecord(RecordBytes(index, r)[..cut], index, codec) == Short
  {
    hide RecordHeader, DecodeHeader, Checksum;
    if cut >= RECORD_HEADER_SIZE {
      assert RecordBytes(index, r)[..cut][..36] == RecordHeader(index, r);
      DecodePrintedHeader(index, r);
    }
  }

  /** Bytes in place of a printed record that differ from it where the checksums look: in the
      header, or in the payload behind an intact header. */
  ghost predicate RecordTold(index: nat, r: Record, tail: seq<Byte>) {
    && RECORD_HEADER_SIZE + |r.payload| <= |tail|
    && (ToldApart(RecordHeader(index, r), tail[..RECORD_HEADER_SIZE])
        || (tail[..RECORD_HEADER_SIZE] == RecordHeader(index, r)
            && ToldApart(r.payload, tail[RECORD_HEADER_SIZE..RECORD_HEADER_SIZE + |r.payload|])))
  }

  /** Such a record is recognised as damaged, whatever its length field holds. */
  lemma ParseTold(index: nat, r: Record, tail: seq<Byte>, codec: Codec)
    requires |r.payload| <= MAXIMUM_PAYLOAD_SIZE
    requires index < TWO_64
    requires RecordTold(index, r, tail)
    ensures ParseRecord(tail, index, codec) == Damaged
  {
    hide RecordHeader, DecodeHeader, Checksum, ToldApart;
    if ToldApart(RecordHeader(index, r), tail[..RECORD_HEADER_SIZE]) {
      HeaderTold(index, r, tail[..RECORD_HEADER_SIZE]);
    } else {
      DecodePrintedHeader(index, r);
      ChecksumsDiffer(r.payload, tail[RECORD_HEADER_SIZE..RECORD_HEADER_SIZE + |r.payload|]);
    }
  }

  lemma RecordParts(index: nat, r: Record, rest: seq<Byte>, tail: seq<Byte>)
    requires |tail| == |RecordBytes(index, r) + rest|
    ensures RecordBytes(index, r) + rest == RecordHeader(index, r) + (r.payload + rest)
    ensures tail == tail[..RECORD_HEADER_SIZE]
        + (tail[RECORD_HEADER_SIZE..RECORD_HEADER_SIZE + |r.payload|] + tail[RECORD_HEADER_SIZE + |r.payload|..])
    ensures tail[..RECORD_HEADER_SIZE + |r.payload|]
        == tail[..RECORD_HEADER_SIZE] + tail[RECORD_HEADER_SIZE..RECORD_HEADER_SIZE + |r.payload|]
  {
    hide RecordHeader;
  }

  /** A record damaged within 32 consecutive bits, of itself or of what follows too. */
  lemma BurstTold(index: nat, r: Record, rest: seq<Byte>, tail: seq<Byte>, p: int)
    requires AgreeOutside(RecordBytes(index, r) + rest, tail, p)
    requires tail[..RECORD_HEADER_SIZE + |r.payload|] != RecordBytes(index, r)
    ensures RecordTold(index, r, tail)
  {
    var header, size := tail[..RECORD_HEADER_SIZE], RECORD_HEADER_SIZE + |r.payload|;
    var payload, later := tail[RECORD_HEADER_SIZE..size], tail[size..];
    RecordParts(index, r, rest, tail);
    hide RecordHeader, BitsAgreeOutside, ToldApart;
    AgreeOnParts(RecordHeader(index, r), r.payload + rest, header, payload + later, p);
    AgreeOnParts(r.payload, rest, payload, later, p - 8 * RECORD_HEADER_SIZE);
    if header != RecordHeader(index, r) {
      BurstToldApart(RecordHeader(index, r), header, p);
    } else {
      BurstToldApart(r.payload, payload, p - 8 * RECORD_HEADER_SIZE);
    }
  }

  /** A record with an odd number of flipped bits in its header, or in its payload alone. */
  ghost predicate RecordOddlyFlipped(index: nat, r: Record, tail: seq<Byte>) {
    && RECORD_HEADER_SIZE + |r.payload| <= |tail|
    && (OddlyFlipped(RecordHeader(index, r), tail[..RECORD_HEADER_SIZE])
        || (tail[..RECORD_HEADER_SIZE] == RecordHeader(index, r)
            && OddlyFlipped(r.payload, tail[RECORD_HEADER_SIZE..RECORD_HEADER_SIZE + |r.payload|])))
  }

  lemma OddFlipsTold(index: nat, r: Record, tail: seq<Byte>)
    requires RecordOddlyFlipped(index, r, tail)
    ensures RecordTold(index, r, tail)
  {
    hide RecordHeader, OddlyFlipped, ToldApart;
    if OddlyFlipped(RecordHeader(index, r), tail[..RECORD_HEADER_SIZE]) {
      OddFlipsToldApart(RecordHeader(index, r), tail[..RECORD_HEADER_SIZE]);
    } else {
      OddFlipsToldApart(r.payload, tail[RECORD_HEADER_SIZE..RECORD_HEADER_SIZE + |r.payload|]);
    }
  }
}
