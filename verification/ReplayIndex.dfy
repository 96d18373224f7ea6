/** The loop one turn at a time, and what the index that the reader hands to replay is like. */
module ReplayIndex {
  import opened Octets
  import opened Bytes
  import opened Castagnoli
  import opened Telemetry
  import opened LogFormat
  import opened LogReader
  import opened Timeline
  import opened Replay

  // One turn of the loop.

  lemma ReplayOnce(disk: seq<Byte>, index: seq<IndexEntry>, position: nat, until: Option<I64>, consumer: Consumer,
          codec: Codec, p: ReplayResult)
    requires position < |index|
    ensures var q := Turn(disk, index[position], consumer, codec, p);
      ReplayEntries(disk, index[position..], until, consumer, codec, p)
      == if !Within(index[position], until) then p
         else if q.status != ReplayComplete then q
         else ReplayEntries(disk, index[position + 1..], until, consumer, codec, q)
  {
    hide Turn, Within;
    assert index[position..][1..] == index[position + 1..];
  }

  lemma ReplayNone(disk: seq<Byte>, es: seq<IndexEntry>, until: Option<I64>, consumer: Consumer, codec: Codec,
          p: ReplayResult)
    requires es == []
    ensures ReplayEntries(disk, es, until, consumer, codec, p) == p
  {
  }

  lemma {:induction false} FromPosition(es: seq<IndexEntry>, position: nat, from: Option<I64>)
    requires position <= |es|
    requires forall i :: 0 <= i < position ==> !NotBefore(es[i], from)
    requires forall i :: position <= i < |es| ==> NotBefore(es[i], from)
    ensures From(es, from) == es[position..]
    decreases es
  {
    if position == 0 {
    } else {
      FromPosition(es[1..], position - 1, from);
      assert es[1..][position - 1..] == es[position..];
    }
  }

  // What the reader's index is like.

  /** An entry that leads back to a payload on disk that is as it was when it was indexed. */
  ghost predicate LeadsBack(file: seq<Byte>, f: Found, number: nat, codec: Codec) {
    var read := ReadEntry(file, f.entry, codec);
    && f.entry.recordIndex == number
    && read.Intact?
    && read.event == f.event
    && |read.payload| == f.entry.payloadSize
  }

  ghost predicate AllLeadBack(file: seq<Byte>, found: seq<Found>, number: nat, codec: Codec) {
    forall k :: 0 <= k < |found| ==> LeadsBack(file, found[k], number + k, codec)
  }

  lemma OneMoreLeadsBack(file: seq<Byte>, first: Found, rest: seq<Found>, number: nat, codec: Codec)
    requires LeadsBack(file, first, number, codec)
    requires AllLeadBack(file, rest, number + 1, codec)
    ensures AllLeadBack(file, [first] + rest, number, codec)
  {
    hide LeadsBack;
    var found := [first] + rest;
    forall k | 0 <= k < |found| ensures LeadsBack(file, found[k], number + k, codec) {
      if k > 0 {
        assert found[k] == rest[k - 1];
        assert LeadsBack(file, rest[k - 1], number + 1 + (k - 1), codec);
      }
    }
  }

  lemma ScanStops(tail: seq<Byte>, offset: nat, index: nat, limit: nat, codec: Codec)
    requires tail == [] || index == limit || !ParseRecord(tail, index, codec).Whole?
    ensures ScanTail(tail, offset, index, limit, codec).found == []
  {
    hide ParseRecord;
  }

  /** Whatever the file, every entry the scan indexes is numbered in turn and leads back to its payload. */
  lemma {:induction false} ScanLeadsBack(file: seq<Byte>, offset: nat, index: nat, limit: nat, codec: Codec)
    requires offset <= |file|
    ensures AllLeadBack(file, ScanTail(file[offset..], offset, index, limit, codec).found, index, codec)
    decreases |file| - offset
  {
    hide ParseRecord, ScanTail, LeadsBack, AllLeadBack, FoundAt;
    var tail := file[offset..];
    if tail == [] || index == limit || !ParseRecord(tail, index, codec).Whole? {
      ScanStops(tail, offset, index, limit, codec);
      NoneLeadBack(file, index, codec);
    } else {
      var p := ParseRecord(tail, index, codec);
      var size := RECORD_HEADER_SIZE + |p.payload|;
      WholeLeadsBack(file, offset, index, codec);
      AfterOne(file, offset, size);
      ScanFound(tail, offset, index, limit, codec);
      ScanLeadsBack(file, offset + size, index + 1, limit, codec);
      OneMoreLeadsBack(file, FoundAt(offset, index, p.arrival, p.payload, p.event),
        ScanTail(tail[size..], offset + size, index + 1, limit, codec).found, index, codec);
    }
  }

  lemma NoneLeadBack(file: seq<Byte>, number: nat, codec: Codec)
    ensures AllLeadBack(file, [], number, codec)
  {
  }

  lemma ScanFound(tail: seq<Byte>, offset: nat, index: nat, limit: nat, codec: Codec)
    requires tail != [] && index != limit && ParseRecord(tail, index, codec).Whole?
    requires RECORD_HEADER_SIZE + |ParseRecord(tail, index, codec).payload| <= |tail|
    ensures var p := ParseRecord(tail, index, codec);
      var size := RECORD_HEADER_SIZE + |p.payload|;
      ScanTail(tail, offset, index, limit, codec).found
      == [FoundAt(offset, index, p.arrival, p.payload, p.event)]
         + ScanTail(tail[size..], offset + size, index + 1, limit, codec).found
  {
    hide ParseRecord, FoundAt;
  }

  lemma WholeLeadsBack(file: seq<Byte>, offset: nat, index: nat, codec: Codec)
    requires offset <= |file|
    requires ParseRecord(file[offset..], index, codec).Whole?
    ensures var p := ParseRecord(file[offset..], index, codec);
      && offset + RECORD_HEADER_SIZE + |p.payload| <= |file|
      && LeadsBack(file, FoundAt(offset, index, p.arrival, p.payload, p.event), index, codec)
  {
    hide DecodeHeader, Checksum;
    var tail := file[offset..];
    var p := ParseRecord(tail, index, codec);
    AcceptedFits(tail, index, codec);
    assert p.payload == tail[RECORD_HEADER_SIZE..RECORD_HEADER_SIZE + |p.payload|];
    assert p.payload == file[offset + RECORD_HEADER_SIZE..offset + RECORD_HEADER_SIZE + |p.payload|];
  }

  lemma NumberedFound(file: seq<Byte>, found: seq<Found>, codec: Codec)
    requires AllLeadBack(file, found, 0, codec)
    ensures Numbered(Entries(found))
  {
    hide ReadEntry;
    assert forall k :: 0 <= k < |found| ==> LeadsBack(file, found[k], 0 + k, codec);
  }

  lemma ReadNumbered(file: FileState, limit: nat, retain: bool, codec: Codec)
    ensures Numbered(ReadFile(file, limit, retain, codec).index)
  {
    hide ScanTail, HeaderIntact, LogRecords, SignedField, AllLeadBack, Entries;
    if file.Readable? && |file.bytes| >= FILE_HEADER_SIZE {
      ScanLeadsBack(file.bytes, FILE_HEADER_SIZE, 0, limit, codec);
      NumberedFound(file.bytes, ScanTail(file.bytes[FILE_HEADER_SIZE..], FILE_HEADER_SIZE, 0, limit, codec).found,
          codec);
    }
  }

  ghost predicate NoneEmpty(es: seq<IndexEntry>) {
    forall i :: 0 <= i < |es| ==> es[i].payloadSize > 0
  }

  lemma LeadsBackNotEmpty(file: seq<Byte>, f: Found, number: nat, codec: Codec)
    requires EmptyIsNotCurrent(codec) && LeadsBack(file, f, number, codec)
    ensures f.entry.payloadSize > 0
  {
    hide Checksum;
  }

  lemma FoundNotEmpty(file: seq<Byte>, found: seq<Found>, codec: Codec)
    requires EmptyIsNotCurrent(codec) && AllLeadBack(file, found, 0, codec)
    ensures NoneEmpty(Entries(found))
  {
    hide LeadsBack, EmptyIsNotCurrent;
    forall k | 0 <= k < |found| ensures Entries(found)[k].payloadSize > 0 {
      assert LeadsBack(file, found[k], 0 + k, codec);
      LeadsBackNotEmpty(file, found[k], 0 + k, codec);
    }
  }

  /** The reader never indexes an empty payload. */
  lemma ReadNotEmpty(file: FileState, limit: nat, retain: bool, codec: Codec)
    requires EmptyIsNotCurrent(codec)
    ensures NoneEmpty(ReadFile(file, limit, retain, codec).index)
  {
    hide ScanTail, HeaderIntact, LogRecords, SignedField, AllLeadBack, Entries, EmptyIsNotCurrent;
    if file.Readable? && |file.bytes| >= FILE_HEADER_SIZE {
      ScanLeadsBack(file.bytes, FILE_HEADER_SIZE, 0, limit, codec);
      FoundNotEmpty(file.bytes, ScanTail(file.bytes[FILE_HEADER_SIZE..], FILE_HEADER_SIZE, 0, limit, codec).found,
          codec);
    } else {
      NoEntries();
    }
  }

  lemma NoEntries()
    ensures NoneEmpty([])
  {
  }

  lemma SortedNotEmpty(es: seq<IndexEntry>)
    requires Numbered(es) && NoneEmpty(es)
    ensures NoneEmpty(Sorted(es))
  {
    hide Numbered, Sorted;
    SortedOrders(es);
    forall i | 0 <= i < |Sorted(es)| ensures Sorted(es)[i].payloadSize > 0 {
      assert Sorted(es)[i] in multiset(es);
    }
  }
}
