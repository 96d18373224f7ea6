/** Replay as it runs: a stream with a position and failure flags, a fast path that reads on
    where the previous payload ended, and a hash that grows by one byte at a time. */
module ReplayEngines {
  import opened Octets
  import opened Bytes
  import opened Castagnoli
  import opened Telemetry
  import opened LogFormat
  import opened LogReader
  import opened Fnv
  import opened Timeline
  import opened Replay
  import opened ReplayIndex

  /** A file stream with its position and its two failure flags. */
  class InputStream {
    const disk: seq<Byte>
    var position: nat
    var eof: bool
    var fail: bool

    constructor (disk: seq<Byte>)
      ensures this.disk == disk && position == 0
    {
      this.disk := disk;
      position, eof, fail := 0, false, false;
    }

    /** The stream stands at `offset`, or both lie past the end, where nothing can be read. */
    predicate At(offset: nat)
      reads this
    {
      position == offset || (|disk| <= position && |disk| <= offset)
    }

    method Clear()
      modifies this
      ensures !eof && !fail && position == old(position)
    {
      eof, fail := false, false;
    }

    /** Skipping past the end raises the end flag only; skipping up to it may raise it too. */
    method Ignore(n: nat)
      requires !eof && !fail
      modifies this
      ensures !fail
      ensures forall offset: nat :: old(At(offset)) ==> At(offset + n)
      ensures eof ==> |disk| <= position
    {
      if position + n <= |disk| {
        position := position + n;
        if position == |disk| {
          eof := *;
        }
      } else {
        position := if position < |disk| then |disk| else position;
        eof := true;
      }
    }

    method Seek(offset: nat)
      requires !fail
      modifies this
      ensures position == offset && !eof && !fail
    {
      eof := false;
      position := offset;
    }

    /** A read under a raised flag, or past the end, yields fewer bytes than asked for. */
    method Read(n: nat) returns (bytes: seq<Byte>)
      modifies this
      ensures |bytes| <= n
      ensures n == 0 ==> position == old(position)
      ensures !old(eof) && !old(fail) && old(position) + n <= |disk| ==>
        position == old(position) + n && bytes == disk[old(position)..old(position) + n]
      ensures n > 0 && (old(eof) || old(fail) || old(position) + n > |disk|) ==> |bytes| < n
    {
      if eof || fail {
        fail := true;
        return [];
      }
      if position + n <= |disk| {
        bytes := disk[position..position + n];
        position := position + n;
      } else {
        bytes := if n > 0 && position < |disk| then disk[position..] else [];
        position := if position < |disk| then |disk| else position;
        eof, fail := n > 0, n > 0;
      }
    }
  }

  /** Reading one payload, either by skipping the record header from where the previous payload
      ended, or by seeking: both read the same, whatever is on disk. */
  method ReadPayload(input: InputStream, e: IndexEntry, sequential: bool) returns (ok: bool, payload: seq<Byte>)
    requires sequential ==> input.At(e.fileOffset)
    modifies input
    ensures PayloadAt(input.disk, e.fileOffset + RECORD_HEADER_SIZE, e.payloadSize)
        == if ok then Some(payload) else None
    ensures ok ==> input.At(e.fileOffset + RECORD_HEADER_SIZE + e.payloadSize)
    ensures ok && e.payloadSize > 0 ==> input.position == e.fileOffset + RECORD_HEADER_SIZE + e.payloadSize
  {
    input.Clear();
    if sequential {
      assert input.At(e.fileOffset);
      input.Ignore(RECORD_HEADER_SIZE);
    } else {
      input.Seek(e.fileOffset + RECORD_HEADER_SIZE);
    }
    if input.fail {
      return false, [];
    }
    assert input.At(e.fileOffset + RECORD_HEADER_SIZE);
    payload := input.Read(e.payloadSize);
    ok := |payload| == e.payloadSize;
  }

  method HashDelivery(hash: U64, d: Delivery) returns (h: U64)
    ensures h == HashBytes(hash, HashInput(d))
  {
    hide HashBytes, EncodeLE;
    var index, arrival, size := EncodeLE(d.entry.recordIndex, 8), EncodeLE(ToUnsigned(d.entry.arrival), 8),
        EncodeLE(|d.payload|, 4);
    HashSplit(hash, index + arrival + size, d.payload);
    HashSplit(hash, index + arrival, size);
    HashSplit(hash, index, arrival);
    h := HashLittleEndian(hash, d.entry.recordIndex, 8);
    h := HashLittleEndian(h, ToUnsigned(d.entry.arrival), 8);
    h := HashLittleEndian(h, |d.payload|, 4);
    h := HashByteLoop(h, d.payload);
  }

  /** The event in a payload, if it is still what was indexed. */
  method PayloadEvent(e: IndexEntry, payload: seq<Byte>, codec: Codec) returns (event: Option<Event>)
    ensures CheckPayload(e, payload, codec) == if event.None? then Changed else Intact(payload, event.value)
  {
    hide Checksum;
    var checksum := Crc32c(payload);
    if checksum != e.payloadCrc {
      return None;
    }
    event := codec.parse(payload);
    if event.None? || event.value.schemaVersion != SCHEMA_VERSION
        || event.value.sourceTimestamp != e.sourceTimestamp {
      return None;
    }
  }

  /** Hashing a record and handing it to the consumer. */
  method Deliver(d: Delivery, consumer: Consumer, p: ReplayResult) returns (q: ReplayResult)
    requires p.status == ReplayComplete
    ensures q == if Accepts(consumer, p.delivered, d) then Counted(Hashed(p, d), d)
                 else Hashed(p, d).(status := ConsumerError)
  {
    hide HashBytes, HashInput;
    var hash := HashDelivery(p.hash, d);
    q := p.(hash := hash, delivered := p.delivered + [d]);
    if consumer.Some? && !consumer.value(p.delivered, d) {
      q := q.(status := ConsumerError);
      return;
    }
    if q.first.None? {
      q := q.(first := Some(d.entry.arrival));
    }
    q := q.(last := Some(d.entry.arrival), replayed := q.replayed + 1);
  }

  /** The body of the replay loop. */
  method ReplayTurn(input: InputStream, e: IndexEntry, sequential: bool, consumer: Consumer, codec: Codec,
          p: ReplayResult)
      returns (q: ReplayResult)
    requires p.status == ReplayComplete
    requires sequential ==> input.At(e.fileOffset)
    modifies input
    ensures q == Turn(input.disk, e, consumer, codec, p)
    ensures q.status == ReplayComplete ==> input.At(e.fileOffset + RECORD_HEADER_SIZE + e.payloadSize)
    ensures q.status == ReplayComplete && e.payloadSize > 0 ==>
      input.position == e.fileOffset + RECORD_HEADER_SIZE + e.payloadSize
  {
    hide CheckPayload, HashBytes, HashInput, PayloadAt;
    q := p;
    var ok, payload := ReadPayload(input, e, sequential);
    if !ok {
      q := q.(status := ReplayIoError);
      return;
    }
    var event := PayloadEvent(e, payload, codec);
    if event.None? {
      q := q.(status := LogError);
      return;
    }
    q := Deliver(Delivery(e, payload, event.value), consumer, q);
  }

  class ReplayEngine {
    var index: seq<IndexEntry>
    var failed: bool

    ghost predicate Valid()
      reads this
    {
      Ordered(index)
    }

    /** Indexing reads the log without keeping its records, and sorts. */
    constructor (file: FileState, limit: nat, codec: Codec)
      ensures Valid()
      ensures failed == (ReadFile(file, limit, false, codec).status != Complete)
      ensures index == if failed then [] else Sorted(ReadFile(file, limit, false, codec).index)
      ensures EmptyIsNotCurrent(codec) ==> NoneEmpty(index)
    {
      hide ReadFile, Sorted;
      var log := ReadLog(file, limit, false, codec);
      failed := log.status != Complete;
      index := if log.status != Complete then [] else Sorted(log.index);
      ReadNumbered(file, limit, false, codec);
      SortedOrders(log.index);
      if EmptyIsNotCurrent(codec) {
        ReadNotEmpty(file, limit, false, codec);
        SortedNotEmpty(log.index);
      }
    }

    /** The replay loop, with the fast path or without it. */
    method Replay(o: Options, disk: FileState, consumer: Consumer, codec: Codec, fast: bool)
        returns (result: ReplayResult)
      requires Valid()
      ensures result == ReplayOf(failed, index, o, disk, consumer, codec)
    {
      hide Turn, ReplayEntries, From;
      result := Fresh(|index|);
      if failed {
        result := result.(status := LogError);
        return;
      }
      if !OptionsValid(o) {
        result := result.(status := InvalidOptions);
        return;
      }
      var position := 0;
      if o.from.Some? {
        position := LowerBound(index, o.from.value);
      }
      FromPosition(index, position, o.from);
      if !disk.Readable? {
        result := result.(status := ReplayIoError);
        return;
      }
      var input := new InputStream(disk.bytes);
      var next: Option<nat> := None;
      while position < |index|
        invariant position <= |index|
        invariant input.disk == disk.bytes
        invariant fresh(input)
        invariant next.Some? ==> input.At(next.value)
        invariant next.Some? && NoneEmpty(index) ==> input.position == next.value
        invariant result.status == ReplayComplete
        invariant ReplayEntries(disk.bytes, index[position..], o.until, consumer, codec, result)
               == ReplayOf(failed, index, o, disk, consumer, codec)
        decreases |index| - position
      {
        var e := index[position];
        ReplayOnce(disk.bytes, index, position, o.until, consumer, codec, result);
        if !Within(e, o.until) {
          return;
        }
        result := ReplayTurn(input, e, fast && next == Some(e.fileOffset), consumer, codec, result);
        if result.status != ReplayComplete {
          return;
        }
        next := Some(e.fileOffset + RECORD_HEADER_SIZE + e.payloadSize);
        position := position + 1;
      }
      ReplayNone(disk.bytes, index[position..], o.until, consumer, codec, result);
    }
  }
}
