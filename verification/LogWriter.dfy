/** The writer as it runs, proved to take the steps that LogWriting describes. */
module LogWriter {
  import opened Octets
  import opened Bytes
  import opened Castagnoli
  import opened Telemetry
  import opened LogFormat
  import opened LogWriting

  /** A file stream. Any write or flush may fail, and a failing write may get any part of its
      bytes through; a stream that has failed does nothing more. What it took is certain to
      survive only as far as it was flushed. On a reliable stream no call fails. */
  class OutputStream {
    const reliable: bool
    var taken: seq<Byte>
    var flushed: nat
    var isOpen: bool
    var good: bool

    constructor (reliable: bool)
      ensures this.reliable == reliable && taken == [] && flushed == 0 && !isOpen && good
    {
      this.reliable := reliable;
      taken, flushed, isOpen, good := [], 0, false, true;
    }

    method Open(opens: bool)
      modifies this`isOpen, this`good
      ensures isOpen == opens && good == (old(good) && opens)
    {
      isOpen := opens;
      good := good && opens;
    }

    method Write(bytes: seq<Byte>)
      modifies this`taken, this`good
      ensures !old(good) ==> !good && taken == old(taken)
      ensures good ==> taken == old(taken) + bytes
      ensures reliable && old(good) ==> good
      ensures exists n :: 0 <= n <= |bytes| && taken == old(taken) + bytes[..n]
    {
      var n: nat :| n <= |bytes|;
      if !good {
        n := 0;
      } else if reliable {
        n := |bytes|;
      }
      taken := taken + bytes[..n];
      var survives: bool := *;
      good := good && n == |bytes| && (reliable || survives);
      assert bytes[..|bytes|] == bytes;
    }

    method Flush()
      modifies this`flushed, this`good
      ensures good ==> old(good) && flushed == |taken|
      ensures !good ==> flushed == old(flushed)
      ensures reliable && old(good) ==> good
    {
      var survives: bool := *;
      good := good && (reliable || survives);
      if good {
        flushed := |taken|;
      }
    }
  }

  /** What the file system says about the path of a new log. */
  datatype PathCheck = CheckFailed | Exists | Absent(opens: bool)

  method EncodeWord(buffer: array<Byte>, offset: nat, w: bv32)
    requires offset + 4 <= buffer.Length
    modifies buffer
    ensures buffer[..offset + 4] == old(buffer[..offset]) + WordBytes(w)
    ensures buffer[offset + 4..] == old(buffer[offset + 4..])
  {
    hide WordBytes;
    var bytes := WordBytes(w);
    for i := 0 to 4
      invariant buffer[..offset + i] == old(buffer[..offset]) + bytes[..i]
      invariant buffer[offset + 4..] == old(buffer[offset + 4..])
    {
      buffer[offset + i] := bytes[i];
    }
    assert bytes[..4] == bytes;
  }

  method CopyInto(buffer: array<Byte>, bytes: seq<Byte>)
    requires |bytes| <= buffer.Length
    modifies buffer
    ensures buffer[..|bytes|] == bytes
  {
    for i := 0 to |bytes|
      invariant buffer[..i] == bytes[..i]
    {
      buffer[i] := bytes[i];
    }
    assert bytes[..|bytes|] == bytes;
  }

  method MakeFileHeader(created: I64) returns (header: seq<Byte>)
    ensures header == FileHeader(created)
  {
    hide EncodeLE, WordBytes, Checksum;
    var buffer := new Byte[FILE_HEADER_SIZE](_ => 0);
    CopyInto(buffer, FILE_MAGIC);
    EncodeLittleEndian(buffer, 8, LOG_FORMAT_VERSION, 2);
    EncodeLittleEndian(buffer, 10, FILE_HEADER_SIZE, 2);
    EncodeLittleEndian(buffer, 12, 0, 4);
    EncodeLittleEndian(buffer, 16, ToUnsigned(created), 8);
    EncodeLittleEndian(buffer, 24, 0, 4);
    assert buffer[..28] == FileHeaderBody(created);
    var checksum := Crc32c(buffer[..28]);
    EncodeWord(buffer, 28, checksum);
    header := buffer[..];
    assert header == buffer[..32];
  }

  method MakeRecordHeader(index: U64, r: Record) returns (header: seq<Byte>)
    ensures header == RecordHeader(index, r)
  {
    hide EncodeLE, WordBytes, Checksum;
    var buffer := new Byte[RECORD_HEADER_SIZE](_ => 0);
    CopyInto(buffer, RECORD_MAGIC);
    EncodeLittleEndian(buffer, 4, RECORD_HEADER_SIZE, 2);
    EncodeLittleEndian(buffer, 6, RECORD_FORMAT_VERSION, 2);
    EncodeLittleEndian(buffer, 8, |r.payload|, 4);
    var payloadChecksum := Crc32c(r.payload);
    EncodeWord(buffer, 12, payloadChecksum);
    EncodeLittleEndian(buffer, 16, index, 8);
    EncodeLittleEndian(buffer, 24, ToUnsigned(r.arrival), 8);
    assert buffer[..32] == RecordHeaderBody(index, r);
    var checksum := Crc32c(buffer[..32]);
    EncodeWord(buffer, 32, checksum);
    header := buffer[..];
    assert header == buffer[..36];
  }

  class LogWriter {
    const output: OutputStream
    const flushEvery: U64
    const created: I64
    var failed: bool
    var recordCount: U64
    var bytesWritten: U64

    /** Without a positive flush interval the writer is failed from the start. */
    predicate Valid()
      reads this
    {
      flushEvery == 0 ==> failed
    }

    ghost function State(): WriterState
      reads this, output
    {
      WriterState(output.taken, output.flushed, output.isOpen, output.good, failed, recordCount, bytesWritten)
    }

    /** A writer of a new log is either ready for its first record or stillborn; one that may
        not create its file never writes anything. */
    constructor (flushEvery: U64, requested: I64, now: I64, check: PathCheck, reliable: bool)
      ensures output.reliable == reliable
      ensures reliable && flushEvery != 0 && check == Absent(true) ==> Good(State())
      ensures Valid() && fresh(output)
      ensures this.flushEvery == flushEvery
      ensures created == if requested == 0 then now else requested
      ensures if flushEvery != 0 && check == Absent(true)
        then (Good(State()) && Follows(State(), created, [], [])) || StillBorn(State(), created)
        else !Good(State()) && State().taken == []
    {
      this.flushEvery := flushEvery;
      created := if requested == 0 then now else requested;
      output := new OutputStream(reliable);
      failed, recordCount, bytesWritten := false, 0, 0;
      new;
      hide FileHeader;
      if flushEvery == 0 {
        failed := true;
        return;
      }
      if check.CheckFailed? || check.Exists? {
        failed := true;
        return;
      }
      output.Open(check.opens);
      if !output.good {
        failed := true;
        return;
      }
      assert State() == WriterState([], 0, true, true, false, 0, 0);
      var ok := WriteFileHeader();
      HeaderAttempted(State(), created, ok);
    }

    predicate IsGood()
      reads this, output
      ensures IsGood() == Good(State())
    {
      !failed && output.isOpen && output.good
    }

    method WriteBytes(bytes: seq<Byte>) returns (ok: bool)
      requires IsGood()
      modifies this`failed, this`bytesWritten, output
      ensures if ok then State() == AfterWrite(old(State()), bytes)
              else exists n :: 0 <= n <= |bytes| && State() == AfterCut(old(State()), bytes, n)
      ensures output.reliable ==> ok
    {
      output.Write(bytes);
      if !output.good {
        failed := true;
        ghost var n :| 0 <= n <= |bytes| && output.taken == old(output.taken) + bytes[..n];
        assert State() == AfterCut(old(State()), bytes, n);
        return false;
      }
      bytesWritten := Wrap(bytesWritten + |bytes|);
      return true;
    }

    method WriteFileHeader() returns (ok: bool)
      requires IsGood()
      modifies this`failed, this`bytesWritten, output
      ensures if ok then State() == AfterWrite(old(State()), FileHeader(created))
              else exists n :: 0 <= n <= FILE_HEADER_SIZE && State() == AfterCut(old(State()), FileHeader(created), n)
      ensures output.reliable ==> ok
    {
      hide FileHeader;
      var header := MakeFileHeader(created);
      ok := WriteBytes(header);
    }

    method Flush() returns (ok: bool)
      requires Valid()
      ensures Valid()
      modifies this`failed, output
      ensures forall codec :: OpStep(old(State()), State(), Op.Flush, codec, flushEvery, ok)
      ensures ok ==> old(IsGood())
      ensures old(IsGood()) ==> State() == if ok then AfterFlush(old(State())) else AfterBadFlush(old(State()))
      ensures ok ==> output.flushed == |output.taken|
      ensures old(IsGood()) && output.reliable ==> ok
    {
      if !IsGood() {
        return false;
      }
      output.Flush();
      if !output.good {
        failed := true;
        return false;
      }
      return true;
    }

    method Append(event: Event, arrival: I64, codec: Codec) returns (ok: bool)
      requires Valid()
      modifies this, output
      ensures Valid()
      ensures OpStep(old(State()), State(), Op.Append(event, arrival), codec, flushEvery, ok)
      ensures old(IsGood()) && output.reliable && Encoded(event, arrival, codec).Some? ==> ok
    {
      hide RecordHeader;
      if !IsGood() {
        return false;
      }
      if event.schemaVersion != SCHEMA_VERSION {
        failed := true;
        return false;
      }
      match codec.serialize(event)
      case None =>
        failed := true;
        return false;
      case Some(payload) =>
        if |payload| > MAXIMUM_PAYLOAD_SIZE {
          failed := true;
          return false;
        }
        var r := Record(arrival, payload);
        ghost var s := State();
        var header := MakeRecordHeader(recordCount, r);
        var headerWritten := WriteBytes(header);
        if !headerWritten {
          ghost var n :| 0 <= n <= |header| && State() == AfterCut(s, header, n);
          ThisOutcome(s, State(), event, arrival, codec, flushEvery, HeaderCut(n));
          return false;
        }
        ghost var s1 := State();
        var payloadWritten := WriteBytes(payload);
        if !payloadWritten {
          ghost var n :| 0 <= n <= |payload| && State() == AfterCut(s1, payload, n);
          ThisOutcome(s, State(), event, arrival, codec, flushEvery, PayloadCut(n));
          return false;
        }
        recordCount := Wrap(recordCount + 1);
        if recordCount % flushEvery == 0 {
          var flushed := Flush();
          if !flushed {
            ThisOutcome(s, State(), event, arrival, codec, flushEvery, FlushFailed);
            return false;
          }
        }
        ThisOutcome(s, State(), event, arrival, codec, flushEvery, Stored);
        return true;
    }
  }

  lemma HeaderAttempted(s: WriterState, created: I64, ok: bool)
    requires var s0 := WriterState([], 0, true, true, false, 0, 0);
      if ok then s == AfterWrite(s0, FileHeader(created))
      else exists n :: 0 <= n <= FILE_HEADER_SIZE && s == AfterCut(s0, FileHeader(created), n)
    ensures if ok then Good(s) && Follows(s, created, [], []) else StillBorn(s, created)
  {
    hide FileHeader;
    assert LogBytes(created, []) == FileHeader(created);
    var none: seq<Record> := [];
    assert none + none == none;
  }

  lemma ThisOutcome(s: WriterState, s': WriterState, event: Event, arrival: I64, codec: Codec, every: nat,
          outcome: Outcome)
    requires Good(s)
    requires Encoded(event, arrival, codec).Some?
    requires var r := Encoded(event, arrival, codec).value;
      Possible(s, r, every, outcome) && s' == AfterRecord(s, r, every, outcome)
    ensures OpStep(s, s', Op.Append(event, arrival), codec, every, outcome == Stored)
  {
    hide AfterRecord, Encoded, Possible;
  }
}
