/** Indexed replay. */
module Replay {
  import opened Octets
  import opened Bytes
  import opened Castagnoli
  import opened Telemetry
  import opened LogFormat
  import opened Fnv
  import opened Timeline

  datatype ReplayStatus = ReplayComplete | InvalidOptions | LogError | ReplayIoError | ConsumerError

  /** A double that is not finite, or one that is. */
  datatype Speed = NotFiniteSpeed | FiniteSpeed(value: real)

  datatype Options = Options(from: Option<I64>, until: Option<I64>, speed: Speed)

  predicate OptionsValid(o: Options) {
    && o.speed.FiniteSpeed? && o.speed.value >= 0.0
    && (o.from.Some? && o.until.Some? ==> o.until.value > o.from.value)
  }

  /** One record handed to the consumer. */
  datatype Delivery = Delivery(entry: IndexEntry, payload: seq<Byte>, event: Event)

  /** The consumer, if any, may base its answer on everything delivered to it before. */
  type Consumer = Option<(seq<Delivery>, Delivery) -> bool>

  datatype ReplayResult = ReplayResult(
    status: ReplayStatus,
    indexed: nat,
    replayed: nat,
    hash: U64,
    first: Option<I64>,
    last: Option<I64>,
    delivered: seq<Delivery>)

  // What replay computes.

  /** The payload at an offset; an empty one can be read anywhere. */
  function PayloadAt(disk: seq<Byte>, offset: nat, size: nat): Option<seq<Byte>> {
    if size == 0 then Some([])
    else if offset + size <= |disk| then Some(disk[offset..offset + size])
    else None
  }

  datatype EntryRead = Unreadable | Changed | Intact(payload: seq<Byte>, event: Event)

  function CheckPayload(e: IndexEntry, payload: seq<Byte>, codec: Codec): EntryRead {
    if Checksum(payload) != e.payloadCrc then Changed
    else match codec.parse(payload)
      case None => Changed
      case Some(event) =>
        if event.schemaVersion != SCHEMA_VERSION || event.sourceTimestamp != e.sourceTimestamp then Changed
        else Intact(payload, event)
  }

  function ReadEntry(disk: seq<Byte>, e: IndexEntry, codec: Codec): EntryRead {
    match PayloadAt(disk, e.fileOffset + RECORD_HEADER_SIZE, e.payloadSize)
    case None => Unreadable
    case Some(payload) => CheckPayload(e, payload, codec)
  }

  /** What one record contributes to the hash. */
  function HashInput(d: Delivery): seq<Byte> {
    EncodeLE(d.entry.recordIndex, 8) + EncodeLE(ToUnsigned(d.entry.arrival), 8) + EncodeLE(|d.payload|, 4) + d.payload
  }

  function HashInputs(ds: seq<Delivery>): seq<Byte> {
    if ds == [] then [] else HashInput(ds[0]) + HashInputs(ds[1..])
  }

  function Accepts(consumer: Consumer, before: seq<Delivery>, d: Delivery): bool {
    consumer.None? || consumer.value(before, d)
  }

  function Hashed(p: ReplayResult, d: Delivery): ReplayResult {
    p.(hash := HashBytes(p.hash, HashInput(d)), delivered := p.delivered + [d])
  }

  function Counted(p: ReplayResult, d: Delivery): ReplayResult {
    p.(first := if p.first.None? then Some(d.entry.arrival) else p.first,
       last := Some(d.entry.arrival),
       replayed := p.replayed + 1)
  }

  /** Replaying one entry; the status stays complete as long as replay may go on. */
  function Turn(disk: seq<Byte>, e: IndexEntry, consumer: Consumer, codec: Codec, p: ReplayResult): ReplayResult {
    match ReadEntry(disk, e, codec)
    case Unreadable => p.(status := ReplayIoError)
    case Changed => p.(status := LogError)
    case Intact(payload, event) =>
      var d := Delivery(e, payload, event);
      if !Accepts(consumer, p.delivered, d) then Hashed(p, d).(status := ConsumerError)
      else Counted(Hashed(p, d), d)
  }

  /** Replaying entries one after the other, from progress `p`. */
  function ReplayEntries(disk: seq<Byte>, es: seq<IndexEntry>, until: Option<I64>, consumer: Consumer, codec: Codec,
          p: ReplayResult): ReplayResult
    decreases es
  {
    if es == [] || !Within(es[0], until) then p
    else
      var q := Turn(disk, es[0], consumer, codec, p);
      if q.status != ReplayComplete then q else ReplayEntries(disk, es[1..], until, consumer, codec, q)
  }

  /** The entries from the lower bound on. */
  function From(es: seq<IndexEntry>, from: Option<I64>): seq<IndexEntry> {
    if es == [] || NotBefore(es[0], from) then es else From(es[1..], from)
  }

  function Fresh(indexed: nat): ReplayResult {
    ReplayResult(ReplayComplete, indexed, 0, OFFSET_BASIS, None, None, [])
  }

  function ReplayOf(failed: bool, index: seq<IndexEntry>, o: Options, disk: FileState, consumer: Consumer,
          codec: Codec): ReplayResult
  {
    if failed then Fresh(|index|).(status := LogError)
    else if !OptionsValid(o) then Fresh(|index|).(status := InvalidOptions)
    else if !disk.Readable? then Fresh(|index|).(status := ReplayIoError)
    else ReplayEntries(disk.bytes, From(index, o.from), o.until, consumer, codec, Fresh(|index|))
  }
}
