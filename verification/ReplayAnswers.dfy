/** What a replay answers, said of the bytes on disk: what is delivered is what was indexed, and
    where and why a replay stops. */
module ReplayAnswers {
  import opened Octets
  import opened Bytes
  import opened Castagnoli
  import opened Telemetry
  import opened LogFormat
  import opened Fnv
  import opened Timeline
  import opened Replay
  import opened ReplayTheorems

  /** The part of the disk that an entry says its payload lies in. Nothing can be read anywhere. */
  predicate OnDisk(disk: seq<Byte>, e: IndexEntry) {
    e.payloadSize == 0 || e.fileOffset + RECORD_HEADER_SIZE + e.payloadSize <= |disk|
  }

  function BytesAt(disk: seq<Byte>, e: IndexEntry): (payload: seq<Byte>)
    requires OnDisk(disk, e)
    ensures |payload| == e.payloadSize
  {
    if e.payloadSize == 0 then []
    else disk[e.fileOffset + RECORD_HEADER_SIZE..e.fileOffset + RECORD_HEADER_SIZE + e.payloadSize]
  }

  /** Those bytes have the checksum that was indexed, and they are a current event of the source
      time that was indexed. */
  predicate AsIndexed(payload: seq<Byte>, e: IndexEntry, codec: Codec) {
    && Checksum(payload) == e.payloadCrc
    && codec.parse(payload).Some?
    && codec.parse(payload).value.schemaVersion == SCHEMA_VERSION
    && codec.parse(payload).value.sourceTimestamp == e.sourceTimestamp
  }

  predicate Genuine(d: Delivery, disk: seq<Byte>, codec: Codec) {
    && OnDisk(disk, d.entry)
    && d.payload == BytesAt(disk, d.entry)
    && AsIndexed(d.payload, d.entry, codec)
    && codec.parse(d.payload) == Some(d.event)
  }

  ghost predicate AllGenuine(ds: seq<Delivery>, disk: seq<Byte>, codec: Codec) {
    forall i :: 0 <= i < |ds| ==> Genuine(ds[i], disk, codec)
  }

  predicate Taken(consumer: Consumer, before: seq<Delivery>, d: Delivery) {
    consumer.Some? ==> consumer.value(before, d)
  }

  /** The consumer took the first `n` of what was delivered. */
  ghost predicate AllTaken(consumer: Consumer, ds: seq<Delivery>, n: nat) {
    n <= |ds| && forall i :: 0 <= i < n ==> Taken(consumer, ds[..i], ds[i])
  }

  /** Why a replay of these entries ends where it does. */
  ghost predicate Ends(r: ReplayResult, disk: seq<Byte>, es: seq<IndexEntry>, consumer: Consumer, codec: Codec) {
    var n := |r.delivered|;
    && EntriesOf(r.delivered) <= es
    && AllGenuine(r.delivered, disk, codec)
    && AllTaken(consumer, r.delivered, r.replayed)
    && match r.status
       case ReplayComplete => n == |es| && r.replayed == n
       case ReplayIoError => n < |es| && r.replayed == n && !OnDisk(disk, es[n])
       case LogError =>
         n < |es| && r.replayed == n && OnDisk(disk, es[n]) && !AsIndexed(BytesAt(disk, es[n]), es[n], codec)
       case ConsumerError => n == r.replayed + 1 && !Taken(consumer, r.delivered[..n - 1], r.delivered[n - 1])
       case InvalidOptions => false
  }

  /** Going on as far as this, with nothing in the way. */
  ghost predicate SoFar(p: ReplayResult, disk: seq<Byte>, consumer: Consumer, codec: Codec) {
    && p.status == ReplayComplete
    && p.replayed == |p.delivered|
    && AllGenuine(p.delivered, disk, codec)
    && AllTaken(consumer, p.delivered, |p.delivered|)
  }

  lemma ReadIs(disk: seq<Byte>, e: IndexEntry, codec: Codec)
    ensures var read := ReadEntry(disk, e, codec);
      && (read.Unreadable? <==> !OnDisk(disk, e))
      && (read.Changed? <==> OnDisk(disk, e) && !AsIndexed(BytesAt(disk, e), e, codec))
      && (read.Intact? ==> Genuine(Delivery(e, read.payload, read.event), disk, codec))
  {
    hide Checksum;
  }

  lemma OneMoreGenuine(ds: seq<Delivery>, d: Delivery, disk: seq<Byte>, codec: Codec)
    requires AllGenuine(ds, disk, codec) && Genuine(d, disk, codec)
    ensures AllGenuine(ds + [d], disk, codec)
  {
    hide Genuine;
  }

  lemma OneMoreTaken(consumer: Consumer, ds: seq<Delivery>, d: Delivery)
    requires AllTaken(consumer, ds, |ds|)
    ensures AllTaken(consumer, ds + [d], |ds|)
    ensures Taken(consumer, ds, d) ==> AllTaken(consumer, ds + [d], |ds| + 1)
  {
    var more := ds + [d];
    forall i | 0 <= i < |ds| ensures Taken(consumer, more[..i], more[i]) {
      assert more[..i] == ds[..i];
    }
    assert more[..|ds|] == ds;
  }

  /** One turn goes on, or ends the replay for one of the reasons. */
  lemma TurnEnds(disk: seq<Byte>, e: IndexEntry, consumer: Consumer, codec: Codec, p: ReplayResult)
    requires SoFar(p, disk, consumer, codec)
    ensures var q := Turn(disk, e, consumer, codec, p);
      && q.indexed == p.indexed
      && if q.status == ReplayComplete
      then SoFar(q, disk, consumer, codec) && EntriesOf(q.delivered) == EntriesOf(p.delivered) + [e]
      else forall es :: EntriesOf(p.delivered) + [e] <= es ==> Ends(q, disk, es, consumer, codec)
  {
    hide AllGenuine, AllTaken, OnDisk, AsIndexed, BytesAt, ReadEntry, Genuine, HashBytes, HashInput, EntriesOf;
    ReadIs(disk, e, codec);
    match ReadEntry(disk, e, codec)
    case Unreadable =>
    case Changed =>
    case Intact(payload, event) =>
      var d := Delivery(e, payload, event);
      OneMoreGenuine(p.delivered, d, disk, codec);
      OneMoreTaken(consumer, p.delivered, d);
      EntriesOfMore(p.delivered, d);
      assert (p.delivered + [d])[..|p.delivered|] == p.delivered;
  }

  lemma {:induction false} EntriesEnd(disk: seq<Byte>, es: seq<IndexEntry>, until: Option<I64>, consumer: Consumer,
          codec: Codec, p: ReplayResult)
    requires SoFar(p, disk, consumer, codec)
    ensures var r := ReplayEntries(disk, es, until, consumer, codec, p);
      && r.indexed == p.indexed
      && Ends(r, disk, EntriesOf(p.delivered) + Visited(es, until), consumer, codec)
    decreases es
  {
    hide Turn, SoFar, Ends, EntriesOf, Within;
    if es != [] && Within(es[0], until) {
      var q := Turn(disk, es[0], consumer, codec, p);
      TurnEnds(disk, es[0], consumer, codec, p);
      Regroup(EntriesOf(p.delivered), es[0], Visited(es[1..], until));
      if q.status == ReplayComplete {
        EntriesEnd(disk, es[1..], until, consumer, codec, q);
      }
    } else {
      NothingLeft(disk, consumer, codec, p);
      assert EntriesOf(p.delivered) + [] == EntriesOf(p.delivered);
    }
  }

  lemma NothingLeft(disk: seq<Byte>, consumer: Consumer, codec: Codec, p: ReplayResult)
    requires SoFar(p, disk, consumer, codec)
    ensures Ends(p, disk, EntriesOf(p.delivered), consumer, codec)
  {
    hide AllGenuine, AllTaken;
  }

  /** A speed that is no speed, or a window that ends before any time is in it. */
  ghost predicate Refusable(o: Options) {
    || o.speed.NotFiniteSpeed?
    || o.speed.value < 0.0
    || (o.from.Some? && o.until.Some? && forall t: I64 :: !InWindow(t, o))
  }

  lemma RefusableExactly(o: Options)
    ensures Refusable(o) <==> !OptionsValid(o)
  {
    if o.from.Some? && o.until.Some? && o.from.value < o.until.value {
      assert InWindow(o.from.value, o);
    }
  }

  /** Whatever the index, the disk and the consumer, this is what a replay answers: everything it
      delivers is the bytes that the disk holds at the entry's place, with the checksum that was
      indexed; and it stops for exactly one reason, at the entry behind what it delivered. */
  lemma ReplayAnswered(index: seq<IndexEntry>, o: Options, disk: FileState, consumer: Consumer, codec: Codec)
    requires Ordered(index)
    ensures var r := ReplayOf(false, index, o, disk, consumer, codec);
      && r.indexed == |index|
      && if Refusable(o) then r.status == InvalidOptions && r.delivered == [] && r.replayed == 0
      else if !disk.Readable? then r.status == ReplayIoError && r.delivered == [] && r.replayed == 0
      else Ends(r, disk.bytes, Window(index, o.from, o.until), consumer, codec)
  {
    RefusableExactly(o);
    if !Refusable(o) && disk.Readable? {
      var start := Fresh(|index|);
      NothingYet(disk.bytes, consumer, codec, |index|);
      hide Refusable, OptionsValid, ReplayEntries, From, SoFar, Ends, Window, Visited, Ordered, EntriesOf, InWindow;
      EntriesEnd(disk.bytes, From(index, o.from), o.until, consumer, codec, start);
      WindowVisited(index, o.from, o.until);
      assert [] + Window(index, o.from, o.until) == Window(index, o.from, o.until);
    }
  }

  lemma NothingYet(disk: seq<Byte>, consumer: Consumer, codec: Codec, indexed: nat)
    ensures SoFar(Fresh(indexed), disk, consumer, codec)
    ensures EntriesOf(Fresh(indexed).delivered) == []
  {
  }

  // A log that changed after it was indexed.

  predicate SameBytes(file: seq<Byte>, disk: seq<Byte>, e: IndexEntry) {
    OnDisk(file, e) && OnDisk(disk, e) && BytesAt(file, e) == BytesAt(disk, e)
  }

  /** A payload that changed within 32 consecutive bits. */
  ghost predicate BurstIn(file: seq<Byte>, disk: seq<Byte>, e: IndexEntry, p: int) {
    && OnDisk(file, e) && OnDisk(disk, e)
    && BytesAt(file, e) != BytesAt(disk, e)
    && AgreeOutside(BytesAt(file, e), BytesAt(disk, e), p)
  }

  lemma BurstNotAsIndexed(file: seq<Byte>, disk: seq<Byte>, e: IndexEntry, p: int, codec: Codec)
    requires BurstIn(file, disk, e, p) && AsIndexed(BytesAt(file, e), e, codec)
    ensures !AsIndexed(BytesAt(disk, e), e, codec)
  {
    hide BytesAt, Checksum, ToldApart, AgreeOutside;
    BurstToldApart(BytesAt(file, e), BytesAt(disk, e), p);
    ChecksumsDiffer(BytesAt(file, e), BytesAt(disk, e));
  }

  /** What a complete log indexes is as indexed. */
  lemma WindowAsIndexed(file: seq<Byte>, limit: nat, o: Options, codec: Codec)
    requires ReadBytes(file, limit, false, codec).status == Complete
    ensures var index := Sorted(ReadBytes(file, limit, false, codec).index);
      var window := Window(index, o.from, o.until);
      && Ordered(index)
      && forall i :: 0 <= i < |window| ==>
          OnDisk(file, window[i]) && AsIndexed(BytesAt(file, window[i]), window[i], codec)
  {
    IndexOfComplete(file, limit, codec);
    hide ReadBytes, Sorted, Ordered, Window, OnDisk, AsIndexed, BytesAt, ReadEntry;
    var index := Sorted(ReadBytes(file, limit, false, codec).index);
    WindowIntact(file, index, o.from, o.until, codec);
    var window := Window(index, o.from, o.until);
    forall i | 0 <= i < |window|
      ensures OnDisk(file, window[i]) && AsIndexed(BytesAt(file, window[i]), window[i], codec)
    {
      ReadIs(file, window[i], codec);
    }
  }

  lemma StopsAt(r: ReplayResult, disk: seq<Byte>, es: seq<IndexEntry>, consumer: Consumer, codec: Codec, k: nat)
    requires Ends(r, disk, es, consumer, codec) && Accepting(consumer)
    requires k < |es|
    requires forall i :: 0 <= i < k ==> OnDisk(disk, es[i]) && AsIndexed(BytesAt(disk, es[i]), es[i], codec)
    requires OnDisk(disk, es[k]) && !AsIndexed(BytesAt(disk, es[k]), es[k], codec)
    ensures r.status == LogError && EntriesOf(r.delivered) == es[..k]
  {
    hide OnDisk, AsIndexed, BytesAt, AllTaken;
    forall i | 0 <= i < |r.delivered| ensures OnDisk(disk, es[i]) && AsIndexed(BytesAt(disk, es[i]), es[i], codec) {
      assert EntriesOf(r.delivered)[i] == es[i] && Genuine(r.delivered[i], disk, codec);
    }
  }

  /** A payload that changed within 32 consecutive bits since it was indexed ends the replay with an
      error of the log, and exactly what comes before it is delivered. */
  lemma ChangedSinceIndexed(file: seq<Byte>, disk: seq<Byte>, limit: nat, o: Options, consumer: Consumer, codec: Codec,
          k: nat, p: int)
    requires ReadBytes(file, limit, false, codec).status == Complete
    requires OptionsValid(o) && Accepting(consumer)
    requires var window := Window(Sorted(ReadBytes(file, limit, false, codec).index), o.from, o.until);
      && k < |window|
      && (forall i :: 0 <= i < k ==> SameBytes(file, disk, window[i]))
      && BurstIn(file, disk, window[k], p)
    ensures var index := Sorted(ReadBytes(file, limit, false, codec).index);
      var r := ReplayOf(false, index, o, Readable(disk), consumer, codec);
      r.status == LogError && EntriesOf(r.delivered) == Window(index, o.from, o.until)[..k]
  {
    var index := Sorted(ReadBytes(file, limit, false, codec).index);
    var window := Window(index, o.from, o.until);
    var r := ReplayOf(false, index, o, Readable(disk), consumer, codec);
    hide ReadBytes, Sorted, Ordered, Window, OnDisk, AsIndexed, BytesAt, ReplayOf, Ends, EntriesOf, OptionsValid,
        Accepting, AgreeOutside, Refusable;
    WindowAsIndexed(file, limit, o, codec);
    RefusableExactly(o);
    ReplayAnswered(index, o, Readable(disk), consumer, codec);
    BurstNotAsIndexed(file, disk, window[k], p, codec);
    StopsAt(r, disk, window, consumer, codec, k);
  }
}
