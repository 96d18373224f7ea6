/** What every replay of every index does, and what the replay of an unchanged log does. */
module ReplayTheorems {
  import opened Octets
  import opened Bytes
  import opened Castagnoli
  import opened Telemetry
  import opened LogFormat
  import opened RecordCodec
  import opened LogTheorems
  import opened Fnv
  import opened Timeline
  import opened Replay
  import opened ReplayIndex

  function EntriesOf(ds: seq<Delivery>): (es: seq<IndexEntry>)
    ensures |es| == |ds|
  {
    seq(|ds|, i requires 0 <= i < |ds| => ds[i].entry)
  }

  lemma EntriesOfMore(ds: seq<Delivery>, d: Delivery)
    ensures EntriesOf(ds + [d]) == EntriesOf(ds) + [d.entry]
  {
  }

  // Any index, any disk, any consumer.

  /** The summary describes what was delivered: the hash is a function of it, and everything
      delivered counts, except a record that the consumer refused. */
  ghost predicate Honest(r: ReplayResult) {
    && r.hash == HashBytes(OFFSET_BASIS, HashInputs(r.delivered))
    && |r.delivered| == r.replayed + (if r.status == ConsumerError then 1 else 0)
    && r.first == (if r.replayed == 0 then None else Some(r.delivered[0].entry.arrival))
    && r.last == (if r.replayed == 0 then None else Some(r.delivered[r.replayed - 1].entry.arrival))
  }

  lemma {:induction false} HashInputsSplit(front: seq<Delivery>, back: seq<Delivery>)
    ensures HashInputs(front + back) == HashInputs(front) + HashInputs(back)
  {
    hide HashInput;
    if front == [] {
      assert front + back == back;
    } else {
      assert (front + back)[1..] == front[1..] + back;
      HashInputsSplit(front[1..], back);
    }
  }

  lemma HashOneMore(ds: seq<Delivery>, d: Delivery)
    ensures HashBytes(OFFSET_BASIS, HashInputs(ds + [d]))
        == HashBytes(HashBytes(OFFSET_BASIS, HashInputs(ds)), HashInput(d))
  {
    hide HashInput, HashBytes;
    HashInputsSplit(ds, [d]);
    assert HashInputs([d]) == HashInput(d) + [] by {
      assert [d][1..] == [];
    }
    assert HashInput(d) + [] == HashInput(d);
    HashSplit(OFFSET_BASIS, HashInputs(ds), HashInput(d));
  }

  lemma TurnHonest(disk: seq<Byte>, e: IndexEntry, consumer: Consumer, codec: Codec, p: ReplayResult)
    requires Honest(p) && p.status == ReplayComplete
    ensures var q := Turn(disk, e, consumer, codec, p);
      && Honest(q)
      && (q.status == ReplayComplete ==> EntriesOf(q.delivered) == EntriesOf(p.delivered) + [e])
      && (q.status != ReplayComplete ==> EntriesOf(q.delivered) <= EntriesOf(p.delivered) + [e])
  {
    hide HashBytes, HashInput, HashInputs, Accepts;
    match ReadEntry(disk, e, codec)
    case Unreadable =>
    case Changed =>
    case Intact(payload, event) =>
      hide ReadEntry;
      var d := Delivery(e, payload, event);
      HashOneMore(p.delivered, d);
      EntriesOfMore(p.delivered, d);
  }

  lemma {:induction false} EntriesHonest(disk: seq<Byte>, es: seq<IndexEntry>, until: Option<I64>, consumer: Consumer,
          codec: Codec, p: ReplayResult)
    requires Honest(p) && p.status == ReplayComplete
    ensures var r := ReplayEntries(disk, es, until, consumer, codec, p);
      && Honest(r)
      && EntriesOf(r.delivered) <= EntriesOf(p.delivered) + Visited(es, until)
      && (r.status == ReplayComplete ==> EntriesOf(r.delivered) == EntriesOf(p.delivered) + Visited(es, until))
    decreases es
  {
    hide Turn, Honest, EntriesOf, Within;
    if es != [] && Within(es[0], until) {
      var q := Turn(disk, es[0], consumer, codec, p);
      TurnHonest(disk, es[0], consumer, codec, p);
      Regroup(EntriesOf(p.delivered), es[0], Visited(es[1..], until));
      if q.status == ReplayComplete {
        EntriesHonest(disk, es[1..], until, consumer, codec, q);
      }
    }
  }

  lemma Regroup(front: seq<IndexEntry>, e: IndexEntry, back: seq<IndexEntry>)
    ensures front + ([e] + back) == (front + [e]) + back
  {
  }

  lemma {:induction false} FromAt(es: seq<IndexEntry>, from: Option<I64>) returns (position: nat)
    ensures position <= |es|
    ensures forall i :: 0 <= i < position ==> !NotBefore(es[i], from)
    ensures From(es, from) == es[position..]
    ensures position < |es| ==> NotBefore(es[position], from)
    decreases es
  {
    if es == [] || NotBefore(es[0], from) {
      position := 0;
    } else {
      position := FromAt(es[1..], from);
      assert es[1..][position..] == es[position + 1..];
      position := position + 1;
    }
  }

  lemma WindowVisited(es: seq<IndexEntry>, from: Option<I64>, until: Option<I64>)
    requires Ordered(es)
    ensures Visited(From(es, from), until) == Window(es, from, until)
  {
    var position := FromAt(es, from);
    forall i | position <= i < |es| ensures NotBefore(es[i], from) {
      if i > position {
        assert Precedes(es[position], es[i]);
      }
    }
    VisitedIsWindow(es, position, from, until);
  }

  lemma FreshHonest(indexed: nat)
    ensures Honest(Fresh(indexed))
  {
  }

  /** Whatever the disk holds by now and whatever the consumer answers: replay delivers the
      entries of the window in order, all of them if it completes, up to some point if not;
      the hash and the counts describe exactly what was delivered. */
  lemma ReplayInOrder(index: seq<IndexEntry>, o: Options, disk: FileState, consumer: Consumer, codec: Codec)
    requires Ordered(index)
    requires OptionsValid(o) && disk.Readable?
    ensures var r := ReplayOf(false, index, o, disk, consumer, codec);
      && Honest(r)
      && EntriesOf(r.delivered) <= Window(index, o.from, o.until)
      && (r.status == ReplayComplete ==> EntriesOf(r.delivered) == Window(index, o.from, o.until))
  {
    hide ReplayEntries, Window, Visited, From, HashBytes, Ordered;
    FreshHonest(|index|);
    EntriesHonest(disk.bytes, From(index, o.from), o.until, consumer, codec, Fresh(|index|));
    WindowVisited(index, o.from, o.until);
  }

  // An unchanged log and a consumer that takes everything.

  ghost predicate Accepting(consumer: Consumer) {
    consumer.Some? ==> forall before, d :: consumer.value(before, d)
  }

  ghost predicate AllIntact(disk: seq<Byte>, es: seq<IndexEntry>, codec: Codec) {
    forall i :: 0 <= i < |es| ==> ReadEntry(disk, es[i], codec).Intact?
  }

  ghost function DeliveryOf(disk: seq<Byte>, e: IndexEntry, codec: Codec): Delivery
    requires ReadEntry(disk, e, codec).Intact?
  {
    Delivery(e, ReadEntry(disk, e, codec).payload, ReadEntry(disk, e, codec).event)
  }

  ghost function Deliveries(disk: seq<Byte>, es: seq<IndexEntry>, codec: Codec): (ds: seq<Delivery>)
    requires AllIntact(disk, es, codec)
    ensures EntriesOf(ds) == es
  {
    var ds := seq(|es|, i requires 0 <= i < |es| => DeliveryOf(disk, es[i], codec));
    assert EntriesOf(ds) == es;
    ds
  }

  lemma TurnDelivers(disk: seq<Byte>, e: IndexEntry, consumer: Consumer, codec: Codec, p: ReplayResult)
    requires ReadEntry(disk, e, codec).Intact? && Accepting(consumer)
    requires p.status == ReplayComplete
    ensures var q := Turn(disk, e, consumer, codec, p);
      q.status == ReplayComplete && q.delivered == p.delivered + [DeliveryOf(disk, e, codec)]
  {
    hide ReadEntry, HashBytes, HashInput;
  }

  lemma {:induction false} EntriesDelivered(disk: seq<Byte>, es: seq<IndexEntry>, until: Option<I64>,
          consumer: Consumer, codec: Codec, p: ReplayResult)
    requires AllIntact(disk, es, codec) && Accepting(consumer)
    requires p.status == ReplayComplete
    ensures AllIntact(disk, Visited(es, until), codec)
    ensures var r := ReplayEntries(disk, es, until, consumer, codec, p);
      r.status == ReplayComplete && r.delivered == p.delivered + Deliveries(disk, Visited(es, until), codec)
    decreases es
  {
    hide Turn, Within, ReadEntry, Accepting, DeliveryOf, EntriesOf;
    if es != [] && Within(es[0], until) {
      TurnDelivers(disk, es[0], consumer, codec, p);
      var q := Turn(disk, es[0], consumer, codec, p);
      EntriesDelivered(disk, es[1..], until, consumer, codec, q);
      assert Deliveries(disk, [es[0]] + Visited(es[1..], until), codec)
          == [DeliveryOf(disk, es[0], codec)] + Deliveries(disk, Visited(es[1..], until), codec);
    }
  }

  lemma IntactWhenPresent(disk: seq<Byte>, found: seq<Found>, codec: Codec, es: seq<IndexEntry>)
    requires AllLeadBack(disk, found, 0, codec)
    requires multiset(es) == multiset(Entries(found))
    ensures AllIntact(disk, es, codec)
  {
    hide ReadEntry;
    forall i | 0 <= i < |es| ensures ReadEntry(disk, es[i], codec).Intact? {
      assert es[i] in multiset(Entries(found));
      var k :| 0 <= k < |found| && Entries(found)[k] == es[i];
      assert LeadsBack(disk, found[k], 0 + k, codec);
    }
  }

  /** The sorted index of a complete log: in order, and every entry can still be read. */
  lemma IndexOfComplete(file: seq<Byte>, limit: nat, codec: Codec)
    requires ReadBytes(file, limit, false, codec).status == Complete
    ensures var index := Sorted(ReadBytes(file, limit, false, codec).index);
      Ordered(index) && AllIntact(file, index, codec)
  {
    ReadNumbered(Readable(file), limit, false, codec);
    var found := ScanTail(file[FILE_HEADER_SIZE..], FILE_HEADER_SIZE, 0, limit, codec).found;
    ScanLeadsBack(file, FILE_HEADER_SIZE, 0, limit, codec);
    assert ReadBytes(file, limit, false, codec).index == Entries(found) by {
      hide ScanTail, Entries, AllLeadBack;
    }
    hide *;
    SortedOrders(Entries(found));
    IntactWhenPresent(file, found, codec, Sorted(Entries(found)));
  }

  lemma {:induction false} WindowIntact(disk: seq<Byte>, es: seq<IndexEntry>, from: Option<I64>, until: Option<I64>,
          codec: Codec)
    requires AllIntact(disk, es, codec)
    ensures AllIntact(disk, Window(es, from, until), codec)
    decreases es
  {
    hide ReadEntry, NotBefore, Within;
    if es == [] {
    } else {
      WindowIntact(disk, es[1..], from, until, codec);
    }
  }

  lemma {:induction false} FromIntact(disk: seq<Byte>, es: seq<IndexEntry>, from: Option<I64>, codec: Codec)
    requires AllIntact(disk, es, codec)
    ensures AllIntact(disk, From(es, from), codec)
    decreases es
  {
    hide ReadEntry, NotBefore;
    if es == [] {
    } else {
      FromIntact(disk, es[1..], from, codec);
    }
  }

  /** The replay of a complete log that has not changed since completes, and hands over the
      window of the log in order of arrival time, equal times in log order. */
  lemma ReplayDelivers(file: seq<Byte>, limit: nat, o: Options, consumer: Consumer, codec: Codec)
    requires ReadBytes(file, limit, false, codec).status == Complete
    requires OptionsValid(o) && Accepting(consumer)
    ensures var index := Sorted(ReadBytes(file, limit, false, codec).index);
      var window := Window(index, o.from, o.until);
      var r := ReplayOf(false, index, o, Readable(file), consumer, codec);
      && AllIntact(file, window, codec)
      && r.status == ReplayComplete
      && r.delivered == Deliveries(file, window, codec)
      && r.hash == HashBytes(OFFSET_BASIS, HashInputs(r.delivered))
  {
    IndexOfComplete(file, limit, codec);
    hide ReadBytes, Sorted, ReplayEntries, Window, Visited, From, AllIntact, Accepting, Ordered, HashBytes,
        HashInputs, EntriesOf;
    var index := Sorted(ReadBytes(file, limit, false, codec).index);
    FromIntact(file, index, o.from, codec);
    EntriesDelivered(file, From(index, o.from), o.until, consumer, codec, Fresh(|index|));
    WindowVisited(index, o.from, o.until);
    ReplayInOrder(index, o, Readable(file), consumer, codec);
    assert [] + Deliveries(file, Window(index, o.from, o.until), codec)
        == Deliveries(file, Window(index, o.from, o.until), codec);
  }

  lemma DeliveriesJoin(disk: seq<Byte>, front: seq<IndexEntry>, back: seq<IndexEntry>, codec: Codec)
    requires AllIntact(disk, front, codec) && AllIntact(disk, back, codec)
    ensures AllIntact(disk, front + back, codec)
    ensures Deliveries(disk, front + back, codec) == Deliveries(disk, front, codec) + Deliveries(disk, back, codec)
  {
    hide ReadEntry, EntriesOf;
    assert AllIntact(disk, front + back, codec);
  }

  /** Replaying up to a time and then from it on is replaying the whole, at any speeds; and the
      hash of the whole is the first hash carried on over the second part. */
  lemma ReplaysMeet(file: seq<Byte>, limit: nat, a: Option<I64>, b: I64, c: Option<I64>, speeds: (Speed, Speed, Speed),
          consumer: Consumer, codec: Codec)
    requires ReadBytes(file, limit, false, codec).status == Complete
    requires Accepting(consumer)
    requires OptionsValid(Options(a, Some(b), speeds.0)) && OptionsValid(Options(Some(b), c, speeds.1))
        && OptionsValid(Options(a, c, speeds.2))
    ensures var index := Sorted(ReadBytes(file, limit, false, codec).index);
      var first := ReplayOf(false, index, Options(a, Some(b), speeds.0), Readable(file), consumer, codec);
      var second := ReplayOf(false, index, Options(Some(b), c, speeds.1), Readable(file), consumer, codec);
      var whole := ReplayOf(false, index, Options(a, c, speeds.2), Readable(file), consumer, codec);
      && first.status == second.status == whole.status == ReplayComplete
      && whole.delivered == first.delivered + second.delivered
      && whole.hash == HashBytes(first.hash, HashInputs(second.delivered))
  {
    var index := Sorted(ReadBytes(file, limit, false, codec).index);
    IndexOfComplete(file, limit, codec);
    assert a.Some? ==> a.value <= b;
    assert c.Some? ==> b <= c.value;
    hide *;
    ReplayDelivers(file, limit, Options(a, Some(b), speeds.0), consumer, codec);
    ReplayDelivers(file, limit, Options(Some(b), c, speeds.1), consumer, codec);
    ReplayDelivers(file, limit, Options(a, c, speeds.2), consumer, codec);
    WindowsMeet(index, a, b, c);
    var front, back := Window(index, a, Some(b)), Window(index, Some(b), c);
    DeliveriesJoin(file, front, back, codec);
    HashInputsSplit(Deliveries(file, front, codec), Deliveries(file, back, codec));
    HashSplit(OFFSET_BASIS, HashInputs(Deliveries(file, front, codec)), HashInputs(Deliveries(file, back, codec)));
  }

  // From the writer to the consumer.

  /** A delivery of the record of that number, just as it was appended. */
  ghost predicate OfRecord(d: Delivery, rs: seq<Record>, codec: Codec)
    requires AllLoadable(rs, codec)
  {
    var k := d.entry.recordIndex;
    k < |rs| && d.entry.arrival == rs[k].arrival && d.payload == rs[k].payload && d.event == EventOf(rs[k], codec)
  }

  lemma ReadBack(disk: seq<Byte>, offset: nat, k: nat, r: Record, codec: Codec)
    requires Loadable(r, codec)
    requires offset + RECORD_HEADER_SIZE + |r.payload| <= |disk|
    requires disk[offset + RECORD_HEADER_SIZE..offset + RECORD_HEADER_SIZE + |r.payload|] == r.payload
    ensures ReadEntry(disk, FoundAt(offset, k, r.arrival, r.payload, EventOf(r, codec)).entry, codec)
         == Intact(r.payload, EventOf(r, codec))
  {
    hide Checksum;
  }

  lemma FoundAtFields(offset: nat, k: nat, r: Record, codec: Codec)
    requires Loadable(r, codec)
    ensures var e := FoundAt(offset, k, r.arrival, r.payload, EventOf(r, codec)).entry;
      e.recordIndex == k && e.arrival == r.arrival
  {
    hide Checksum;
  }

  lemma EntryOfRecord(created: I64, rs: seq<Record>, k: nat, codec: Codec)
    requires AllLoadable(rs, codec) && k < |rs|
    ensures var e := Entries(FoundOf(FILE_HEADER_SIZE, 0, rs, codec))[k];
      && e.recordIndex == k
      && e.arrival == rs[k].arrival
      && ReadEntry(LogBytes(created, rs), e, codec) == Intact(rs[k].payload, EventOf(rs[k], codec))
  {
    hide FoundOf, LogBytes, SizeOf, FoundAt, Loadable, ReadEntry, EventOf;
    FoundOfAt(FILE_HEADER_SIZE, 0, rs, k, codec);
    PayloadOnDisk(created, rs, k);
    FoundAtFields(FILE_HEADER_SIZE + SizeOf(rs[..k]), k, rs[k], codec);
    ReadBack(LogBytes(created, rs), FILE_HEADER_SIZE + SizeOf(rs[..k]), k, rs[k], codec);
  }

  lemma {:induction false} WindowMembers(es: seq<IndexEntry>, from: Option<I64>, until: Option<I64>, e: IndexEntry)
    ensures e in Window(es, from, until) <==> e in es && NotBefore(e, from) && Within(e, until)
    decreases es
  {
    hide NotBefore, Within;
    if es == [] {
    } else {
      WindowMembers(es[1..], from, until, e);
    }
  }

  lemma {:induction false} WindowOrdered(es: seq<IndexEntry>, from: Option<I64>, until: Option<I64>)
    requires Ordered(es)
    ensures Ordered(Window(es, from, until))
    decreases es
  {
    hide NotBefore, Within, Precedes;
    if es == [] {
    } else {
      var rest := es[1..];
      WindowOrdered(rest, from, until);
      forall e | e in Window(rest, from, until) ensures Precedes(es[0], e) {
        WindowMembers(rest, from, until, e);
        var i :| 0 <= i < |rest| && rest[i] == e;
        assert Precedes(es[0], es[i + 1]);
      }
    }
  }

  predicate InWindow(arrival: I64, o: Options) {
    && (o.from.Some? ==> o.from.value <= arrival)
    && (o.until.Some? ==> arrival < o.until.value)
  }

  /** Deliveries of a log of `rs`: in order, each one as it was appended, and exactly the
      records whose arrival time lies in the window. */
  ghost predicate ReplayOfRecords(ds: seq<Delivery>, rs: seq<Record>, o: Options, codec: Codec)
    requires AllLoadable(rs, codec)
  {
    && Ordered(EntriesOf(ds))
    && (forall i :: 0 <= i < |ds| ==> OfRecord(ds[i], rs, codec))
    && (forall k :: 0 <= k < |rs| ==>
        (InWindow(rs[k].arrival, o) <==> exists i :: 0 <= i < |ds| && ds[i].entry.recordIndex == k))
  }

  lemma IndexMembers(created: I64, rs: seq<Record>, e: IndexEntry, codec: Codec)
    requires AllLoadable(rs, codec)
    requires e in multiset(Entries(FoundOf(FILE_HEADER_SIZE, 0, rs, codec)))
    ensures e.recordIndex < |rs| && e.arrival == rs[e.recordIndex].arrival
    ensures ReadEntry(LogBytes(created, rs), e, codec)
        == Intact(rs[e.recordIndex].payload, EventOf(rs[e.recordIndex], codec))
  {
    hide FoundOf, LogBytes, ReadEntry, EventOf, Loadable;
    var es := Entries(FoundOf(FILE_HEADER_SIZE, 0, rs, codec));
    var k :| 0 <= k < |es| && es[k] == e;
    EntryOfRecord(created, rs, k, codec);
  }

  lemma WindowOfRecords(created: I64, rs: seq<Record>, index: seq<IndexEntry>, o: Options, codec: Codec)
    requires AllLoadable(rs, codec)
    requires Ordered(index) && multiset(index) == multiset(Entries(FoundOf(FILE_HEADER_SIZE, 0, rs, codec)))
    requires AllIntact(LogBytes(created, rs), Window(index, o.from, o.until), codec)
    ensures ReplayOfRecords(Deliveries(LogBytes(created, rs), Window(index, o.from, o.until), codec), rs, o, codec)
  {
    hide FoundOf, LogBytes, ReadEntry, EventOf, Loadable, Window;
    var es := Entries(FoundOf(FILE_HEADER_SIZE, 0, rs, codec));
    var window := Window(index, o.from, o.until);
    var ds := Deliveries(LogBytes(created, rs), window, codec);
    WindowOrdered(index, o.from, o.until);
    forall i | 0 <= i < |ds| ensures OfRecord(ds[i], rs, codec) && InWindow(ds[i].entry.arrival, o) {
      assert ds[i].entry == EntriesOf(ds)[i] == window[i];
      WindowMembers(index, o.from, o.until, window[i]);
      assert window[i] in multiset(index);
      IndexMembers(created, rs, window[i], codec);
    }
    forall k | 0 <= k < |rs| && InWindow(rs[k].arrival, o)
      ensures exists i :: 0 <= i < |ds| && ds[i].entry.recordIndex == k
    {
      EntryOfRecord(created, rs, k, codec);
      assert es[k] in multiset(index);
      WindowMembers(index, o.from, o.until, es[k]);
      var i :| 0 <= i < |window| && window[i] == es[k];
      assert ds[i].entry == EntriesOf(ds)[i] == window[i];
    }
  }

  lemma ReadBytesNumbered(file: seq<Byte>, limit: nat, codec: Codec)
    ensures Numbered(ReadBytes(file, limit, false, codec).index)
  {
    hide ReadBytes;
    ReadNumbered(Readable(file), limit, false, codec);
  }

  lemma ReplaySummary(index: seq<IndexEntry>, o: Options, disk: FileState, consumer: Consumer, codec: Codec)
    requires Ordered(index)
    requires OptionsValid(o) && disk.Readable?
    ensures var r := ReplayOf(false, index, o, disk, consumer, codec);
      Honest(r) && (r.status == ReplayComplete ==> r.replayed == |r.delivered|)
  {
    hide ReplayOf, HashBytes, EntriesOf, Window;
    ReplayInOrder(index, o, disk, consumer, codec);
  }

  /** What was written is what is replayed: the records of the window, payload and event as
      appended, by arrival time and within equal times in the order of appending. */
  lemma WrittenReplayed(created: I64, rs: seq<Record>, limit: nat, o: Options, consumer: Consumer, codec: Codec)
    requires AllLoadable(rs, codec) && |rs| <= limit < TWO_64
    requires OptionsValid(o) && Accepting(consumer)
    ensures var file := LogBytes(created, rs);
      var log := ReadBytes(file, limit, false, codec);
      var r := ReplayOf(false, Sorted(log.index), o, Readable(file), consumer, codec);
      && log.status == Complete
      && r.status == ReplayComplete
      && r.replayed == |r.delivered|
      && Honest(r)
      && ReplayOfRecords(r.delivered, rs, o, codec)
  {
    hide *;
    var file := LogBytes(created, rs);
    var es := Entries(FoundOf(FILE_HEADER_SIZE, 0, rs, codec));
    LogRoundTrips(created, rs, limit, false, codec);
    IndexOfComplete(file, limit, codec);
    ReadBytesNumbered(file, limit, codec);
    SortedOrders(es);
    ReplayDelivers(file, limit, o, consumer, codec);
    ReplaySummary(Sorted(es), o, Readable(file), consumer, codec);
    WindowOfRecords(created, rs, Sorted(es), o, codec);
  }
}
