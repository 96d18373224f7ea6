/** What the hash of a replay tells apart: what is hashed determines the records, and a change of
    a record within six consecutive bytes of its payload always shows. */
module ReplayHash {
  import opened Octets
  import opened Bytes
  import opened Telemetry
  import opened LogFormat
  import opened RecordCodec
  import opened LogTheorems
  import opened Fnv
  import opened HashDetection
  import opened Timeline
  import opened Replay
  import opened ReplayTheorems

  /** What the hash sees of a delivery. */
  predicate SameHashed(d: Delivery, e: Delivery) {
    d.entry.recordIndex == e.entry.recordIndex && d.entry.arrival == e.entry.arrival && d.payload == e.payload
  }

  /** The reader bounds both: an index is below 2^64, and a payload is at most 4 MiB. */
  predicate Encodable(d: Delivery) {
    d.entry.recordIndex < TWO_64 && |d.payload| < TWO_32
  }

  lemma HashInputFields(d: Delivery, rest: seq<Byte>)
    ensures var s := HashInput(d) + rest;
      && |HashInput(d)| == 20 + |d.payload|
      && s[..8] == EncodeLE(d.entry.recordIndex, 8)
      && s[8..16] == EncodeLE(ToUnsigned(d.entry.arrival), 8)
      && s[16..20] == EncodeLE(|d.payload|, 4)
      && s[20..20 + |d.payload|] == d.payload
      && s[20 + |d.payload|..] == rest
  {
    hide EncodeLE, ToUnsigned;
  }

  /** The encoding that is hashed can be taken apart again. */
  lemma HashInputParses(d: Delivery, rest: seq<Byte>, e: Delivery, rest': seq<Byte>)
    requires Encodable(d) && Encodable(e)
    requires HashInput(d) + rest == HashInput(e) + rest'
    ensures SameHashed(d, e) && rest == rest'
  {
    HashInputFields(d, rest);
    HashInputFields(e, rest');
    RadixValues();
    hide HashInput, EncodeLE, DecodeLE, ToUnsigned;
    DecodeEncode(d.entry.recordIndex, 8);
    DecodeEncode(e.entry.recordIndex, 8);
    DecodeEncode(|d.payload|, 4);
    DecodeEncode(|e.payload|, 4);
    SignedFieldPrinted(d.entry.arrival);
    SignedFieldPrinted(e.entry.arrival);
  }

  lemma {:induction false} HashInputsInjective(ds: seq<Delivery>, es: seq<Delivery>)
    requires forall d :: d in ds || d in es ==> Encodable(d)
    requires HashInputs(ds) == HashInputs(es)
    ensures |ds| == |es| && forall i :: 0 <= i < |ds| ==> SameHashed(ds[i], es[i])
    decreases ds
  {
    hide HashInput, Encodable, SameHashed;
    if ds != [] && es != [] {
      HashInputParses(ds[0], HashInputs(ds[1..]), es[0], HashInputs(es[1..]));
      HashInputsInjective(ds[1..], es[1..]);
      forall i | 0 < i < |ds| ensures SameHashed(ds[i], es[i]) {
        assert SameHashed(ds[1..][i - 1], es[1..][i - 1]);
      }
    } else if ds != [] {
      HashInputFields(ds[0], HashInputs(ds[1..]));
    } else if es != [] {
      HashInputFields(es[0], HashInputs(es[1..]));
    }
  }

  // Changed payloads.

  /** Two byte strings of the same length that are alike outside `size` bytes from `start`. */
  ghost predicate DifferWithin(a: seq<Byte>, b: seq<Byte>, start: nat, size: nat) {
    && |a| == |b|
    && forall i :: 0 <= i < |a| && !(start <= i < start + size) ==> a[i] == b[i]
  }

  /** The middle of both, no longer than `size`, and what they share around it. */
  lemma AroundChange(a: seq<Byte>, b: seq<Byte>, start: nat, size: nat) returns (i: nat, j: nat)
    requires DifferWithin(a, b, start, size)
    ensures i <= j <= |a| && j - i <= size
    ensures a[..i] == b[..i] && a[j..] == b[j..]
    ensures a == a[..i] + a[i..j] + a[j..] && b == a[..i] + b[i..j] + a[j..]
  {
    i := if start <= |a| then start else |a|;
    j := if start + size <= |a| then start + size else |a|;
  }

  /** What two deliveries contribute, where only the payloads may differ. */
  lemma InputParts(d: Delivery, e: Delivery)
    requires SameExceptPayload(d, e)
    ensures HashInput(d)[..20] == HashInput(e)[..20]
    ensures HashInput(d) == HashInput(d)[..20] + d.payload && HashInput(e) == HashInput(d)[..20] + e.payload
  {
    hide EncodeLE, ToUnsigned;
  }

  predicate SameExceptPayload(d: Delivery, e: Delivery) {
    d.entry.recordIndex == e.entry.recordIndex && d.entry.arrival == e.entry.arrival && |d.payload| == |e.payload|
  }

  lemma {:induction false} SameInputs(ds: seq<Delivery>, es: seq<Delivery>)
    requires |ds| == |es| && forall i :: 0 <= i < |ds| ==> SameHashed(ds[i], es[i])
    ensures HashInputs(ds) == HashInputs(es)
    decreases ds
  {
    hide EncodeLE, ToUnsigned;
    if ds == [] {
    } else {
      assert SameHashed(ds[0], es[0]);
      assert HashInput(ds[0]) == HashInput(es[0]);
      hide HashInput, SameHashed;
      SameInputs(ds[1..], es[1..]);
    }
  }

  lemma InputsAround(before: seq<Delivery>, d: Delivery, after: seq<Delivery>)
    ensures HashInputs(before + [d] + after) == HashInputs(before) + HashInput(d) + HashInputs(after)
  {
    hide HashInput;
    HashInputsSplit(before + [d], after);
    HashInputsSplit(before, [d]);
    assert [d][1..] == [];
    assert HashInputs([d]) == HashInput(d) + [];
  }

  lemma AtPosition(ds: seq<Delivery>, k: nat)
    requires k < |ds|
    ensures ds == ds[..k] + [ds[k]] + ds[k + 1..]
  {
  }

  lemma Nested(before: seq<Byte>, start: seq<Byte>, a: seq<Byte>, b: seq<Byte>, c: seq<Byte>, after: seq<Byte>)
    ensures before + (start + (a + b + c)) + after == (before + (start + a)) + b + (c + after)
  {
  }

  /** One of two payloads changed within six consecutive bytes, and everything else that is hashed alike. */
  ghost predicate OneChanged(ds: seq<Delivery>, es: seq<Delivery>, k: nat, start: nat) {
    && |ds| == |es| && k < |ds|
    && (forall i :: 0 <= i < |ds| && i != k ==> SameHashed(ds[i], es[i]))
    && SameExceptPayload(ds[k], es[k])
    && ds[k].payload != es[k].payload
    && DifferWithin(ds[k].payload, es[k].payload, start, 6)
  }

  lemma ChangedInput(before: seq<Byte>, d: Delivery, e: Delivery, start: nat, after: seq<Byte>)
    requires SameExceptPayload(d, e)
    requires d.payload != e.payload && DifferWithin(d.payload, e.payload, start, 6)
    ensures HashBytes(OFFSET_BASIS, before + HashInput(d) + after)
         != HashBytes(OFFSET_BASIS, before + HashInput(e) + after)
  {
    assert |HashInput(d)| >= 20 && |d.payload| == |e.payload|;
    hide *;
    InputParts(d, e);
    var i, j := AroundChange(d.payload, e.payload, start, 6);
    var first, front, back := HashInput(d)[..20], d.payload[..i], d.payload[j..];
    Nested(before, first, front, d.payload[i..j], back, after);
    Nested(before, first, front, e.payload[i..j], back, after);
    SixBytesDetected(OFFSET_BASIS, before + (first + front), d.payload[i..j], e.payload[i..j], back + after);
  }

  lemma AroundTheSame(ds: seq<Delivery>, es: seq<Delivery>, k: nat, start: nat)
    requires OneChanged(ds, es, k, start)
    ensures k < |ds| == |es|
    ensures HashInputs(ds[..k]) == HashInputs(es[..k]) && HashInputs(ds[k + 1..]) == HashInputs(es[k + 1..])
  {
    hide SameHashed, HashInputs, DifferWithin;
    SameInputs(ds[..k], es[..k]);
    SameInputs(ds[k + 1..], es[k + 1..]);
  }

  /** Any two replays, of whatever logs by whatever consumers, that delivered the same except for one
      payload, changed within six consecutive bytes, report different hashes. */
  lemma ChangedReplayTold(r: ReplayResult, q: ReplayResult, k: nat, start: nat)
    requires Honest(r) && Honest(q)
    requires OneChanged(r.delivered, q.delivered, k, start)
    ensures r.hash != q.hash
  {
    var ds, es := r.delivered, q.delivered;
    AroundTheSame(ds, es, k, start);
    hide HashBytes, HashInput, HashInputs, DifferWithin;
    AtPosition(ds, k);
    AtPosition(es, k);
    InputsAround(ds[..k], ds[k], ds[k + 1..]);
    InputsAround(es[..k], es[k], es[k + 1..]);
    ChangedInput(HashInputs(ds[..k]), ds[k], es[k], start, HashInputs(ds[k + 1..]));
  }

  // Changed logs.

  /** Records numbered so, in order of arrival time and then of their numbers. */
  ghost predicate InOrder(numbers: seq<nat>, arrivals: seq<I64>) {
    && (forall i :: 0 <= i < |numbers| ==> numbers[i] < |arrivals|)
    && forall i, j :: 0 <= i < j < |numbers| ==> Sooner(arrivals, numbers[i], numbers[j])
  }

  predicate Sooner(arrivals: seq<I64>, a: nat, b: nat) {
    a < |arrivals| && b < |arrivals| && (arrivals[a] < arrivals[b] || (arrivals[a] == arrivals[b] && a < b))
  }

  /** The order leaves no choice. */
  lemma {:induction false} SameOrder(a: seq<nat>, b: seq<nat>, arrivals: seq<I64>)
    requires InOrder(a, arrivals) && InOrder(b, arrivals)
    requires forall k: nat :: k in a <==> k in b
    ensures a == b
    decreases a
  {
    if a == [] {
      NothingOrFirst(b);
    } else {
      NothingOrFirst(b);
      assert a[0] in a;
      FirstIsFirst(a, b[0], arrivals);
      FirstIsFirst(b, a[0], arrivals);
      assert a == [a[0]] + a[1..] && b == [b[0]] + b[1..];
      forall k: nat ensures k in a[1..] <==> k in b[1..] {
        BehindFirst(a, k, arrivals);
        BehindFirst(b, k, arrivals);
      }
      SameOrder(a[1..], b[1..], arrivals);
    }
  }

  lemma NothingOrFirst(a: seq<nat>)
    ensures a == [] || a[0] in a
  {
  }

  lemma FirstIsFirst(a: seq<nat>, k: nat, arrivals: seq<I64>)
    requires a != [] && InOrder(a, arrivals) && k in a
    ensures k == a[0] || Sooner(arrivals, a[0], k)
  {
    var i :| 0 <= i < |a| && a[i] == k;
  }

  lemma BehindFirst(a: seq<nat>, k: nat, arrivals: seq<I64>)
    requires a != [] && InOrder(a, arrivals)
    ensures k in a[1..] <==> k in a && k != a[0]
  {
    if k in a[1..] {
      var i :| 0 <= i < |a[1..]| && a[1..][i] == k;
      assert Sooner(arrivals, a[0], a[i + 1]);
    }
  }

  function NumbersOf(ds: seq<Delivery>): (numbers: seq<nat>)
    ensures |numbers| == |ds|
  {
    seq(|ds|, i requires 0 <= i < |ds| => ds[i].entry.recordIndex)
  }

  function ArrivalsOf(rs: seq<Record>): (arrivals: seq<I64>)
    ensures |arrivals| == |rs|
  {
    seq(|rs|, i requires 0 <= i < |rs| => rs[i].arrival)
  }

  /** Which records of a log are delivered, and in which order, depends on the arrival times alone. */
  lemma DeliveredInOrder(ds: seq<Delivery>, rs: seq<Record>, o: Options, codec: Codec)
    requires AllLoadable(rs, codec) && ReplayOfRecords(ds, rs, o, codec)
    ensures InOrder(NumbersOf(ds), ArrivalsOf(rs))
    ensures forall k: nat :: k in NumbersOf(ds) <==> k < |rs| && InWindow(ArrivalsOf(rs)[k], o)
  {
    hide InWindow, Loadable, EventOf;
    var numbers, arrivals := NumbersOf(ds), ArrivalsOf(rs);
    forall i | 0 <= i < |ds| ensures numbers[i] < |rs| && arrivals[numbers[i]] == ds[i].entry.arrival {
      assert OfRecord(ds[i], rs, codec);
    }
    forall i, j | 0 <= i < j < |ds| ensures Sooner(arrivals, numbers[i], numbers[j]) {
      assert Precedes(EntriesOf(ds)[i], EntriesOf(ds)[j]);
    }
    forall k: nat ensures k in numbers <==> k < |rs| && InWindow(arrivals[k], o) {
      NumberDelivered(ds, rs, o, k, codec);
    }
  }

  lemma NumberDelivered(ds: seq<Delivery>, rs: seq<Record>, o: Options, k: nat, codec: Codec)
    requires AllLoadable(rs, codec) && ReplayOfRecords(ds, rs, o, codec)
    ensures k in NumbersOf(ds) <==> k < |rs| && InWindow(ArrivalsOf(rs)[k], o)
  {
    hide InWindow, Loadable, EventOf, Ordered, EntriesOf;
    if k in NumbersOf(ds) {
      var i :| 0 <= i < |ds| && NumbersOf(ds)[i] == k;
      assert OfRecord(ds[i], rs, codec);
    }
    if k < |rs| && InWindow(rs[k].arrival, o) {
      var i :| 0 <= i < |ds| && ds[i].entry.recordIndex == k;
      assert NumbersOf(ds)[i] == k;
    }
  }

  /** Two lists of records that differ in one payload, within six consecutive bytes. */
  ghost predicate OneRecordChanged(rs: seq<Record>, qs: seq<Record>, k: nat, start: nat) {
    && |rs| == |qs| && k < |rs|
    && (forall i :: 0 <= i < |rs| && i != k ==> rs[i] == qs[i])
    && rs[k].arrival == qs[k].arrival
    && rs[k].payload != qs[k].payload
    && DifferWithin(rs[k].payload, qs[k].payload, start, 6)
  }

  lemma ChangedDelivery(ds: seq<Delivery>, es: seq<Delivery>, rs: seq<Record>, qs: seq<Record>, k: nat, start: nat,
          o: Options, codec: Codec) returns (position: nat)
    requires AllLoadable(rs, codec) && AllLoadable(qs, codec)
    requires ReplayOfRecords(ds, rs, o, codec) && ReplayOfRecords(es, qs, o, codec)
    requires OneRecordChanged(rs, qs, k, start) && InWindow(rs[k].arrival, o)
    ensures OneChanged(ds, es, position, start)
  {
    var numbers, arrivals := NumbersOf(ds), ArrivalsOf(rs);
    assert ArrivalsOf(qs) == arrivals;
    hide InWindow, Loadable, EventOf, Ordered, EntriesOf, DifferWithin;
    DeliveredInOrder(ds, rs, o, codec);
    DeliveredInOrder(es, qs, o, codec);
    SameOrder(numbers, NumbersOf(es), arrivals);
    assert k in numbers;
    position :| 0 <= position < |ds| && numbers[position] == k;
    forall i | 0 <= i < |ds| ensures SameRecord(ds[i], es[i], rs, qs, numbers[i]) {
      assert OfRecord(ds[i], rs, codec) && OfRecord(es[i], qs, codec);
      assert numbers[i] == NumbersOf(es)[i];
    }
    hide *;
    RecordChanged(ds, es, rs, qs, numbers, arrivals, position, k, start);
  }

  lemma RecordChanged(ds: seq<Delivery>, es: seq<Delivery>, rs: seq<Record>, qs: seq<Record>, numbers: seq<nat>,
          arrivals: seq<I64>, position: nat, k: nat, start: nat)
    requires |ds| == |es| == |numbers| && InOrder(numbers, arrivals)
    requires forall i :: 0 <= i < |ds| ==> SameRecord(ds[i], es[i], rs, qs, numbers[i])
    requires OneRecordChanged(rs, qs, k, start)
    requires position < |ds| && numbers[position] == k
    ensures OneChanged(ds, es, position, start)
  {
    hide DifferWithin;
    forall i | 0 <= i < |ds| && i != position ensures SameHashed(ds[i], es[i]) {
      assert SameRecord(ds[i], es[i], rs, qs, numbers[i]);
      if i < position {
        assert Sooner(arrivals, numbers[i], numbers[position]);
      } else {
        assert Sooner(arrivals, numbers[position], numbers[i]);
      }
    }
    assert SameRecord(ds[position], es[position], rs, qs, k);
    SamePayloadSize(rs[k].payload, qs[k].payload, start);
  }

  ghost predicate SameRecord(d: Delivery, e: Delivery, rs: seq<Record>, qs: seq<Record>, k: nat) {
    && k < |rs| && k < |qs|
    && d.entry.recordIndex == k == e.entry.recordIndex
    && d.entry.arrival == rs[k].arrival && d.payload == rs[k].payload
    && e.entry.arrival == qs[k].arrival && e.payload == qs[k].payload
  }

  lemma SamePayloadSize(a: seq<Byte>, b: seq<Byte>, start: nat)
    requires DifferWithin(a, b, start, 6)
    ensures |a| == |b|
  {
  }

  /** Changing one payload of a log within six consecutive bytes changes the hash that its replay
      reports, over every window that holds the record. */
  lemma ChangedLogTold(created: (I64, I64), rs: seq<Record>, qs: seq<Record>, k: nat, start: nat, limit: nat,
          o: Options, consumer: Consumer, codec: Codec)
    requires AllLoadable(rs, codec) && AllLoadable(qs, codec)
    requires |rs| <= limit < TWO_64
    requires OptionsValid(o) && Accepting(consumer)
    requires OneRecordChanged(rs, qs, k, start) && InWindow(rs[k].arrival, o)
    ensures ReplayOfLog(created.0, rs, limit, o, consumer, codec).hash
         != ReplayOfLog(created.1, qs, limit, o, consumer, codec).hash
  {
    assert |qs| == |rs|;
    hide *;
    LogReplayed(created.0, rs, limit, o, consumer, codec);
    LogReplayed(created.1, qs, limit, o, consumer, codec);
    var r := ReplayOfLog(created.0, rs, limit, o, consumer, codec);
    var q := ReplayOfLog(created.1, qs, limit, o, consumer, codec);
    var position := ChangedDelivery(r.delivered, q.delivered, rs, qs, k, start, o, codec);
    ChangedReplayTold(r, q, position, start);
  }

  /** Indexing and replaying a written log. */
  function ReplayOfLog(created: I64, rs: seq<Record>, limit: nat, o: Options, consumer: Consumer, codec: Codec):
      ReplayResult
  {
    var file := LogBytes(created, rs);
    ReplayOf(false, Sorted(ReadBytes(file, limit, false, codec).index), o, Readable(file), consumer, codec)
  }

  lemma LogReplayed(created: I64, rs: seq<Record>, limit: nat, o: Options, consumer: Consumer, codec: Codec)
    requires AllLoadable(rs, codec) && |rs| <= limit < TWO_64
    requires OptionsValid(o) && Accepting(consumer)
    ensures var r := ReplayOfLog(created, rs, limit, o, consumer, codec);
      Honest(r) && r.status == ReplayComplete && ReplayOfRecords(r.delivered, rs, o, codec)
  {
    hide LogBytes, ReadBytes, ReplayOf, Sorted, AllLoadable, OptionsValid, Accepting, Honest, ReplayOfRecords;
    WrittenReplayed(created, rs, limit, o, consumer, codec);
  }
}
