/** From the streams to the replay: what a replay of the log of a clean shutdown delivers. */
module Playback {
  import opened Bytes
  import opened Telemetry
  import opened LogFormat
  import opened RecordCodec
  import opened LogTheorems
  import opened LogWriting
  import opened Pipeline
  import opened EndToEnd
  import opened Timeline
  import opened Replay
  import opened ReplayTheorems

  /** Deliveries of accepted events: by arrival time and then in the order in which the queue
      accepted them, each one as it was accepted, and exactly those that arrived in the window. */
  ghost predicate DeliversAccepted(ds: seq<Delivery>, accepted: seq<Item>, o: Options) {
    && Ordered(EntriesOf(ds))
    && (forall i :: 0 <= i < |ds| ==> IsAccepted(ds[i], accepted))
    && (forall k :: 0 <= k < |accepted| ==>
          (InWindow(accepted[k].collected.arrival, o) <==> exists i :: 0 <= i < |ds| && ds[i].entry.recordIndex == k))
  }

  predicate IsAccepted(d: Delivery, accepted: seq<Item>) {
    var k := d.entry.recordIndex;
    k < |accepted| && CollectedEvent(d.event, d.entry.arrival) == accepted[k].collected
  }

  lemma RecordOfItem(r: Record, item: Item, codec: Codec)
    requires RoundTrips(codec)
    requires Some(r) == Encoded(item.collected.event, item.collected.arrival, codec)
    ensures Loadable(r, codec) && r.arrival == item.collected.arrival && EventOf(r, codec) == item.collected.event
  {
  }

  lemma RecordsAreAccepted(ds: seq<Delivery>, rs: seq<Record>, accepted: seq<Item>, o: Options, codec: Codec)
    requires RoundTrips(codec) && AllLoadable(rs, codec)
    requires RecordsFor(rs, accepted, codec) && |rs| == |accepted|
    requires ReplayOfRecords(ds, rs, o, codec)
    ensures DeliversAccepted(ds, accepted, o)
  {
    hide RoundTrips, Encoded, Loadable, EventOf, Ordered, InWindow, EntriesOf;
    forall k | 0 <= k < |rs|
      ensures rs[k].arrival == accepted[k].collected.arrival && EventOf(rs[k], codec) == accepted[k].collected.event
    {
      RecordOfItem(rs[k], accepted[k], codec);
    }
    forall i | 0 <= i < |ds| ensures IsAccepted(ds[i], accepted) {
      assert OfRecord(ds[i], rs, codec);
    }
  }

  /** After a clean shutdown, in every interleaving: replaying the log completes, and delivers
      exactly the accepted events that arrived in the window, by arrival time and, at equal times,
      in the order in which the queue accepted them. */
  lemma AcceptedReplayed(s: Sys, created: I64, codec: Codec, every: nat, limit: nat, o: Options, consumer: Consumer)
    requires RoundTrips(codec)
    requires Reached(s, created, codec, every)
    requires CleanlyShutDown(s)
    requires |s.accepted| <= limit < TWO_64
    requires OptionsValid(o) && Accepting(consumer)
    ensures var file := Writer(s).taken;
      var log := ReadBytes(file, limit, false, codec);
      var r := ReplayOf(false, Sorted(log.index), o, Readable(file), consumer, codec);
      && log.status == Complete
      && r.status == ReplayComplete
      && DeliversAccepted(r.delivered, s.accepted, o)
  {
    HasWriter(s, created, codec, every);
    hide *;
    var rs := CleanLog(s, created, codec, every);
    WrittenReplayed(created, rs, limit, o, consumer, codec);
    var file := Writer(s).taken;
    var r := ReplayOf(false, Sorted(ReadBytes(file, limit, false, codec).index), o, Readable(file), consumer, codec);
    RecordsAreAccepted(r.delivered, rs, s.accepted, o, codec);
  }

  lemma HasWriter(s: Sys, created: I64, codec: Codec, every: nat)
    requires Reached(s, created, codec, every)
    ensures s.log.states != []
  {
    hide Inv;
  }
}
