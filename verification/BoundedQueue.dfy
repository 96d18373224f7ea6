/** The bounded queue. Each function is what one of its lock regions does. */
module BoundedQueue {
  import opened Telemetry

  datatype QueueState<T> = QueueState(
    capacity: nat,
    items: seq<T>,
    highWatermark: nat,
    acceptedItems: nat,
    rejectedItems: nat,
    closed: bool)

  datatype PushResult = Accepted | Full | Closed

  function Empty<T>(capacity: nat): QueueState<T> {
    QueueState(capacity, [], 0, 0, 0, false)
  }

  function Max(a: nat, b: nat): nat {
    if a < b then b else a
  }

  function PushResultOf<T>(q: QueueState<T>): PushResult {
    if q.closed then Closed else if |q.items| == q.capacity then Full else Accepted
  }

  function AfterPush<T>(q: QueueState<T>, item: T): QueueState<T> {
    if PushResultOf(q) != Accepted then q.(rejectedItems := q.rejectedItems + 1)
    else q.(items := q.items + [item],
            acceptedItems := q.acceptedItems + 1,
            highWatermark := Max(q.highWatermark, |q.items| + 1))
  }

  /** What `wait_pop` waits for. */
  predicate Ready<T>(q: QueueState<T>) {
    q.closed || q.items != []
  }

  function AfterPop<T>(q: QueueState<T>): QueueState<T> {
    if q.items == [] then q else q.(items := q.items[1..])
  }

  function AfterClose<T>(q: QueueState<T>): QueueState<T> {
    q.(closed := true)
  }

  ghost predicate WellFormed<T>(q: QueueState<T>) {
    0 < q.capacity && |q.items| <= q.highWatermark <= q.capacity
  }

  /** Items leave in the order in which they were accepted, whatever is interleaved: popped
      items followed by queued items are the accepted items. */
  lemma PushKeeps<T>(q: QueueState<T>, item: T, popped: seq<T>, accepted: seq<T>)
    requires WellFormed(q) && popped + q.items == accepted && q.acceptedItems == |accepted|
    ensures var q' := AfterPush(q, item);
      && WellFormed(q')
      && (PushResultOf(q) == Accepted ==> popped + q'.items == accepted + [item] && q'.acceptedItems == |accepted| + 1)
      && (PushResultOf(q) != Accepted ==> popped + q'.items == accepted && q'.acceptedItems == |accepted|)
  {
    assert popped + (q.items + [item]) == popped + q.items + [item];
  }

  lemma PopKeeps<T>(q: QueueState<T>, popped: seq<T>, accepted: seq<T>)
    requires WellFormed(q) && popped + q.items == accepted
    requires q.items != []
    ensures WellFormed(AfterPop(q)) && popped + [q.items[0]] + AfterPop(q).items == accepted
  {
    assert q.items == [q.items[0]] + q.items[1..];
  }

  // Pushes with no pop in between.

  function AfterPushes<T>(q: QueueState<T>, items: seq<T>): QueueState<T> {
    if items == [] then q else AfterPush(AfterPushes(q, items[..|items| - 1]), items[|items| - 1])
  }

  function Min(a: nat, b: nat): nat {
    if a < b then a else b
  }

  /** However many items are pushed on an open queue, it takes exactly the first ones for which it
      has room, and counts the rest as rejected. */
  lemma {:induction false} PushesFill<T>(q: QueueState<T>, items: seq<T>)
    requires WellFormed(q) && !q.closed
    ensures var n, q' := Min(|items|, q.capacity - |q.items|), AfterPushes(q, items);
      && q'.items == q.items + items[..n]
      && q'.acceptedItems == q.acceptedItems + n
      && q'.rejectedItems == q.rejectedItems + (|items| - n)
      && q'.highWatermark == Max(q.highWatermark, |q.items| + n)
      && q'.capacity == q.capacity && !q'.closed
    decreases items
  {
    if items == [] {
      assert q.items + [] == q.items;
    } else {
      var front, last := items[..|items| - 1], items[|items| - 1];
      PushesFill(q, front);
      var n := Min(|front|, q.capacity - |q.items|);
      assert front[..n] == items[..n];
      if |q.items| + n < q.capacity {
        assert items[..n + 1] == items[..n] + [last];
        assert q.items + items[..n] + [last] == q.items + items[..n + 1];
      }
    }
  }

  /** A closed queue takes nothing. */
  lemma {:induction false} PushesRefused<T>(q: QueueState<T>, items: seq<T>)
    requires q.closed
    ensures AfterPushes(q, items) == q.(rejectedItems := q.rejectedItems + |items|)
    decreases items
  {
    if items == [] {
    } else {
      PushesRefused(q, items[..|items| - 1]);
    }
  }

  class BoundedQueue<T> {
    const capacity: nat
    var items: seq<T>
    var highWatermark: nat
    var acceptedItems: nat
    var rejectedItems: nat
    var closed: bool

    constructor (capacity: nat)
      ensures State() == Empty<T>(capacity)
    {
      this.capacity := capacity;
      items, highWatermark, acceptedItems, rejectedItems, closed := [], 0, 0, 0, false;
    }

    function State(): QueueState<T>
      reads this
    {
      QueueState(capacity, items, highWatermark, acceptedItems, rejectedItems, closed)
    }

    method TryPush(item: T) returns (result: PushResult)
      modifies this
      ensures result == PushResultOf(old(State()))
      ensures State() == AfterPush(old(State()), item)
      ensures result == Closed <==> old(closed)
      ensures result == Full <==> !old(closed) && |old(items)| == capacity
      ensures result == Accepted <==> !old(closed) && |old(items)| != capacity
      ensures items == if result == Accepted then old(items) + [item] else old(items)
      ensures acceptedItems == old(acceptedItems) + if result == Accepted then 1 else 0
      ensures rejectedItems == old(rejectedItems) + if result == Accepted then 0 else 1
      ensures closed == old(closed)
    {
      if closed {
        rejectedItems := rejectedItems + 1;
        return Closed;
      }
      if |items| == capacity {
        rejectedItems := rejectedItems + 1;
        return Full;
      }
      items := items + [item];
      acceptedItems := acceptedItems + 1;
      if |items| > highWatermark {
        highWatermark := |items|;
      }
      return Accepted;
    }

    /** The part of `wait_pop` behind the wait. */
    method PopAfterWait() returns (item: Option<T>)
      requires Ready(State())
      modifies this`items
      ensures State() == AfterPop(old(State()))
      ensures item == if old(items) == [] then None else Some(old(items)[0])
    {
      if items == [] {
        return None;
      }
      item := Some(items[0]);
      items := items[1..];
    }

    method Close()
      modifies this`closed
      ensures State() == AfterClose(old(State()))
    {
      closed := true;
    }
  }

  /** A queue without room is refused. */
  method MakeQueue<T>(capacity: nat) returns (queue: BoundedQueue?<T>)
    ensures queue == null <==> capacity == 0
    ensures queue != null ==> fresh(queue) && queue.State() == Empty<T>(capacity) && WellFormed(queue.State())
  {
    if capacity == 0 {
      return null;
    }
    queue := new BoundedQueue<T>(capacity);
  }
}
