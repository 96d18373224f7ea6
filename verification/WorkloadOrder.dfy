/** The workload's order of time is total, and sorting keeps the streams apart. */
module WorkloadOrder {
  import opened Telemetry
  import opened Analyzer
  import opened Workload

  // What the order is.

  /** Where two names differ first: one ends there, or has the smaller character. */
  predicate DifferFirstAt(a: string, b: string, n: nat) {
    n <= |a| && n < |b| && a[..n] == b[..n] && (n == |a| || a[n] < b[n])
  }

  /** The order of names is the one by their first difference. */
  lemma {:induction false} LexLessMeans(a: string, b: string)
    ensures LexLess(a, b) <==> exists n: nat :: DifferFirstAt(a, b, n)
    decreases a
  {
    if a == "" || b == "" {
      if b != "" {
        assert DifferFirstAt(a, b, 0);
      }
    } else {
      LexLessMeans(a[1..], b[1..]);
      if a[0] < b[0] {
        assert DifferFirstAt(a, b, 0);
      }
      if n: nat :| DifferFirstAt(a[1..], b[1..], n) && a[0] == b[0] {
        OneMoreAlike(a, b, n + 1);
        assert DifferFirstAt(a, b, n + 1);
      }
      if n: nat :| DifferFirstAt(a, b, n) && n > 0 {
        OneMoreAlike(a, b, n);
        assert DifferFirstAt(a[1..], b[1..], n - 1);
      }
    }
  }

  lemma OneMoreAlike(a: string, b: string, n: nat)
    requires 0 < n <= |a| && n <= |b|
    ensures a[..n] == b[..n] <==> a[0] == b[0] && a[1..][..n - 1] == b[1..][..n - 1]
  {
    assert a[..n] == [a[0]] + a[1..][..n - 1] && b[..n] == [b[0]] + b[1..][..n - 1];
    assert a[..n][0] == a[0] && b[..n][0] == b[0];
    assert a[..n][1..] == a[1..][..n - 1] && b[..n][1..] == b[1..][..n - 1];
  }

  /** Of two sorted events, the first is the earlier one; at equal times it has the smaller name,
      and of one producer it has no greater number. */
  lemma SortedMeans(es: seq<Event>, i: nat, j: nat)
    requires i < j < |SortEvents(es)|
    ensures var a, b := SortEvents(es)[i], SortEvents(es)[j];
      || a.sourceTimestamp < b.sourceTimestamp
      || (a.sourceTimestamp == b.sourceTimestamp
          && ((exists n: nat :: DifferFirstAt(a.producerId, b.producerId, n))
              || (a.producerId == b.producerId && a.sequenceNumber <= b.sequenceNumber)))
  {
    hide SortEvents, LexLess, DifferFirstAt;
    SortOrders(es);
    var a, b := SortEvents(es)[i], SortEvents(es)[j];
    assert NotAfter(a, b);
    LexTotal(a.producerId, b.producerId);
    LexLessMeans(a.producerId, b.producerId);
  }

  // A total preorder.

  lemma {:induction false} LexTotal(a: string, b: string)
    ensures LexLess(a, b) || a == b || LexLess(b, a)
    ensures !(LexLess(a, b) && LexLess(b, a))
    ensures !LexLess(a, a)
    decreases a
  {
    if a == "" {
    } else {
      LexTotal(a[1..], a[1..]);
      if b != "" {
        LexTotal(a[1..], b[1..]);
        if a[0] == b[0] && a[1..] == b[1..] {
          assert a == [a[0]] + a[1..] == [b[0]] + b[1..] == b;
        }
      }
    }
  }

  lemma {:induction false} LexTransitive(a: string, b: string, c: string)
    requires LexLess(a, b) && LexLess(b, c)
    ensures LexLess(a, c)
    decreases a
  {
    if a != "" && a[0] == b[0] == c[0] {
      LexTransitive(a[1..], b[1..], c[1..]);
    }
  }

  predicate NotAfter(a: Event, b: Event) {
    !Before(b, a)
  }

  lemma NotAfterTransitive(a: Event, b: Event, c: Event)
    requires NotAfter(a, b) && NotAfter(b, c)
    ensures NotAfter(a, c)
  {
    hide LexLess;
    LexTotal(a.producerId, b.producerId);
    LexTotal(b.producerId, c.producerId);
    LexTotal(a.producerId, c.producerId);
    if LexLess(a.producerId, b.producerId) && LexLess(b.producerId, c.producerId) {
      LexTransitive(a.producerId, b.producerId, c.producerId);
    }
  }

  lemma BeforeIsNotAfter(a: Event, b: Event)
    requires Before(a, b)
    ensures NotAfter(a, b)
  {
    hide LexLess;
    LexTotal(a.producerId, b.producerId);
  }

  /** Neither before the other: the same time, producer and sequence number. */
  lemma SameKey(a: Event, b: Event)
    requires NotAfter(a, b) && NotAfter(b, a)
    ensures a.producerId == b.producerId && a.sequenceNumber == b.sequenceNumber
        && a.sourceTimestamp == b.sourceTimestamp
  {
    hide LexLess;
    LexTotal(a.producerId, b.producerId);
  }

  ghost predicate InOrder(es: seq<Event>) {
    forall i, j :: 0 <= i < j < |es| ==> NotAfter(es[i], es[j])
  }

  // Sorting.

  lemma {:induction false} InsertAdds(es: seq<Event>, e: Event)
    ensures multiset(Insert(es, e)) == multiset(es) + multiset{e}
    decreases es
  {
    hide Before;
    if es != [] && Before(e, es[|es| - 1]) {
      InsertAdds(es[..|es| - 1], e);
      assert es == es[..|es| - 1] + [es[|es| - 1]];
    }
  }

  lemma {:induction false} InsertOrders(es: seq<Event>, e: Event)
    requires InOrder(es)
    ensures InOrder(Insert(es, e))
    decreases es
  {
    hide Before, NotAfter;
    if es != [] && Before(e, es[|es| - 1]) {
      var front, last := es[..|es| - 1], es[|es| - 1];
      InsertOrders(front, e);
      InsertAdds(front, e);
      BeforeIsNotAfter(e, last);
      forall i | 0 <= i < |Insert(front, e)| ensures NotAfter(Insert(front, e)[i], last) {
        assert Insert(front, e)[i] in multiset(front) + multiset{e};
      }
    } else {
      AppendOrders(es, e);
    }
  }

  lemma AppendOrders(es: seq<Event>, e: Event)
    requires InOrder(es)
    requires es == [] || !Before(e, es[|es| - 1])
    ensures InOrder(es + [e])
  {
    if es != [] {
      assert NotAfter(es[|es| - 1], e);
      hide Before, NotAfter;
      forall i | 0 <= i < |es| ensures NotAfter(es[i], e) {
        if i < |es| - 1 {
          NotAfterTransitive(es[i], es[|es| - 1], e);
        }
      }
    }
  }

  lemma {:induction false} SortOrders(es: seq<Event>)
    ensures InOrder(SortEvents(es))
    ensures multiset(SortEvents(es)) == multiset(es)
    decreases es
  {
    hide InOrder;
    if es == [] {
      NoneInOrder();
    } else {
      var front := es[..|es| - 1];
      SortOrders(front);
      assert es == front + [es[|es| - 1]];
      InsertOrders(SortEvents(front), es[|es| - 1]);
      InsertAdds(SortEvents(front), es[|es| - 1]);
    }
  }

  lemma NoneInOrder()
    ensures InOrder([])
  {
  }

  /** What is in order already stays as it is. */
  lemma {:induction false} SortKeeps(es: seq<Event>)
    requires InOrder(es)
    ensures SortEvents(es) == es
    decreases es
  {
    hide *;
    if es == [] {
      SortNothing();
    } else {
      FrontInOrder(es);
      EndInOrder(es);
      SortKeeps(es[..|es| - 1]);
      SortMore(es[..|es| - 1], es[|es| - 1]);
      InsertLast(es[..|es| - 1], es[|es| - 1]);
    }
  }

  lemma SortNothing()
    ensures SortEvents([]) == []
  {
  }

  lemma EndInOrder(es: seq<Event>)
    requires es != [] && InOrder(es)
    ensures var front := es[..|es| - 1]; front == [] || !Before(es[|es| - 1], front[|front| - 1])
  {
    if |es| > 1 {
      assert NotAfter(es[|es| - 2], es[|es| - 1]);
    }
  }

  lemma SortMore(front: seq<Event>, last: Event)
    ensures SortEvents(front + [last]) == Insert(SortEvents(front), last)
  {
    hide Insert;
    assert (front + [last])[..|front|] == front;
  }

  lemma InsertLast(es: seq<Event>, e: Event)
    requires es == [] || !Before(e, es[|es| - 1])
    ensures Insert(es, e) == es + [e]
  {
  }

  predicate SameNumber(a: Event, b: Event) {
    a.producerId == b.producerId && a.sequenceNumber == b.sequenceNumber
  }

  /** No two of these events share producer and sequence number unless they are equal. */
  ghost predicate Distinguished(es: seq<Event>) {
    forall i, j :: 0 <= i < |es| && 0 <= j < |es| ==> (SameNumber(es[i], es[j]) ==> es[i] == es[j])
  }

  /** Then any way of sorting them gives the same list, a stable one or not. */
  lemma {:induction false} SortDetermined(a: seq<Event>, b: seq<Event>)
    requires InOrder(a) && InOrder(b)
    requires multiset(a) == multiset(b)
    requires Distinguished(a)
    ensures a == b
    decreases a
  {
    hide InOrder, Distinguished;
    assert |a| == |multiset(a)| && |b| == |multiset(b)|;
    if a == [] {
    } else {
      SameLast(a, b);
      FrontInOrder(a);
      FrontInOrder(b);
      FrontDistinguished(a);
      SortDetermined(a[..|a| - 1], b[..|b| - 1]);
    }
  }

  lemma FrontInOrder(es: seq<Event>)
    requires es != [] && InOrder(es)
    ensures InOrder(es[..|es| - 1])
    ensures es == es[..|es| - 1] + [es[|es| - 1]]
    ensures multiset(es[..|es| - 1]) == multiset(es) - multiset{es[|es| - 1]}
  {
    hide NotAfter;
    assert es == es[..|es| - 1] + [es[|es| - 1]];
  }

  lemma FrontDistinguished(es: seq<Event>)
    requires es != [] && Distinguished(es)
    ensures Distinguished(es[..|es| - 1])
  {
  }

  lemma NotAfterLast(es: seq<Event>, e: Event)
    requires InOrder(es) && e in es
    ensures e == es[|es| - 1] || NotAfter(e, es[|es| - 1])
  {
    hide NotAfter;
  }

  lemma SameLast(a: seq<Event>, b: seq<Event>)
    requires InOrder(a) && InOrder(b) && a != [] && b != []
    requires multiset(a) == multiset(b)
    requires Distinguished(a)
    ensures a[|a| - 1] == b[|b| - 1]
  {
    hide InOrder, Before, NotAfter;
    var x, y := a[|a| - 1], b[|b| - 1];
    assert x in multiset(b) && y in multiset(a);
    NotAfterLast(a, y);
    NotAfterLast(b, x);
    if x != y {
      SameKey(x, y);
    }
  }

  // Streams.

  lemma {:induction false} OfProducerJoin(a: seq<Event>, b: seq<Event>, p: string)
    ensures OfProducer(a + b, p) == OfProducer(a, p) + OfProducer(b, p)
    decreases b
  {
    if b == [] {
      assert a + b == a;
    } else {
      var front, last := b[..|b| - 1], b[|b| - 1];
      assert a + b == (a + front) + [last] && b == front + [last];
      OfProducerMore(a + front, last, p);
      OfProducerMore(front, last, p);
      OfProducerJoin(a, front, p);
    }
  }

  lemma {:induction false} OfProducerMembers(es: seq<Event>, p: string, e: Event)
    ensures e in OfProducer(es, p) <==> e in es && e.producerId == p
    decreases es
  {
    if es == [] {
    } else {
      OfProducerMembers(es[..|es| - 1], p, e);
      assert es == es[..|es| - 1] + [es[|es| - 1]];
    }
  }

  /** A list of one producer's events is all of its own stream and nothing of another's. */
  lemma {:induction false} OfOnlyProducer(es: seq<Event>, q: string, p: string)
    requires forall i :: 0 <= i < |es| ==> es[i].producerId == q
    ensures OfProducer(es, p) == if p == q then es else []
    decreases es
  {
    if es == [] {
    } else {
      OfOnlyProducer(es[..|es| - 1], q, p);
      assert es == es[..|es| - 1] + [es[|es| - 1]];
    }
  }

  lemma InsertAhead(front: seq<Event>, last: Event, e: Event)
    requires Before(e, last)
    ensures Insert(front + [last], e) == Insert(front, e) + [last]
  {
    hide Before;
    assert (front + [last])[..|front|] == front;
  }

  /** Inserting into a list and then taking a stream is taking the stream and then inserting. */
  lemma {:induction false} InsertInStream(es: seq<Event>, e: Event, p: string)
    requires InOrder(es)
    ensures OfProducer(Insert(es, e), p)
         == if e.producerId == p then Insert(OfProducer(es, p), e) else OfProducer(es, p)
    decreases es
  {
    hide *;
    if es != [] && Before(e, es[|es| - 1]) {
      FrontInOrder(es);
      InsertInStream(es[..|es| - 1], e, p);
      InsertInStreamAhead(es[..|es| - 1], es[|es| - 1], e, p);
    } else {
      InsertLast(es, e);
      OfProducerMore(es, e, p);
      NothingMore(OfProducer(es, p));
      StreamEndsBefore(es, e, p);
      InsertLast(OfProducer(es, p), e);
    }
  }

  lemma NothingMore(es: seq<Event>)
    ensures es + [] == es
  {
  }

  lemma InsertInStreamAhead(front: seq<Event>, last: Event, e: Event, p: string)
    requires Before(e, last)
    requires OfProducer(Insert(front, e), p)
          == if e.producerId == p then Insert(OfProducer(front, p), e) else OfProducer(front, p)
    ensures OfProducer(Insert(front + [last], e), p)
         == if e.producerId == p then Insert(OfProducer(front + [last], p), e) else OfProducer(front + [last], p)
  {
    hide *;
    InsertAhead(front, last, e);
    OfProducerMore(Insert(front, e), last, p);
    OfProducerMore(front, last, p);
    InsertAhead(OfProducer(front, p), last, e);
    NothingMore(OfProducer(front, p));
    NothingMore(OfProducer(Insert(front, e), p));
  }

  lemma StreamEndsBefore(es: seq<Event>, e: Event, p: string)
    requires InOrder(es)
    requires es == [] || !Before(e, es[|es| - 1])
    ensures var stream := OfProducer(es, p); stream == [] || !Before(e, stream[|stream| - 1])
  {
    hide OfProducer;
    AppendOrders(es, e);
    var stream := OfProducer(es, p);
    if stream != [] {
      OfProducerMembers(es, p, stream[|stream| - 1]);
      var i :| 0 <= i < |es| && es[i] == stream[|stream| - 1];
      assert NotAfter((es + [e])[i], (es + [e])[|es|]);
    }
  }

  /** Sorting sorts each stream. */
  lemma {:induction false} SortInStream(es: seq<Event>, p: string)
    ensures OfProducer(SortEvents(es), p) == SortEvents(OfProducer(es, p))
    decreases es
  {
    hide *;
    if es == [] {
      NothingToSort(p);
    } else {
      var front, last := es[..|es| - 1], es[|es| - 1];
      assert es == front + [last];
      SortInStream(front, p);
      SortOrders(front);
      SortMore(front, last);
      InsertInStream(SortEvents(front), last, p);
      OfProducerMore(front, last, p);
      SortMore(OfProducer(front, p), last);
      NothingMore(OfProducer(front, p));
    }
  }

  lemma NothingToSort(p: string)
    ensures OfProducer(SortEvents([]), p) == SortEvents(OfProducer([], p))
  {
  }
}
