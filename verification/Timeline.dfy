/** The replay order: by arrival time, then by position in the log. */
module Timeline {
  import opened Bytes
  import opened Telemetry
  import opened LogFormat

  predicate Precedes(a: IndexEntry, b: IndexEntry) {
    a.arrival < b.arrival || (a.arrival == b.arrival && a.recordIndex < b.recordIndex)
  }

  ghost predicate Ordered(es: seq<IndexEntry>) {
    forall i, j :: 0 <= i < j < |es| ==> Precedes(es[i], es[j])
  }

  /** Entries as the reader returns them: numbered in file order. */
  ghost predicate Numbered(es: seq<IndexEntry>) {
    forall i, j :: 0 <= i < j < |es| ==> es[i].recordIndex < es[j].recordIndex
  }

  /** Inserting behind every entry that is not later: the step of a stable sort by arrival time. */
  function Insert(es: seq<IndexEntry>, e: IndexEntry): seq<IndexEntry> {
    if es == [] || es[|es| - 1].arrival <= e.arrival then es + [e]
    else Insert(es[..|es| - 1], e) + [es[|es| - 1]]
  }

  /** The stable sort by arrival time. */
  function Sorted(es: seq<IndexEntry>): seq<IndexEntry> {
    if es == [] then [] else Insert(Sorted(es[..|es| - 1]), es[|es| - 1])
  }

  lemma {:induction false} InsertAdds(es: seq<IndexEntry>, e: IndexEntry)
    ensures multiset(Insert(es, e)) == multiset(es) + multiset{e}
    decreases es
  {
    if es != [] && es[|es| - 1].arrival > e.arrival {
      InsertAdds(es[..|es| - 1], e);
      assert es == es[..|es| - 1] + [es[|es| - 1]];
    }
  }

  lemma {:induction false} InsertOrders(es: seq<IndexEntry>, e: IndexEntry)
    requires Ordered(es)
    requires forall i :: 0 <= i < |es| ==> es[i].recordIndex < e.recordIndex
    ensures Ordered(Insert(es, e))
    decreases es
  {
    if es != [] && es[|es| - 1].arrival > e.arrival {
      var front, last := es[..|es| - 1], es[|es| - 1];
      InsertOrders(front, e);
      InsertAdds(front, e);
      EarlierThan(front, e, last);
    } else {
      forall i | 0 <= i < |es| ensures Precedes(es[i], e) {
        if i < |es| - 1 {
          assert Precedes(es[i], es[|es| - 1]);
        }
      }
    }
  }

  lemma EarlierThan(front: seq<IndexEntry>, e: IndexEntry, last: IndexEntry)
    requires multiset(Insert(front, e)) == multiset(front) + multiset{e}
    requires forall i :: 0 <= i < |front| ==> Precedes(front[i], last)
    requires Precedes(e, last)
    ensures forall i :: 0 <= i < |Insert(front, e)| ==> Precedes(Insert(front, e)[i], last)
  {
    hide Precedes, Insert;
    forall i | 0 <= i < |Insert(front, e)| ensures Precedes(Insert(front, e)[i], last) {
      assert Insert(front, e)[i] in multiset(Insert(front, e));
    }
  }

  lemma {:induction false} SortedOrders(es: seq<IndexEntry>)
    requires Numbered(es)
    ensures Ordered(Sorted(es))
    ensures multiset(Sorted(es)) == multiset(es)
    decreases es
  {
    if es == [] {
    } else {
      var front, last := es[..|es| - 1], es[|es| - 1];
      SortedOrders(front);
      assert es == front + [last];
      forall i | 0 <= i < |Sorted(front)| ensures Sorted(front)[i].recordIndex < last.recordIndex {
        assert Sorted(front)[i] in multiset(front);
      }
      InsertOrders(Sorted(front), last);
      InsertAdds(Sorted(front), last);
    }
  }

  /** The order is total, so any algorithm that puts the entries in order does the same thing. */
  lemma {:induction false} OrderDetermined(a: seq<IndexEntry>, b: seq<IndexEntry>)
    requires Ordered(a) && Ordered(b)
    requires multiset(a) == multiset(b)
    ensures a == b
    decreases a
  {
    hide Ordered;
    SameLength(a, b);
    if a == [] {
    } else {
      SameLast(a, b);
      FrontOf(a);
      FrontOf(b);
      OrderDetermined(a[..|a| - 1], b[..|b| - 1]);
    }
  }

  lemma SameLength(a: seq<IndexEntry>, b: seq<IndexEntry>)
    requires multiset(a) == multiset(b)
    ensures |a| == |b|
  {
    assert |a| == |multiset(a)| && |b| == |multiset(b)|;
  }

  lemma FrontOf(es: seq<IndexEntry>)
    requires es != [] && Ordered(es)
    ensures Ordered(es[..|es| - 1])
    ensures es == es[..|es| - 1] + [es[|es| - 1]]
    ensures multiset(es[..|es| - 1]) == multiset(es) - multiset{es[|es| - 1]}
  {
    assert es == es[..|es| - 1] + [es[|es| - 1]];
  }

  lemma SameLast(a: seq<IndexEntry>, b: seq<IndexEntry>)
    requires Ordered(a) && Ordered(b) && a != [] && b != []
    requires multiset(a) == multiset(b)
    ensures a[|a| - 1] == b[|b| - 1]
  {
    assert a[|a| - 1] in multiset(b) && b[|b| - 1] in multiset(a);
    LastIsLatest(a, b[|b| - 1]);
    LastIsLatest(b, a[|a| - 1]);
  }

  lemma LastIsLatest(es: seq<IndexEntry>, e: IndexEntry)
    requires Ordered(es) && e in es
    ensures e == es[|es| - 1] || Precedes(e, es[|es| - 1])
  {
  }

  // Windows.

  predicate NotBefore(e: IndexEntry, from: Option<I64>) {
    from.Some? ==> e.arrival >= from.value
  }

  predicate Within(e: IndexEntry, until: Option<I64>) {
    until.Some? ==> e.arrival < until.value
  }

  /** The entries of a half-open window. */
  function Window(es: seq<IndexEntry>, from: Option<I64>, until: Option<I64>): seq<IndexEntry> {
    if es == [] then []
    else (if NotBefore(es[0], from) && Within(es[0], until) then [es[0]] else []) + Window(es[1..], from, until)
  }

  /** The first position from which on nothing lies before the window. */
  method LowerBound(es: seq<IndexEntry>, from: I64) returns (position: nat)
    requires Ordered(es)
    ensures position <= |es|
    ensures forall i :: 0 <= i < position ==> es[i].arrival < from
    ensures forall i :: position <= i < |es| ==> es[i].arrival >= from
  {
    var low, high := 0, |es|;
    while low < high
      invariant 0 <= low <= high <= |es|
      invariant forall i :: 0 <= i < low ==> es[i].arrival < from
      invariant forall i :: high <= i < |es| ==> es[i].arrival >= from
    {
      var middle := low + (high - low) / 2;
      if es[middle].arrival < from {
        low := middle + 1;
      } else {
        high := middle;
      }
    }
    position := low;
  }

  /** The entries that a loop visits when it starts at the lower bound and stops at the first
      entry past the window. */
  function Visited(es: seq<IndexEntry>, until: Option<I64>): seq<IndexEntry> {
    if es == [] || !Within(es[0], until) then [] else [es[0]] + Visited(es[1..], until)
  }

  lemma {:induction false} WindowEmptyBefore(es: seq<IndexEntry>, from: Option<I64>, until: Option<I64>)
    requires forall i :: 0 <= i < |es| ==> !NotBefore(es[i], from) || !Within(es[i], until)
    ensures Window(es, from, until) == []
    decreases es
  {
    if es == [] {
    } else {
      WindowEmptyBefore(es[1..], from, until);
    }
  }

  /** Seeking and stopping visit exactly the window. */
  lemma {:induction false} VisitedIsWindow(es: seq<IndexEntry>, position: nat, from: Option<I64>, until: Option<I64>)
    requires Ordered(es) && position <= |es|
    requires forall i :: 0 <= i < position ==> !NotBefore(es[i], from)
    requires forall i :: position <= i < |es| ==> NotBefore(es[i], from)
    ensures Visited(es[position..], until) == Window(es, from, until)
    decreases es
  {
    if es == [] {
    } else if position > 0 {
      VisitedIsWindow(es[1..], position - 1, from, until);
      assert es[1..][position - 1..] == es[position..];
    } else if Within(es[0], until) {
      VisitedIsWindow(es[1..], 0, from, until);
      assert es[0..][1..] == es[1..];
      assert es[1..][0..] == es[1..];
    } else {
      WindowEmptyBefore(es, from, until);
    }
  }

  /** Two windows that meet make one. */
  lemma {:induction false} WindowsMeet(es: seq<IndexEntry>, a: Option<I64>, b: I64, c: Option<I64>)
    requires Ordered(es)
    requires a.Some? ==> a.value <= b
    requires c.Some? ==> b <= c.value
    ensures Window(es, a, Some(b)) + Window(es, Some(b), c) == Window(es, a, c)
    decreases es
  {
    if es == [] {
    } else {
      var rest := es[1..];
      assert Ordered(rest);
      WindowsMeet(rest, a, b, c);
      if es[0].arrival >= b {
        WindowEmptyBefore(es, a, Some(b));
        WindowEmptyBefore(rest, a, Some(b));
      }
      hide Window, Ordered;
      WindowHead(es, a, Some(b));
      WindowHead(es, Some(b), c);
      WindowHead(es, a, c);
      JoinHead([es[0]], Window(rest, a, Some(b)), Window(rest, Some(b), c));
      JoinHead([], Window(rest, a, Some(b)), Window(es, Some(b), c));
    }
  }

  lemma JoinHead(head: seq<IndexEntry>, front: seq<IndexEntry>, back: seq<IndexEntry>)
    ensures (head + front) + back == head + (front + back)
    ensures front == [] ==> front + back == back
  {
  }

  lemma WindowHead(es: seq<IndexEntry>, from: Option<I64>, until: Option<I64>)
    requires es != []
    ensures Window(es, from, until)
         == if NotBefore(es[0], from) && Within(es[0], until) then [es[0]] + Window(es[1..], from, until)
            else Window(es[1..], from, until)
  {
  }
}
