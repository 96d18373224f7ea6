/** What fault injection does to a list of events, for all probabilities and all chances. */
module WorkloadFaults {
  import opened Bytes
  import opened Telemetry
  import opened Random
  import opened Schedule
  import opened Workload

  /** Each event as many times in a row as `keeps` says. */
  function Expand(es: seq<Event>, keeps: seq<nat>): seq<Event>
    requires |keeps| == |es|
    decreases es
  {
    if es == [] then [] else Copies(es[0], keeps[0]) + Expand(es[1..], keeps[1..])
  }

  function Copies(e: Event, n: nat): seq<Event> {
    if n == 0 then [] else [e] + Copies(e, n - 1)
  }

  /** Dropping and duplicating conserve events: what is emitted is the list with each event kept
      zero, one or two times in place, and the statistics count the zeros and the twos. */
  lemma {:induction false} InjectConserves(es: seq<Event>, f: Faults, engine: Engine, position: nat)
      returns (keeps: seq<nat>)
    requires Recurring(engine)
    ensures var out := Inject(es, f, engine, position);
      && |keeps| == |es|
      && (forall i :: 0 <= i < |keeps| ==> keeps[i] <= 2)
      && out.events == Expand(es, keeps)
      && out.dropped == multiset(keeps)[0]
      && out.duplicated == multiset(keeps)[2]
      && |out.events| + out.dropped == |es| + out.duplicated
    decreases es
  {
    if es == [] {
      keeps := [];
    } else {
      var after := AfterChance(engine, position);
      var keep: nat;
      var later: seq<nat>;
      if Chance(engine, position, f.drop) {
        keep := 0;
        later := InjectConserves(es[1..], f, engine, after);
      } else {
        keep := if Chance(engine, after, f.duplicate) then 2 else 1;
        later := InjectConserves(es[1..], f, engine, AfterChance(engine, after));
      }
      keeps := [keep] + later;
      CopiesAre(es[0]);
      hide Chance, AfterChance, Inject, Copies;
      assert keeps[1..] == later;
      InjectOnce(es, f, engine, position);
    }
  }

  lemma CopiesAre(e: Event)
    ensures Copies(e, 0) == [] && Copies(e, 1) == [e] && Copies(e, 2) == [e, e]
  {
  }

  lemma InjectOnce(es: seq<Event>, f: Faults, engine: Engine, position: nat)
    requires Recurring(engine) && es != []
    ensures var after := AfterChance(engine, position);
      Inject(es, f, engine, position) ==
      if Chance(engine, position, f.drop) then
        var rest := Inject(es[1..], f, engine, after);
        Injected(rest.events, rest.dropped + 1, rest.duplicated, rest.next)
      else
        var rest := Inject(es[1..], f, engine, AfterChance(engine, after));
        if Chance(engine, after, f.duplicate) then
          Injected([es[0], es[0]] + rest.events, rest.dropped, rest.duplicated + 1, rest.next)
        else Injected([es[0]] + rest.events, rest.dropped, rest.duplicated, rest.next)
  {
    hide Chance, AfterChance;
  }

  /** At the ends of the scale nothing is left to chance. */
  lemma {:induction false} InjectAtTheEnds(es: seq<Event>, f: Faults, engine: Engine, position: nat)
    requires Recurring(engine)
    ensures var out := Inject(es, f, engine, position);
      && (f.drop == PROBABILITY_SCALE ==> out.events == [])
      && (f.drop == 0 ==> out.dropped == 0)
      && (f.duplicate == 0 ==> out.duplicated == 0)
      && (f.drop == 0 && f.duplicate == 0 ==> out.events == es)
      && (f.drop == 0 && f.duplicate == PROBABILITY_SCALE ==> out.duplicated == |es|)
    decreases es
  {
    if es == [] {
    } else {
      var after := AfterChance(engine, position);
      NeverAndAlways(engine, position);
      NeverAndAlways(engine, after);
      InjectAtTheEnds(es[1..], f, engine, after);
      InjectAtTheEnds(es[1..], f, engine, AfterChance(engine, after));
      hide Chance, AfterChance, Inject;
      InjectOnce(es, f, engine, position);
      assert es == [es[0]] + es[1..];
    }
  }

  // The reorder pass.

  /** Where the event at each place comes from: each moves at most one place, and places that
      exchange events do so in pairs. */
  ghost predicate NeighbourExchange(from: seq<nat>) {
    forall k :: 0 <= k < |from| ==> from[k] < |from| && k - 1 <= from[k] <= k + 1 && from[from[k]] == k
  }

  ghost predicate Rearranged(es: seq<Event>, out: seq<Event>, from: seq<nat>) {
    |from| == |es| == |out| && NeighbourExchange(from) && forall k :: 0 <= k < |es| ==> out[k] == es[from[k]]
  }

  ghost function Exchanges(from: seq<nat>): set<nat> {
    set k: nat | k < |from| && from[k] == k + 1
  }

  ghost predicate FixedBelow(from: seq<nat>, i: nat) {
    forall k :: 0 <= k < i && k < |from| ==> from[k] == k
  }

  lemma NothingMoves(es: seq<Event>) returns (from: seq<nat>)
    ensures Rearranged(es, es, from) && FixedBelow(from, |es|) && Exchanges(from) == {}
  {
    from := seq(|es|, k => k);
  }

  lemma StaysAbove(from: seq<nat>, i: nat, k: nat)
    requires NeighbourExchange(from) && FixedBelow(from, i)
    requires i <= k < |from|
    ensures from[k] >= i
  {
    assert from[from[k]] == k;
  }

  lemma OneMoreExchange(es: seq<Event>, i: nat, out: seq<Event>, later: seq<nat>) returns (from: seq<nat>)
    requires i + 1 < |es|
    requires Rearranged(Swapped(es, i), out, later) && FixedBelow(later, i + 2)
    ensures Rearranged(es, out, from) && FixedBelow(from, i)
    ensures |Exchanges(from)| == |Exchanges(later)| + 1
  {
    from := later[i := i + 1][i + 1 := i];
    forall k | i + 2 <= k < |es| ensures later[k] >= i + 2 {
      StaysAbove(later, i + 2, k);
    }
    assert Exchanges(from) == Exchanges(later) + {i};
    assert i !in Exchanges(later);
  }

  /** The reorder pass exchanges neighbours and does nothing else. Twice the number of exchanges
      never exceeds the number of events, and is as large as can be when every chance comes true. */
  lemma {:induction false} ReorderExchanges(es: seq<Event>, i: nat, perMillion: U32, engine: Engine, position: nat)
      returns (from: seq<nat>)
    requires Recurring(engine) && i <= |es|
    ensures var out := Reorder(es, i, perMillion, engine, position);
      && Rearranged(es, out.events, from)
      && FixedBelow(from, i)
      && out.pairs == |Exchanges(from)|
      && 2 * out.pairs <= |es| - i
      && (perMillion == PROBABILITY_SCALE ==> out.pairs == (|es| - i) / 2)
      && (perMillion == 0 ==> out.pairs == 0 && out.events == es)
    decreases |es| - i
  {
    if i + 1 >= |es| {
      from := NothingMoves(es);
    } else {
      NeverAndAlways(engine, position);
      var after := AfterChance(engine, position);
      hide Chance, AfterChance, Rearranged, Exchanges, Swapped;
      if Chance(engine, position, perMillion) {
        var later := ReorderExchanges(Swapped(es, i), i + 2, perMillion, engine, after);
        from := OneMoreExchange(es, i, Reorder(Swapped(es, i), i + 2, perMillion, engine, after).events, later);
      } else {
        from := ReorderExchanges(es, i + 1, perMillion, engine, after);
      }
    }
  }

  /** In particular it loses and invents nothing. */
  lemma {:induction false} ReorderPermutes(es: seq<Event>, i: nat, perMillion: U32, engine: Engine, position: nat)
    requires Recurring(engine)
    ensures multiset(Reorder(es, i, perMillion, engine, position).events) == multiset(es)
    decreases |es| - i
  {
    hide Chance, AfterChance;
    if i + 1 < |es| {
      var after := AfterChance(engine, position);
      if Chance(engine, position, perMillion) {
        ReorderPermutes(Swapped(es, i), i + 2, perMillion, engine, after);
        SwappedPermutes(es, i);
      } else {
        ReorderPermutes(es, i + 1, perMillion, engine, after);
      }
    }
  }

  lemma SwappedPermutes(es: seq<Event>, i: nat)
    requires i + 1 < |es|
    ensures multiset(Swapped(es, i)) == multiset(es)
  {
    assert es == es[..i] + [es[i], es[i + 1]] + es[i + 2..];
    assert Swapped(es, i) == es[..i] + [es[i + 1], es[i]] + es[i + 2..];
  }

  /** Over the whole generator: every count adds up. */
  lemma WorkloadConserves(c: Config, engine: Engine)
    requires Recurring(engine) && ValidConfig(c)
    ensures var w := WorkloadOf(c, engine);
      && |w.events| == w.stats.generated - w.stats.dropped + w.stats.duplicated
      && 2 * w.stats.reorderedPairs <= |w.events|
      && (c.faults.reorder == PROBABILITY_SCALE ==> w.stats.reorderedPairs == |w.events| / 2)
  {
    hide BaseEvents, SortEvents, Inject, Reorder;
    var base := BaseEvents(c, engine);
    SortedLength(base.events);
    var sorted := SortEvents(base.events);
    var keeps := InjectConserves(sorted, c.faults, engine, base.next);
    var injected := Inject(sorted, c.faults, engine, base.next);
    var from := ReorderExchanges(injected.events, 0, c.faults.reorder, engine, injected.next);
  }

  lemma {:induction false} InsertLength(es: seq<Event>, e: Event)
    ensures |Insert(es, e)| == |es| + 1
    decreases es
  {
    hide Before;
    if es == [] {
    } else {
      InsertLength(es[..|es| - 1], e);
    }
  }

  lemma {:induction false} SortedLength(es: seq<Event>)
    ensures |SortEvents(es)| == |es|
    decreases es
  {
    hide Insert;
    if es == [] {
    } else {
      SortedLength(es[..|es| - 1]);
      InsertLength(SortEvents(es[..|es| - 1]), es[|es| - 1]);
    }
  }
}
