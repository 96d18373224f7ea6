/** Drawing bounded numbers from a 64-bit engine by rejection sampling. */
module Random {
  import opened Bytes

  /** Every value the engine will ever return, in turn. */
  type Engine = nat -> U64

  /** What the engine is trusted for: upper-half values keep coming. */
  ghost predicate Recurring(engine: Engine) {
    forall i: nat :: Recurs(engine, i)
  }

  ghost predicate Recurs(engine: Engine, i: nat) {
    exists j: nat :: i <= j && engine(j) >= TWO_63
  }

  /** The least value that is not rejected: minus n in 64 bits, modulo n. */
  function Threshold(n: U64): (t: nat)
    requires n > 0
    ensures t < n && t < TWO_63
    ensures t == TWO_64 % n
  {
    NegatedModulo(n);
    (TWO_64 - n) % n
  }

  lemma NegatedModulo(n: U64)
    requires n > 0
    ensures (TWO_64 - n) % n == TWO_64 % n
    ensures TWO_64 % n < TWO_63
  {
    var q, r := TWO_64 / n, TWO_64 % n;
    assert TWO_64 == n * q + r;
    if n > TWO_63 {
      DivisionUnique(n, TWO_64, 1, TWO_64 - n);
      DivisionUnique(n, TWO_64 - n, 0, TWO_64 - n);
    } else {
      assert q >= 1;
      assert TWO_64 - n == n * (q - 1) + r;
      DivisionUnique(n, TWO_64 - n, q - 1, r);
    }
  }

  /** The position of the first value from `i` on that is not rejected. */
  ghost predicate FirstFrom(engine: Engine, i: nat, threshold: nat, j: nat) {
    && i <= j && engine(j) >= threshold
    && forall k: nat :: i <= k < j ==> engine(k) < threshold
  }

  lemma {:induction false} FirstExists(engine: Engine, i: nat, threshold: nat, j: nat)
    requires i <= j && engine(j) >= threshold
    ensures exists first: nat :: FirstFrom(engine, i, threshold, first)
    decreases j - i
  {
    if engine(i) >= threshold {
      assert FirstFrom(engine, i, threshold, i);
    } else {
      FirstExists(engine, i + 1, threshold, j);
      var first: nat :| FirstFrom(engine, i + 1, threshold, first);
      assert FirstFrom(engine, i, threshold, first);
    }
  }

  ghost function First(engine: Engine, i: nat, threshold: nat): (j: nat)
    requires Recurring(engine) && threshold <= TWO_63
    ensures FirstFrom(engine, i, threshold, j)
  {
    assert Recurs(engine, i);
    var big: nat :| i <= big && engine(big) >= TWO_63;
    FirstExists(engine, i, threshold, big);
    var first: nat :| FirstFrom(engine, i, threshold, first);
    first
  }

  /** A number drawn, and the position the engine is left at. */
  datatype Draw = Draw(value: U64, next: nat)

  /** A number below `n`; no value is used up for an empty range. */
  ghost function Bounded(engine: Engine, position: nat, n: U64): (d: Draw)
    requires Recurring(engine)
    ensures n > 0 ==> d.value < n
    ensures d.next >= position
  {
    if n == 0 then Draw(0, position)
    else
      var j := First(engine, position, Threshold(n));
      Draw(engine(j) % n, j + 1)
  }

  const PROBABILITY_SCALE: U32 := 1_000_000

  ghost predicate Chance(engine: Engine, position: nat, perMillion: U32)
    requires Recurring(engine)
  {
    Bounded(engine, position, PROBABILITY_SCALE).value < perMillion
  }

  ghost function AfterChance(engine: Engine, position: nat): nat
    requires Recurring(engine)
  {
    Bounded(engine, position, PROBABILITY_SCALE).next
  }

  class PortableRandom {
    const engine: Engine
    var position: nat

    ghost predicate Valid() {
      Recurring(engine)
    }

    constructor (engine: Engine)
      requires Recurring(engine)
      ensures Valid() && this.engine == engine && position == 0
    {
      this.engine := engine;
      position := 0;
    }

    method DrawBounded(n: U64) returns (value: U64)
      requires Valid()
      modifies this
      ensures Draw(value, position) == Bounded(engine, old(position), n)
    {
      if n == 0 {
        return 0;
      }
      var threshold := Threshold(n);
      ghost var first := First(engine, position, threshold);
      while true
        invariant old(position) <= position <= first
        decreases first - position
      {
        value := engine(position);
        position := position + 1;
        if value >= threshold {
          return value % n;
        }
      }
    }

    method DrawChance(perMillion: U32) returns (hit: bool)
      requires Valid()
      modifies this
      ensures hit == Chance(engine, old(position), perMillion)
      ensures position == AfterChance(engine, old(position))
    {
      var value := DrawBounded(PROBABILITY_SCALE);
      hit := value < perMillion;
    }
  }

  // Fairness.

  /** The engine values in `count` consecutive numbers from `low` on that leave the remainder `r`. */
  ghost function Leaving(low: nat, count: nat, n: nat, r: nat): set<nat>
    requires n > 0
  {
    set v: nat | low <= v < low + count && v % n == r
  }

  lemma SameInWindow(v: nat, w: nat, n: nat)
    requires n > 0 && v % n == w % n
    requires v < w + n && w < v + n
    ensures v == w
  {
    var p, q := v / n, w / n;
    assert v == n * p + v % n && w == n * q + w % n;
    if p < q {
      TimesGap(n, p, q);
    } else if q < p {
      TimesGap(n, q, p);
    }
  }

  lemma SomeInWindow(low: nat, n: nat, r: nat) returns (v: nat)
    requires r < n
    ensures low <= v < low + n && v % n == r
  {
    var q := low / n;
    assert low == n * q + low % n;
    var turn := if low % n <= r then q else q + 1;
    assert n * (q + 1) == n * q + n;
    v := n * turn + r;
    DivisionUnique(n, v, turn, r);
  }

  lemma OneInWindow(low: nat, n: nat, r: nat) returns (only: nat)
    requires r < n
    ensures Leaving(low, n, n, r) == {only}
  {
    only := SomeInWindow(low, n, r);
    forall v: nat | low <= v < low + n && v % n == r ensures v == only {
      SameInWindow(v, only, n);
    }
  }

  lemma {:induction false} ManyInWindows(low: nat, windows: nat, n: nat, r: nat)
    requires r < n
    ensures |Leaving(low, windows * n, n, r)| == windows
    decreases windows
  {
    if windows == 0 {
      assert Leaving(low, 0, n, r) == {};
    } else {
      var before := (windows - 1) * n;
      assert windows * n == before + n;
      ManyInWindows(low, windows - 1, n, r);
      var only := OneInWindow(low + before, n, r);
      assert only in Leaving(low + before, n, n, r);
      LeavingSplit(low, before, n, r);
    }
  }

  lemma LeavingSplit(low: nat, before: nat, n: nat, r: nat)
    requires n > 0
    ensures Leaving(low, before + n, n, r) == Leaving(low, before, n, r) + Leaving(low + before, n, n, r)
    ensures Leaving(low, before, n, r) !! Leaving(low + before, n, n, r)
  {
  }

  /** The 64-bit engine values that lead to the result `r`. */
  ghost function Outcomes(n: U64, r: nat): set<nat>
    requires n > 0
  {
    set v: nat | Threshold(n) <= v < TWO_64 && v % n == r
  }

  /** Every result below the bound comes from the same number of engine values. */
  lemma Unbiased(n: U64, r: nat)
    requires r < n
    ensures |Outcomes(n, r)| == TWO_64 / n
  {
    var q, t := TWO_64 / n, TWO_64 % n;
    assert TWO_64 == n * q + t;
    assert q * n == n * q;
    ManyInWindows(t, q, n, r);
    assert Outcomes(n, r) == Leaving(t, q * n, n, r);
  }

  /** The engine values on which a chance of `perMillion` comes true. */
  ghost function Hits(perMillion: nat): set<nat> {
    set v: nat | Threshold(PROBABILITY_SCALE) <= v < TWO_64 && v % PROBABILITY_SCALE < perMillion
  }

  /** So a chance comes true on exactly that many millionths of the engine values not rejected. */
  lemma {:induction false} ChanceFair(perMillion: nat)
    requires perMillion <= PROBABILITY_SCALE
    ensures |Hits(perMillion)| == perMillion * (TWO_64 / PROBABILITY_SCALE)
    decreases perMillion
  {
    if perMillion == 0 {
      assert Hits(0) == {};
    } else {
      ChanceFair(perMillion - 1);
      Unbiased(PROBABILITY_SCALE, perMillion - 1);
      assert Hits(perMillion) == Hits(perMillion - 1) + Outcomes(PROBABILITY_SCALE, perMillion - 1);
      assert Hits(perMillion - 1) !! Outcomes(PROBABILITY_SCALE, perMillion - 1);
    }
  }

  /** A number is drawn by the first engine value that leads to any result; those before it lead to none. */
  lemma DrawnFrom(engine: Engine, position: nat, n: U64)
    requires Recurring(engine) && n > 0
    ensures var d := Bounded(engine, position, n);
      && position < d.next
      && engine(d.next - 1) in Outcomes(n, d.value)
      && forall k: nat, r: nat :: position <= k < d.next - 1 && r < n ==> engine(k) !in Outcomes(n, r)
  {
  }

  lemma ChanceDrawn(engine: Engine, position: nat, perMillion: U32)
    requires Recurring(engine)
    ensures position < AfterChance(engine, position)
    ensures Chance(engine, position, perMillion) <==> engine(AfterChance(engine, position) - 1) in Hits(perMillion)
  {
    hide Bounded;
    DrawnFrom(engine, position, PROBABILITY_SCALE);
  }

  /** The two ends of the scale leave nothing to chance. */
  lemma NeverAndAlways(engine: Engine, position: nat)
    requires Recurring(engine)
    ensures !Chance(engine, position, 0)
    ensures Chance(engine, position, PROBABILITY_SCALE)
  {
  }
}
