/** Every change within six consecutive bytes changes the hash. */
module HashDetection {
  import opened Octets
  import opened Bytes
  import opened Fnv

  // How far two hashes are apart, while they read streams of the same length.

  /** How much more each byte of one stream adds to its state than the byte of the other. */
  function Changes(g: U64, h: U64, a: seq<Byte>, b: seq<Byte>): (ds: seq<int>)
    requires |a| == |b|
    ensures |ds| == |a|
    decreases a
  {
    if a == [] then []
    else
      var x, y := Mix(g, a[0]), Mix(h, b[0]);
      [(x - g) - (y - h)] + Changes(Times(x), Times(y), a[1..], b[1..])
  }

  /** The greatest change in absolute value. */
  const MOST: int := 510

  lemma ChangeBounded(g: U64, h: U64, b: Byte, c: Byte)
    ensures -MOST <= (Mix(g, b) - g) - (Mix(h, c) - h) <= MOST
  {
    hide Value, Xor, Low;
  }

  lemma {:induction false} ChangesBounded(g: U64, h: U64, a: seq<Byte>, b: seq<Byte>)
    requires |a| == |b|
    ensures forall i :: 0 <= i < |a| ==> -MOST <= Changes(g, h, a, b)[i] <= MOST
    decreases a
  {
    hide Mix, Times;
    if a == [] {
    } else {
      ChangeBounded(g, h, a[0], b[0]);
      ChangesBounded(Times(Mix(g, a[0])), Times(Mix(h, b[0])), a[1..], b[1..]);
    }
  }

  lemma {:induction false} NoChange(h: U64, a: seq<Byte>, b: seq<Byte>)
    requires |a| == |b|
    requires forall i :: 0 <= i < |a| ==> Changes(h, h, a, b)[i] == 0
    ensures a == b
    decreases a
  {
    hide Mix, Times;
    if a == [] {
    } else {
      var ds, x, y := Changes(h, h, a, b), Mix(h, a[0]), Mix(h, b[0]);
      assert ds[0] == (x - h) - (y - h);
      MixInjectiveInByte(h, a[0], b[0]);
      assert ds[1..] == Changes(Times(x), Times(y), a[1..], b[1..]);
      NoChange(Times(x), a[1..], b[1..]);
      assert a == [a[0]] + a[1..] && b == [b[0]] + b[1..];
    }
  }

  // Weighing changes. Each weight is the next one times the prime, modulo 2^64.

  predicate Multiple(n: int) {
    n % TWO_64 == 0
  }

  ghost predicate Weights(ws: seq<int>) {
    forall i :: 0 <= i < |ws| - 1 ==> Multiple(ws[i + 1] * 0x100_0000_01B3 - ws[i])
  }

  function Product(a: int, b: int): int {
    a * b
  }

  function Weighed(ws: seq<int>, ds: seq<int>): int
    requires |ws| == |ds|
  {
    if ds == [] then 0 else Product(ws[0], ds[0]) + Weighed(ws[1..], ds[1..])
  }

  lemma MultipleOf(n: int) returns (q: int)
    requires Multiple(n)
    ensures n == TWO_64 * q
  {
    q := n / TWO_64;
  }

  lemma IsMultiple(n: int, q: int)
    requires n == TWO_64 * q
    ensures Multiple(n)
  {
    RemainderUnique(n, q, 0);
  }

  lemma TimesRemainder(x: U64) returns (q: int)
    ensures Times(x) == x * 0x100_0000_01B3 - TWO_64 * q
  {
    q := x * 0x100_0000_01B3 / TWO_64;
  }

  /** Going back by one byte. */
  lemma WeighBack(w: int, v: int, x: U64, y: U64, later: int)
    requires Multiple(v * 0x100_0000_01B3 - w)
    requires Multiple(Product(v, Times(x) - Times(y)) + later)
    ensures Multiple(Product(w, x - y) + later)
  {
    var r := MultipleOf(v * 0x100_0000_01B3 - w);
    var s := MultipleOf(v * (Times(x) - Times(y)) + later);
    var p := TimesRemainder(x);
    var q := TimesRemainder(y);
    hide *;
    Regrouped(v, w, x, y, Times(x), Times(y), p, q, r, s, later);
    IsMultiple(w * (x - y) + later, s + v * (p - q) - r * (x - y));
  }

  lemma Regrouped(v: int, w: int, x: int, y: int, tx: int, ty: int, p: int, q: int, r: int, s: int, later: int)
    requires v * 0x100_0000_01B3 - w == TWO_64 * r
    requires v * (tx - ty) + later == TWO_64 * s
    requires tx == x * 0x100_0000_01B3 - TWO_64 * p && ty == y * 0x100_0000_01B3 - TWO_64 * q
    ensures w * (x - y) + later == TWO_64 * (s + v * (p - q) - r * (x - y))
  {
    assert tx - ty == 0x100_0000_01B3 * (x - y) - TWO_64 * (p - q);
    assert v * (tx - ty) == 0x100_0000_01B3 * (v * (x - y)) - TWO_64 * (v * (p - q));
    assert (v * 0x100_0000_01B3 - w) * (x - y) == 0x100_0000_01B3 * (v * (x - y)) - w * (x - y);
    assert (v * 0x100_0000_01B3 - w) * (x - y) == TWO_64 * (r * (x - y));
  }

  /** If two hashes agree in the end, then the changes weigh nothing modulo 2^64. */
  lemma {:induction false} Balanced(g: U64, h: U64, a: seq<Byte>, b: seq<Byte>, ws: seq<int>)
    requires |a| == |b| == |ws| > 0
    requires HashBytes(g, a) == HashBytes(h, b)
    requires Weights(ws)
    ensures Multiple(Product(ws[0], g - h) + Weighed(ws, Changes(g, h, a, b)))
    decreases a
  {
    hide *;
    var x, y := Mix(g, a[0]), Mix(h, b[0]);
    var more := Changes(Times(x), Times(y), a[1..], b[1..]);
    HashStep(g, a);
    HashStep(h, b);
    WeighFirst(g, h, a, b, ws);
    LaterWeights(ws);
    if |a| == 1 {
      NothingMore(x, y, a[1..], b[1..], ws[1..]);
      NothingLeft(ws[0], x, y, Weighed(ws[1..], more));
    } else {
      Balanced(Times(x), Times(y), a[1..], b[1..], ws[1..]);
      WeighBack(ws[0], ws[1], x, y, Weighed(ws[1..], more));
    }
  }

  lemma BalancedFromOne(h: U64, a: seq<Byte>, b: seq<Byte>, ws: seq<int>)
    requires |a| == |b| == |ws| > 0
    requires HashBytes(h, a) == HashBytes(h, b)
    requires Weights(ws)
    ensures Multiple(Weighed(ws, Changes(h, h, a, b)))
  {
    hide *;
    Balanced(h, h, a, b, ws);
    NoDifference(ws[0], h);
  }

  lemma NoDifference(w: int, h: int)
    ensures Product(w, h - h) == 0
  {
  }

  lemma LaterWeights(ws: seq<int>)
    requires ws != [] && Weights(ws)
    ensures Weights(ws[1..])
    ensures |ws| > 1 ==> Multiple(ws[1] * 0x100_0000_01B3 - ws[0])
  {
    hide Multiple;
    if |ws| > 1 {
      assert Multiple(ws[0 + 1] * 0x100_0000_01B3 - ws[0]);
    }
  }

  lemma WeighFirst(g: U64, h: U64, a: seq<Byte>, b: seq<Byte>, ws: seq<int>)
    requires |a| == |b| == |ws| > 0
    ensures var x, y := Mix(g, a[0]), Mix(h, b[0]);
      Product(ws[0], g - h) + Weighed(ws, Changes(g, h, a, b))
      == Product(ws[0], x - y) + Weighed(ws[1..], Changes(Times(x), Times(y), a[1..], b[1..]))
  {
    hide *;
    var x, y := Mix(g, a[0]), Mix(h, b[0]);
    var more := Changes(Times(x), Times(y), a[1..], b[1..]);
    FirstChange(g, h, a, b);
    assert ws == [ws[0]] + ws[1..];
    WeighedStep(ws[0], ws[1..], (x - g) - (y - h), more);
    SumsUp(ws[0], g, h, x, y);
  }

  lemma FirstChange(g: U64, h: U64, a: seq<Byte>, b: seq<Byte>)
    requires |a| == |b| > 0
    ensures var x, y := Mix(g, a[0]), Mix(h, b[0]);
      Changes(g, h, a, b) == [(x - g) - (y - h)] + Changes(Times(x), Times(y), a[1..], b[1..])
  {
    hide Mix, Times;
  }

  lemma HashStep(h: U64, s: seq<Byte>)
    requires s != []
    ensures HashBytes(h, s) == HashBytes(Times(Mix(h, s[0])), s[1..])
  {
    hide Mix, Times;
  }

  lemma SumsUp(w: int, g: int, h: int, x: int, y: int)
    ensures Product(w, g - h) + Product(w, (x - g) - (y - h)) == Product(w, x - y)
  {
  }

  lemma NothingMore(x: U64, y: U64, a: seq<Byte>, b: seq<Byte>, ws: seq<int>)
    requires a == [] && b == [] && ws == []
    requires HashBytes(Times(x), a) == HashBytes(Times(y), b)
    ensures x == y && Weighed(ws, Changes(Times(x), Times(y), a, b)) == 0
  {
    hide Mix, Times;
    TimesInjective(x, y);
  }

  lemma NothingLeft(w: int, x: U64, y: U64, later: int)
    requires x == y && later == 0
    ensures Multiple(Product(w, x - y) + later)
  {
  }

  // Six bytes: six lists of weights, so small that weighing nothing modulo 2^64 is weighing nothing.
  // They are independent, so then each of the six changes is zero.

  datatype Six = Six(a: int, b: int, c: int, d: int, e: int, f: int)

  function Light(k: nat): Six {
    if k == 0 then
      Six(4482579670404340, -5247281785750212, -1973864442898476,
        -1178876700584228, -4977183758088268, 5046382459189116)
    else if k == 1 then
      Six(-1150927258463695, 6373219910648459, -2407835907481655,
        -7420022407511405, -521531150890079, 2434785518635867)
    else if k == 2 then
      Six(6302646686563376, -1535281643037936, 5452110822838448,
        -559839306353520, 5164142811992368, 4410605614494224)
    else if k == 3 then
      Six(-10117495039556816, 644476066068496, 7704392091402160,
        -4253954618046064, -3431600937981904, 2518874921680656)
    else if k == 4 then
      Six(10753435092956894, 1503490379027114, 2833942984976814,
        -84464088609638, -3509890893664258, -8107455562062582)
    else
      Six(-964417354571113, 6415703093100941, -1237812376006721,
        6915764390345669, -1040540266766169, 8671412534092605)
  }

  predicate SixWeights(w: Six) {
    && Multiple(w.b * 0x100_0000_01B3 - w.a)
    && Multiple(w.c * 0x100_0000_01B3 - w.b)
    && Multiple(w.d * 0x100_0000_01B3 - w.c)
    && Multiple(w.e * 0x100_0000_01B3 - w.d)
    && Multiple(w.f * 0x100_0000_01B3 - w.e)
  }

  lemma LightWeights(k: nat)
    requires k < 6
    ensures SixWeights(Light(k))
  {
  }

  /** The weighing of six changes, written out. */
  function Sum(w: Six, d: Six): int {
    w.a * d.a + w.b * d.b + w.c * d.c + w.d * d.d + w.e * d.e + w.f * d.f
  }

  function ListOf(w: Six): (s: seq<int>)
    ensures |s| == 6
  {
    [w.a, w.b, w.c, w.d, w.e, w.f]
  }

  lemma WeighedStep(w: int, ws: seq<int>, d: int, ds: seq<int>)
    requires |ws| == |ds|
    ensures Weighed([w] + ws, [d] + ds) == Product(w, d) + Weighed(ws, ds)
  {
  }

  lemma WeighedIsSum(w: Six, d: Six)
    ensures Weighed(ListOf(w), ListOf(d)) == Sum(w, d)
  {
    hide Weighed;
    WeighedStep(w.f, [], d.f, []);
    WeighedStep(w.e, [w.f], d.e, [d.f]);
    WeighedStep(w.d, [w.e, w.f], d.d, [d.e, d.f]);
    WeighedStep(w.c, [w.d, w.e, w.f], d.c, [d.d, d.e, d.f]);
    WeighedStep(w.b, [w.c, w.d, w.e, w.f], d.b, [d.c, d.d, d.e, d.f]);
    WeighedStep(w.a, [w.b, w.c, w.d, w.e, w.f], d.a, [d.b, d.c, d.d, d.e, d.f]);
    WeighedNothing([], []);
    assert [w.f] + [] == [w.f] && [d.f] + [] == [d.f];
    assert [w.e] + [w.f] == [w.e, w.f] && [d.e] + [d.f] == [d.e, d.f];
    assert [w.d] + [w.e, w.f] == [w.d, w.e, w.f] && [d.d] + [d.e, d.f] == [d.d, d.e, d.f];
    assert [w.c] + [w.d, w.e, w.f] == [w.c, w.d, w.e, w.f] && [d.c] + [d.d, d.e, d.f] == [d.c, d.d, d.e, d.f];
    assert [w.b] + [w.c, w.d, w.e, w.f] == [w.b, w.c, w.d, w.e, w.f];
    assert [d.b] + [d.c, d.d, d.e, d.f] == [d.b, d.c, d.d, d.e, d.f];
    assert [w.a] + [w.b, w.c, w.d, w.e, w.f] == ListOf(w) && [d.a] + [d.b, d.c, d.d, d.e, d.f] == ListOf(d);
  }

  lemma WeighedNothing(w: seq<int>, d: seq<int>)
    requires w == [] && d == []
    ensures Weighed(w, d) == 0
  {
  }

  predicate Bounded(d: Six) {
    && -MOST <= d.a <= MOST && -MOST <= d.b <= MOST && -MOST <= d.c <= MOST
    && -MOST <= d.d <= MOST && -MOST <= d.e <= MOST && -MOST <= d.f <= MOST
  }

  lemma LightSum(d: Six, k: nat)
    requires Bounded(d) && k < 6
    ensures -TWO_64 < Sum(Light(k), d) < TWO_64
  {
  }

  lemma SmallMultiple(n: int)
    requires -TWO_64 < n < TWO_64 && Multiple(n)
    ensures n == 0
  {
  }

  /** The six lists are independent. */
  lemma OnlyZero(d: Six)
    requires forall k :: 0 <= k < 6 ==> Sum(Light(k), d) == 0
    ensures d == Six(0, 0, 0, 0, 0, 0)
  {
    assert Sum(Light(0), d) == Sum(Light(1), d) == Sum(Light(2), d) == Sum(Light(3), d) == Sum(Light(4), d)
        == Sum(Light(5), d) == 0;
  }

  lemma AsSix(ds: seq<int>) returns (d: Six)
    requires |ds| == 6
    requires forall i :: 0 <= i < 6 ==> -MOST <= ds[i] <= MOST
    ensures ListOf(d) == ds && Bounded(d)
  {
    d := Six(ds[0], ds[1], ds[2], ds[3], ds[4], ds[5]);
  }

  lemma ListWeights(w: Six)
    requires SixWeights(w)
    ensures Weights(ListOf(w))
  {
    hide Multiple;
  }

  lemma SixBytesTold(h: U64, a: seq<Byte>, b: seq<Byte>)
    requires |a| == |b| == 6
    requires HashBytes(h, a) == HashBytes(h, b)
    ensures a == b
  {
    hide *;
    ChangesBounded(h, h, a, b);
    var d := AsSix(Changes(h, h, a, b));
    forall k | 0 <= k < 6 ensures Sum(Light(k), d) == 0 {
      RowBalanced(h, a, b, d, k);
    }
    OnlyZero(d);
    Zeros(d);
    NoChange(h, a, b);
  }

  lemma RowBalanced(h: U64, a: seq<Byte>, b: seq<Byte>, d: Six, k: nat)
    requires |a| == |b| == 6 && k < 6
    requires HashBytes(h, a) == HashBytes(h, b)
    requires ListOf(d) == Changes(h, h, a, b) && Bounded(d)
    ensures Sum(Light(k), d) == 0
  {
    hide *;
    var w := Light(k);
    LightWeights(k);
    ListWeights(w);
    BalancedFromOne(h, a, b, ListOf(w));
    WeighedIsSum(w, d);
    LightSum(d, k);
    SmallMultiple(Sum(w, d));
  }

  lemma Zeros(d: Six)
    requires d == Six(0, 0, 0, 0, 0, 0)
    ensures forall i :: 0 <= i < 6 ==> ListOf(d)[i] == 0
  {
  }

  /** Two streams of the same length that differ within six consecutive bytes never hash alike. */
  lemma SixBytesDetected(h: U64, front: seq<Byte>, a: seq<Byte>, b: seq<Byte>, back: seq<Byte>)
    requires |a| == |b| <= 6 && a != b
    ensures HashBytes(h, front + a + back) != HashBytes(h, front + b + back)
  {
    hide HashBytes;
    var g := HashBytes(h, front);
    ChangeShownAtOnce(h, front + a, front + b, back);
    HashSplit(h, front, a);
    HashSplit(h, front, b);
    var filler := seq(6 - |a|, i => 0);
    ChangeShownAtOnce(g, a, b, filler);
    assert a == (a + filler)[..|a|] && b == (b + filler)[..|b|];
    if HashBytes(g, a + filler) == HashBytes(g, b + filler) {
      SixBytesTold(g, a + filler, b + filler);
    }
  }
}
