/** CRC32C (Castagnoli), the digest of section 12.1 of RFC 3720: reflected, preset to
    all ones, complemented at the end. */
module Castagnoli {
  import opened Octets

  const POLYNOMIAL: bv32 := 0x82F6_3B78
  const PRESET: bv32 := 0xFFFF_FFFF

  // The bit operators under names, so that a proof can do without their bits.

  function Xor(x: bv32, y: bv32): bv32 {
    x ^ y
  }

  function Or(x: bv32, y: bv32): bv32 {
    x | y
  }

  /** One turn of the inner loop. */
  function BitStep(c: bv32): bv32 {
    (c >> 1) ^ (POLYNOMIAL & (0 - (c & 1)))
  }

  function BitSteps(c: bv32, n: nat): bv32
    decreases n, c
  {
    if n == 0 then c else BitSteps(BitStep(c), n - 1)
  }

  /** One turn of the outer loop. */
  function ByteStep(c: bv32, b: Byte): bv32 {
    BitSteps(Xor(c, b as bv32), 8)
  }

  /** The register after reading `s` from register value `c`. */
  function Register(c: bv32, s: seq<Byte>): bv32
    decreases s
  {
    if s == [] then c else Register(ByteStep(c, s[0]), s[1..])
  }

  function Checksum(s: seq<Byte>): bv32 {
    !Register(PRESET, s)
  }

  method Crc32c(bytes: seq<Byte>) returns (checksum: bv32)
    ensures checksum == Checksum(bytes)
  {
    hide BitSteps;
    checksum := PRESET;
    for i := 0 to |bytes|
      invariant Register(checksum, bytes[i..]) == Register(PRESET, bytes)
    {
      ghost var start := Xor(checksum, bytes[i] as bv32);
      checksum := checksum ^ (bytes[i] as bv32);
      for bit := 0 to 8
        invariant BitSteps(checksum, 8 - bit) == BitSteps(start, 8)
      {
        BitStepsUnfold(checksum, 8 - bit);
        checksum := (checksum >> 1) ^ (POLYNOMIAL & (0 - (checksum & 1)));
      }
      BitStepsUnfold(checksum, 0);
      assert bytes[i..][1..] == bytes[i + 1..];
    }
    checksum := !checksum;
  }

  lemma BitStepsUnfold(c: bv32, n: nat)
    ensures BitSteps(c, n) == if n == 0 then c else BitSteps(BitStep(c), n - 1)
  {
  }

  // The one-bit step is a linear bijection.

  /** The mask is all ones or all zeros, so the polynomial is applied or it is not. */
  lemma BitStepCases(c: bv32)
    ensures c & 1 == 1 || c & 1 == 0
    ensures c & 1 == 1 ==> BitStep(c) == (c >> 1) ^ POLYNOMIAL
    ensures c & 1 == 0 ==> BitStep(c) == c >> 1
  {
  }

  lemma XorLow(x: bv32, y: bv32)
    ensures (x ^ y) & 1 == (x & 1) ^ (y & 1)
  {
  }

  lemma XorShift(x: bv32, y: bv32)
    ensures (x ^ y) >> 1 == (x >> 1) ^ (y >> 1)
  {
  }

  lemma XorCancel(a: bv32, b: bv32, p: bv32)
    ensures (a ^ p) ^ (b ^ p) == a ^ b
    ensures (a ^ p) ^ b == (a ^ b) ^ p
    ensures a ^ (b ^ p) == (a ^ b) ^ p
  {
  }

  lemma BitStepLinear(x: bv32, y: bv32)
    ensures BitStep(Xor(x, y)) == Xor(BitStep(x), BitStep(y))
  {
    BitStepCases(x);
    BitStepCases(y);
    BitStepCases(x ^ y);
    XorLow(x, y);
    XorShift(x, y);
    XorCancel(x >> 1, y >> 1, POLYNOMIAL);
  }

  /** The top bit of the polynomial records which branch was taken. */
  lemma BitStepInjective(x: bv32, y: bv32)
    requires BitStep(x) == BitStep(y)
    ensures x == y
  {
  }

  lemma {:induction false} BitStepsInjective(x: bv32, y: bv32, n: nat)
    requires BitSteps(x, n) == BitSteps(y, n)
    ensures x == y
    decreases n
  {
    if n == 0 {
    } else {
      BitStepsInjective(BitStep(x), BitStep(y), n - 1);
      BitStepInjective(x, y);
    }
  }

  lemma {:induction false} BitStepsLinear(x: bv32, y: bv32, n: nat)
    ensures BitSteps(Xor(x, y), n) == Xor(BitSteps(x, n), BitSteps(y, n))
    decreases n
  {
    hide BitStep, Xor;
    if n == 0 {
    } else {
      BitStepLinear(x, y);
      BitStepsLinear(BitStep(x), BitStep(y), n - 1);
    }
  }

  lemma {:induction false} BitStepsSplit(c: bv32, m: nat, n: nat)
    ensures BitSteps(c, m + n) == BitSteps(BitSteps(c, m), n)
    decreases m
  {
    if m == 0 {
    } else {
      BitStepsSplit(BitStep(c), m - 1, n);
    }
  }

  lemma {:induction false} RegisterSplit(c: bv32, s: seq<Byte>, t: seq<Byte>)
    ensures Register(c, s + t) == Register(Register(c, s), t)
    decreases s
  {
    if s == [] {
      assert s + t == t;
    } else {
      assert (s + t)[1..] == s[1..] + t;
      RegisterSplit(ByteStep(c, s[0]), s[1..], t);
    }
  }

  lemma {:induction false} RegisterInjective(c: bv32, d: bv32, s: seq<Byte>)
    requires Register(c, s) == Register(d, s)
    ensures c == d
    decreases s
  {
    hide BitSteps, Xor;
    if s == [] {
    } else {
      RegisterInjective(ByteStep(c, s[0]), ByteStep(d, s[0]), s[1..]);
      BitStepsInjective(Xor(c, s[0] as bv32), Xor(d, s[0] as bv32), 8);
      XorRight(c, d, s[0] as bv32);
    }
  }

  lemma XorRight(c: bv32, d: bv32, b: bv32)
    requires Xor(c, b) == Xor(d, b)
    ensures c == d
  {
    assert (c ^ b) ^ b == c;
    assert (d ^ b) ^ b == d;
  }

  // Words and their bytes.

  /** A byte in position `i` of a word. */
  function Lane(b: Byte, i: nat): bv32
    requires i < 4
  {
    var w := b as bv32;
    if i == 0 then w else if i == 1 then w << 8 else if i == 2 then w << 16 else w << 24
  }

  /** The word of four bytes, least significant first, and the four bytes of a word. */
  function Word(s: seq<Byte>): bv32
    requires |s| == 4
  {
    Or(Or(Or(Lane(s[0], 0), Lane(s[1], 1)), Lane(s[2], 2)), Lane(s[3], 3))
  }

  function LowByteOf(w: bv32): Byte {
    (w & 0xFF) as Byte
  }

  function WordBytes(w: bv32): (s: seq<Byte>)
    ensures |s| == 4
  {
    [LowByteOf(w), LowByteOf(w >> 8), LowByteOf(w >> 16), LowByteOf(w >> 24)]
  }

  lemma WordOfBytes(w: bv32)
    ensures Word(WordBytes(w)) == w
  {
  }

  lemma BytesOfWord(s: seq<Byte>)
    requires |s| == 4
    ensures WordBytes(Word(s)) == s
  {
    hide Word;
    assert s == [s[0], s[1], s[2], s[3]];
    BytesOfFour(s[0], s[1], s[2], s[3]);
  }

  lemma BytesOfFour(b0: Byte, b1: Byte, b2: Byte, b3: Byte)
    ensures Word([b0, b1, b2, b3]) & 0xFF == b0 as bv32
    ensures (Word([b0, b1, b2, b3]) >> 8) & 0xFF == b1 as bv32
    ensures (Word([b0, b1, b2, b3]) >> 16) & 0xFF == b2 as bv32
    ensures (Word([b0, b1, b2, b3]) >> 24) & 0xFF == b3 as bv32
  {
  }

  // The register takes up one bit at a time.

  /** A bit as it is mixed into the register. */
  function BitWord(bit: bool): bv32 {
    if bit then 1 else 0
  }

  /** The register after taking up `bits`, the first one first. */
  function Feed(c: bv32, bits: seq<bool>): bv32
    decreases bits
  {
    if bits == [] then c else Feed(BitStep(Xor(c, BitWord(bits[0]))), bits[1..])
  }

  function Odd(w: bv32): bool {
    w & 1 == 1
  }

  function Half(w: bv32): bv32 {
    w >> 1
  }

  /** The low `n` bits of a word, least significant first, and what is left without them. */
  function LowBits(w: bv32, n: nat): (bits: seq<bool>)
    ensures |bits| == n
  {
    if n == 0 then [] else [Odd(w)] + LowBits(Half(w), n - 1)
  }

  function Drop(w: bv32, n: nat): bv32 {
    if n == 0 then w else Drop(Half(w), n - 1)
  }

  function ByteBits(b: Byte): (bits: seq<bool>)
    ensures |bits| == 8
  {
    LowBits(b as bv32, 8)
  }

  /** The bits of a message in the order in which the checksum takes them up: byte by byte, and
      within a byte the least significant one first. */
  function BitsOf(s: seq<Byte>): (bits: seq<bool>)
    ensures |bits| == 8 * |s|
  {
    if s == [] then [] else ByteBits(s[0]) + BitsOf(s[1..])
  }

  lemma {:induction false} FeedSplit(c: bv32, a: seq<bool>, b: seq<bool>)
    ensures Feed(c, a + b) == Feed(Feed(c, a), b)
    decreases a
  {
    hide BitStep, Xor;
    if a == [] {
      assert a + b == b;
    } else {
      assert (a + b)[1..] == a[1..] + b;
      FeedSplit(BitStep(Xor(c, BitWord(a[0]))), a[1..], b);
    }
  }

  lemma {:induction false} FeedInjective(c: bv32, d: bv32, bits: seq<bool>)
    requires Feed(c, bits) == Feed(d, bits)
    ensures c == d
    decreases bits
  {
    hide BitStep, Xor, BitWord;
    if bits == [] {
    } else {
      var x, y := Xor(c, BitWord(bits[0])), Xor(d, BitWord(bits[0]));
      FeedInjective(BitStep(x), BitStep(y), bits[1..]);
      BitStepInjective(x, y);
      XorRight(c, d, BitWord(bits[0]));
    }
  }

  /** Of a word mixed in at once, one step takes up the low bit and moves the others down. */
  lemma TakeUp(c: bv32, w: bv32)
    ensures BitStep(Xor(c, w)) == Xor(BitStep(Xor(c, BitWord(Odd(w)))), Half(w))
  {
    var even := w & 0xFFFF_FFFE;
    SplitLow(c, w);
    EvenStep(even);
    BitStepLinear(Xor(c, BitWord(Odd(w))), even);
  }

  lemma SplitLow(c: bv32, w: bv32)
    ensures Xor(c, w) == Xor(Xor(c, BitWord(Odd(w))), w & 0xFFFF_FFFE)
    ensures (w & 0xFFFF_FFFE) >> 1 == Half(w)
    ensures (w & 0xFFFF_FFFE) & 1 == 0
  {
    LowAndRest(w);
    XorAssociative(c, BitWord(Odd(w)), w & 0xFFFF_FFFE);
    hide Xor, BitWord;
  }

  lemma LowAndRest(w: bv32)
    ensures Xor(BitWord(Odd(w)), w & 0xFFFF_FFFE) == w
  {
  }

  lemma XorAssociative(x: bv32, y: bv32, z: bv32)
    ensures Xor(x, Xor(y, z)) == Xor(Xor(x, y), z)
  {
  }

  lemma EvenStep(c: bv32)
    requires c & 1 == 0
    ensures BitStep(c) == c >> 1
  {
  }

  /** So steps over a word mixed in at once take up its low bits one by one. */
  lemma {:induction false} StepsFeed(c: bv32, w: bv32, n: nat)
    ensures BitSteps(Xor(c, w), n) == Xor(Feed(c, LowBits(w, n)), Drop(w, n))
    decreases n
  {
    hide BitStep, Xor, Half, BitWord, Odd;
    if n == 0 {
    } else {
      var bits, next := LowBits(w, n), BitStep(Xor(c, BitWord(Odd(w))));
      assert bits[1..] == LowBits(Half(w), n - 1);
      TakeUp(c, w);
      StepsFeed(next, Half(w), n - 1);
    }
  }

  // Dropping bits is shifting.

  lemma {:induction false} DropSplit(w: bv32, m: nat, n: nat)
    ensures Drop(w, m + n) == Drop(Drop(w, m), n)
    decreases m
  {
    hide Half;
    if m == 0 {
    } else {
      DropSplit(Half(w), m - 1, n);
    }
  }

  function FourHalves(w: bv32): bv32 {
    Half(Half(Half(Half(w))))
  }

  function NextByte(w: bv32): bv32 {
    w >> 8
  }

  lemma EightHalves(w: bv32)
    ensures FourHalves(FourHalves(w)) == NextByte(w)
  {
  }

  lemma DropFour(w: bv32)
    ensures Drop(w, 4) == FourHalves(w)
  {
    hide Half;
    assert Drop(w, 4) == Drop(Half(w), 3) == Drop(Half(Half(w)), 2);
    assert Drop(Half(Half(w)), 2) == Drop(Half(Half(Half(w))), 1) == Drop(Half(Half(Half(Half(w)))), 0);
  }

  lemma DropByte(w: bv32)
    ensures Drop(w, 8) == NextByte(w)
  {
    hide *;
    DropSplit(w, 4, 4);
    DropFour(w);
    DropFour(FourHalves(w));
    EightHalves(w);
  }

  lemma DropBytes(w: bv32)
    ensures Drop(w, 16) == NextByte(NextByte(w))
    ensures Drop(w, 24) == NextByte(NextByte(NextByte(w)))
    ensures Drop(w, 32) == NextByte(NextByte(NextByte(NextByte(w))))
  {
    hide *;
    DropSplit(w, 8, 8);
    DropSplit(w, 16, 8);
    DropSplit(w, 24, 8);
    DropByte(w);
    DropByte(NextByte(w));
    DropByte(NextByte(NextByte(w)));
    DropByte(NextByte(NextByte(NextByte(w))));
  }

  lemma DroppedWord(w: bv32)
    ensures Drop(w, 32) == 0
  {
    hide Drop;
    DropBytes(w);
    NothingLeft(w);
  }

  lemma NothingLeft(w: bv32)
    ensures NextByte(NextByte(NextByte(NextByte(w)))) == 0
  {
  }

  lemma DroppedByte(b: Byte)
    ensures Drop(b as bv32, 8) == 0
  {
    hide Drop;
    DropByte(b as bv32);
    ByteOnly(b);
  }

  lemma ByteOnly(b: Byte)
    ensures NextByte(b as bv32) == 0
  {
  }


  lemma XorNothing(c: bv32)
    ensures Xor(c, 0) == c
  {
  }

  /** Reading bytes is feeding their bits. */
  lemma {:induction false} RegisterIsFeed(c: bv32, s: seq<Byte>)
    ensures Register(c, s) == Feed(c, BitsOf(s))
    decreases s
  {
    hide BitSteps, Feed, LowBits, Drop, Xor;
    if s == [] {
      FeedNothing(c);
    } else {
      StepsFeed(c, s[0] as bv32, 8);
      DroppedByte(s[0]);
      XorNothing(Feed(c, ByteBits(s[0])));
      RegisterIsFeed(ByteStep(c, s[0]), s[1..]);
      FeedSplit(c, ByteBits(s[0]), BitsOf(s[1..]));
    }
  }

  lemma FeedNothing(c: bv32)
    ensures Feed(c, []) == c
  {
  }

  lemma {:induction false} BitsJoin(a: seq<Byte>, b: seq<Byte>)
    ensures BitsOf(a + b) == BitsOf(a) + BitsOf(b)
    decreases a
  {
    hide ByteBits;
    if a == [] {
      assert a + b == b;
    } else {
      assert (a + b)[1..] == a[1..] + b;
      BitsJoin(a[1..], b);
    }
  }

  lemma {:induction false} LowBitsInjective(x: bv32, y: bv32, n: nat)
    requires LowBits(x, n) == LowBits(y, n) && Drop(x, n) == Drop(y, n)
    ensures x == y
    decreases n
  {
    hide Odd, Half;
    if n == 0 {
    } else {
      assert LowBits(x, n)[0] == Odd(x) && LowBits(y, n)[0] == Odd(y);
      assert LowBits(x, n)[1..] == LowBits(Half(x), n - 1) && LowBits(y, n)[1..] == LowBits(Half(y), n - 1);
      LowBitsInjective(Half(x), Half(y), n - 1);
      HalfInjective(x, y);
    }
  }

  lemma HalfInjective(x: bv32, y: bv32)
    requires Odd(x) == Odd(y) && Half(x) == Half(y)
    ensures x == y
  {
  }

  lemma ByteBitsInjective(b: Byte, c: Byte)
    requires ByteBits(b) == ByteBits(c)
    ensures b == c
  {
    DroppedByte(b);
    DroppedByte(c);
    hide LowBits, Drop;
    LowBitsInjective(b as bv32, c as bv32, 8);
  }

  lemma {:induction false} BitsInjective(a: seq<Byte>, b: seq<Byte>)
    requires BitsOf(a) == BitsOf(b)
    ensures a == b
    decreases a
  {
    hide ByteBits;
    if a == [] {
    } else {
      assert BitsOf(a)[..8] == ByteBits(a[0]) && BitsOf(b)[..8] == ByteBits(b[0]);
      assert BitsOf(a)[8..] == BitsOf(a[1..]) && BitsOf(b)[8..] == BitsOf(b[1..]);
      ByteBitsInjective(a[0], b[0]);
      BitsInjective(a[1..], b[1..]);
      assert a == [a[0]] + a[1..] && b == [b[0]] + b[1..];
    }
  }

  // What the checksum reads.

  /** Reading four bytes is 32 steps from the register with their word mixed in. */
  lemma RegisterOfWord(c: bv32, s: seq<Byte>)
    requires |s| == 4
    ensures Register(c, s) == BitSteps(Xor(c, Word(s)), 32)
  {
    var w := Word(s);
    hide *;
    RegisterIsFeed(c, s);
    BytesOfWord(s);
    BitsOfWord(w);
    StepsFeed(c, w, 32);
    DroppedWord(w);
    XorNothing(Feed(c, BitsOf(s)));
  }

  lemma BitsOfWord(w: bv32)
    ensures BitsOf(WordBytes(w)) == LowBits(w, 32)
  {
    var w1 := NextByte(w);
    var w2 := NextByte(w1);
    var w3 := NextByte(w2);
    hide *;
    BytesInWord(w);
    FourBytesBits(LowByteOf(w), LowByteOf(w1), LowByteOf(w2), LowByteOf(w3));
    LowBitsSplit(w, 8, 24);
    LowBitsSplit(w1, 8, 16);
    LowBitsSplit(w2, 8, 8);
    DropByte(w);
    DropByte(w1);
    DropByte(w2);
    LowByte(w);
    LowByte(w1);
    LowByte(w2);
    LowByte(w3);
  }

  lemma BitsOfOne(b: Byte)
    ensures BitsOf([b]) == ByteBits(b)
  {
    hide ByteBits;
    assert [b][1..] == [];
    assert BitsOf([b]) == ByteBits(b) + [];
  }

  lemma FourBytesBits(b0: Byte, b1: Byte, b2: Byte, b3: Byte)
    ensures BitsOf([b0, b1, b2, b3]) == ByteBits(b0) + (ByteBits(b1) + (ByteBits(b2) + ByteBits(b3)))
  {
    hide ByteBits, BitsOf;
    BitsJoin([b0], [b1] + ([b2] + [b3]));
    BitsJoin([b1], [b2] + [b3]);
    BitsJoin([b2], [b3]);
    BitsOfOne(b0);
    BitsOfOne(b1);
    BitsOfOne(b2);
    BitsOfOne(b3);
    assert [b0] + ([b1] + ([b2] + [b3])) == [b0, b1, b2, b3];
  }

  lemma {:induction false} LowBitsSplit(w: bv32, m: nat, n: nat)
    ensures LowBits(w, m + n) == LowBits(w, m) + LowBits(Drop(w, m), n)
    decreases m
  {
    hide Odd, Half;
    if m == 0 {
    } else {
      LowBitsSplit(Half(w), m - 1, n);
    }
  }

  lemma BytesInWord(w: bv32)
    ensures WordBytes(w)
         == [LowByteOf(w), LowByteOf(NextByte(w)), LowByteOf(NextByte(NextByte(w))),
             LowByteOf(NextByte(NextByte(NextByte(w))))]
  {
    BytesByShifts(w);
    hide LowByteOf, NextByte;
  }

  lemma BytesByShifts(w: bv32)
    ensures w >> 8 == NextByte(w)
    ensures w >> 16 == NextByte(NextByte(w))
    ensures w >> 24 == NextByte(NextByte(NextByte(w)))
  {
  }

  lemma FourBits(w: bv32)
    ensures LowBits(w, 4) == [Odd(w), Odd(Half(w)), Odd(Half(Half(w))), Odd(Half(Half(Half(w))))]
  {
    hide Odd, Half;
    assert LowBits(w, 4) == [Odd(w)] + ([Odd(Half(w))] + LowBits(Half(Half(w)), 2));
    assert LowBits(Half(Half(w)), 2) == [Odd(Half(Half(w)))] + ([Odd(Half(Half(Half(w))))] + []);
  }

  lemma LowByte(w: bv32)
    ensures ByteBits(LowByteOf(w)) == LowBits(w, 8)
  {
    LowNibbles(w);
    hide Odd, Half, LowBits, LowByteOf, Drop, FourHalves;
    var x := LowByteOf(w) as bv32;
    LowBitsSplit(x, 4, 4);
    LowBitsSplit(w, 4, 4);
    DropFour(x);
    DropFour(w);
    FourBits(x);
    FourBits(w);
    FourBits(FourHalves(x));
    FourBits(FourHalves(w));
  }

  lemma LowNibbles(w: bv32)
    ensures SameNibble(LowByteOf(w) as bv32, w)
    ensures SameNibble(FourHalves(LowByteOf(w) as bv32), FourHalves(w))
  {
    Widened(w);
    MaskedNibble(w);
    MaskedNextNibble(w);
    hide LowByteOf, SameNibble, FourHalves;
  }

  lemma MaskedNibble(w: bv32)
    ensures SameNibble(w & 0xFF, w)
  {
  }

  lemma MaskedNextNibble(w: bv32)
    ensures SameNibble(FourHalves(w & 0xFF), FourHalves(w))
  {
  }

  lemma Widened(w: bv32)
    ensures LowByteOf(w) as bv32 == w & 0xFF
  {
  }

  predicate SameNibble(x: bv32, w: bv32) {
    && Odd(x) == Odd(w)
    && Odd(Half(x)) == Odd(Half(w))
    && Odd(Half(Half(x))) == Odd(Half(Half(w)))
    && Odd(Half(Half(Half(x)))) == Odd(Half(Half(Half(w))))
  }

  // Bursts.

  lemma DropMore(w: bv32, m: nat, n: nat)
    requires Drop(w, m) == 0 && m <= n
    ensures Drop(w, n) == 0
  {
    hide Drop;
    DropSplit(w, m, n - m);
    DropZero(n - m);
  }

  lemma {:induction false} DropZero(n: nat)
    ensures Drop(0, n) == 0
  {
    if n == 0 {
    } else {
      DropZero(n - 1);
    }
  }

  predicate TopClear(w: bv32) {
    w & 0x8000_0000 == 0
  }

  lemma DropTopClear(w: bv32)
    requires Drop(w, 31) == 0
    ensures TopClear(w)
  {
    hide Drop, Half, FourHalves, NextByte, TopClear;
    DropThirtyOne(w);
    TopOf(w);
  }

  lemma DropThirtyOne(w: bv32)
    ensures Drop(w, 31) == Half(Half(Half(FourHalves(NextByte(NextByte(NextByte(w)))))))
  {
    hide Half, FourHalves, NextByte;
    var top := NextByte(NextByte(NextByte(w)));
    DropSplit(w, 24, 7);
    DropBytes(w);
    DropSplit(top, 4, 3);
    DropFour(top);
    var rest := FourHalves(top);
    assert Drop(rest, 3) == Drop(Half(rest), 2) == Drop(Half(Half(rest)), 1);
    assert Drop(Half(Half(rest)), 1) == Drop(Half(Half(Half(rest))), 0);
  }

  lemma TopOf(w: bv32)
    requires Half(Half(Half(FourHalves(NextByte(NextByte(NextByte(w))))))) == 0
    ensures TopClear(w)
  {
  }

  /** The polynomial's top bit shows whether a step applied it; if not, the step was a mere shift. */
  lemma StepBack(x: bv32)
    requires TopClear(BitStep(x))
    ensures Half(x) == BitStep(x) && !Odd(x)
  {
  }

  /** The distance of two registers that `n` more bits make equal, whichever they are, fits in `n` bits. */
  lemma {:induction false} MeetWithin(x: bv32, y: bv32, a: seq<bool>, b: seq<bool>)
    requires |a| == |b| <= 31
    requires Feed(x, a) == Feed(y, b)
    ensures Drop(Xor(x, y), |a|) == 0
    decreases |a|
  {
    hide BitStep, Half, TopClear, BitWord;
    if a == [] {
      XorSelf(x);
    } else {
      var p, q := Xor(x, BitWord(a[0])), Xor(y, BitWord(b[0]));
      MeetWithin(BitStep(p), BitStep(q), a[1..], b[1..]);
      BitStepLinear(p, q);
      var z := Xor(p, q);
      DropMore(BitStep(z), |a| - 1, 31);
      DropTopClear(BitStep(z));
      StepBack(z);
      SameHalf(x, y, a[0], b[0]);
    }
  }

  lemma XorSelf(x: bv32)
    ensures Xor(x, x) == 0
  {
  }

  lemma SameHalf(x: bv32, y: bv32, a: bool, b: bool)
    ensures Half(Xor(Xor(x, BitWord(a)), Xor(y, BitWord(b)))) == Half(Xor(x, y))
  {
    HalfXor(Xor(x, BitWord(a)), Xor(y, BitWord(b)));
    HalfXor(x, BitWord(a));
    HalfXor(y, BitWord(b));
    HalfXor(x, y);
    HalfLow(a);
    HalfLow(b);
    XorNothing(Half(x));
    XorNothing(Half(y));
    hide Half, Xor, BitWord;
  }

  lemma HalfLow(bit: bool)
    ensures Half(BitWord(bit)) == 0
  {
  }

  lemma OddApart(c: bv32, a: bool, b: bool)
    requires a != b
    ensures Odd(Xor(Xor(c, BitWord(a)), Xor(c, BitWord(b))))
  {
  }

  /** Up to 32 bits that differ in the first one never lead to the same register. */
  lemma FirstBitTells(c: bv32, a: seq<bool>, b: seq<bool>)
    requires 0 < |a| == |b| <= 32 && a[0] != b[0]
    ensures Feed(c, a) != Feed(c, b)
  {
    hide BitStep, Half, TopClear, BitWord, Drop, Odd;
    if Feed(c, a) == Feed(c, b) {
      var p, q := Xor(c, BitWord(a[0])), Xor(c, BitWord(b[0]));
      MeetWithin(BitStep(p), BitStep(q), a[1..], b[1..]);
      BitStepLinear(p, q);
      DropMore(BitStep(Xor(p, q)), |a| - 1, 31);
      DropTopClear(BitStep(Xor(p, q)));
      StepBack(Xor(p, q));
      OddApart(c, a[0], b[0]);
    }
  }

  /** Bit strings of the same length that agree outside the 32 positions from `p` on. */
  ghost predicate BitsAgreeOutside(a: seq<bool>, b: seq<bool>, p: int) {
    |a| == |b| && forall i :: 0 <= i < |a| && !(p <= i < p + 32) ==> a[i] == b[i]
  }

  lemma {:induction false} BitBurstDetected(c: bv32, a: seq<bool>, b: seq<bool>, p: int)
    requires BitsAgreeOutside(a, b, p) && a != b
    ensures Feed(c, a) != Feed(c, b)
    decreases |a|
  {
    hide BitStep, Xor, BitWord;
    if a[0] == b[0] {
      assert a == [a[0]] + a[1..] && b == [b[0]] + b[1..];
      BitBurstDetected(BitStep(Xor(c, BitWord(a[0]))), a[1..], b[1..], p - 1);
    } else {
      var n := if |a| < 32 then |a| else 32;
      assert a[n..] == b[n..];
      FirstBitTells(c, a[..n], b[..n]);
      if Feed(c, a) == Feed(c, b) {
        hide Feed;
        assert a == a[..n] + a[n..] && b == b[..n] + b[n..];
        FeedSplit(c, a[..n], a[n..]);
        FeedSplit(c, b[..n], b[n..]);
        FeedInjective(Feed(c, a[..n]), Feed(c, b[..n]), a[n..]);
      }
    }
  }

  /** Two messages of the same length that agree outside 32 consecutive bits. The stretch may
      begin at any bit, also before the start, as it does when damage began earlier; four
      consecutive bytes are such a stretch. */
  ghost predicate AgreeOutside(a: seq<Byte>, b: seq<Byte>, p: int) {
    |a| == |b| && BitsAgreeOutside(BitsOf(a), BitsOf(b), p)
  }

  /** Different messages that agree outside 32 consecutive bits never leave the same register
      behind, whatever it held before. */
  lemma BurstDetected(c: bv32, a: seq<Byte>, b: seq<Byte>, p: int)
    requires AgreeOutside(a, b, p) && a != b
    ensures Register(c, a) != Register(c, b)
  {
    assert BitsOf(a) != BitsOf(b) by {
      if BitsOf(a) == BitsOf(b) {
        BitsInjective(a, b);
      }
    }
    hide Register, Feed, BitsOf;
    RegisterIsFeed(c, a);
    RegisterIsFeed(c, b);
    BitBurstDetected(c, BitsOf(a), BitsOf(b), p);
  }

  lemma BitsAgreeOnParts(a: seq<bool>, b: seq<bool>, c: seq<bool>, d: seq<bool>, p: int)
    requires |a| == |c|
    requires BitsAgreeOutside(a + b, c + d, p)
    ensures BitsAgreeOutside(a, c, p)
    ensures BitsAgreeOutside(b, d, p - |a|)
  {
    assert forall i :: 0 <= i < |a| ==> a[i] == (a + b)[i] && c[i] == (c + d)[i];
    assert forall i :: 0 <= i < |b| ==> b[i] == (a + b)[|a| + i];
    assert forall i :: 0 <= i < |d| ==> d[i] == (c + d)[|c| + i];
  }

  lemma AgreeOnParts(a: seq<Byte>, b: seq<Byte>, c: seq<Byte>, d: seq<Byte>, p: int)
    requires |a| == |c|
    requires AgreeOutside(a + b, c + d, p)
    ensures AgreeOutside(a, c, p)
    ensures AgreeOutside(b, d, p - 8 * |a|)
  {
    BitsJoin(a, b);
    BitsJoin(c, d);
    hide BitsAgreeOutside, BitsOf;
    BitsAgreeOnParts(BitsOf(a), BitsOf(b), BitsOf(c), BitsOf(d), p);
  }

  /** Damage within four consecutive bytes is damage within 32 consecutive bits. */
  lemma {:induction false} FourBytesAgree(a: seq<Byte>, b: seq<Byte>, p: int)
    requires |a| == |b| && forall i :: 0 <= i < |a| && !(p <= i < p + 4) ==> a[i] == b[i]
    ensures AgreeOutside(a, b, 8 * p)
    decreases |a|
  {
    hide ByteBits;
    if a == [] {
    } else {
      FourBytesAgree(a[1..], b[1..], p - 1);
      assert a == [a[0]] + a[1..] && b == [b[0]] + b[1..];
    }
  }

  // Parity.

  /** Whether an odd number of the low `n` bits is set. */
  function ParityOf(w: bv32, n: nat): bool {
    if n == 0 then false else Odd(w) != ParityOf(Half(w), n - 1)
  }

  function Parity(w: bv32): bool {
    ParityOf(w, 32)
  }

  lemma {:induction false} ParityXor(x: bv32, y: bv32, n: nat)
    ensures ParityOf(Xor(x, y), n) == (ParityOf(x, n) != ParityOf(y, n))
    decreases n
  {
    hide Odd, Half, Xor;
    if n == 0 {
    } else {
      HalfXor(x, y);
      ParityXor(Half(x), Half(y), n - 1);
    }
  }

  lemma HalfXor(x: bv32, y: bv32)
    ensures Half(Xor(x, y)) == Xor(Half(x), Half(y))
    ensures Odd(Xor(x, y)) == (Odd(x) != Odd(y))
  {
  }

  lemma {:induction false} ParityMore(w: bv32, n: nat)
    ensures ParityOf(w, n + 1) == (ParityOf(w, n) != Odd(Drop(w, n)))
    decreases n
  {
    hide Odd, Half;
    if n == 0 {
      assert ParityOf(w, 1) == (Odd(w) != ParityOf(Half(w), 0));
    } else {
      ParityMore(Half(w), n - 1);
    }
  }

  lemma HalfEnds(c: bv32)
    ensures !Odd(Drop(Half(c), 31))
  {
    hide Drop, Half, Odd, FourHalves, NextByte;
    DropThirtyOne(Half(c));
    NoTopOfHalf(c);
  }

  lemma NoTopOfHalf(c: bv32)
    ensures !Odd(Half(Half(Half(FourHalves(NextByte(NextByte(NextByte(Half(c)))))))))
  {
  }


  lemma {:induction false} ParitySplit(w: bv32, m: nat, n: nat)
    ensures ParityOf(w, m + n) == (ParityOf(w, m) != ParityOf(Drop(w, m), n))
    decreases m
  {
    hide Odd, Half;
    if m == 0 {
    } else {
      ParitySplit(Half(w), m - 1, n);
    }
  }

  function OddNibble(w: bv32): bool {
    Odd(w) != (Odd(Half(w)) != (Odd(Half(Half(w))) != Odd(Half(Half(Half(w))))))
  }

  lemma ParityOfFour(w: bv32)
    ensures ParityOf(w, 4) == OddNibble(w)
  {
    hide Odd, Half;
    assert ParityOf(w, 4) == (Odd(w) != (Odd(Half(w)) != ParityOf(Half(Half(w)), 2)));
    var x := Half(Half(w));
    assert ParityOf(x, 2) == (Odd(x) != ParityOf(Half(x), 1));
    assert ParityOf(Half(x), 1) == (Odd(Half(x)) != ParityOf(Half(Half(x)), 0));
  }

  function OddByte(w: bv32): bool {
    OddNibble(w) != OddNibble(FourHalves(w))
  }

  lemma ParityOfByte(w: bv32)
    ensures ParityOf(w, 8) == OddByte(w)
  {
    hide OddNibble, ParityOf, Drop, FourHalves;
    ParitySplit(w, 4, 4);
    DropFour(w);
    ParityOfFour(w);
    ParityOfFour(FourHalves(w));
  }

  lemma ParityOfWord(w: bv32)
    ensures Parity(w)
         == ((OddByte(w) != OddByte(NextByte(w)))
             != (OddByte(NextByte(NextByte(w))) != OddByte(NextByte(NextByte(NextByte(w))))))
  {
    hide OddByte, ParityOf, Drop, NextByte;
    var x, y := NextByte(w), NextByte(NextByte(w));
    ParitySplit(w, 8, 24);
    ParitySplit(x, 8, 16);
    ParitySplit(y, 8, 8);
    DropByte(w);
    DropByte(x);
    DropByte(y);
    ParityOfByte(w);
    ParityOfByte(x);
    ParityOfByte(y);
    ParityOfByte(NextByte(y));
  }

  /** The polynomial has an odd number of terms below the highest, so a step keeps the parity. */
  lemma PolynomialOdd()
    ensures Parity(POLYNOMIAL)
  {
    ParityOfWord(POLYNOMIAL);
    hide Parity;
  }

  lemma ParityOfLow(bit: bool)
    ensures Parity(BitWord(bit)) == bit
  {
    ParityUnfold(BitWord(bit));
    HalfLow(bit);
    ParityOfZero(31);
    hide ParityOf;
  }

  lemma {:induction false} ParityOfZero(n: nat)
    ensures !ParityOf(0, n)
  {
    if n == 0 {
    } else {
      ParityOfZero(n - 1);
    }
  }

  lemma StepKeepsParity(c: bv32)
    ensures Parity(BitStep(c)) == Parity(c)
  {
    PolynomialOdd();
    BitStepCases(c);
    HalfEnds(c);
    hide ParityOf, Drop, BitStep;
    ParityXor(Half(c), POLYNOMIAL, 32);
    ParityMore(Half(c), 31);
    ParityUnfold(c);
  }

  lemma ParityUnfold(c: bv32)
    ensures ParityOf(c, 32) == (Odd(c) != ParityOf(Half(c), 31))
  {
    hide Odd, Half;
  }

  function OddlySet(bits: seq<bool>): bool {
    if bits == [] then false else bits[0] != OddlySet(bits[1..])
  }

  lemma {:induction false} FeedParity(c: bv32, bits: seq<bool>)
    ensures Parity(Feed(c, bits)) == (Parity(c) != OddlySet(bits))
    decreases bits
  {
    hide Parity, BitStep, Xor;
    if bits == [] {
    } else {
      StepKeepsParity(Xor(c, BitWord(bits[0])));
      ParityOfMixed(c, bits[0]);
      FeedParity(BitStep(Xor(c, BitWord(bits[0]))), bits[1..]);
    }
  }

  lemma ParityOfMixed(c: bv32, bit: bool)
    ensures Parity(Xor(c, BitWord(bit))) == (Parity(c) != bit)
  {
    ParityOfLow(bit);
    hide ParityOf;
    ParityXor(c, BitWord(bit), 32);
  }

  /** In how many positions two bit strings differ. */
  function Flips(a: seq<bool>, b: seq<bool>): nat
    requires |a| == |b|
  {
    if a == [] then 0 else (if a[0] != b[0] then 1 else 0) + Flips(a[1..], b[1..])
  }

  lemma {:induction false} FlipsParity(a: seq<bool>, b: seq<bool>)
    requires |a| == |b|
    ensures (OddlySet(a) != OddlySet(b)) <==> Flips(a, b) % 2 == 1
    decreases a
  {
    if a == [] {
    } else {
      FlipsParity(a[1..], b[1..]);
    }
  }

  /** Messages of the same length that differ in an odd number of bits. */
  ghost predicate OddlyFlipped(a: seq<Byte>, b: seq<Byte>) {
    |a| == |b| && Flips(BitsOf(a), BitsOf(b)) % 2 == 1
  }

  /** They never leave the same register behind either, wherever the bits lie. */
  lemma OddFlipsDetected(c: bv32, a: seq<Byte>, b: seq<Byte>)
    requires OddlyFlipped(a, b)
    ensures Register(c, a) != Register(c, b)
  {
    hide Register, Feed, BitsOf, Parity, OddlySet;
    RegisterIsFeed(c, a);
    RegisterIsFeed(c, b);
    FeedParity(c, BitsOf(a));
    FeedParity(c, BitsOf(b));
    FlipsParity(BitsOf(a), BitsOf(b));
  }

  // Messages with their checksums behind them.

  /** The register every intact message leaves behind once its own checksum has been read. */
  ghost function Residue(): bv32 {
    BitSteps(0xFFFF_FFFF, 32)
  }

  /** A message followed by four bytes passes the check exactly when the register ends at the residue. */
  lemma SealedExactly(message: seq<Byte>, seal: seq<Byte>)
    requires |seal| == 4
    ensures seal == WordBytes(Checksum(message)) <==> Register(PRESET, message + seal) == Residue()
  {
    var c := Register(PRESET, message);
    hide Register, BitSteps, Word, WordBytes, Xor;
    RegisterSplit(PRESET, message, seal);
    RegisterOfWord(c, seal);
    if Register(PRESET, message + seal) == Residue() {
      BitStepsInjective(Xor(c, Word(seal)), 0xFFFF_FFFF, 32);
      OnesOfXor(c, Word(seal));
      BytesOfWord(seal);
    }
    if seal == WordBytes(Checksum(message)) {
      WordOfBytes(Checksum(message));
      XorOfComplement(c);
    }
  }

  lemma OnesOfXor(c: bv32, w: bv32)
    requires Xor(c, w) == 0xFFFF_FFFF
    ensures w == !c
  {
  }

  lemma XorOfComplement(c: bv32)
    ensures Xor(c, !c) == 0xFFFF_FFFF
  {
  }

  /** Two messages of the same length that the checksum tells apart. */
  ghost predicate ToldApart(a: seq<Byte>, b: seq<Byte>) {
    |a| == |b| && Register(PRESET, a) != Register(PRESET, b)
  }

  lemma BurstToldApart(a: seq<Byte>, b: seq<Byte>, p: int)
    requires AgreeOutside(a, b, p) && a != b
    ensures ToldApart(a, b)
  {
    hide Register, BitsAgreeOutside;
    BurstDetected(PRESET, a, b, p);
  }

  lemma OddFlipsToldApart(a: seq<Byte>, b: seq<Byte>)
    requires OddlyFlipped(a, b)
    ensures ToldApart(a, b)
  {
    hide Register, BitsOf;
    OddFlipsDetected(PRESET, a, b);
  }

  lemma ChecksumsDiffer(a: seq<Byte>, b: seq<Byte>)
    requires ToldApart(a, b)
    ensures Checksum(a) != Checksum(b)
  {
    hide Register;
    ComplementInjective(Register(PRESET, a), Register(PRESET, b));
  }

  lemma ComplementInjective(x: bv32, y: bv32)
    requires x != y
    ensures !x != !y
  {
  }

  /** Such damage to a message and the checksum behind it is always noticed, wherever it lies,
      within the checksum included. */
  lemma SealBroken(message: seq<Byte>, damaged: seq<Byte>, seal: seq<Byte>)
    requires |seal| == 4
    requires ToldApart(message + WordBytes(Checksum(message)), damaged + seal)
    ensures seal != WordBytes(Checksum(damaged))
  {
    hide WordBytes, Checksum, Register, Residue;
    SealedExactly(message, WordBytes(Checksum(message)));
    SealedExactly(damaged, seal);
  }
}
