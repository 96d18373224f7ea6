/** The streaming FNV-1a hash (draft-eastlake-fnv, section 2), 64 bits wide. A state is a number,
    so that what a change does to it can be added up. */
module Fnv {
  import opened Octets
  import opened Bytes

  const OFFSET_BASIS: U64 := 0xCBF2_9CE4_8422_2325

  function Xor(a: Byte, b: Byte): Byte {
    a ^ b
  }

  /** The exclusive or with a byte, which leaves all but the low byte of a state alone. */
  function Mix(h: U64, b: Byte): U64 {
    h - h % 256 + Value(Xor(Low(h), b))
  }

  /** Multiplication by the FNV prime, and by its inverse modulo 2^64. */
  function Times(x: U64): U64 {
    (x * 0x100_0000_01B3) % TWO_64
  }

  function Over(x: U64): U64 {
    (x * 0xCE96_5057_AFF6_957B) % TWO_64
  }

  function HashByte(h: U64, b: Byte): U64 {
    Times(Mix(h, b))
  }

  function HashBytes(h: U64, s: seq<Byte>): U64
    decreases s
  {
    if s == [] then h else HashBytes(HashByte(h, s[0]), s[1..])
  }

  /** The prime is odd, so multiplying by it modulo 2^64 can be undone. */
  lemma TimesUndone(x: U64)
    ensures Over(Times(x)) == x
  {
    var q := x * 0x100_0000_01B3 / TWO_64;
    InverseUndoes(x, q, Times(x));
    RemainderUnique(Times(x) * 0xCE96_5057_AFF6_957B, 0xCE9650590F * x - 0xCE96_5057_AFF6_957B * q, x);
  }

  /** The product of the prime and its inverse is one more than a multiple of 2^64. */
  lemma InverseUndoes(x: int, q: int, y: int)
    requires y == x * 0x100_0000_01B3 - TWO_64 * q
    ensures y * 0xCE96_5057_AFF6_957B == TWO_64 * (0xCE9650590F * x - 0xCE96_5057_AFF6_957B * q) + x
  {
  }

  lemma RemainderUnique(n: int, quotient: int, x: U64)
    requires n == TWO_64 * quotient + x
    ensures n % TWO_64 == x
  {
  }

  lemma TimesInjective(x: U64, y: U64)
    requires Times(x) == Times(y)
    ensures x == y
  {
    hide *;
    TimesUndone(x);
    TimesUndone(y);
  }

  lemma XorUndone(a: Byte, b: Byte)
    ensures Xor(Xor(a, b), b) == a && Xor(a, Xor(a, b)) == b
  {
  }

  /** What mixing leaves alone, and what it makes of the low byte. */
  lemma MixParts(h: U64, b: Byte)
    ensures Mix(h, b) - Mix(h, b) % 256 == h - h % 256
    ensures Low(Mix(h, b)) == Xor(Low(h), b)
  {
    hide Low, Value, Xor;
    var mixed := Xor(Low(h), b);
    LowOfSum(mixed, h / 256);
    assert Mix(h, b) == Value(mixed) + 256 * (h / 256);
  }

  lemma SameLow(g: U64, h: U64)
    requires Low(g) == Low(h)
    ensures g % 256 == h % 256
  {
    hide Low, Value;
    ValueOfLow(g);
    ValueOfLow(h);
  }

  lemma MixInjectiveInHash(g: U64, h: U64, b: Byte)
    requires Mix(g, b) == Mix(h, b)
    ensures g == h
  {
    hide Mix, Low, Xor;
    MixParts(g, b);
    MixParts(h, b);
    XorUndone(Low(g), b);
    XorUndone(Low(h), b);
    SameLow(g, h);
  }

  lemma MixInjectiveInByte(h: U64, b: Byte, c: Byte)
    requires Mix(h, b) == Mix(h, c)
    ensures b == c
  {
    hide Mix, Low, Xor;
    MixParts(h, b);
    MixParts(h, c);
    XorUndone(Low(h), b);
    XorUndone(Low(h), c);
  }

  lemma {:induction false} HashInjective(g: U64, h: U64, s: seq<Byte>)
    requires HashBytes(g, s) == HashBytes(h, s)
    ensures g == h
    decreases s
  {
    hide Mix, Times;
    if s == [] {
    } else {
      HashInjective(HashByte(g, s[0]), HashByte(h, s[0]), s[1..]);
      TimesInjective(Mix(g, s[0]), Mix(h, s[0]));
      MixInjectiveInHash(g, h, s[0]);
    }
  }

  lemma {:induction false} HashSplit(h: U64, s: seq<Byte>, t: seq<Byte>)
    ensures HashBytes(h, s + t) == HashBytes(HashBytes(h, s), t)
    decreases s
  {
    hide HashByte;
    if s == [] {
      assert s + t == t;
    } else {
      assert (s + t)[1..] == s[1..] + t;
      HashSplit(HashByte(h, s[0]), s[1..], t);
    }
  }

  /** What follows a change neither hides it nor brings it to light. */
  lemma ChangeShownAtOnce(h: U64, a: seq<Byte>, b: seq<Byte>, back: seq<Byte>)
    ensures HashBytes(h, a + back) != HashBytes(h, b + back) <==> HashBytes(h, a) != HashBytes(h, b)
  {
    hide HashBytes;
    HashSplit(h, a, back);
    HashSplit(h, b, back);
    if HashBytes(h, a + back) == HashBytes(h, b + back) {
      HashInjective(HashBytes(h, a), HashBytes(h, b), back);
    }
  }

  method HashByteLoop(hash: U64, s: seq<Byte>) returns (h: U64)
    ensures h == HashBytes(hash, s)
  {
    hide HashByte;
    h := hash;
    for i := 0 to |s|
      invariant HashBytes(h, s[i..]) == HashBytes(hash, s)
    {
      assert s[i..][1..] == s[i + 1..];
      h := HashByte(h, s[i]);
    }
  }

  /** Hashing an integer, least significant byte first. */
  method HashLittleEndian(hash: U64, value: nat, width: nat) returns (h: U64)
    ensures h == HashBytes(hash, EncodeLE(value, width))
  {
    hide HashByte, Low, EncodeLE;
    h := hash;
    var remaining := value;
    for i := 0 to width
      invariant HashBytes(h, EncodeLE(remaining, width - i)) == HashBytes(hash, EncodeLE(value, width))
    {
      EncodeStep(remaining, width - i);
      assert EncodeLE(remaining, width - i)[1..] == EncodeLE(remaining / 256, width - i - 1);
      h := HashByte(h, Low(remaining));
      remaining := remaining / 256;
    }
  }
}
