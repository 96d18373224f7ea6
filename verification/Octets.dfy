/** Bytes and their numeric values. The value of a byte is spelt out bit by bit, and the two
    conversions have names, so that a proof about fields need not look at bits. */
module Octets {
  type Byte = bv8

  function Bit(b: bool): nat {
    if b then 1 else 0
  }

  function Value(b: Byte): (n: nat)
    ensures n < 256
  {
    Bit(b & 1 != 0) + 2 * (Bit(b & 2 != 0) + 2 * (Bit(b & 4 != 0) + 2 * (Bit(b & 8 != 0)
    + 2 * (Bit(b & 16 != 0) + 2 * (Bit(b & 32 != 0) + 2 * (Bit(b & 64 != 0) + 2 * Bit(b & 128 != 0)))))))
  }

  function Next(b: Byte): Byte {
    b + 1
  }

  /** The byte of a given value, counting up from zero. */
  function CountUp(m: nat): Byte
    requires m < 256
  {
    if m == 0 then 0 else Next(CountUp(m - 1))
  }

  /** The low byte of a number. */
  function Low(n: nat): Byte {
    CountUp(n % 256)
  }

  lemma ValueOfNext(b: Byte)
    requires b != 255
    ensures Value(Next(b)) == Value(b) + 1
  {
  }

  lemma ValueOfEnds()
    ensures Value(0) == 0 && Value(255) == 255
  {
  }

  lemma {:induction false} ValueOfCount(m: nat)
    requires m < 256
    ensures Value(CountUp(m)) == m
  {
    hide Value, Next;
    ValueOfEnds();
    if m == 0 {
    } else {
      ValueOfCount(m - 1);
      ValueOfNext(CountUp(m - 1));
    }
  }

  lemma ValueOfLow(n: nat)
    ensures Value(Low(n)) == n % 256
  {
    hide Value, CountUp;
    ValueOfCount(n % 256);
  }

  lemma PreviousByte(b: Byte) returns (a: Byte)
    requires b != 0
    ensures a != 255 && Next(a) == b
  {
    a := b - 1;
  }

  lemma {:induction false} CountOfValue(b: Byte)
    ensures CountUp(Value(b)) == b
    decreases Value(b)
  {
    hide Value, Next;
    ValueOfEnds();
    if b == 0 {
    } else {
      var a := PreviousByte(b);
      ValueOfNext(a);
      CountOfValue(a);
    }
  }

  lemma LowOfValue(b: Byte)
    ensures Low(Value(b)) == b
  {
    hide Value, CountUp;
    CountOfValue(b);
  }

  lemma SplitDigit(digit: nat, rest: nat)
    requires digit < 256
    ensures (digit + 256 * rest) % 256 == digit
    ensures (digit + 256 * rest) / 256 == rest
  {
  }
}
