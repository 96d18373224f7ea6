/** Bytes, fixed-width machine integers and the little-endian codec that every
    field of the recording format goes through. */
module Bytes {
  import opened Octets

  const TWO_32: int := 0x1_0000_0000
  const TWO_63: int := 0x8000_0000_0000_0000
  const TWO_64: int := 0x1_0000_0000_0000_0000

  type U32 = x: int | 0 <= x < TWO_32
  type U64 = x: int | 0 <= x < TWO_64
  type I64 = x: int | -TWO_63 <= x < TWO_63

  /** The cast from a signed to an unsigned 64-bit integer, and back. */
  function ToUnsigned(i: I64): U64 {
    if i < 0 then i + TWO_64 else i
  }

  function ToSigned(u: U64): I64 {
    if u < TWO_63 then u else u - TWO_64
  }

  /** One past the largest value that `width` bytes can hold. */
  function Radix(width: nat): (r: nat)
    ensures r > 0
  {
    if width == 0 then 1 else 256 * Radix(width - 1)
  }

  lemma RadixValues()
    ensures Radix(2) == 0x1_0000
    ensures Radix(4) == TWO_32
    ensures Radix(8) == TWO_64
  {
    assert Radix(2) == 256 * Radix(1);
    assert Radix(4) == 256 * Radix(3) == 65536 * Radix(2);
    assert Radix(6) == 256 * Radix(5) == 65536 * Radix(4);
    assert Radix(8) == 256 * Radix(7) == 65536 * Radix(6);
  }

  /** What is left of a number when `n` bytes have been shifted out. */
  function Shifted(value: nat, n: nat): nat {
    if n == 0 then value else Shifted(value, n - 1) / 256
  }

  /** The low `width` bytes of `value`, least significant first. */
  function EncodeLE(value: nat, width: nat): (s: seq<Byte>)
    ensures |s| == width
  {
    seq(width, i requires 0 <= i < width => Low(Shifted(value, i)))
  }

  lemma {:induction false} ShiftedOnce(value: nat, n: nat)
    ensures Shifted(value, n + 1) == Shifted(value / 256, n)
  {
    if n == 0 {
    } else {
      ShiftedOnce(value, n - 1);
    }
  }

  lemma EncodeHead(value: nat, width: nat)
    requires width > 0
    ensures EncodeLE(value, width)[0] == Low(value)
  {
    hide Low;
  }

  lemma EncodeLater(value: nat, width: nat, i: nat)
    requires 0 < i < width
    ensures EncodeLE(value, width)[i] == EncodeLE(value / 256, width - 1)[i - 1]
  {
    hide Low, Shifted;
    ShiftedOnce(value, i - 1);
  }

  /** One byte, and the rest of the number behind it. */
  lemma EncodeStep(value: nat, width: nat)
    requires width > 0
    ensures EncodeLE(value, width) == [Low(value)] + EncodeLE(value / 256, width - 1)
  {
    EncodeHead(value, width);
    forall i | 0 < i < width ensures EncodeLE(value, width)[i] == EncodeLE(value / 256, width - 1)[i - 1] {
      EncodeLater(value, width, i);
    }
    hide EncodeLE, Low;
    var step := [Low(value)] + EncodeLE(value / 256, width - 1);
    assert forall i :: 0 <= i < width ==> EncodeLE(value, width)[i] == step[i];
  }

  function DecodeLE(s: seq<Byte>): nat {
    if s == [] then 0 else Value(s[0]) + 256 * DecodeLE(s[1..])
  }

  lemma {:induction false} DecodeEncode(value: nat, width: nat)
    requires value < Radix(width)
    ensures DecodeLE(EncodeLE(value, width)) == value
  {
    hide Low, Value, EncodeLE;
    if width == 0 {
    } else {
      var s := EncodeLE(value, width);
      EncodeStep(value, width);
      assert s[1..] == EncodeLE(value / 256, width - 1);
      ValueOfLow(value);
      DecodeEncode(value / 256, width - 1);
    }
  }

  lemma {:induction false} EncodeDecode(s: seq<Byte>)
    ensures DecodeLE(s) < Radix(|s|)
    ensures EncodeLE(DecodeLE(s), |s|) == s
  {
    hide Low, Value, EncodeLE;
    if s == [] {
    } else {
      EncodeDecode(s[1..]);
      SplitDigit(Value(s[0]), DecodeLE(s[1..]));
      LowOfSum(s[0], DecodeLE(s[1..]));
      EncodeStep(DecodeLE(s), |s|);
      assert s == [s[0]] + s[1..];
    }
  }

  lemma LowOfSum(b: Byte, rest: nat)
    ensures Low(Value(b) + 256 * rest) == b
  {
    hide Low, Value;
    var sum := Value(b) + 256 * rest;
    ValueOfLow(sum);
    SplitDigit(Value(b), rest);
    LowOfValue(b);
    LowOfValue(Low(sum));
  }

  lemma {:induction false} EncodeWraps(value: nat, width: nat)
    ensures EncodeLE(value % Radix(width), width) == EncodeLE(value, width)
  {
    hide Low, EncodeLE;
    if width == 0 {
    } else {
      var r := Radix(width - 1);
      WrappedDigit(value, r);
      LowWraps(value % (256 * r), value);
      EncodeStep(value % (256 * r), width);
      EncodeStep(value, width);
      EncodeWraps(value / 256, width - 1);
    }
  }

  lemma WrappedDigit(value: nat, r: nat)
    requires r > 0
    ensures (value % (256 * r)) % 256 == value % 256
    ensures (value % (256 * r)) / 256 == (value / 256) % r
  {
    var digit, rest := value % 256, value / 256;
    var quotient, low := rest / r, rest % r;
    assert value == 256 * rest + digit;
    assert rest == r * quotient + low;
    assert 256 * (r * quotient + low) + digit == (256 * r) * quotient + (256 * low + digit);
    assert 0 <= 256 * low + digit < 256 * r;
    DivisionUnique(256 * r, value, quotient, 256 * low + digit);
    SplitDigit(digit, low);
  }

  lemma DivisionUnique(m: nat, value: nat, quotient: nat, rest: nat)
    requires rest < m && value == m * quotient + rest
    ensures value / m == quotient && value % m == rest
  {
    QuotientUnique(m, value / m, value % m, quotient, rest);
  }

  lemma QuotientUnique(m: nat, q: nat, r: nat, q': nat, r': nat)
    requires r < m && r' < m
    requires m * q + r == m * q' + r'
    ensures q == q' && r == r'
  {
    if q < q' {
      TimesGap(m, q, q');
    } else if q' < q {
      TimesGap(m, q', q);
    }
  }

  lemma {:induction false} TimesGap(m: nat, q: nat, q': nat)
    requires q < q'
    ensures m * q' >= m * q + m
    decreases q'
  {
    assert m * q' == m * (q' - 1) + m;
    if q < q' - 1 {
      TimesGap(m, q, q' - 1);
    }
  }

  lemma LowWraps(a: nat, b: nat)
    requires a % 256 == b % 256
    ensures Low(a) == Low(b)
  {
    hide Low, Value;
    ValueOfLow(a);
    ValueOfLow(b);
    LowOfValue(Low(a));
    LowOfValue(Low(b));
  }

  /** The encoding loop, writing into part of a buffer. */
  method EncodeLittleEndian(buffer: array<Byte>, offset: nat, value: nat, width: nat)
    requires offset + width <= buffer.Length
    modifies buffer
    ensures buffer[..offset + width] == old(buffer[..offset]) + EncodeLE(value, width)
    ensures buffer[offset + width..] == old(buffer[offset + width..])
  {
    hide Low, EncodeLE;
    var remaining := value;
    var i := 0;
    while i < width
      invariant 0 <= i <= width
      invariant buffer[..offset] == old(buffer[..offset])
      invariant buffer[offset + i..] == old(buffer[offset + i..])
      invariant buffer[offset..offset + i] + EncodeLE(remaining, width - i) == EncodeLE(value, width)
    {
      EncodeStep(remaining, width - i);
      ghost var before := buffer[offset..offset + i];
      buffer[offset + i] := Low(remaining);
      assert buffer[offset..offset + i + 1] == before + [Low(remaining)];
      remaining := remaining / 256;
      i := i + 1;
    }
    assert buffer[..offset + width] == buffer[..offset] + buffer[offset..offset + width];
  }

  /** The decoding loop. */
  method DecodeLittleEndian(source: seq<Byte>, offset: nat, width: nat) returns (value: nat)
    requires offset + width <= |source|
    ensures value == DecodeLE(source[offset..offset + width])
  {
    hide Value;
    value := 0;
    var i, scale := 0, 1;
    while i < width
      invariant 0 <= i <= width
      invariant scale == Radix(i)
      invariant value + scale * DecodeLE(source[offset + i..offset + width])
             == DecodeLE(source[offset..offset + width])
    {
      DecodeStep(source[offset + i..offset + width], scale);
      assert source[offset + i..offset + width][1..] == source[offset + i + 1..offset + width];
      value := value + scale * Value(source[offset + i]);
      scale := 256 * scale;
      i := i + 1;
    }
    assert source[offset + i..offset + width] == [];
  }

  lemma DecodeStep(s: seq<Byte>, scale: nat)
    requires s != []
    ensures scale * DecodeLE(s) == scale * Value(s[0]) + 256 * scale * DecodeLE(s[1..])
  {
    hide Value;
    Distribute(scale, Value(s[0]), DecodeLE(s[1..]));
  }

  lemma Distribute(scale: nat, digit: nat, rest: nat)
    ensures scale * (digit + 256 * rest) == scale * digit + 256 * scale * rest
  {
  }
}
