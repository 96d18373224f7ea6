/** The content hash of a workload: over the length and the bytes of each event's message. */
module WorkloadHash {
  import opened Octets
  import opened Bytes
  import opened Telemetry
  import opened Fnv

  function MessageInput(message: seq<Byte>): seq<Byte> {
    EncodeLE(|message|, 8) + message
  }

  /** What is hashed, unless some event cannot be serialised. */
  function StableInput(events: seq<Event>, codec: Codec): Option<seq<Byte>> {
    if events == [] then Some([])
    else match codec.serialize(events[0])
      case None => None
      case Some(message) =>
        match StableInput(events[1..], codec)
        case None => None
        case Some(rest) => Some(MessageInput(message) + rest)
  }

  function StableHash(events: seq<Event>, codec: Codec): Option<U64> {
    match StableInput(events, codec)
    case None => None
    case Some(input) => Some(HashBytes(OFFSET_BASIS, input))
  }

  lemma StableInputStep(events: seq<Event>, i: nat, codec: Codec, hash: U64)
    requires i < |events| && StableInput(events[i..], codec).Some?
    ensures codec.serialize(events[i]).Some? && StableInput(events[i + 1..], codec).Some?
    ensures var message := codec.serialize(events[i]).value;
      HashBytes(hash, StableInput(events[i..], codec).value)
      == HashBytes(HashBytes(HashBytes(hash, EncodeLE(|message|, 8)), message),
          StableInput(events[i + 1..], codec).value)
  {
    hide HashBytes, EncodeLE;
    assert events[i..][1..] == events[i + 1..];
    var message, rest := codec.serialize(events[i]).value, StableInput(events[i + 1..], codec).value;
    HashSplit(hash, MessageInput(message), rest);
    HashSplit(hash, EncodeLE(|message|, 8), message);
  }

  lemma {:induction false} Unserialisable(events: seq<Event>, i: nat, codec: Codec)
    requires i < |events| && codec.serialize(events[i]).None?
    ensures StableInput(events, codec).None?
    decreases i
  {
    if i == 0 {
    } else {
      Unserialisable(events[1..], i - 1, codec);
    }
  }

  lemma {:induction false} Serialisable(events: seq<Event>, codec: Codec)
    requires forall i :: 0 <= i < |events| ==> codec.serialize(events[i]).Some?
    ensures StableInput(events, codec).Some?
    decreases events
  {
    if events == [] {
    } else {
      Serialisable(events[1..], codec);
    }
  }

  lemma {:induction false} SerialisableFrom(events: seq<Event>, i: nat, codec: Codec)
    requires i <= |events| && StableInput(events, codec).Some?
    ensures StableInput(events[i..], codec).Some?
    decreases i
  {
    hide MessageInput;
    if i == 0 {
      assert events[0..] == events;
    } else {
      SerialisableFrom(events[1..], i - 1, codec);
      assert events[1..][i - 1..] == events[i..];
    }
  }

  /** The loop over the events; an event that cannot be serialised makes it fail. */
  method StableEventHash(events: seq<Event>, codec: Codec) returns (hash: Option<U64>)
    ensures hash == StableHash(events, codec)
    ensures hash == match StableInput(events, codec)
      case None => None
      case Some(input) => Some(HashBytes(0xCBF2_9CE4_8422_2325, input))
  {
    hide HashBytes, StableInput, EncodeLE;
    ghost var whole := StableInput(events, codec);
    var h := OFFSET_BASIS;
    assert events[0..] == events;
    for i := 0 to |events|
      invariant forall k :: 0 <= k < i ==> codec.serialize(events[k]).Some?
      invariant whole.Some? ==> StableInput(events[i..], codec).Some?
      invariant whole.Some? ==>
          HashBytes(h, StableInput(events[i..], codec).value) == HashBytes(OFFSET_BASIS, whole.value)
    {
      var encoded := codec.serialize(events[i]);
      if encoded.None? {
        Unserialisable(events, i, codec);
        return None;
      }
      if whole.Some? {
        StableInputStep(events, i, codec, h);
      }
      h := HashLittleEndian(h, |encoded.value|, 8);
      h := HashByteLoop(h, encoded.value);
    }
    Serialisable(events, codec);
    NothingHashed(events[|events|..], codec, h);
    return Some(h);
  }

  lemma NothingHashed(events: seq<Event>, codec: Codec, h: U64)
    requires events == []
    ensures StableInput(events, codec) == Some([]) && HashBytes(h, []) == h
  {
  }

  lemma MessageFirst(a: seq<Byte>, x: seq<Byte>, b: seq<Byte>, y: seq<Byte>)
    requires |a| < TWO_64 && |b| < TWO_64
    requires MessageInput(a) + x == MessageInput(b) + y
    ensures a == b && x == y
  {
    var s := MessageInput(a) + x;
    assert s[..8] == EncodeLE(|a|, 8) && s[8..8 + |a|] == a && s[8 + |a|..] == x;
    assert s[..8] == EncodeLE(|b|, 8) && s[8..8 + |b|] == b && s[8 + |b|..] == y;
    RadixValues();
    hide EncodeLE, MessageInput;
    DecodeEncode(|a|, 8);
    DecodeEncode(|b|, 8);
  }

  /** Messages are byte strings that fit in memory. */
  ghost predicate MessagesFit(events: seq<Event>, codec: Codec) {
    forall i :: 0 <= i < |events| ==> codec.serialize(events[i]).Some? && |codec.serialize(events[i]).value| < TWO_64
  }

  lemma SameEvent(a: Event, b: Event, codec: Codec)
    requires RoundTrips(codec)
    requires codec.serialize(a).Some? && codec.serialize(b) == codec.serialize(a)
    ensures a == b
  {
    assert codec.parse(codec.serialize(a).value) == Some(a) && codec.parse(codec.serialize(b).value) == Some(b);
  }

  /** What is hashed determines the workload. */
  lemma {:induction false} StableInputInjective(a: seq<Event>, b: seq<Event>, codec: Codec)
    requires RoundTrips(codec) && MessagesFit(a, codec) && MessagesFit(b, codec)
    requires StableInput(a, codec).Some? && StableInput(a, codec) == StableInput(b, codec)
    ensures a == b
    decreases a
  {
    hide MessageInput, RoundTrips;
    if a == [] || b == [] {
      NotNothing(a, codec);
      NotNothing(b, codec);
    } else {
      MessageFirst(codec.serialize(a[0]).value, StableInput(a[1..], codec).value,
        codec.serialize(b[0]).value, StableInput(b[1..], codec).value);
      SameEvent(a[0], b[0], codec);
      StableInputInjective(a[1..], b[1..], codec);
      assert a == [a[0]] + a[1..] && b == [b[0]] + b[1..];
    }
  }

  lemma NotNothing(a: seq<Event>, codec: Codec)
    requires StableInput(a, codec).Some?
    ensures StableInput(a, codec) == Some([]) <==> a == []
  {
    hide EncodeLE;
  }
}
