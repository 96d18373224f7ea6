/** The replay hash can miss a change of seven consecutive bytes: two temperature events that hash
    alike, followed four bytes at a time. */
module HashCollision {
  import opened Octets
  import opened Bytes
  import opened Telemetry
  import opened LogFormat
  import opened RecordCodec
  import opened LogTheorems
  import opened Fnv
  import opened Replay
  import opened ReplayTheorems
  import opened ReplayHash

  /** What a first record received at time zero with twenty bytes of payload puts in front of them. */
  const START: seq<Byte> := [0, 0, 0, 0, 0, 0, 0, 0, 0, 0, 0, 0, 0, 0, 0, 0, 20, 0, 0, 0]

  /** The message of a temperature event up to its reading: schema version 1, producer "p", source
      time 1, clock UTC; then the tag and size of the reading, and the tag of its double. */
  const HEAD: seq<Byte> := [8, 1, 18, 1, 112, 32, 1, 40, 1, 106, 9, 9]

  /** The doubles nearest to 542.41 and 22.94, least significant byte first. */
  const ONE_END: seq<Byte> := [68, 75, 244, 12, 79, 243, 128, 64]
  const OTHER_END: seq<Byte> := [107, 74, 209, 30, 210, 239, 54, 64]

  /** Reading byte `b` takes a state whose low byte is `low` to the next one. */
  predicate Leads(h: U64, low: Byte, b: Byte, next: U64) {
    h % 256 == Value(low) && next == ((h - h % 256 + Value(Xor(low, b))) * 0x100_0000_01B3) % TWO_64
  }

  lemma Step(h: U64, low: Byte, b: Byte, next: U64)
    requires Leads(h, low, b, next)
    ensures HashByte(h, b) == next
  {
    hide Low, Value, Xor;
    ValueOfLow(h);
    LowOfValue(Low(h));
    LowOfValue(low);
  }

  lemma Four(h: U64,
             l0: Byte, b0: Byte, h1: U64,
             l1: Byte, b1: Byte, h2: U64,
             l2: Byte, b2: Byte, h3: U64,
             l3: Byte, b3: Byte, h4: U64)
    requires Leads(h, l0, b0, h1) && Leads(h1, l1, b1, h2) && Leads(h2, l2, b2, h3) && Leads(h3, l3, b3, h4)
    ensures HashBytes(h, [b0, b1, b2, b3]) == h4
  {
    Step(h, l0, b0, h1);
    Step(h1, l1, b1, h2);
    Step(h2, l2, b2, h3);
    Step(h3, l3, b3, h4);
    hide *;
    ReadOne(h, b0, [b1, b2, b3]);
    ReadOne(h1, b1, [b2, b3]);
    ReadOne(h2, b2, [b3]);
    ReadOne(h3, b3, []);
    assert [b0] + [b1, b2, b3] == [b0, b1, b2, b3] && [b1] + [b2, b3] == [b1, b2, b3];
    assert [b2] + [b3] == [b2, b3] && [b3] + [] == [b3];
    ReadNone(h4);
  }

  lemma ReadOne(h: U64, b: Byte, s: seq<Byte>)
    ensures HashBytes(h, [b] + s) == HashBytes(HashByte(h, b), s)
  {
    hide HashByte;
    assert ([b] + s)[1..] == s;
  }

  lemma ReadNone(h: U64)
    ensures HashBytes(h, []) == h
  {
  }

  lemma StartA()
    ensures HashBytes(0xCBF2_9CE4_8422_2325, [0, 0, 0, 0]) == 0x4D25_767F_9DCE_13F5
  {
    hide Low, HashBytes;
    Four(0xCBF2_9CE4_8422_2325,
      37, 0, 0xAF63_BD4C_8601_B7DF,
      223, 0, 0x0832_8807_B4EB_6FED,
      237, 0, 0xD94D_1218_6C0F_2FB7,
      183, 0, 0x4D25_767F_9DCE_13F5);
  }

  lemma StartB()
    ensures HashBytes(0x4D25_767F_9DCE_13F5, [0, 0, 0, 0]) == 0xA8C7_F832_281A_39C5
  {
    hide Low, HashBytes;
    Four(0x4D25_767F_9DCE_13F5,
      245, 0, 0xE4BC_4FD9_252B_E94F,
      79, 0, 0xD7E4_FCFA_299D_713D,
      61, 0, 0x778B_1A14_B687_6AA7,
      167, 0, 0xA8C7_F832_281A_39C5);
  }

  lemma StartC()
    ensures HashBytes(0xA8C7_F832_281A_39C5, [0, 0, 0, 0]) == 0x5467_B0DA_1D10_6495
  {
    hide Low, HashBytes;
    Four(0xA8C7_F832_281A_39C5,
      197, 0, 0xE604_823A_2490_29BF,
      191, 0, 0x69D3_07CC_20F6_EF8D,
      141, 0, 0xC885_CCDC_0399_0C97,
      151, 0, 0x5467_B0DA_1D10_6495);
  }

  lemma StartD()
    ensures HashBytes(0x5467_B0DA_1D10_6495, [0, 0, 0, 0]) == 0x8820_1FB9_60FF_6465
  {
    hide Low, HashBytes;
    Four(0x5467_B0DA_1D10_6495,
      149, 0, 0x7C96_179F_62DA_E92F,
      47, 0, 0x8DF3_52D4_F9FA_3ADD,
      221, 0, 0x2EB0_9CE4_C432_0587,
      135, 0, 0x8820_1FB9_60FF_6465);
  }

  lemma StartE()
    ensures HashBytes(0x8820_1FB9_60FF_6465, [20, 0, 0, 0]) == 0x6E46_0B61_3FCF_E001
  {
    hide Low, HashBytes;
    Four(0x8820_1FB9_60FF_6465,
      101, 20, 0x4DFA_58FF_D1F7_AC03,
      3, 0, 0x7811_3DB1_C7D9_4919,
      25, 0, 0xDE94_EE16_9637_357B,
      123, 0, 0x6E46_0B61_3FCF_E001);
  }

  lemma HeadA()
    ensures HashBytes(0x6E46_0B61_3FCF_E001, [8, 1, 18, 1]) == 0xEC82_4E86_3005_8B3F
  {
    hide Low, HashBytes;
    Four(0x6E46_0B61_3FCF_E001,
      1, 8, 0x30E5_5F3F_6E39_AF4B,
      75, 1, 0x4F70_22C8_4C04_DABE,
      190, 18, 0x0065_C659_2C3F_9244,
      68, 1, 0xEC82_4E86_3005_8B3F);
  }

  lemma HeadB()
    ensures HashBytes(0xEC82_4E86_3005_8B3F, [112, 32, 1, 40]) == 0x3E1B_63AF_09CA_0A6E
  {
    hide Low, HashBytes;
    Four(0xEC82_4E86_3005_8B3F,
      63, 112, 0xE6F6_BD03_996B_B73D,
      61, 32, 0xE0FA_4A1D_B208_2647,
      71, 1, 0x5172_3675_83D9_08F2,
      242, 40, 0x3E1B_63AF_09CA_0A6E);
  }

  lemma HeadC()
    ensures HashBytes(0x3E1B_63AF_09CA_0A6E, [1, 106, 9, 9]) == 0xF5A4_E024_17B8_3A67
  {
    hide Low, HashBytes;
    Four(0x3E1B_63AF_09CA_0A6E,
      110, 1, 0x5294_D16D_A24F_BA9D,
      157, 106, 0xA29A_D44A_CD7A_B1B5,
      181, 9, 0xC7C8_771B_277C_0274,
      116, 9, 0xF5A4_E024_17B8_3A67);
  }

  lemma OneA()
    ensures HashBytes(0xF5A4_E024_17B8_3A67, [68, 75, 244, 12]) == 0x5C2F_469F_2631_841E
  {
    hide Low, HashBytes;
    Four(0xF5A4_E024_17B8_3A67,
      103, 68, 0x1F63_0054_4E0A_C979,
      121, 75, 0x6002_C140_9C53_DFF6,
      246, 244, 0x788D_62C9_A283_F066,
      102, 12, 0x5C2F_469F_2631_841E);
  }

  lemma OneB()
    ensures HashBytes(0x5C2F_469F_2631_841E, [79, 243, 128, 64]) == 0x3051_D86B_0152_DB30
  {
    hide Low, HashBytes;
    Four(0x5C2F_469F_2631_841E,
      30, 79, 0xD5D9_516D_E623_D5A3,
      163, 243, 0x841A_ADBE_0EE3_76F0,
      240, 128, 0x5CCB_A9F3_4C82_4050,
      80, 64, 0x3051_D86B_0152_DB30);
  }

  lemma OtherA()
    ensures HashBytes(0xF5A4_E024_17B8_3A67, [107, 74, 209, 30]) == 0x95EE_94DF_BFE1_A02D
  {
    hide Low, HashBytes;
    Four(0xF5A4_E024_17B8_3A67,
      103, 107, 0x1F62_E954_4E0A_A264,
      100, 74, 0x5FB4_A840_9C11_942A,
      42, 209, 0xB18E_E0C9_31E0_2681,
      129, 30, 0x95EE_94DF_BFE1_A02D);
  }

  lemma OtherB()
    ensures HashBytes(0x95EE_94DF_BFE1_A02D, [210, 239, 54, 64]) == 0x3051_D86B_0152_DB30
  {
    hide Low, HashBytes;
    Four(0x95EE_94DF_BFE1_A02D,
      45, 210, 0xA607_F733_0C64_914D,
      77, 239, 0x841A_ADBE_0EE3_7646,
      70, 54, 0x5CCB_A9F3_4C82_4050,
      80, 64, 0x3051_D86B_0152_DB30);
  }

  lemma StartHash()
    ensures HashBytes(0xCBF2_9CE4_8422_2325, START) == 0x6E46_0B61_3FCF_E001
  {
    hide HashBytes;
    StartA();
    StartB();
    StartC();
    StartD();
    StartE();
    HashSplit(0xCBF2_9CE4_8422_2325, [0, 0, 0, 0], [0, 0, 0, 0]);
    HashSplit(0xCBF2_9CE4_8422_2325, [0, 0, 0, 0] + [0, 0, 0, 0], [0, 0, 0, 0]);
    HashSplit(0xCBF2_9CE4_8422_2325, [0, 0, 0, 0] + [0, 0, 0, 0] + [0, 0, 0, 0], [0, 0, 0, 0]);
    HashSplit(0xCBF2_9CE4_8422_2325, [0, 0, 0, 0] + [0, 0, 0, 0] + [0, 0, 0, 0] + [0, 0, 0, 0], [20, 0, 0, 0]);
    assert [0, 0, 0, 0] + [0, 0, 0, 0] + [0, 0, 0, 0] + [0, 0, 0, 0] + [20, 0, 0, 0] == START;
  }

  lemma HeadHash()
    ensures HashBytes(0x6E46_0B61_3FCF_E001, HEAD) == 0xF5A4_E024_17B8_3A67
  {
    hide HashBytes;
    HeadA();
    HeadB();
    HeadC();
    HashSplit(0x6E46_0B61_3FCF_E001, [8, 1, 18, 1], [112, 32, 1, 40]);
    HashSplit(0x6E46_0B61_3FCF_E001, [8, 1, 18, 1] + [112, 32, 1, 40], [1, 106, 9, 9]);
    assert [8, 1, 18, 1] + [112, 32, 1, 40] + [1, 106, 9, 9] == HEAD;
  }

  lemma OneHash()
    ensures HashBytes(0xF5A4_E024_17B8_3A67, ONE_END) == 0x3051_D86B_0152_DB30
  {
    hide HashBytes;
    OneA();
    OneB();
    HashSplit(0xF5A4_E024_17B8_3A67, [68, 75, 244, 12], [79, 243, 128, 64]);
    assert [68, 75, 244, 12] + [79, 243, 128, 64] == ONE_END;
  }

  lemma OtherHash()
    ensures HashBytes(0xF5A4_E024_17B8_3A67, OTHER_END) == 0x3051_D86B_0152_DB30
  {
    hide HashBytes;
    OtherA();
    OtherB();
    HashSplit(0xF5A4_E024_17B8_3A67, [107, 74, 209, 30], [210, 239, 54, 64]);
    assert [107, 74, 209, 30] + [210, 239, 54, 64] == OTHER_END;
  }

  lemma {:induction false} NothingShifted(n: nat)
    ensures Shifted(0, n) == 0
  {
    if n == 0 {
    } else {
      NothingShifted(n - 1);
    }
  }

  lemma LowOfSmall()
    ensures Low(0) == 0 && Low(20) == 20
  {
    assert Value(0) == 0 && Value(20) == 20;
    hide Low, Value;
    LowOfValue(0);
    LowOfValue(20);
  }

  lemma ZeroField(width: nat, i: nat)
    requires i < width
    ensures EncodeLE(0, width)[i] == 0
  {
    LowOfSmall();
    NothingShifted(i);
    hide Low;
  }

  lemma StartOfInput()
    ensures EncodeLE(0, 8) + EncodeLE(0, 8) + EncodeLE(20, 4) == START
  {
    LowOfSmall();
    EncodeStep(20, 4);
    hide EncodeLE, Low;
    forall i | 0 <= i < 8 ensures EncodeLE(0, 8)[i] == 0 {
      ZeroField(8, i);
    }
    forall i | 0 <= i < 3 ensures EncodeLE(0, 3)[i] == 0 {
      ZeroField(3, i);
    }
    assert EncodeLE(20, 4) == [20] + EncodeLE(0, 3);
  }

  const ONE: seq<Byte> := HEAD + ONE_END
  const OTHER: seq<Byte> := HEAD + OTHER_END

  lemma PayloadHashes()
    ensures HashBytes(OFFSET_BASIS, START + ONE) == HashBytes(OFFSET_BASIS, START + OTHER)
  {
    hide HashBytes;
    StartHash();
    HeadHash();
    OneHash();
    OtherHash();
    Ends(START, HEAD, ONE_END);
    Ends(START, HEAD, OTHER_END);
  }

  lemma Ends(start: seq<Byte>, head: seq<Byte>, end: seq<Byte>)
    ensures HashBytes(OFFSET_BASIS, start + (head + end))
         == HashBytes(HashBytes(HashBytes(OFFSET_BASIS, start), head), end)
  {
    hide HashBytes;
    HashSplit(OFFSET_BASIS, start, head + end);
    HashSplit(HashBytes(OFFSET_BASIS, start), head, end);
  }

  lemma HashOfFirst(d: Delivery)
    requires d.entry.recordIndex == 0 && d.entry.arrival == 0 && |d.payload| == 20
    ensures HashInputs([d]) == START + d.payload
  {
    StartOfInput();
    hide EncodeLE;
    assert [d][1..] == [];
    assert HashInputs([d]) == HashInput(d) + [];
  }

  lemma OneDelivered(ds: seq<Delivery>, r: Record, o: Options, codec: Codec)
    requires AllLoadable([r], codec) && ReplayOfRecords(ds, [r], o, codec)
    requires InWindow(r.arrival, o)
    ensures |ds| == 1 && ds[0].entry.recordIndex == 0
    ensures ds[0].entry.arrival == r.arrival && ds[0].payload == r.payload
  {
    hide InWindow, Loadable, EventOf;
    DeliveredInOrder(ds, [r], o, codec);
    assert ArrivalsOf([r])[0] == r.arrival;
    SameOrder(NumbersOf(ds), [0], ArrivalsOf([r]));
    assert NumbersOf(ds)[0] == 0;
    assert OfRecord(ds[0], [r], codec);
  }

  lemma HashOfOne(created: I64, payload: seq<Byte>, limit: nat, o: Options, consumer: Consumer, codec: Codec)
    requires |payload| == 20 && Loadable(Record(0, payload), codec)
    requires 1 <= limit < TWO_64
    requires OptionsValid(o) && Accepting(consumer) && InWindow(0, o)
    ensures var r := ReplayOfLog(created, [Record(0, payload)], limit, o, consumer, codec);
      && r.status == ReplayComplete
      && |r.delivered| == 1 && r.delivered[0].payload == payload
      && r.hash == HashBytes(OFFSET_BASIS, START + payload)
  {
    var rs := [Record(0, payload)];
    assert AllLoadable(rs, codec);
    hide ReplayOfLog, ReplayOfRecords, Loadable, HashBytes, HashInputs, OptionsValid, Accepting, InWindow;
    LogReplayed(created, rs, limit, o, consumer, codec);
    var r := ReplayOfLog(created, rs, limit, o, consumer, codec);
    OneDelivered(r.delivered, rs[0], o, codec);
    assert r.delivered == [r.delivered[0]];
    HashOfFirst(r.delivered[0]);
  }

  /** A change that the hash does not detect. Two logs of one temperature event each, received at
      time zero, whose readings differ in seven consecutive bytes: over every window that holds them
      both are replayed completely, to different payloads, and the hashes are the same. */
  lemma ChangeMissed(created: (I64, I64), limit: nat, o: Options, consumer: Consumer, codec: Codec)
    requires Loadable(Record(0, ONE), codec) && Loadable(Record(0, OTHER), codec)
    requires 1 <= limit < TWO_64
    requires OptionsValid(o) && Accepting(consumer) && InWindow(0, o)
    ensures var r := ReplayOfLog(created.0, [Record(0, ONE)], limit, o, consumer, codec);
      var q := ReplayOfLog(created.1, [Record(0, OTHER)], limit, o, consumer, codec);
      && r.status == q.status == ReplayComplete
      && |r.delivered| == |q.delivered| == 1
      && r.delivered[0].payload == ONE && q.delivered[0].payload == OTHER
      && r.hash == q.hash
    ensures ONE != OTHER && DifferWithin(ONE, OTHER, 12, 7)
  {
    hide ReplayOfLog, Loadable, HashBytes, OptionsValid, Accepting, InWindow;
    HashOfOne(created.0, ONE, limit, o, consumer, codec);
    HashOfOne(created.1, OTHER, limit, o, consumer, codec);
    PayloadHashes();
    assert ONE[12] != OTHER[12];
  }
}
