/** The checksum against the published check value of CRC32C, which is that of the digits one to nine. */
module CastagnoliCheck {
  import opened Octets
  import opened Castagnoli

  const DIGITS: seq<Byte> := [0x31, 0x32, 0x33, 0x34, 0x35, 0x36, 0x37, 0x38, 0x39]

  predicate Follow(x: bv32, y: bv32) {
    BitStep(x) == y
  }

  /** Taking up a byte, bit by bit. */
  lemma ByteIs(c: bv32, b: Byte, x0: bv32, x1: bv32, x2: bv32, x3: bv32, x4: bv32, x5: bv32, x6: bv32, x7: bv32,
          x8: bv32)
    requires Xor(c, b as bv32) == x0
    requires Follow(x0, x1) && Follow(x1, x2) && Follow(x2, x3) && Follow(x3, x4)
    requires Follow(x4, x5) && Follow(x5, x6) && Follow(x6, x7) && Follow(x7, x8)
    ensures ByteStep(c, b) == x8
  {
    hide BitStep, Xor;
    BitStepsUnfold(x0, 8);
    BitStepsUnfold(x1, 7);
    BitStepsUnfold(x2, 6);
    BitStepsUnfold(x3, 5);
    BitStepsUnfold(x4, 4);
    BitStepsUnfold(x5, 3);
    BitStepsUnfold(x6, 2);
    BitStepsUnfold(x7, 1);
    BitStepsUnfold(x8, 0);
  }

  lemma ReadByte(c: bv32, s: seq<Byte>, i: nat)
    requires i < |s|
    ensures Register(c, s[i..]) == Register(ByteStep(c, s[i]), s[i + 1..])
  {
    hide ByteStep;
    assert s[i..][1..] == s[i + 1..];
  }

  lemma ReadNothing(c: bv32, s: seq<Byte>)
    requires s == []
    ensures Register(c, s) == c
  {
  }

  lemma DigitOne()
    ensures ByteStep(0xFFFF_FFFF, 0x31) == 0x6F0A_661C
  {
    hide ByteStep;
    ByteIs(0xFFFF_FFFF, 0x31,
      0xFFFF_FFCE, 0x7FFF_FFE7, 0xBD09_C48B, 0xDC72_D93D, 0xECCF_57E6,
      0x7667_ABF3, 0xB9C5_EE81, 0xDE14_CC38, 0x6F0A_661C);
  }

  lemma DigitTwo()
    ensures ByteStep(0x6F0A_661C, 0x32) == 0x8CAA_3B9F
  {
    hide ByteStep;
    ByteIs(0x6F0A_661C, 0x32,
      0x6F0A_662E, 0x3785_3317, 0x9934_A2F3, 0xCE6C_6A01, 0xE5C0_0E78,
      0x72E0_073C, 0x3970_039E, 0x1CB8_01CF, 0x8CAA_3B9F);
  }

  lemma DigitThree()
    ensures ByteStep(0x8CAA_3B9F, 0x33) == 0xEF84_D04D
  {
    hide ByteStep;
    ByteIs(0x8CAA_3B9F, 0x33,
      0x8CAA_3BAC, 0x4655_1DD6, 0x232A_8EEB, 0x9363_7C0D, 0xCB47_857E,
      0x65A3_C2BF, 0xB027_DA27, 0xDAE5_D66B, 0xEF84_D04D);
  }

  lemma DigitFour()
    ensures ByteStep(0xEF84_D04D, 0x34) == 0x09C5_0B11
  {
    hide ByteStep;
    ByteIs(0xEF84_D04D, 0x34,
      0xEF84_D079, 0xF534_5344, 0x7A9A_29A2, 0x3D4D_14D1, 0x9C50_B110,
      0x4E28_5888, 0x2714_2C44, 0x138A_1622, 0x09C5_0B11);
  }

  lemma DigitFive()
    ensures ByteStep(0x09C5_0B11, 0x35) == 0xE72E_DCCA
  {
    hide ByteStep;
    ByteIs(0x09C5_0B11, 0x35,
      0x09C5_0B24, 0x04E2_8592, 0x0271_42C9, 0x83CE_9A1C, 0x41E7_4D0E,
      0x20F3_A687, 0x928F_E83B, 0xCBB1_CF65, 0xE72E_DCCA);
  }

  lemma DigitSix()
    ensures ByteStep(0xE72E_DCCA, 0x36) == 0xBECA_8E79
  {
    hide ByteStep;
    ByteIs(0xE72E_DCCA, 0x36,
      0xE72E_DCFC, 0x7397_6E7E, 0x39CB_B73F, 0x9E13_E0E7, 0xCDFF_CB0B,
      0xE409_DEFD, 0xF0F2_D406, 0x7879_6A03, 0xBECA_8E79);
  }

  lemma DigitSeven()
    ensures ByteStep(0xBECA_8E79, 0x37) == 0xEDBD_6815
  {
    hide ByteStep;
    ByteIs(0xBECA_8E79, 0x37,
      0xBECA_8E4E, 0x5F65_4727, 0xAD44_98EB, 0xD454_770D, 0xE8DC_00FE,
      0x746E_007F, 0xB8C1_3B47, 0xDE96_A6DB, 0xEDBD_6815);
  }

  lemma DigitEight()
    ensures ByteStep(0xEDBD_6815, 0x38) == 0x9F78_7F65
  {
    hide ByteStep;
    ByteIs(0xEDBD_6815, 0x38,
      0xEDBD_682D, 0xF428_8F6E, 0x7A14_47B7, 0xBFFC_18A3, 0xDD08_3729,
      0xEC72_20EC, 0x7639_1076, 0x3B1C_883B, 0x9F78_7F65);
  }

  lemma DigitNine()
    ensures ByteStep(0x9F78_7F65, 0x39) == 0x1CF9_6D7C
  {
    hide ByteStep;
    ByteIs(0x9F78_7F65, 0x39,
      0x9F78_7F5C, 0x4FBC_3FAE, 0x27DE_1FD7, 0x9119_3493, 0xCA7A_A131,
      0xE7CB_6BE0, 0x73E5_B5F0, 0x39F2_DAF8, 0x1CF9_6D7C);
  }

  /** The published check value. */
  lemma CheckValue()
    ensures Checksum(DIGITS) == 0xE306_9283
  {
    var s := DIGITS;
    assert s[0] == 0x31 && s[1] == 0x32 && s[2] == 0x33 && s[3] == 0x34 && s[4] == 0x35;
    assert s[5] == 0x36 && s[6] == 0x37 && s[7] == 0x38 && s[8] == 0x39;
    assert |s| == 9 && s[0..] == s && s[9..] == [];
    hide DIGITS, Register, ByteStep;
    DigitOne();
    DigitTwo();
    DigitThree();
    DigitFour();
    DigitFive();
    DigitSix();
    DigitSeven();
    DigitEight();
    DigitNine();
    ReadByte(0xFFFF_FFFF, s, 0);
    ReadByte(0x6F0A_661C, s, 1);
    ReadByte(0x8CAA_3B9F, s, 2);
    ReadByte(0xEF84_D04D, s, 3);
    ReadByte(0x09C5_0B11, s, 4);
    ReadByte(0xE72E_DCCA, s, 5);
    ReadByte(0xBECA_8E79, s, 6);
    ReadByte(0xEDBD_6815, s, 7);
    ReadByte(0x9F78_7F65, s, 8);
    ReadNothing(0x1CF9_6D7C, s[9..]);
    Complement();
  }

  lemma Complement()
    ensures PRESET == 0xFFFF_FFFF && !(0x1CF9_6D7C as bv32) == 0xE306_9283
  {
  }
}
