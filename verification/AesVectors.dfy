/**
 The example of FIPS 197: the key of appendix A.1, and its cipher in appendix B. It fixes where every part of the key
 enters, which no law about the two ciphers alone can do.
 */
module AesVectors {
  import opened AesTables
  import opened Gf256
  import opened AesBlock
  import opened AesKeySchedule

  const KEY: Block := [0x2b, 0x7e, 0x15, 0x16, 0x28, 0xae, 0xd2, 0xa6, 0xab, 0xf7, 0x15, 0x88, 0x09, 0xcf, 0x4f, 0x3c]
  const PLAIN: Block := [0x32, 0x43, 0xf6, 0xa8, 0x88, 0x5a, 0x30, 0x8d, 0x31, 0x31, 0x98, 0xa2, 0xe0, 0x37, 0x07, 0x34]
  const CIPHERTEXT: Block := [0x39, 0x25, 0x84, 0x1d, 0x02, 0xdc, 0x09, 0xfb, 0xdc, 0x11, 0x85, 0x97, 0x19, 0x6a, 0x0b, 0x32]

  // ---- a round entry by entry ----

  lemma SubShiftList(s: Block)
    ensures ShiftRows(SubBytes(s))
         == [SBox(s[0]), SBox(s[5]), SBox(s[10]), SBox(s[15]), SBox(s[4]), SBox(s[9]), SBox(s[14]), SBox(s[3]),
             SBox(s[8]), SBox(s[13]), SBox(s[2]), SBox(s[7]), SBox(s[12]), SBox(s[1]), SBox(s[6]), SBox(s[11])]
  {
    hide SBox, ShiftRows;
    ShiftRowsList(SubBytes(s));
  }

  function All(s: Block, c: nat): bv8
    requires c < 4
  {
    Xor(Xor(Xor(s[4 * c], s[4 * c + 1]), s[4 * c + 2]), s[4 * c + 3])
  }

  /** One entry of a mixed column, as the firmware computes it from two entries and the sum of all four. */
  function Mixed(a: bv8, b: bv8, all: bv8): bv8 {
    Xor(a, Xor(XTime(Xor(a, b)), all))
  }

  lemma MixedColumn(s: Block, c: nat)
    requires c < 4
    ensures var m, all := MixColumns(s), All(s, c);
            && m[4 * c] == Mixed(s[4 * c], s[4 * c + 1], all) && m[4 * c + 1] == Mixed(s[4 * c + 1], s[4 * c + 2], all)
            && m[4 * c + 2] == Mixed(s[4 * c + 2], s[4 * c + 3], all) && m[4 * c + 3] == Mixed(s[4 * c + 3], s[4 * c], all)
  {
    hide Xor, XTime, MixColumns, MixRow;
    MixRowShortcut(s[4 * c], s[4 * c + 1], s[4 * c + 2], s[4 * c + 3]);
    ColumnEntry(s, c, 0);
    ColumnEntry(s, c, 1);
    ColumnEntry(s, c, 2);
    ColumnEntry(s, c, 3);
  }

  lemma Sixteen(s: Block)
    ensures s == [s[0], s[1], s[2], s[3], s[4], s[5], s[6], s[7], s[8], s[9], s[10], s[11], s[12], s[13], s[14], s[15]]
  {
  }

  lemma MixList(s: Block)
    ensures MixColumns(s)
         == [Mixed(s[0], s[1], All(s, 0)), Mixed(s[1], s[2], All(s, 0)), Mixed(s[2], s[3], All(s, 0)), Mixed(s[3], s[0], All(s, 0)),
             Mixed(s[4], s[5], All(s, 1)), Mixed(s[5], s[6], All(s, 1)), Mixed(s[6], s[7], All(s, 1)), Mixed(s[7], s[4], All(s, 1)),
             Mixed(s[8], s[9], All(s, 2)), Mixed(s[9], s[10], All(s, 2)), Mixed(s[10], s[11], All(s, 2)), Mixed(s[11], s[8], All(s, 2)),
             Mixed(s[12], s[13], All(s, 3)), Mixed(s[13], s[14], All(s, 3)), Mixed(s[14], s[15], All(s, 3)), Mixed(s[15], s[12], All(s, 3))]
  {
    hide MixColumns, Mixed, All;
    MixedColumn(s, 0);
    MixedColumn(s, 1);
    MixedColumn(s, 2);
    MixedColumn(s, 3);
    Sixteen(MixColumns(s));
  }

  lemma XorEntry(s: Block, t: Block, k: nat)
    requires k < 16
    ensures XorBlocks(s, t)[k] == Xor(s[k], t[k])
  {
  }

  lemma XorList(s: Block, t: Block)
    ensures XorBlocks(s, t)
         == [Xor(s[0], t[0]), Xor(s[1], t[1]), Xor(s[2], t[2]), Xor(s[3], t[3]),
             Xor(s[4], t[4]), Xor(s[5], t[5]), Xor(s[6], t[6]), Xor(s[7], t[7]),
             Xor(s[8], t[8]), Xor(s[9], t[9]), Xor(s[10], t[10]), Xor(s[11], t[11]),
             Xor(s[12], t[12]), Xor(s[13], t[13]), Xor(s[14], t[14]), Xor(s[15], t[15])]
  {
    hide XorBlocks, Xor;
    forall k | 0 <= k < 16 ensures XorBlocks(s, t)[k] == Xor(s[k], t[k]) {
      XorEntry(s, t, k);
    }
    Sixteen(XorBlocks(s, t));
  }

  lemma RoundKeyWords(key: Block, r: nat)
    requires r <= ROUNDS
    ensures RoundKey(KeySchedule(key), r)
         == ScheduleWord(key, 4 * r) + ScheduleWord(key, 4 * r + 1) + ScheduleWord(key, 4 * r + 2) + ScheduleWord(key, 4 * r + 3)
  {
    hide ScheduleWord;
  }

  // ---- the schedule of the key ----

  lemma Words0()
    ensures ScheduleWord(KEY, 0) == [0x2b, 0x7e, 0x15, 0x16]
    ensures ScheduleWord(KEY, 1) == [0x28, 0xae, 0xd2, 0xa6]
    ensures ScheduleWord(KEY, 2) == [0xab, 0xf7, 0x15, 0x88]
    ensures ScheduleWord(KEY, 3) == [0x09, 0xcf, 0x4f, 0x3c]
  {
  }

  lemma Words1()
    ensures ScheduleWord(KEY, 4) == [0xa0, 0xfa, 0xfe, 0x17]
    ensures ScheduleWord(KEY, 5) == [0x88, 0x54, 0x2c, 0xb1]
    ensures ScheduleWord(KEY, 6) == [0x23, 0xa3, 0x39, 0x39]
    ensures ScheduleWord(KEY, 7) == [0x2a, 0x6c, 0x76, 0x05]
  {
    hide ScheduleWord;
    Words0();
    ScheduleStep(KEY, 4);
    assert ScheduleWord(KEY, 4) == [0xa0, 0xfa, 0xfe, 0x17];
    ScheduleStep(KEY, 5);
    assert ScheduleWord(KEY, 5) == [0x88, 0x54, 0x2c, 0xb1];
    ScheduleStep(KEY, 6);
    assert ScheduleWord(KEY, 6) == [0x23, 0xa3, 0x39, 0x39];
    ScheduleStep(KEY, 7);
    assert ScheduleWord(KEY, 7) == [0x2a, 0x6c, 0x76, 0x05];
  }

  lemma Words2()
    ensures ScheduleWord(KEY, 8) == [0xf2, 0xc2, 0x95, 0xf2]
    ensures ScheduleWord(KEY, 9) == [0x7a, 0x96, 0xb9, 0x43]
    ensures ScheduleWord(KEY, 10) == [0x59, 0x35, 0x80, 0x7a]
    ensures ScheduleWord(KEY, 11) == [0x73, 0x59, 0xf6, 0x7f]
  {
    hide ScheduleWord;
    Words1();
    ScheduleStep(KEY, 8);
    assert ScheduleWord(KEY, 8) == [0xf2, 0xc2, 0x95, 0xf2];
    ScheduleStep(KEY, 9);
    assert ScheduleWord(KEY, 9) == [0x7a, 0x96, 0xb9, 0x43];
    ScheduleStep(KEY, 10);
    assert ScheduleWord(KEY, 10) == [0x59, 0x35, 0x80, 0x7a];
    ScheduleStep(KEY, 11);
    assert ScheduleWord(KEY, 11) == [0x73, 0x59, 0xf6, 0x7f];
  }

  lemma Words3()
    ensures ScheduleWord(KEY, 12) == [0x3d, 0x80, 0x47, 0x7d]
    ensures ScheduleWord(KEY, 13) == [0x47, 0x16, 0xfe, 0x3e]
    ensures ScheduleWord(KEY, 14) == [0x1e, 0x23, 0x7e, 0x44]
    ensures ScheduleWord(KEY, 15) == [0x6d, 0x7a, 0x88, 0x3b]
  {
    hide ScheduleWord;
    Words2();
    ScheduleStep(KEY, 12);
    assert ScheduleWord(KEY, 12) == [0x3d, 0x80, 0x47, 0x7d];
    ScheduleStep(KEY, 13);
    assert ScheduleWord(KEY, 13) == [0x47, 0x16, 0xfe, 0x3e];
    ScheduleStep(KEY, 14);
    assert ScheduleWord(KEY, 14) == [0x1e, 0x23, 0x7e, 0x44];
    ScheduleStep(KEY, 15);
    assert ScheduleWord(KEY, 15) == [0x6d, 0x7a, 0x88, 0x3b];
  }

  lemma Words4()
    ensures ScheduleWord(KEY, 16) == [0xef, 0x44, 0xa5, 0x41]
    ensures ScheduleWord(KEY, 17) == [0xa8, 0x52, 0x5b, 0x7f]
    ensures ScheduleWord(KEY, 18) == [0xb6, 0x71, 0x25, 0x3b]
    ensures ScheduleWord(KEY, 19) == [0xdb, 0x0b, 0xad, 0x00]
  {
    hide ScheduleWord;
    Words3();
    ScheduleStep(KEY, 16);
    assert ScheduleWord(KEY, 16) == [0xef, 0x44, 0xa5, 0x41];
    ScheduleStep(KEY, 17);
    assert ScheduleWord(KEY, 17) == [0xa8, 0x52, 0x5b, 0x7f];
    ScheduleStep(KEY, 18);
    assert ScheduleWord(KEY, 18) == [0xb6, 0x71, 0x25, 0x3b];
    ScheduleStep(KEY, 19);
    assert ScheduleWord(KEY, 19) == [0xdb, 0x0b, 0xad, 0x00];
  }

  lemma Words5()
    ensures ScheduleWord(KEY, 20) == [0xd4, 0xd1, 0xc6, 0xf8]
    ensures ScheduleWord(KEY, 21) == [0x7c, 0x83, 0x9d, 0x87]
    ensures ScheduleWord(KEY, 22) == [0xca, 0xf2, 0xb8, 0xbc]
    ensures ScheduleWord(KEY, 23) == [0x11, 0xf9, 0x15, 0xbc]
  {
    hide ScheduleWord;
    Words4();
    ScheduleStep(KEY, 20);
    assert ScheduleWord(KEY, 20) == [0xd4, 0xd1, 0xc6, 0xf8];
    ScheduleStep(KEY, 21);
    assert ScheduleWord(KEY, 21) == [0x7c, 0x83, 0x9d, 0x87];
    ScheduleStep(KEY, 22);
    assert ScheduleWord(KEY, 22) == [0xca, 0xf2, 0xb8, 0xbc];
    ScheduleStep(KEY, 23);
    assert ScheduleWord(KEY, 23) == [0x11, 0xf9, 0x15, 0xbc];
  }

  lemma Words6()
    ensures ScheduleWord(KEY, 24) == [0x6d, 0x88, 0xa3, 0x7a]
    ensures ScheduleWord(KEY, 25) == [0x11, 0x0b, 0x3e, 0xfd]
    ensures ScheduleWord(KEY, 26) == [0xdb, 0xf9, 0x86, 0x41]
    ensures ScheduleWord(KEY, 27) == [0xca, 0x00, 0x93, 0xfd]
  {
    hide ScheduleWord;
    Words5();
    ScheduleStep(KEY, 24);
    assert ScheduleWord(KEY, 24) == [0x6d, 0x88, 0xa3, 0x7a];
    ScheduleStep(KEY, 25);
    assert ScheduleWord(KEY, 25) == [0x11, 0x0b, 0x3e, 0xfd];
    ScheduleStep(KEY, 26);
    assert ScheduleWord(KEY, 26) == [0xdb, 0xf9, 0x86, 0x41];
    ScheduleStep(KEY, 27);
    assert ScheduleWord(KEY, 27) == [0xca, 0x00, 0x93, 0xfd];
  }

  lemma Words7()
    ensures ScheduleWord(KEY, 28) == [0x4e, 0x54, 0xf7, 0x0e]
    ensures ScheduleWord(KEY, 29) == [0x5f, 0x5f, 0xc9, 0xf3]
    ensures ScheduleWord(KEY, 30) == [0x84, 0xa6, 0x4f, 0xb2]
    ensures ScheduleWord(KEY, 31) == [0x4e, 0xa6, 0xdc, 0x4f]
  {
    hide ScheduleWord;
    Words6();
    ScheduleStep(KEY, 28);
    assert ScheduleWord(KEY, 28) == [0x4e, 0x54, 0xf7, 0x0e];
    ScheduleStep(KEY, 29);
    assert ScheduleWord(KEY, 29) == [0x5f, 0x5f, 0xc9, 0xf3];
    ScheduleStep(KEY, 30);
    assert ScheduleWord(KEY, 30) == [0x84, 0xa6, 0x4f, 0xb2];
    ScheduleStep(KEY, 31);
    assert ScheduleWord(KEY, 31) == [0x4e, 0xa6, 0xdc, 0x4f];
  }

  lemma Words8()
    ensures ScheduleWord(KEY, 32) == [0xea, 0xd2, 0x73, 0x21]
    ensures ScheduleWord(KEY, 33) == [0xb5, 0x8d, 0xba, 0xd2]
    ensures ScheduleWord(KEY, 34) == [0x31, 0x2b, 0xf5, 0x60]
    ensures ScheduleWord(KEY, 35) == [0x7f, 0x8d, 0x29, 0x2f]
  {
    hide ScheduleWord;
    Words7();
    ScheduleStep(KEY, 32);
    assert ScheduleWord(KEY, 32) == [0xea, 0xd2, 0x73, 0x21];
    ScheduleStep(KEY, 33);
    assert ScheduleWord(KEY, 33) == [0xb5, 0x8d, 0xba, 0xd2];
    ScheduleStep(KEY, 34);
    assert ScheduleWord(KEY, 34) == [0x31, 0x2b, 0xf5, 0x60];
    ScheduleStep(KEY, 35);
    assert ScheduleWord(KEY, 35) == [0x7f, 0x8d, 0x29, 0x2f];
  }

  lemma Words9()
    ensures ScheduleWord(KEY, 36) == [0xac, 0x77, 0x66, 0xf3]
    ensures ScheduleWord(KEY, 37) == [0x19, 0xfa, 0xdc, 0x21]
    ensures ScheduleWord(KEY, 38) == [0x28, 0xd1, 0x29, 0x41]
    ensures ScheduleWord(KEY, 39) == [0x57, 0x5c, 0x00, 0x6e]
  {
    hide ScheduleWord;
    Words8();
    ScheduleStep(KEY, 36);
    assert ScheduleWord(KEY, 36) == [0xac, 0x77, 0x66, 0xf3];
    ScheduleStep(KEY, 37);
    assert ScheduleWord(KEY, 37) == [0x19, 0xfa, 0xdc, 0x21];
    ScheduleStep(KEY, 38);
    assert ScheduleWord(KEY, 38) == [0x28, 0xd1, 0x29, 0x41];
    ScheduleStep(KEY, 39);
    assert ScheduleWord(KEY, 39) == [0x57, 0x5c, 0x00, 0x6e];
  }

  lemma Words10()
    ensures ScheduleWord(KEY, 40) == [0xd0, 0x14, 0xf9, 0xa8]
    ensures ScheduleWord(KEY, 41) == [0xc9, 0xee, 0x25, 0x89]
    ensures ScheduleWord(KEY, 42) == [0xe1, 0x3f, 0x0c, 0xc8]
    ensures ScheduleWord(KEY, 43) == [0xb6, 0x63, 0x0c, 0xa6]
  {
    hide ScheduleWord;
    Words9();
    ScheduleStep(KEY, 40);
    assert ScheduleWord(KEY, 40) == [0xd0, 0x14, 0xf9, 0xa8];
    ScheduleStep(KEY, 41);
    assert ScheduleWord(KEY, 41) == [0xc9, 0xee, 0x25, 0x89];
    ScheduleStep(KEY, 42);
    assert ScheduleWord(KEY, 42) == [0xe1, 0x3f, 0x0c, 0xc8];
    ScheduleStep(KEY, 43);
    assert ScheduleWord(KEY, 43) == [0xb6, 0x63, 0x0c, 0xa6];
  }

  // ---- the rounds ----

  lemma State0()
    ensures AfterRounds(PLAIN, KeySchedule(KEY), 0)
         == [0x19, 0x3d, 0xe3, 0xbe, 0xa0, 0xf4, 0xe2, 0x2b, 0x9a, 0xc6, 0x8d, 0x2a, 0xe9, 0xf8, 0x48, 0x08]
  {
    hide XorBlocks, ScheduleWord, KeySchedule, RoundKey;
    Words0();
    RoundKeyWords(KEY, 0);
    XorList(PLAIN, RoundKey(KeySchedule(KEY), 0));
  }

  lemma State1()
    ensures AfterRounds(PLAIN, KeySchedule(KEY), 1)
         == [0xa4, 0x9c, 0x7f, 0xf2, 0x68, 0x9f, 0x35, 0x2b, 0x6b, 0x5b, 0xea, 0x43, 0x02, 0x6a, 0x50, 0x49]
  {
    hide XorBlocks, ShiftRows, SubBytes, MixColumns, ScheduleWord, KeySchedule, RoundKey;
    State0();
    var s: Block := [0x19, 0x3d, 0xe3, 0xbe, 0xa0, 0xf4, 0xe2, 0x2b, 0x9a, 0xc6, 0x8d, 0x2a, 0xe9, 0xf8, 0x48, 0x08];
    SubShiftList(s);
    var t: Block := [0xd4, 0xbf, 0x5d, 0x30, 0xe0, 0xb4, 0x52, 0xae, 0xb8, 0x41, 0x11, 0xf1, 0x1e, 0x27, 0x98, 0xe5];
    assert ShiftRows(SubBytes(s)) == t;
    MixList(t);
    var m: Block := [0x04, 0x66, 0x81, 0xe5, 0xe0, 0xcb, 0x19, 0x9a, 0x48, 0xf8, 0xd3, 0x7a, 0x28, 0x06, 0x26, 0x4c];
    assert MixColumns(t) == m;
    Words1();
    RoundKeyWords(KEY, 1);
    XorList(m, RoundKey(KeySchedule(KEY), 1));
  }

  lemma State2()
    ensures AfterRounds(PLAIN, KeySchedule(KEY), 2)
         == [0xaa, 0x8f, 0x5f, 0x03, 0x61, 0xdd, 0xe3, 0xef, 0x82, 0xd2, 0x4a, 0xd2, 0x68, 0x32, 0x46, 0x9a]
  {
    hide XorBlocks, ShiftRows, SubBytes, MixColumns, ScheduleWord, KeySchedule, RoundKey;
    State1();
    var s: Block := [0xa4, 0x9c, 0x7f, 0xf2, 0x68, 0x9f, 0x35, 0x2b, 0x6b, 0x5b, 0xea, 0x43, 0x02, 0x6a, 0x50, 0x49];
    SubShiftList(s);
    var t: Block := [0x49, 0xdb, 0x87, 0x3b, 0x45, 0x39, 0x53, 0x89, 0x7f, 0x02, 0xd2, 0xf1, 0x77, 0xde, 0x96, 0x1a];
    assert ShiftRows(SubBytes(s)) == t;
    MixList(t);
    var m: Block := [0x58, 0x4d, 0xca, 0xf1, 0x1b, 0x4b, 0x5a, 0xac, 0xdb, 0xe7, 0xca, 0xa8, 0x1b, 0x6b, 0xb0, 0xe5];
    assert MixColumns(t) == m;
    Words2();
    RoundKeyWords(KEY, 2);
    XorList(m, RoundKey(KeySchedule(KEY), 2));
  }

  lemma State3()
    ensures AfterRounds(PLAIN, KeySchedule(KEY), 3)
         == [0x48, 0x6c, 0x4e, 0xee, 0x67, 0x1d, 0x9d, 0x0d, 0x4d, 0xe3, 0xb1, 0x38, 0xd6, 0x5f, 0x58, 0xe7]
  {
    hide XorBlocks, ShiftRows, SubBytes, MixColumns, ScheduleWord, KeySchedule, RoundKey;
    State2();
    var s: Block := [0xaa, 0x8f, 0x5f, 0x03, 0x61, 0xdd, 0xe3, 0xef, 0x82, 0xd2, 0x4a, 0xd2, 0x68, 0x32, 0x46, 0x9a];
    SubShiftList(s);
    var t: Block := [0xac, 0xc1, 0xd6, 0xb8, 0xef, 0xb5, 0x5a, 0x7b, 0x13, 0x23, 0xcf, 0xdf, 0x45, 0x73, 0x11, 0xb5];
    assert ShiftRows(SubBytes(s)) == t;
    MixList(t);
    var m: Block := [0x75, 0xec, 0x09, 0x93, 0x20, 0x0b, 0x63, 0x33, 0x53, 0xc0, 0xcf, 0x7c, 0xbb, 0x25, 0xd0, 0xdc];
    assert MixColumns(t) == m;
    Words3();
    RoundKeyWords(KEY, 3);
    XorList(m, RoundKey(KeySchedule(KEY), 3));
  }

  lemma State4()
    ensures AfterRounds(PLAIN, KeySchedule(KEY), 4)
         == [0xe0, 0x92, 0x7f, 0xe8, 0xc8, 0x63, 0x63, 0xc0, 0xd9, 0xb1, 0x35, 0x50, 0x85, 0xb8, 0xbe, 0x01]
  {
    hide XorBlocks, ShiftRows, SubBytes, MixColumns, ScheduleWord, KeySchedule, RoundKey;
    State3();
    var s: Block := [0x48, 0x6c, 0x4e, 0xee, 0x67, 0x1d, 0x9d, 0x0d, 0x4d, 0xe3, 0xb1, 0x38, 0xd6, 0x5f, 0x58, 0xe7];
    SubShiftList(s);
    var t: Block := [0x52, 0xa4, 0xc8, 0x94, 0x85, 0x11, 0x6a, 0x28, 0xe3, 0xcf, 0x2f, 0xd7, 0xf6, 0x50, 0x5e, 0x07];
    assert ShiftRows(SubBytes(s)) == t;
    MixList(t);
    var m: Block := [0x0f, 0xd6, 0xda, 0xa9, 0x60, 0x31, 0x38, 0xbf, 0x6f, 0xc0, 0x10, 0x6b, 0x5e, 0xb3, 0x13, 0x01];
    assert MixColumns(t) == m;
    Words4();
    RoundKeyWords(KEY, 4);
    XorList(m, RoundKey(KeySchedule(KEY), 4));
  }

  lemma State5()
    ensures AfterRounds(PLAIN, KeySchedule(KEY), 5)
         == [0xf1, 0x00, 0x6f, 0x55, 0xc1, 0x92, 0x4c, 0xef, 0x7c, 0xc8, 0x8b, 0x32, 0x5d, 0xb5, 0xd5, 0x0c]
  {
    hide XorBlocks, ShiftRows, SubBytes, MixColumns, ScheduleWord, KeySchedule, RoundKey;
    State4();
    var s: Block := [0xe0, 0x92, 0x7f, 0xe8, 0xc8, 0x63, 0x63, 0xc0, 0xd9, 0xb1, 0x35, 0x50, 0x85, 0xb8, 0xbe, 0x01];
    SubShiftList(s);
    var t: Block := [0xe1, 0xfb, 0x96, 0x7c, 0xe8, 0xc8, 0xae, 0x9b, 0x35, 0x6c, 0xd2, 0xba, 0x97, 0x4f, 0xfb, 0x53];
    assert ShiftRows(SubBytes(s)) == t;
    MixList(t);
    var m: Block := [0x25, 0xd1, 0xa9, 0xad, 0xbd, 0x11, 0xd1, 0x68, 0xb6, 0x3a, 0x33, 0x8e, 0x4c, 0x4c, 0xc0, 0xb0];
    assert MixColumns(t) == m;
    Words5();
    RoundKeyWords(KEY, 5);
    XorList(m, RoundKey(KeySchedule(KEY), 5));
  }

  lemma State6()
    ensures AfterRounds(PLAIN, KeySchedule(KEY), 6)
         == [0x26, 0x0e, 0x2e, 0x17, 0x3d, 0x41, 0xb7, 0x7d, 0xe8, 0x64, 0x72, 0xa9, 0xfd, 0xd2, 0x8b, 0x25]
  {
    hide XorBlocks, ShiftRows, SubBytes, MixColumns, ScheduleWord, KeySchedule, RoundKey;
    State5();
    var s: Block := [0xf1, 0x00, 0x6f, 0x55, 0xc1, 0x92, 0x4c, 0xef, 0x7c, 0xc8, 0x8b, 0x32, 0x5d, 0xb5, 0xd5, 0x0c];
    SubShiftList(s);
    var t: Block := [0xa1, 0x4f, 0x3d, 0xfe, 0x78, 0xe8, 0x03, 0xfc, 0x10, 0xd5, 0xa8, 0xdf, 0x4c, 0x63, 0x29, 0x23];
    assert ShiftRows(SubBytes(s)) == t;
    MixList(t);
    var m: Block := [0x4b, 0x86, 0x8d, 0x6d, 0x2c, 0x4a, 0x89, 0x80, 0x33, 0x9d, 0xf4, 0xe8, 0x37, 0xd2, 0x18, 0xd8];
    assert MixColumns(t) == m;
    Words6();
    RoundKeyWords(KEY, 6);
    XorList(m, RoundKey(KeySchedule(KEY), 6));
  }

  lemma State7()
    ensures AfterRounds(PLAIN, KeySchedule(KEY), 7)
         == [0x5a, 0x41, 0x42, 0xb1, 0x19, 0x49, 0xdc, 0x1f, 0xa3, 0xe0, 0x19, 0x65, 0x7a, 0x8c, 0x04, 0x0c]
  {
    hide XorBlocks, ShiftRows, SubBytes, MixColumns, ScheduleWord, KeySchedule, RoundKey;
    State6();
    var s: Block := [0x26, 0x0e, 0x2e, 0x17, 0x3d, 0x41, 0xb7, 0x7d, 0xe8, 0x64, 0x72, 0xa9, 0xfd, 0xd2, 0x8b, 0x25];
    SubShiftList(s);
    var t: Block := [0xf7, 0x83, 0x40, 0x3f, 0x27, 0x43, 0x3d, 0xf0, 0x9b, 0xb5, 0x31, 0xff, 0x54, 0xab, 0xa9, 0xd3];
    assert ShiftRows(SubBytes(s)) == t;
    MixList(t);
    var m: Block := [0x14, 0x15, 0xb5, 0xbf, 0x46, 0x16, 0x15, 0xec, 0x27, 0x46, 0x56, 0xd7, 0x34, 0x2a, 0xd8, 0x43];
    assert MixColumns(t) == m;
    Words7();
    RoundKeyWords(KEY, 7);
    XorList(m, RoundKey(KeySchedule(KEY), 7));
  }

  lemma State8()
    ensures AfterRounds(PLAIN, KeySchedule(KEY), 8)
         == [0xea, 0x83, 0x5c, 0xf0, 0x04, 0x45, 0x33, 0x2d, 0x65, 0x5d, 0x98, 0xad, 0x85, 0x96, 0xb0, 0xc5]
  {
    hide XorBlocks, ShiftRows, SubBytes, MixColumns, ScheduleWord, KeySchedule, RoundKey;
    State7();
    var s: Block := [0x5a, 0x41, 0x42, 0xb1, 0x19, 0x49, 0xdc, 0x1f, 0xa3, 0xe0, 0x19, 0x65, 0x7a, 0x8c, 0x04, 0x0c];
    SubShiftList(s);
    var t: Block := [0xbe, 0x3b, 0xd4, 0xfe, 0xd4, 0xe1, 0xf2, 0xc8, 0x0a, 0x64, 0x2c, 0xc0, 0xda, 0x83, 0x86, 0x4d];
    assert ShiftRows(SubBytes(s)) == t;
    MixList(t);
    var m: Block := [0x00, 0x51, 0x2f, 0xd1, 0xb1, 0xc8, 0x89, 0xff, 0x54, 0x76, 0x6d, 0xcd, 0xfa, 0x1b, 0x99, 0xea];
    assert MixColumns(t) == m;
    Words8();
    RoundKeyWords(KEY, 8);
    XorList(m, RoundKey(KeySchedule(KEY), 8));
  }

  lemma State9()
    ensures AfterRounds(PLAIN, KeySchedule(KEY), 9)
         == [0xeb, 0x40, 0xf2, 0x1e, 0x59, 0x2e, 0x38, 0x84, 0x8b, 0xa1, 0x13, 0xe7, 0x1b, 0xc3, 0x42, 0xd2]
  {
    hide XorBlocks, ShiftRows, SubBytes, MixColumns, ScheduleWord, KeySchedule, RoundKey;
    State8();
    var s: Block := [0xea, 0x83, 0x5c, 0xf0, 0x04, 0x45, 0x33, 0x2d, 0x65, 0x5d, 0x98, 0xad, 0x85, 0x96, 0xb0, 0xc5];
    SubShiftList(s);
    var t: Block := [0x87, 0x6e, 0x46, 0xa6, 0xf2, 0x4c, 0xe7, 0x8c, 0x4d, 0x90, 0x4a, 0xd8, 0x97, 0xec, 0xc3, 0x95];
    assert ShiftRows(SubBytes(s)) == t;
    MixList(t);
    var m: Block := [0x47, 0x37, 0x94, 0xed, 0x40, 0xd4, 0xe4, 0xa5, 0xa3, 0x70, 0x3a, 0xa6, 0x4c, 0x9f, 0x42, 0xbc];
    assert MixColumns(t) == m;
    Words9();
    RoundKeyWords(KEY, 9);
    XorList(m, RoundKey(KeySchedule(KEY), 9));
  }

  /** The example of appendix B. */
  lemma CipherOfExample()
    ensures Cipher(PLAIN, KeySchedule(KEY)) == CIPHERTEXT
  {
    hide XorBlocks, ShiftRows, SubBytes, MixColumns, ScheduleWord, KeySchedule, RoundKey;
    State9();
    var s: Block := [0xeb, 0x40, 0xf2, 0x1e, 0x59, 0x2e, 0x38, 0x84, 0x8b, 0xa1, 0x13, 0xe7, 0x1b, 0xc3, 0x42, 0xd2];
    SubShiftList(s);
    var t: Block := [0xe9, 0x31, 0x7d, 0xb5, 0xcb, 0x32, 0x2c, 0x72, 0x3d, 0x2e, 0x89, 0x5f, 0xaf, 0x09, 0x07, 0x94];
    assert ShiftRows(SubBytes(s)) == t;
    Words10();
    RoundKeyWords(KEY, 10);
    XorList(t, RoundKey(KeySchedule(KEY), 10));
  }

  lemma InvCipherOfExample()
    ensures InvCipher(CIPHERTEXT, KeySchedule(KEY)) == PLAIN
  {
    hide Cipher, InvCipher, KeySchedule;
    CipherOfExample();
    InvCipherUndoesCipher(PLAIN, KeySchedule(KEY));
  }
}
