/** The digests that src/test/hash.cpp expects: of the empty message and of one sentence. */
module Sha256Vectors {
  import opened Words
  import opened Sha256Spec

  // ---- one step ----

  /** A row of sixteen bytes of a block holds four of its words. */
  lemma FirstWords(b: seq<Octet>, r: nat, row: seq<Octet>)
    requires |b| == 64 && r < 4 && |row| == 16 && b[16 * r..16 * r + 16] == row
    ensures forall j: nat :: j < 4 ==> Schedule(b, 4 * r + j) == BlockWord(row, j)
  {
    assert forall i :: 0 <= i < 16 ==> row[i] == b[16 * r + i];
  }

  lemma NextWord(b: seq<Octet>, t: nat, w: Word)
    requires |b| == 64 && 16 <= t < 64
    requires ScheduleWord(Schedule(b, t - 2), Schedule(b, t - 7), Schedule(b, t - 15), Schedule(b, t - 16)) == w
    ensures Schedule(b, t) == w
  {
    hide ScheduleWord;
  }

  /** a and e are the two variables that are not merely moved on. */
  lemma NextRound(b: seq<Octet>, t: nat, a: Word, e: Word, k: Word, w: Word)
    requires |b| == 64 && t < 64 && Schedule(b, t) == w && K(t) == k
    requires var v := Rounds(Load(H0), b, t); Round(v, k, w) == Vars(a, v.a, v.b, v.c, e, v.e, v.f, v.g)
    ensures var v := Rounds(Load(H0), b, t); Rounds(Load(H0), b, t + 1) == Vars(a, v.a, v.b, v.c, e, v.e, v.f, v.g)
  {
    hide Round, K, Schedule;
  }

  lemma NoRounds(b: seq<Octet>)
    requires |b| == 64
    ensures Rounds(Load(H0), b, 0) == Vars(0x6A09E667, 0xBB67AE85, 0x3C6EF372, 0xA54FF53A, 0x510E527F, 0x9B05688C, 0x1F83D9AB, 0x5BE0CD19)
  {
  }

  lemma K0()
    ensures K(0) == 0x428A2F98 && K(1) == 0x71374491 && K(2) == 0xB5C0FBCF && K(3) == 0xE9B5DBA5
    ensures K(4) == 0x3956C25B && K(5) == 0x59F111F1 && K(6) == 0x923F82A4 && K(7) == 0xAB1C5ED5
  {
  }

  lemma K8()
    ensures K(8) == 0xD807AA98 && K(9) == 0x12835B01 && K(10) == 0x243185BE && K(11) == 0x550C7DC3
    ensures K(12) == 0x72BE5D74 && K(13) == 0x80DEB1FE && K(14) == 0x9BDC06A7 && K(15) == 0xC19BF174
  {
  }

  lemma K16()
    ensures K(16) == 0xE49B69C1 && K(17) == 0xEFBE4786 && K(18) == 0x0FC19DC6 && K(19) == 0x240CA1CC
    ensures K(20) == 0x2DE92C6F && K(21) == 0x4A7484AA && K(22) == 0x5CB0A9DC && K(23) == 0x76F988DA
  {
  }

  lemma K24()
    ensures K(24) == 0x983E5152 && K(25) == 0xA831C66D && K(26) == 0xB00327C8 && K(27) == 0xBF597FC7
    ensures K(28) == 0xC6E00BF3 && K(29) == 0xD5A79147 && K(30) == 0x06CA6351 && K(31) == 0x14292967
  {
  }

  lemma K32()
    ensures K(32) == 0x27B70A85 && K(33) == 0x2E1B2138 && K(34) == 0x4D2C6DFC && K(35) == 0x53380D13
    ensures K(36) == 0x650A7354 && K(37) == 0x766A0ABB && K(38) == 0x81C2C92E && K(39) == 0x92722C85
  {
  }

  lemma K40()
    ensures K(40) == 0xA2BFE8A1 && K(41) == 0xA81A664B && K(42) == 0xC24B8B70 && K(43) == 0xC76C51A3
    ensures K(44) == 0xD192E819 && K(45) == 0xD6990624 && K(46) == 0xF40E3585 && K(47) == 0x106AA070
  {
  }

  lemma K48()
    ensures K(48) == 0x19A4C116 && K(49) == 0x1E376C08 && K(50) == 0x2748774C && K(51) == 0x34B0BCB5
    ensures K(52) == 0x391C0CB3 && K(53) == 0x4ED8AA4A && K(54) == 0x5B9CCA4F && K(55) == 0x682E6FF3
  {
  }

  lemma K56()
    ensures K(56) == 0x748F82EE && K(57) == 0x78A5636F && K(58) == 0x84C87814 && K(59) == 0x8CC70208
    ensures K(60) == 0x90BEFFFA && K(61) == 0xA4506CEB && K(62) == 0xBEF9A3F7 && K(63) == 0xC67178F2
  {
  }

  const EMPTY0: seq<Octet> := [0x80, 0x00, 0x00, 0x00, 0x00, 0x00, 0x00, 0x00, 0x00, 0x00, 0x00, 0x00, 0x00, 0x00, 0x00, 0x00]
  const EMPTY1: seq<Octet> := [0x00, 0x00, 0x00, 0x00, 0x00, 0x00, 0x00, 0x00, 0x00, 0x00, 0x00, 0x00, 0x00, 0x00, 0x00, 0x00]
  const EMPTY2: seq<Octet> := [0x00, 0x00, 0x00, 0x00, 0x00, 0x00, 0x00, 0x00, 0x00, 0x00, 0x00, 0x00, 0x00, 0x00, 0x00, 0x00]
  const EMPTY3: seq<Octet> := [0x00, 0x00, 0x00, 0x00, 0x00, 0x00, 0x00, 0x00, 0x00, 0x00, 0x00, 0x00, 0x00, 0x00, 0x00, 0x00]
  const EMPTY: seq<Octet> := EMPTY0 + EMPTY1 + EMPTY2 + EMPTY3

  lemma EmptyBlock()
    ensures |EMPTY| == 64
    ensures EMPTY[0..16] == EMPTY0
    ensures EMPTY[16..32] == EMPTY1
    ensures EMPTY[32..48] == EMPTY2
    ensures EMPTY[48..64] == EMPTY3
  {
  }

  lemma EmptyRow0()
    ensures BlockWord(EMPTY0, 0) == 0x80000000 && BlockWord(EMPTY0, 1) == 0x00000000 && BlockWord(EMPTY0, 2) == 0x00000000 && BlockWord(EMPTY0, 3) == 0x00000000
  {
  }

  lemma EmptyRow1()
    ensures BlockWord(EMPTY1, 0) == 0x00000000 && BlockWord(EMPTY1, 1) == 0x00000000 && BlockWord(EMPTY1, 2) == 0x00000000 && BlockWord(EMPTY1, 3) == 0x00000000
  {
  }

  lemma EmptyRow2()
    ensures BlockWord(EMPTY2, 0) == 0x00000000 && BlockWord(EMPTY2, 1) == 0x00000000 && BlockWord(EMPTY2, 2) == 0x00000000 && BlockWord(EMPTY2, 3) == 0x00000000
  {
  }

  lemma EmptyRow3()
    ensures BlockWord(EMPTY3, 0) == 0x00000000 && BlockWord(EMPTY3, 1) == 0x00000000 && BlockWord(EMPTY3, 2) == 0x00000000 && BlockWord(EMPTY3, 3) == 0x00000000
  {
  }

  lemma EmptyWords0()
    ensures |EMPTY| == 64
    ensures Schedule(EMPTY, 0) == 0x80000000 && Schedule(EMPTY, 1) == 0x00000000 && Schedule(EMPTY, 2) == 0x00000000 && Schedule(EMPTY, 3) == 0x00000000
    ensures Schedule(EMPTY, 4) == 0x00000000 && Schedule(EMPTY, 5) == 0x00000000 && Schedule(EMPTY, 6) == 0x00000000 && Schedule(EMPTY, 7) == 0x00000000
  {
    hide Schedule, BlockWord;
    EmptyBlock();
    EmptyRow0();
    FirstWords(EMPTY, 0, EMPTY0);
    EmptyRow1();
    FirstWords(EMPTY, 1, EMPTY1);
  }

  lemma EmptyWords8()
    ensures |EMPTY| == 64
    ensures Schedule(EMPTY, 8) == 0x00000000 && Schedule(EMPTY, 9) == 0x00000000 && Schedule(EMPTY, 10) == 0x00000000 && Schedule(EMPTY, 11) == 0x00000000
    ensures Schedule(EMPTY, 12) == 0x00000000 && Schedule(EMPTY, 13) == 0x00000000 && Schedule(EMPTY, 14) == 0x00000000 && Schedule(EMPTY, 15) == 0x00000000
  {
    hide Schedule, BlockWord;
    EmptyBlock();
    EmptyRow2();
    FirstWords(EMPTY, 2, EMPTY2);
    EmptyRow3();
    FirstWords(EMPTY, 3, EMPTY3);
  }

  lemma EmptyWords16()
    ensures |EMPTY| == 64
    ensures Schedule(EMPTY, 16) == 0x80000000 && Schedule(EMPTY, 17) == 0x00000000 && Schedule(EMPTY, 18) == 0x00205000 && Schedule(EMPTY, 19) == 0x00000000
    ensures Schedule(EMPTY, 20) == 0x22000800 && Schedule(EMPTY, 21) == 0x00000000 && Schedule(EMPTY, 22) == 0x05089542 && Schedule(EMPTY, 23) == 0x80000000
  {
    hide Schedule;
    EmptyWords0();
    EmptyWords8();
    NextWord(EMPTY, 16, 0x80000000);
    NextWord(EMPTY, 17, 0x00000000);
    NextWord(EMPTY, 18, 0x00205000);
    NextWord(EMPTY, 19, 0x00000000);
    NextWord(EMPTY, 20, 0x22000800);
    NextWord(EMPTY, 21, 0x00000000);
    NextWord(EMPTY, 22, 0x05089542);
    NextWord(EMPTY, 23, 0x80000000);
  }

  lemma EmptyWords24()
    ensures |EMPTY| == 64
    ensures Schedule(EMPTY, 24) == 0x58080000 && Schedule(EMPTY, 25) == 0x0040A000 && Schedule(EMPTY, 26) == 0x00162505 && Schedule(EMPTY, 27) == 0x66001800
    ensures Schedule(EMPTY, 28) == 0xD6222580 && Schedule(EMPTY, 29) == 0x14225508 && Schedule(EMPTY, 30) == 0xD645F95C && Schedule(EMPTY, 31) == 0xC9282000
  {
    hide Schedule;
    EmptyWords8();
    EmptyWords16();
    NextWord(EMPTY, 24, 0x58080000);
    NextWord(EMPTY, 25, 0x0040A000);
    NextWord(EMPTY, 26, 0x00162505);
    NextWord(EMPTY, 27, 0x66001800);
    NextWord(EMPTY, 28, 0xD6222580);
    NextWord(EMPTY, 29, 0x14225508);
    NextWord(EMPTY, 30, 0xD645F95C);
    NextWord(EMPTY, 31, 0xC9282000);
  }

  lemma EmptyWords32()
    ensures |EMPTY| == 64
    ensures Schedule(EMPTY, 32) == 0xC3F10094 && Schedule(EMPTY, 33) == 0x284CA766 && Schedule(EMPTY, 34) == 0x06886DC6 && Schedule(EMPTY, 35) == 0xA37BF116
    ensures Schedule(EMPTY, 36) == 0x717CBE96 && Schedule(EMPTY, 37) == 0xFEC2D74A && Schedule(EMPTY, 38) == 0xA7B67F00 && Schedule(EMPTY, 39) == 0x811596A2
  {
    hide Schedule;
    EmptyWords16();
    EmptyWords24();
    NextWord(EMPTY, 32, 0xC3F10094);
    NextWord(EMPTY, 33, 0x284CA766);
    NextWord(EMPTY, 34, 0x06886DC6);
    NextWord(EMPTY, 35, 0xA37BF116);
    NextWord(EMPTY, 36, 0x717CBE96);
    NextWord(EMPTY, 37, 0xFEC2D74A);
    NextWord(EMPTY, 38, 0xA7B67F00);
    NextWord(EMPTY, 39, 0x811596A2);
  }

  lemma EmptyWords40()
    ensures |EMPTY| == 64
    ensures Schedule(EMPTY, 40) == 0x98A6E768 && Schedule(EMPTY, 41) == 0x03B20C82 && Schedule(EMPTY, 42) == 0x5D1DA7C9 && Schedule(EMPTY, 43) == 0xB156B935
    ensures Schedule(EMPTY, 44) == 0xC3DDCA11 && Schedule(EMPTY, 45) == 0x249C107F && Schedule(EMPTY, 46) == 0xC48D24EF && Schedule(EMPTY, 47) == 0x5DE54C30
  {
    hide Schedule;
    EmptyWords24();
    EmptyWords32();
    NextWord(EMPTY, 40, 0x98A6E768);
    NextWord(EMPTY, 41, 0x03B20C82);
    NextWord(EMPTY, 42, 0x5D1DA7C9);
    NextWord(EMPTY, 43, 0xB156B935);
    NextWord(EMPTY, 44, 0xC3DDCA11);
    NextWord(EMPTY, 45, 0x249C107F);
    NextWord(EMPTY, 46, 0xC48D24EF);
    NextWord(EMPTY, 47, 0x5DE54C30);
  }

  lemma EmptyWords48()
    ensures |EMPTY| == 64
    ensures Schedule(EMPTY, 48) == 0xDEFECE65 && Schedule(EMPTY, 49) == 0x2CA1480D && Schedule(EMPTY, 50) == 0x3C15332C && Schedule(EMPTY, 51) == 0x01CEC9AD
    ensures Schedule(EMPTY, 52) == 0x160CCCD0 && Schedule(EMPTY, 53) == 0x0BACDA98 && Schedule(EMPTY, 54) == 0x361B8FE0 && Schedule(EMPTY, 55) == 0xD2320BA6
  {
    hide Schedule;
    EmptyWords32();
    EmptyWords40();
    NextWord(EMPTY, 48, 0xDEFECE65);
    NextWord(EMPTY, 49, 0x2CA1480D);
    NextWord(EMPTY, 50, 0x3C15332C);
    NextWord(EMPTY, 51, 0x01CEC9AD);
    NextWord(EMPTY, 52, 0x160CCCD0);
    NextWord(EMPTY, 53, 0x0BACDA98);
    NextWord(EMPTY, 54, 0x361B8FE0);
    NextWord(EMPTY, 55, 0xD2320BA6);
  }

  lemma EmptyWords56()
    ensures |EMPTY| == 64
    ensures Schedule(EMPTY, 56) == 0x029B7007 && Schedule(EMPTY, 57) == 0x7546587C && Schedule(EMPTY, 58) == 0x07F54F39 && Schedule(EMPTY, 59) == 0xF808DDC3
    ensures Schedule(EMPTY, 60) == 0xDCCA7608 && Schedule(EMPTY, 61) == 0x5E427188 && Schedule(EMPTY, 62) == 0x44BCEC5D && Schedule(EMPTY, 63) == 0x3B5EC49B
  {
    hide Schedule;
    EmptyWords40();
    EmptyWords48();
    NextWord(EMPTY, 56, 0x029B7007);
    NextWord(EMPTY, 57, 0x7546587C);
    NextWord(EMPTY, 58, 0x07F54F39);
    NextWord(EMPTY, 59, 0xF808DDC3);
    NextWord(EMPTY, 60, 0xDCCA7608);
    NextWord(EMPTY, 61, 0x5E427188);
    NextWord(EMPTY, 62, 0x44BCEC5D);
    NextWord(EMPTY, 63, 0x3B5EC49B);
  }

  lemma EmptyRounds8()
    ensures |EMPTY| == 64
    ensures Rounds(Load(H0), EMPTY, 8) == Vars(0x7AD5B1B6, 0xF0205590, 0x292E3B42, 0x4366F730, 0x53F94DCB, 0x82EDE06F, 0x4F6540FA, 0xE7D0641E)
  {
    hide Rounds, Schedule, K;
    K0();
    EmptyWords0();
    NoRounds(EMPTY);
    NextRound(EMPTY, 0, 0x7C08884D, 0x18C7E2A2, 0x428A2F98, 0x80000000);
    NextRound(EMPTY, 1, 0x9CE564D0, 0x2001B256, 0x71374491, 0x00000000);
    NextRound(EMPTY, 2, 0xC4AC5526, 0x6FDB22FA, 0xB5C0FBCF, 0x00000000);
    NextRound(EMPTY, 3, 0x4C23EACB, 0x3037E1B5, 0xE9B5DBA5, 0x00000000);
    NextRound(EMPTY, 4, 0x4366F730, 0xE7D0641E, 0x3956C25B, 0x00000000);
    NextRound(EMPTY, 5, 0x292E3B42, 0x4F6540FA, 0x59F111F1, 0x00000000);
    NextRound(EMPTY, 6, 0xF0205590, 0x82EDE06F, 0x923F82A4, 0x00000000);
    NextRound(EMPTY, 7, 0x7AD5B1B6, 0x53F94DCB, 0xAB1C5ED5, 0x00000000);
  }

  lemma EmptyRounds16()
    ensures |EMPTY| == 64
    ensures Rounds(Load(H0), EMPTY, 16) == Vars(0xB40085B5, 0xB88AFDDB, 0x45C013A7, 0x2102D2CD, 0x5CB8E863, 0x1CCFAC39, 0x2B427296, 0xCDFDFE52)
  {
    hide Rounds, Schedule, K;
    K8();
    EmptyWords8();
    EmptyRounds8();
    NextRound(EMPTY, 8, 0xF52D63A5, 0x7AAFC618, 0xD807AA98, 0x00000000);
    NextRound(EMPTY, 9, 0xEFE8BF51, 0x53072289, 0x12835B01, 0x00000000);
    NextRound(EMPTY, 10, 0x158BB921, 0xE23643CE, 0x243185BE, 0x00000000);
    NextRound(EMPTY, 11, 0xF5434C40, 0xD7E07C92, 0x550C7DC3, 0x00000000);
    NextRound(EMPTY, 12, 0x2102D2CD, 0xCDFDFE52, 0x72BE5D74, 0x00000000);
    NextRound(EMPTY, 13, 0x45C013A7, 0x2B427296, 0x80DEB1FE, 0x00000000);
    NextRound(EMPTY, 14, 0xB88AFDDB, 0x1CCFAC39, 0x9BDC06A7, 0x00000000);
    NextRound(EMPTY, 15, 0xB40085B5, 0x5CB8E863, 0xC19BF174, 0x00000000);
  }

  lemma EmptyRounds24()
    ensures |EMPTY| == 64
    ensures Rounds(Load(H0), EMPTY, 24) == Vars(0x985BED55, 0x404D8054, 0x99A6CB19, 0x75C7F0D8, 0x2C2C028D, 0xB1653710, 0xC287981E, 0x39953CCD)
  {
    hide Rounds, Schedule, K;
    K16();
    EmptyWords16();
    EmptyRounds16();
    NextRound(EMPTY, 16, 0x470D554A, 0x70D43AA7, 0xE49B69C1, 0x80000000);
    NextRound(EMPTY, 17, 0xDD999A2B, 0x608C93D3, 0xEFBE4786, 0x00000000);
    NextRound(EMPTY, 18, 0x3067996A, 0xD398DCEA, 0x0FC19DC6, 0x00205000);
    NextRound(EMPTY, 19, 0x0A480908, 0x900D27AC, 0x240CA1CC, 0x00000000);
    NextRound(EMPTY, 20, 0x75C7F0D8, 0x39953CCD, 0x2DE92C6F, 0x22000800);
    NextRound(EMPTY, 21, 0x99A6CB19, 0xC287981E, 0x4A7484AA, 0x00000000);
    NextRound(EMPTY, 22, 0x404D8054, 0xB1653710, 0x5CB0A9DC, 0x05089542);
    NextRound(EMPTY, 23, 0x985BED55, 0x2C2C028D, 0x76F988DA, 0x80000000);
  }

  lemma EmptyRounds32()
    ensures |EMPTY| == 64
    ensures Rounds(Load(H0), EMPTY, 32) == Vars(0x11E7025F, 0xA0BB0CDF, 0x72D3A00D, 0x64BC9E1C, 0xBBD7846C, 0x564A6626, 0xB04AB22D, 0x95696B75)
  {
    hide Rounds, Schedule, K;
    K24();
    EmptyWords24();
    EmptyRounds24();
    NextRound(EMPTY, 24, 0x7AF6D48D, 0xF55F8C25, 0x983E5152, 0x58080000);
    NextRound(EMPTY, 25, 0xC5B814AE, 0xE57AC3F4, 0xA831C66D, 0x0040A000);
    NextRound(EMPTY, 26, 0x2C8B2AB9, 0x9F934283, 0xB00327C8, 0x00162505);
    NextRound(EMPTY, 27, 0x6D8CC697, 0x66ED54FA, 0xBF597FC7, 0x66001800);
    NextRound(EMPTY, 28, 0x64BC9E1C, 0x95696B75, 0xC6E00BF3, 0xD6222580);
    NextRound(EMPTY, 29, 0x72D3A00D, 0xB04AB22D, 0xD5A79147, 0x14225508);
    NextRound(EMPTY, 30, 0xA0BB0CDF, 0x564A6626, 0x06CA6351, 0xD645F95C);
    NextRound(EMPTY, 31, 0x11E7025F, 0xBBD7846C, 0x14292967, 0xC9282000);
  }

  lemma EmptyRounds40()
    ensures |EMPTY| == 64
    ensures Rounds(Load(H0), EMPTY, 40) == Vars(0x499911B1, 0x9E58E42F, 0x56E3DC4E, 0xA096535D, 0x716BB025, 0x85A71424, 0xE807EA7F, 0xFAC06AED)
  {
    hide Rounds, Schedule, K;
    K32();
    EmptyWords32();
    EmptyRounds32();
    NextRound(EMPTY, 32, 0xE390F3B6, 0xCCD25D8B, 0x27B70A85, 0xC3F10094);
    NextRound(EMPTY, 33, 0xA141B695, 0x0BC457DF, 0x2E1B2138, 0x284CA766);
    NextRound(EMPTY, 34, 0x44A181A7, 0x6973AAC2, 0x4D2C6DFC, 0x06886DC6);
    NextRound(EMPTY, 35, 0x641FE878, 0x3A705EA9, 0x53380D13, 0xA37BF116);
    NextRound(EMPTY, 36, 0xA096535D, 0xFAC06AED, 0x650A7354, 0x717CBE96);
    NextRound(EMPTY, 37, 0x56E3DC4E, 0xE807EA7F, 0x766A0ABB, 0xFEC2D74A);
    NextRound(EMPTY, 38, 0x9E58E42F, 0x85A71424, 0x81C2C92E, 0xA7B67F00);
    NextRound(EMPTY, 39, 0x499911B1, 0x716BB025, 0x92722C85, 0x811596A2);
  }

  lemma EmptyRounds48()
    ensures |EMPTY| == 64
    ensures Rounds(Load(H0), EMPTY, 48) == Vars(0x365A34CD, 0x54982D6C, 0x32FA442B, 0xA40972D4, 0xCBB3F8EB, 0x8A6A82B2, 0xD285C679, 0xAA2C1810)
  {
    hide Rounds, Schedule, K;
    K40();
    EmptyWords40();
    EmptyRounds40();
    NextRound(EMPTY, 40, 0xFE86C833, 0x849879DF, 0xA2BFE8A1, 0x98A6E768);
    NextRound(EMPTY, 41, 0x2298F88E, 0xF5C58AE9, 0xA81A664B, 0x03B20C82);
    NextRound(EMPTY, 42, 0xDBB545AB, 0xE0403EB9, 0xC24B8B70, 0x5D1DA7C9);
    NextRound(EMPTY, 43, 0xE8E34752, 0x29426CAA, 0xC76C51A3, 0xB156B935);
    NextRound(EMPTY, 44, 0xA40972D4, 0xAA2C1810, 0xD192E819, 0xC3DDCA11);
    NextRound(EMPTY, 45, 0x32FA442B, 0xD285C679, 0xD6990624, 0x249C107F);
    NextRound(EMPTY, 46, 0x54982D6C, 0x8A6A82B2, 0xF40E3585, 0xC48D24EF);
    NextRound(EMPTY, 47, 0x365A34CD, 0xCBB3F8EB, 0x106AA070, 0x5DE54C30);
  }

  lemma EmptyRounds56()
    ensures |EMPTY| == 64
    ensures Rounds(Load(H0), EMPTY, 56) == Vars(0x01638014, 0x2CAF58CA, 0x3A0E9477, 0xB1B29C90, 0xADF94E0A, 0xE588E598, 0xFD99936E, 0x43A5DEF8)
  {
    hide Rounds, Schedule, K;
    K48();
    EmptyWords48();
    EmptyRounds48();
    NextRound(EMPTY, 48, 0x62A82A5E, 0x4CAB6D8A, 0x19A4C116, 0xDEFECE65);
    NextRound(EMPTY, 49, 0x9798F5ED, 0xE90AA770, 0x1E376C08, 0x2CA1480D);
    NextRound(EMPTY, 50, 0xC163CB21, 0x36068BDE, 0x2748774C, 0x3C15332C);
    NextRound(EMPTY, 51, 0xD55E06C2, 0xA194D14F, 0x34B0BCB5, 0x01CEC9AD);
    NextRound(EMPTY, 52, 0xB1B29C90, 0x43A5DEF8, 0x391C0CB3, 0x160CCCD0);
    NextRound(EMPTY, 53, 0x3A0E9477, 0xFD99936E, 0x4ED8AA4A, 0x0BACDA98);
    NextRound(EMPTY, 54, 0x2CAF58CA, 0xE588E598, 0x5B9CCA4F, 0x361B8FE0);
    NextRound(EMPTY, 55, 0x01638014, 0xADF94E0A, 0x682E6FF3, 0xD2320BA6);
  }

  lemma EmptyRounds64()
    ensures |EMPTY| == 64
    ensures Rounds(Load(H0), EMPTY, 64) == Vars(0x79A6DDDB, 0xDD946D8F, 0x5E8D0156, 0xF41FC3EA, 0xD69FEF65, 0xC9962AC0, 0x8511BF70, 0x1C71EB3C)
  {
    hide Rounds, Schedule, K;
    K56();
    EmptyWords56();
    EmptyRounds56();
    NextRound(EMPTY, 56, 0x7EC75212, 0x7951A330, 0x748F82EE, 0x029B7007);
    NextRound(EMPTY, 57, 0xE7EC45BC, 0xE2A91EDC, 0x78A5636F, 0x7546587C);
    NextRound(EMPTY, 58, 0xE923ABC6, 0x08E0E6EA, 0x84C87814, 0x07F54F39);
    NextRound(EMPTY, 59, 0x04441C0E, 0xAAEFA044, 0x8CC70208, 0xF808DDC3);
    NextRound(EMPTY, 60, 0xF41FC3EA, 0x1C71EB3C, 0x90BEFFFA, 0xDCCA7608);
    NextRound(EMPTY, 61, 0x5E8D0156, 0x8511BF70, 0xA4506CEB, 0x5E427188);
    NextRound(EMPTY, 62, 0xDD946D8F, 0xC9962AC0, 0xBEF9A3F7, 0x44BCEC5D);
    NextRound(EMPTY, 63, 0x79A6DDDB, 0xD69FEF65, 0xC67178F2, 0x3B5EC49B);
  }

  lemma EmptyHash()
    ensures |EMPTY| == 64 && Compress(H0, EMPTY) == [0xE3B0C442, 0x98FC1C14, 0x9AFBF4C8, 0x996FB924, 0x27AE41E4, 0x649B934C, 0xA495991B, 0x7852B855]
  {
    hide Rounds;
    EmptyRounds64();
  }

  const SENTENCE0: seq<Octet> := [0x54, 0x68, 0x65, 0x20, 0x71, 0x75, 0x69, 0x63, 0x6B, 0x20, 0x62, 0x72, 0x6F, 0x77, 0x6E, 0x20]
  const SENTENCE1: seq<Octet> := [0x66, 0x6F, 0x78, 0x20, 0x6A, 0x75, 0x6D, 0x70, 0x73, 0x20, 0x6F, 0x76, 0x65, 0x72, 0x20, 0x74]
  const SENTENCE2: seq<Octet> := [0x68, 0x65, 0x20, 0x6C, 0x61, 0x7A, 0x79, 0x20, 0x64, 0x6F, 0x67, 0x2E, 0x80, 0x00, 0x00, 0x00]
  const SENTENCE3: seq<Octet> := [0x00, 0x00, 0x00, 0x00, 0x00, 0x00, 0x00, 0x00, 0x00, 0x00, 0x00, 0x00, 0x00, 0x00, 0x01, 0x60]
  const SENTENCE: seq<Octet> := SENTENCE0 + SENTENCE1 + SENTENCE2 + SENTENCE3

  lemma SentenceBlock()
    ensures |SENTENCE| == 64
    ensures SENTENCE[0..16] == SENTENCE0
    ensures SENTENCE[16..32] == SENTENCE1
    ensures SENTENCE[32..48] == SENTENCE2
    ensures SENTENCE[48..64] == SENTENCE3
  {
  }

  lemma SentenceRow0()
    ensures BlockWord(SENTENCE0, 0) == 0x54686520 && BlockWord(SENTENCE0, 1) == 0x71756963 && BlockWord(SENTENCE0, 2) == 0x6B206272 && BlockWord(SENTENCE0, 3) == 0x6F776E20
  {
  }

  lemma SentenceRow1()
    ensures BlockWord(SENTENCE1, 0) == 0x666F7820 && BlockWord(SENTENCE1, 1) == 0x6A756D70 && BlockWord(SENTENCE1, 2) == 0x73206F76 && BlockWord(SENTENCE1, 3) == 0x65722074
  {
  }

  lemma SentenceRow2()
    ensures BlockWord(SENTENCE2, 0) == 0x6865206C && BlockWord(SENTENCE2, 1) == 0x617A7920 && BlockWord(SENTENCE2, 2) == 0x646F672E && BlockWord(SENTENCE2, 3) == 0x80000000
  {
  }

  lemma SentenceRow3()
    ensures BlockWord(SENTENCE3, 0) == 0x00000000 && BlockWord(SENTENCE3, 1) == 0x00000000 && BlockWord(SENTENCE3, 2) == 0x00000000 && BlockWord(SENTENCE3, 3) == 0x00000160
  {
  }

  lemma SentenceWords0()
    ensures |SENTENCE| == 64
    ensures Schedule(SENTENCE, 0) == 0x54686520 && Schedule(SENTENCE, 1) == 0x71756963 && Schedule(SENTENCE, 2) == 0x6B206272 && Schedule(SENTENCE, 3) == 0x6F776E20
    ensures Schedule(SENTENCE, 4) == 0x666F7820 && Schedule(SENTENCE, 5) == 0x6A756D70 && Schedule(SENTENCE, 6) == 0x73206F76 && Schedule(SENTENCE, 7) == 0x65722074
  {
    hide Schedule, BlockWord;
    SentenceBlock();
    SentenceRow0();
    FirstWords(SENTENCE, 0, SENTENCE0);
    SentenceRow1();
    FirstWords(SENTENCE, 1, SENTENCE1);
  }

  lemma SentenceWords8()
    ensures |SENTENCE| == 64
    ensures Schedule(SENTENCE, 8) == 0x6865206C && Schedule(SENTENCE, 9) == 0x617A7920 && Schedule(SENTENCE, 10) == 0x646F672E && Schedule(SENTENCE, 11) == 0x80000000
    ensures Schedule(SENTENCE, 12) == 0x00000000 && Schedule(SENTENCE, 13) == 0x00000000 && Schedule(SENTENCE, 14) == 0x00000000 && Schedule(SENTENCE, 15) == 0x00000160
  {
    hide Schedule, BlockWord;
    SentenceBlock();
    SentenceRow2();
    FirstWords(SENTENCE, 2, SENTENCE2);
    SentenceRow3();
    FirstWords(SENTENCE, 3, SENTENCE3);
  }

  lemma SentenceWords16()
    ensures |SENTENCE| == 64
    ensures Schedule(SENTENCE, 16) == 0x487779E3 && Schedule(SENTENCE, 17) == 0xC7AFA6D3 && Schedule(SENTENCE, 18) == 0xD5B84C22 && Schedule(SENTENCE, 19) == 0x2903075A
    ensures Schedule(SENTENCE, 20) == 0x4CD63481 && Schedule(SENTENCE, 21) == 0x472150C8 && Schedule(SENTENCE, 22) == 0xBC5DE464 && Schedule(SENTENCE, 23) == 0xCE1DF1CB
  {
    hide Schedule;
    SentenceWords0();
    SentenceWords8();
    NextWord(SENTENCE, 16, 0x487779E3);
    NextWord(SENTENCE, 17, 0xC7AFA6D3);
    NextWord(SENTENCE, 18, 0xD5B84C22);
    NextWord(SENTENCE, 19, 0x2903075A);
    NextWord(SENTENCE, 20, 0x4CD63481);
    NextWord(SENTENCE, 21, 0x472150C8);
    NextWord(SENTENCE, 22, 0xBC5DE464);
    NextWord(SENTENCE, 23, 0xCE1DF1CB);
  }

  lemma SentenceWords24()
    ensures |SENTENCE| == 64
    ensures Schedule(SENTENCE, 24) == 0x514C49A3 && Schedule(SENTENCE, 25) == 0x07B08A23 && Schedule(SENTENCE, 26) == 0x4C642025 && Schedule(SENTENCE, 27) == 0x212A438D
    ensures Schedule(SENTENCE, 28) == 0xDB26677E && Schedule(SENTENCE, 29) == 0x261D6284 && Schedule(SENTENCE, 30) == 0x8DDC7167 && Schedule(SENTENCE, 31) == 0x804E2F6A
  {
    hide Schedule;
    SentenceWords8();
    SentenceWords16();
    NextWord(SENTENCE, 24, 0x514C49A3);
    NextWord(SENTENCE, 25, 0x07B08A23);
    NextWord(SENTENCE, 26, 0x4C642025);
    NextWord(SENTENCE, 27, 0x212A438D);
    NextWord(SENTENCE, 28, 0xDB26677E);
    NextWord(SENTENCE, 29, 0x261D6284);
    NextWord(SENTENCE, 30, 0x8DDC7167);
    NextWord(SENTENCE, 31, 0x804E2F6A);
  }

  lemma SentenceWords32()
    ensures |SENTENCE| == 64
    ensures Schedule(SENTENCE, 32) == 0x5DB29ECB && Schedule(SENTENCE, 33) == 0x32A0970F && Schedule(SENTENCE, 34) == 0x8433261C && Schedule(SENTENCE, 35) == 0xE3B77FC5
    ensures Schedule(SENTENCE, 36) == 0x3738EECB && Schedule(SENTENCE, 37) == 0xCD0A8AF4 && Schedule(SENTENCE, 38) == 0x998ABD6B && Schedule(SENTENCE, 39) == 0x9ECC1410
  {
    hide Schedule;
    SentenceWords16();
    SentenceWords24();
    NextWord(SENTENCE, 32, 0x5DB29ECB);
    NextWord(SENTENCE, 33, 0x32A0970F);
    NextWord(SENTENCE, 34, 0x8433261C);
    NextWord(SENTENCE, 35, 0xE3B77FC5);
    NextWord(SENTENCE, 36, 0x3738EECB);
    NextWord(SENTENCE, 37, 0xCD0A8AF4);
    NextWord(SENTENCE, 38, 0x998ABD6B);
    NextWord(SENTENCE, 39, 0x9ECC1410);
  }

  lemma SentenceWords40()
    ensures |SENTENCE| == 64
    ensures Schedule(SENTENCE, 40) == 0xF19D6FC9 && Schedule(SENTENCE, 41) == 0x5FAEBF56 && Schedule(SENTENCE, 42) == 0xD8C1964C && Schedule(SENTENCE, 43) == 0x5FC678CD
    ensures Schedule(SENTENCE, 44) == 0xF63958A1 && Schedule(SENTENCE, 45) == 0x760AEB2D && Schedule(SENTENCE, 46) == 0x02F5CAA4 && Schedule(SENTENCE, 47) == 0xD59A1839
  {
    hide Schedule;
    SentenceWords24();
    SentenceWords32();
    NextWord(SENTENCE, 40, 0xF19D6FC9);
    NextWord(SENTENCE, 41, 0x5FAEBF56);
    NextWord(SENTENCE, 42, 0xD8C1964C);
    NextWord(SENTENCE, 43, 0x5FC678CD);
    NextWord(SENTENCE, 44, 0xF63958A1);
    NextWord(SENTENCE, 45, 0x760AEB2D);
    NextWord(SENTENCE, 46, 0x02F5CAA4);
    NextWord(SENTENCE, 47, 0xD59A1839);
  }

  lemma SentenceWords48()
    ensures |SENTENCE| == 64
    ensures Schedule(SENTENCE, 48) == 0x575A39DE && Schedule(SENTENCE, 49) == 0x3A9A07D6 && Schedule(SENTENCE, 50) == 0x87FBD09B && Schedule(SENTENCE, 51) == 0xC84BF6CF
    ensures Schedule(SENTENCE, 52) == 0x92499EF7 && Schedule(SENTENCE, 53) == 0xC0E50A1E && Schedule(SENTENCE, 54) == 0xA386BBC7 && Schedule(SENTENCE, 55) == 0xF0C5BA5B
  {
    hide Schedule;
    SentenceWords32();
    SentenceWords40();
    NextWord(SENTENCE, 48, 0x575A39DE);
    NextWord(SENTENCE, 49, 0x3A9A07D6);
    NextWord(SENTENCE, 50, 0x87FBD09B);
    NextWord(SENTENCE, 51, 0xC84BF6CF);
    NextWord(SENTENCE, 52, 0x92499EF7);
    NextWord(SENTENCE, 53, 0xC0E50A1E);
    NextWord(SENTENCE, 54, 0xA386BBC7);
    NextWord(SENTENCE, 55, 0xF0C5BA5B);
  }

  lemma SentenceWords56()
    ensures |SENTENCE| == 64
    ensures Schedule(SENTENCE, 56) == 0xBF8A593B && Schedule(SENTENCE, 57) == 0x393FCEDA && Schedule(SENTENCE, 58) == 0x1816EBD6 && Schedule(SENTENCE, 59) == 0x1BCB503A
    ensures Schedule(SENTENCE, 60) == 0x4E9C42A3 && Schedule(SENTENCE, 61) == 0x16A0B5B8 && Schedule(SENTENCE, 62) == 0x8BE7F0DD && Schedule(SENTENCE, 63) == 0x19C579BB
  {
    hide Schedule;
    SentenceWords40();
    SentenceWords48();
    NextWord(SENTENCE, 56, 0xBF8A593B);
    NextWord(SENTENCE, 57, 0x393FCEDA);
    NextWord(SENTENCE, 58, 0x1816EBD6);
    NextWord(SENTENCE, 59, 0x1BCB503A);
    NextWord(SENTENCE, 60, 0x4E9C42A3);
    NextWord(SENTENCE, 61, 0x16A0B5B8);
    NextWord(SENTENCE, 62, 0x8BE7F0DD);
    NextWord(SENTENCE, 63, 0x19C579BB);
  }

  lemma SentenceRounds8()
    ensures |SENTENCE| == 64
    ensures Rounds(Load(H0), SENTENCE, 8) == Vars(0x82572A31, 0x8CB2DAED, 0xAD07E4C2, 0x4E266F61, 0x924268CA, 0x11A624BD, 0x25C81AF6, 0x4023AF50)
  {
    hide Rounds, Schedule, K;
    K0();
    SentenceWords0();
    NoRounds(SENTENCE);
    NextRound(SENTENCE, 0, 0x5070ED6D, 0xED3047C2, 0x428A2F98, 0x54686520);
    NextRound(SENTENCE, 1, 0x38257450, 0xFD6F6BC0, 0x71374491, 0x71756963);
    NextRound(SENTENCE, 2, 0x26E2CC4C, 0x30CEB98D, 0xB5C0FBCF, 0x6B206272);
    NextRound(SENTENCE, 3, 0x1B3D9299, 0x73FDD816, 0xE9B5DBA5, 0x6F776E20);
    NextRound(SENTENCE, 4, 0x4E266F61, 0x4023AF50, 0x3956C25B, 0x666F7820);
    NextRound(SENTENCE, 5, 0xAD07E4C2, 0x25C81AF6, 0x59F111F1, 0x6A756D70);
    NextRound(SENTENCE, 6, 0x8CB2DAED, 0x11A624BD, 0x923F82A4, 0x73206F76);
    NextRound(SENTENCE, 7, 0x82572A31, 0x924268CA, 0xAB1C5ED5, 0x65722074);
  }

  lemma SentenceRounds16()
    ensures |SENTENCE| == 64
    ensures Rounds(Load(H0), SENTENCE, 16) == Vars(0xCCF7406E, 0x2FAC1936, 0x21BE9B12, 0x961528AE, 0x647280DB, 0xFBD8FC1E, 0x0E5A836D, 0x9495D565)
  {
    hide Rounds, Schedule, K;
    K8();
    SentenceWords8();
    SentenceRounds8();
    NextRound(SENTENCE, 8, 0xC212DAD4, 0x16704118, 0xD807AA98, 0x6865206C);
    NextRound(SENTENCE, 9, 0x5864A6EB, 0xD60FBB8D, 0x12835B01, 0x617A7920);
    NextRound(SENTENCE, 10, 0x27F57FD4, 0x7E7967D2, 0x243185BE, 0x646F672E);
    NextRound(SENTENCE, 11, 0xB175FD36, 0xCEB4F7D2, 0x550C7DC3, 0x80000000);
    NextRound(SENTENCE, 12, 0x961528AE, 0x9495D565, 0x72BE5D74, 0x00000000);
    NextRound(SENTENCE, 13, 0x21BE9B12, 0x0E5A836D, 0x80DEB1FE, 0x00000000);
    NextRound(SENTENCE, 14, 0x2FAC1936, 0xFBD8FC1E, 0x9BDC06A7, 0x00000000);
    NextRound(SENTENCE, 15, 0xCCF7406E, 0x647280DB, 0xC19BF174, 0x00000160);
  }

  lemma SentenceRounds24()
    ensures |SENTENCE| == 64
    ensures Rounds(Load(H0), SENTENCE, 24) == Vars(0x69DEF87C, 0x9636A9B2, 0x076ECC6F, 0x235D1FEF, 0xBE4C1644, 0x5FFC8E91, 0x8337CAFE, 0xE79DE3F6)
  {
    hide Rounds, Schedule, K;
    K16();
    SentenceWords16();
    SentenceRounds16();
    NextRound(SENTENCE, 16, 0x16C68BF0, 0x11D38ED6, 0xE49B69C1, 0x487779E3);
    NextRound(SENTENCE, 17, 0x6A6A5FEB, 0x3D241CF4, 0xEFBE4786, 0xC7AFA6D3);
    NextRound(SENTENCE, 18, 0xEAC776BE, 0x3ECEDB09, 0x0FC19DC6, 0xD5B84C22);
    NextRound(SENTENCE, 19, 0x8EAB7D38, 0xDE3FED6D, 0x240CA1CC, 0x2903075A);
    NextRound(SENTENCE, 20, 0x235D1FEF, 0xE79DE3F6, 0x2DE92C6F, 0x4CD63481);
    NextRound(SENTENCE, 21, 0x076ECC6F, 0x8337CAFE, 0x4A7484AA, 0x472150C8);
    NextRound(SENTENCE, 22, 0x9636A9B2, 0x5FFC8E91, 0x5CB0A9DC, 0xBC5DE464);
    NextRound(SENTENCE, 23, 0x69DEF87C, 0xBE4C1644, 0x76F988DA, 0xCE1DF1CB);
  }

  lemma SentenceRounds32()
    ensures |SENTENCE| == 64
    ensures Rounds(Load(H0), SENTENCE, 32) == Vars(0xCA9B9B41, 0xCA499AD0, 0x8D85DEF3, 0xB26E23A6, 0xB7E3F763, 0x4B955AF6, 0x253DA538, 0xA344A7F1)
  {
    hide Rounds, Schedule, K;
    K24();
    SentenceWords24();
    SentenceRounds24();
    NextRound(SENTENCE, 24, 0x970212F6, 0x106B4918, 0x983E5152, 0x514C49A3);
    NextRound(SENTENCE, 25, 0xDB346E3B, 0x114C9AC3, 0xA831C66D, 0x07B08A23);
    NextRound(SENTENCE, 26, 0x3ED804B1, 0xA34D06A4, 0xB00327C8, 0x4C642025);
    NextRound(SENTENCE, 27, 0x3A156EE5, 0xFAB72D97, 0xBF597FC7, 0x212A438D);
    NextRound(SENTENCE, 28, 0xB26E23A6, 0xA344A7F1, 0xC6E00BF3, 0xDB26677E);
    NextRound(SENTENCE, 29, 0x8D85DEF3, 0x253DA538, 0xD5A79147, 0x261D6284);
    NextRound(SENTENCE, 30, 0xCA499AD0, 0x4B955AF6, 0x06CA6351, 0x8DDC7167);
    NextRound(SENTENCE, 31, 0xCA9B9B41, 0xB7E3F763, 0x14292967, 0x804E2F6A);
  }

  lemma SentenceRounds40()
    ensures |SENTENCE| == 64
    ensures Rounds(Load(H0), SENTENCE, 40) == Vars(0xCE35D5C6, 0xABBD7BAA, 0xFAC7BD2D, 0x978DF8E8, 0x44F34E60, 0x4CA093B4, 0xE9AA920B, 0xC5112013)
  {
    hide Rounds, Schedule, K;
    K32();
    SentenceWords32();
    SentenceRounds32();
    NextRound(SENTENCE, 32, 0x50EDB62A, 0x720C89D9, 0x27B70A85, 0x5DB29ECB);
    NextRound(SENTENCE, 33, 0x78A8ADD9, 0xA7B3AEE8, 0x2E1B2138, 0x32A0970F);
    NextRound(SENTENCE, 34, 0xE0936090, 0xBFDCB046, 0x4D2C6DFC, 0x8433261C);
    NextRound(SENTENCE, 35, 0xB4A01BF1, 0x9D70735D, 0x53380D13, 0xE3B77FC5);
    NextRound(SENTENCE, 36, 0x978DF8E8, 0xC5112013, 0x650A7354, 0x3738EECB);
    NextRound(SENTENCE, 37, 0xFAC7BD2D, 0xE9AA920B, 0x766A0ABB, 0xCD0A8AF4);
    NextRound(SENTENCE, 38, 0xABBD7BAA, 0x4CA093B4, 0x81C2C92E, 0x998ABD6B);
    NextRound(SENTENCE, 39, 0xCE35D5C6, 0x44F34E60, 0x92722C85, 0x9ECC1410);
  }

  lemma SentenceRounds48()
    ensures |SENTENCE| == 64
    ensures Rounds(Load(H0), SENTENCE, 48) == Vars(0x62DF4908, 0x86FB2430, 0x0E75AF68, 0xCE254171, 0x2D49A12D, 0x3804D337, 0xDD43DEF0, 0x4D78C2FA)
  {
    hide Rounds, Schedule, K;
    K40();
    SentenceWords40();
    SentenceRounds40();
    NextRound(SENTENCE, 40, 0x31758BAF, 0x13616702, 0xA2BFE8A1, 0xF19D6FC9);
    NextRound(SENTENCE, 41, 0x89522849, 0x91D9B446, 0xA81A664B, 0x5FAEBF56);
    NextRound(SENTENCE, 42, 0xAD9012B6, 0x671E1DEB, 0xC24B8B70, 0xD8C1964C);
    NextRound(SENTENCE, 43, 0x4589BA63, 0xEBD3D2DF, 0xC76C51A3, 0x5FC678CD);
    NextRound(SENTENCE, 44, 0xCE254171, 0x4D78C2FA, 0xD192E819, 0xF63958A1);
    NextRound(SENTENCE, 45, 0x0E75AF68, 0xDD43DEF0, 0xD6990624, 0x760AEB2D);
    NextRound(SENTENCE, 46, 0x86FB2430, 0x3804D337, 0xF40E3585, 0x02F5CAA4);
    NextRound(SENTENCE, 47, 0x62DF4908, 0x2D49A12D, 0x106AA070, 0xD59A1839);
  }

  lemma SentenceRounds56()
    ensures |SENTENCE| == 64
    ensures Rounds(Load(H0), SENTENCE, 56) == Vars(0x16854A13, 0xD7E1916E, 0x8B2E04DB, 0xEE79A54B, 0x21983EF4, 0xCFA4F434, 0x0824A593, 0x721ED508)
  {
    hide Rounds, Schedule, K;
    K48();
    SentenceWords48();
    SentenceRounds48();
    NextRound(SENTENCE, 48, 0x210AC964, 0xBA5FF87A, 0x19A4C116, 0x575A39DE);
    NextRound(SENTENCE, 49, 0xB3C272E9, 0x3716AEA6, 0x1E376C08, 0x3A9A07D6);
    NextRound(SENTENCE, 50, 0xFF379D8B, 0x6FF1D3ED, 0x2748774C, 0x87FBD09B);
    NextRound(SENTENCE, 51, 0x9347DA34, 0x75401831, 0x34B0BCB5, 0xC84BF6CF);
    NextRound(SENTENCE, 52, 0xEE79A54B, 0x721ED508, 0x391C0CB3, 0x92499EF7);
    NextRound(SENTENCE, 53, 0x8B2E04DB, 0x0824A593, 0x4ED8AA4A, 0xC0E50A1E);
    NextRound(SENTENCE, 54, 0xD7E1916E, 0xCFA4F434, 0x5B9CCA4F, 0xA386BBC7);
    NextRound(SENTENCE, 55, 0x16854A13, 0x21983EF4, 0x682E6FF3, 0xF0C5BA5B);
  }

  lemma SentenceRounds64()
    ensures |SENTENCE| == 64
    ensures Rounds(Load(H0), SENTENCE, 64) == Vars(0x854998BE, 0x0D2E1122, 0x45E371B7, 0x0466485D, 0x5954C2E5, 0x3AD22136, 0x97E16AE1, 0x2A552E53)
  {
    hide Rounds, Schedule, K;
    K56();
    SentenceWords56();
    SentenceRounds56();
    NextRound(SENTENCE, 56, 0x89B13BA3, 0x6074359F, 0x748F82EE, 0xBF8A593B);
    NextRound(SENTENCE, 57, 0xF15186DA, 0xE93FE34B, 0x78A5636F, 0x393FCEDA);
    NextRound(SENTENCE, 58, 0x048A9EF4, 0x7E42A4D0, 0x84C87814, 0x1816EBD6);
    NextRound(SENTENCE, 59, 0x8B90E06A, 0x438B3790, 0x8CC70208, 0x1BCB503A);
    NextRound(SENTENCE, 60, 0x0466485D, 0x2A552E53, 0x90BEFFFA, 0x4E9C42A3);
    NextRound(SENTENCE, 61, 0x45E371B7, 0x97E16AE1, 0xA4506CEB, 0x16A0B5B8);
    NextRound(SENTENCE, 62, 0x0D2E1122, 0x3AD22136, 0xBEF9A3F7, 0x8BE7F0DD);
    NextRound(SENTENCE, 63, 0x854998BE, 0x5954C2E5, 0xC67178F2, 0x19C579BB);
  }

  lemma SentenceHash()
    ensures |SENTENCE| == 64 && Compress(H0, SENTENCE) == [0xEF537F25, 0xC895BFA7, 0x82526529, 0xA9B63D97, 0xAA631564, 0xD5D789C2, 0xB765448C, 0x8635FB6C]
  {
    hide Rounds;
    SentenceRounds64();
  }

  // ---- the digests ----

  lemma OneBlock(m: seq<Octet>, b: seq<Octet>)
    requires |b| == 64 && Padded(m) == b
    ensures Sha256(m) == AllBytes(Compress(H0, b))
  {
    hide Compress, Padded;
    assert HashAfter(b, 0) == H0 && b[0..64] == b;
  }

  lemma {:induction false} AllBytesConcat(g: seq<Word>, h: seq<Word>)
    ensures AllBytes(g + h) == AllBytes(g) + AllBytes(h)
  {
    hide WordBytes;
    if h == [] {
      assert g + h == g;
    } else {
      var n := |h| - 1;
      AllBytesConcat(g, h[..n]);
      assert (g + h)[..|g| + n] == g + h[..n];
    }
  }

  lemma AllBytesOf(h: seq<Word>)
    requires |h| == 8
    ensures AllBytes(h) == (WordBytes(h[0]) + WordBytes(h[1]) + WordBytes(h[2]) + WordBytes(h[3]))
                           + (WordBytes(h[4]) + WordBytes(h[5]) + WordBytes(h[6]) + WordBytes(h[7]))
  {
    hide WordBytes, AllBytes;
    FourWords(h[..4]);
    FourWords(h[4..]);
    AllBytesConcat(h[..4], h[4..]);
    assert h[..4] + h[4..] == h;
  }

  lemma FourWords(h: seq<Word>)
    requires |h| == 4
    ensures AllBytes(h) == WordBytes(h[0]) + WordBytes(h[1]) + WordBytes(h[2]) + WordBytes(h[3])
  {
    hide WordBytes;
    assert AllBytes(h[..0]) == [];
    assert AllBytes(h[..1]) == WordBytes(h[0]) by { assert h[..1][..0] == h[..0]; }
    assert AllBytes(h[..2]) == AllBytes(h[..1]) + WordBytes(h[1]) by { assert h[..2][..1] == h[..1]; }
    assert AllBytes(h[..3]) == AllBytes(h[..2]) + WordBytes(h[2]) by { assert h[..3][..2] == h[..2]; }
  }

  lemma EmptyBytes()
    ensures WordBytes(0xE3B0C442) + WordBytes(0x98FC1C14) + WordBytes(0x9AFBF4C8) + WordBytes(0x996FB924)
         == [0xE3, 0xB0, 0xC4, 0x42, 0x98, 0xFC, 0x1C, 0x14, 0x9A, 0xFB, 0xF4, 0xC8, 0x99, 0x6F, 0xB9, 0x24]
    ensures WordBytes(0x27AE41E4) + WordBytes(0x649B934C) + WordBytes(0xA495991B) + WordBytes(0x7852B855)
         == [0x27, 0xAE, 0x41, 0xE4, 0x64, 0x9B, 0x93, 0x4C, 0xA4, 0x95, 0x99, 0x1B, 0x78, 0x52, 0xB8, 0x55]
  {
  }

  lemma SentenceBytes()
    ensures WordBytes(0xEF537F25) + WordBytes(0xC895BFA7) + WordBytes(0x82526529) + WordBytes(0xA9B63D97)
         == [0xEF, 0x53, 0x7F, 0x25, 0xC8, 0x95, 0xBF, 0xA7, 0x82, 0x52, 0x65, 0x29, 0xA9, 0xB6, 0x3D, 0x97]
    ensures WordBytes(0xAA631564) + WordBytes(0xD5D789C2) + WordBytes(0xB765448C) + WordBytes(0x8635FB6C)
         == [0xAA, 0x63, 0x15, 0x64, 0xD5, 0xD7, 0x89, 0xC2, 0xB7, 0x65, 0x44, 0x8C, 0x86, 0x35, 0xFB, 0x6C]
  {
  }

  /** SHA-256 of the empty message. */
  lemma DigestOfEmpty()
    ensures Sha256([]) == [0xE3, 0xB0, 0xC4, 0x42, 0x98, 0xFC, 0x1C, 0x14, 0x9A, 0xFB, 0xF4, 0xC8, 0x99, 0x6F, 0xB9, 0x24]
                       + [0x27, 0xAE, 0x41, 0xE4, 0x64, 0x9B, 0x93, 0x4C, 0xA4, 0x95, 0x99, 0x1B, 0x78, 0x52, 0xB8, 0x55]
  {
    hide Compress, WordBytes, AllBytes;
    EmptyPadded();
    EmptyHash();
    EmptyBytes();
    AllBytesOf([0xE3B0C442, 0x98FC1C14, 0x9AFBF4C8, 0x996FB924, 0x27AE41E4, 0x649B934C, 0xA495991B, 0x7852B855]);
    OneBlock([], EMPTY);
  }

  /** SHA-256 of "The quick brown fox jumps over the lazy dog." */
  lemma DigestOfSentence()
    ensures Sha256(SENTENCE0 + SENTENCE1 + SENTENCE2[..12])
                      == [0xEF, 0x53, 0x7F, 0x25, 0xC8, 0x95, 0xBF, 0xA7, 0x82, 0x52, 0x65, 0x29, 0xA9, 0xB6, 0x3D, 0x97]
                       + [0xAA, 0x63, 0x15, 0x64, 0xD5, 0xD7, 0x89, 0xC2, 0xB7, 0x65, 0x44, 0x8C, 0x86, 0x35, 0xFB, 0x6C]
  {
    hide Compress, WordBytes, AllBytes;
    SentencePadded();
    SentenceHash();
    SentenceBytes();
    AllBytesOf([0xEF537F25, 0xC895BFA7, 0x82526529, 0xA9B63D97, 0xAA631564, 0xD5D789C2, 0xB765448C, 0x8635FB6C]);
    OneBlock(SENTENCE0 + SENTENCE1 + SENTENCE2[..12], SENTENCE);
  }

  lemma EmptyPadded()
    ensures Padded([]) == EMPTY
  {
    hide BigEndian64;
    LengthBytes(0, 0, 0);
    assert [0x80] + Zeros(15) == EMPTY0;
    assert Zeros(55) == Zeros(15) + Zeros(16) + Zeros(16) + Zeros(8);
    assert Zeros(8) + BigEndian64(0) == EMPTY3;
  }

  lemma SentencePadded()
    ensures Padded(SENTENCE0 + SENTENCE1 + SENTENCE2[..12]) == SENTENCE
  {
    hide BigEndian64;
    LengthBytes(352, 1, 0x60);
    assert Zeros(11) == Zeros(3) + Zeros(8);
    assert SENTENCE2[..12] + [0x80] + Zeros(3) == SENTENCE2;
    assert Zeros(8) + BigEndian64(352) == SENTENCE3;
  }

  /** A length below 2^16 takes the last two bytes only. */
  lemma LengthBytes(n: nat, hi: nat, lo: nat)
    requires n == 256 * hi + lo && hi < 256 && lo < 256
    ensures BigEndian64(n) == [0, 0, 0, 0, 0, 0, hi as Octet, lo as Octet]
  {
    LowBytes(n, hi, lo);
    hide ByteOf;
    forall i: nat | i < 6 ensures BigEndian64(n)[i] == 0 { NoByte(5 - i); }
  }

  lemma LowBytes(n: nat, hi: nat, lo: nat)
    requires n == 256 * hi + lo && hi < 256 && lo < 256
    ensures ByteOf(n, 0) == lo as Octet && ByteOf(n, 1) == hi as Octet
    ensures forall i: nat :: ByteOf(n, i + 2) == ByteOf(0, i)
  {
    assert n % 256 == lo && n / 256 == hi && hi % 256 == hi && hi / 256 == 0;
    assert ByteOf(hi, 0) == hi as Octet;
    forall i: nat ensures ByteOf(n, i + 2) == ByteOf(0, i) { assert ByteOf(hi, i + 1) == ByteOf(0, i); }
  }

  lemma {:induction false} NoByte(i: nat)
    ensures ByteOf(0, i) == 0
  {
    if i > 0 { NoByte(i - 1); }
  }
}
