/** The digest of "abc", the standard's own example (section B.1 of FIPS 180-2), worked out
    word by word and round by round. */
module Sha256Example {
  import opened Arithmetic
  import opened ByteLaws
  import opened Bytes
  import opened Sha256

  const ABC: bytes := [0x61, 0x62, 0x63]
  const BLOCK: bytes := [0x61, 0x62, 0x63, 0x80] + Zeros(59) + [0x18]

  lemma AbcPadded()
    ensures Padded(ABC) == BLOCK && |BLOCK| == 64
  {
    assert ZeroCount(3) == 52;
    AbcLength();
    assert [0x61, 0x62, 0x63] + [0x80] == [0x61, 0x62, 0x63, 0x80];
    assert Zeros(52) + Zeros(7) == Zeros(59);
  }

  lemma AbcLength()
    ensures BigEndian(24, 8) == Zeros(7) + [0x18]
  {
    NoBytes(7);
  }

  lemma {:induction false} NoBytes(n: nat)
    ensures BigEndian(0, n) == Zeros(n)
  {
    if n > 0 {
      NoBytes(n - 1);
      assert Zeros(n - 1) + [0] == Zeros(n);
    }
  }

  // ---------------------------------------------------------------- the schedule

  predicate WordIs(t: nat, w: bv32) {
    |BLOCK| == 64 && Schedule(BLOCK, t) == w
  }

  lemma SmallSigmas(x: bv32)
    ensures SmallSigma0(x) == x.RotateRight(7) ^ x.RotateRight(18) ^ (x >> 3)
    ensures SmallSigma1(x) == x.RotateRight(17) ^ x.RotateRight(19) ^ (x >> 10)
  {
    hide Rotr;
    RotrIs(x);
  }

  lemma NextWord(t: nat, w2: bv32, w7: bv32, w15: bv32, w16: bv32, w: bv32)
    requires t >= 16 && WordIs(t - 2, w2) && WordIs(t - 7, w7) && WordIs(t - 15, w15) && WordIs(t - 16, w16)
    requires
      w == Sum4(w2.RotateRight(17) ^ w2.RotateRight(19) ^ (w2 >> 10), w7,
                w15.RotateRight(7) ^ w15.RotateRight(18) ^ (w15 >> 3), w16)
    ensures WordIs(t, w)
  {
    SmallSigmas(w2);
    SmallSigmas(w15);
    hide SmallSigma0, SmallSigma1, Sum4;
  }

  lemma WordAt(t: nat, b: bytes)
    requires t < 16 && |BLOCK| == 64 && |b| == 4 && BLOCK[4 * t..4 * t + 4] == b
    ensures WordIs(t, Word(b))
  {
    hide BLOCK, Word;
  }

  lemma MarkedWord()
    ensures Word([0x61, 0x62, 0x63, 0x80]) == 0x6162_6380
  {
    var b: bytes := [0x61, 0x62, 0x63, 0x80];
    assert b[0] as bv32 == 0x61 && b[1] as bv32 == 0x62 && b[2] as bv32 == 0x63 && b[3] as bv32 == 0x80;
  }

  lemma LengthWord()
    ensures Word([0, 0, 0, 0x18]) == 0x18
  {
  }

  lemma EmptyWord()
    ensures Word([0, 0, 0, 0]) == 0
  {
  }

  lemma BlockParts()
    ensures |BLOCK| == 64
    ensures BLOCK[0..4] == [0x61, 0x62, 0x63, 0x80] && BLOCK[60..64] == [0, 0, 0, 0x18]
    ensures forall i :: 4 <= i < 63 ==> BLOCK[i] == 0
  {
  }

  lemma FirstWords()
    ensures WordIs(0, 0x6162_6380) && WordIs(15, 0x18)
    ensures forall t :: 0 < t < 15 ==> WordIs(t, 0)
  {
    hide Word, WordIs, BLOCK;
    BlockParts();
    MarkedWord();
    LengthWord();
    EmptyWord();
    WordAt(0, [0x61, 0x62, 0x63, 0x80]);
    WordAt(15, [0, 0, 0, 0x18]);
    forall t | 0 < t < 15
      ensures WordIs(t, 0)
    {
      assert BLOCK[4 * t..4 * t + 4] == [0, 0, 0, 0];
      WordAt(t, [0, 0, 0, 0]);
    }
  }

  lemma WordsFrom16()
    ensures WordIs(16, 0x6162_6380) && WordIs(17, 0x000f_0000) && WordIs(18, 0x7da8_6405) && WordIs(19, 0x6000_03c6)
    ensures WordIs(20, 0x3e9d_7b78) && WordIs(21, 0x0183_fc00) && WordIs(22, 0x12dc_bfdb) && WordIs(23, 0xe2e2_c38e)
    ensures WordIs(24, 0xc821_5c1a) && WordIs(25, 0xb736_79a2) && WordIs(26, 0xe5bc_3909) && WordIs(27, 0x3266_3c5b)
    ensures WordIs(28, 0x9d20_9d67) && WordIs(29, 0xec87_26cb) && WordIs(30, 0x7021_38a4) && WordIs(31, 0xd3b7_973b)
  {
    FirstWords();
    hide WordIs;
    NextWord(16, 0x0000_0000, 0x0000_0000, 0x0000_0000, 0x6162_6380, 0x6162_6380);
    NextWord(17, 0x0000_0018, 0x0000_0000, 0x0000_0000, 0x0000_0000, 0x000f_0000);
    NextWord(18, 0x6162_6380, 0x0000_0000, 0x0000_0000, 0x0000_0000, 0x7da8_6405);
    NextWord(19, 0x000f_0000, 0x0000_0000, 0x0000_0000, 0x0000_0000, 0x6000_03c6);
    NextWord(20, 0x7da8_6405, 0x0000_0000, 0x0000_0000, 0x0000_0000, 0x3e9d_7b78);
    NextWord(21, 0x6000_03c6, 0x0000_0000, 0x0000_0000, 0x0000_0000, 0x0183_fc00);
    NextWord(22, 0x3e9d_7b78, 0x0000_0018, 0x0000_0000, 0x0000_0000, 0x12dc_bfdb);
    NextWord(23, 0x0183_fc00, 0x6162_6380, 0x0000_0000, 0x0000_0000, 0xe2e2_c38e);
    NextWord(24, 0x12dc_bfdb, 0x000f_0000, 0x0000_0000, 0x0000_0000, 0xc821_5c1a);
    NextWord(25, 0xe2e2_c38e, 0x7da8_6405, 0x0000_0000, 0x0000_0000, 0xb736_79a2);
    NextWord(26, 0xc821_5c1a, 0x6000_03c6, 0x0000_0000, 0x0000_0000, 0xe5bc_3909);
    NextWord(27, 0xb736_79a2, 0x3e9d_7b78, 0x0000_0000, 0x0000_0000, 0x3266_3c5b);
    NextWord(28, 0xe5bc_3909, 0x0183_fc00, 0x0000_0000, 0x0000_0000, 0x9d20_9d67);
    NextWord(29, 0x3266_3c5b, 0x12dc_bfdb, 0x0000_0000, 0x0000_0000, 0xec87_26cb);
    NextWord(30, 0x9d20_9d67, 0xe2e2_c38e, 0x0000_0018, 0x0000_0000, 0x7021_38a4);
    NextWord(31, 0xec87_26cb, 0xc821_5c1a, 0x6162_6380, 0x0000_0018, 0xd3b7_973b);
  }

  lemma WordsFrom32()
    ensures WordIs(32, 0x93f5_997f) && WordIs(33, 0x3b68_ba73) && WordIs(34, 0xaff4_ffc1) && WordIs(35, 0xf10a_5c62)
    ensures WordIs(36, 0x0a8b_3996) && WordIs(37, 0x72af_830a) && WordIs(38, 0x9409_e33e) && WordIs(39, 0x2464_1522)
    ensures WordIs(40, 0x9f47_bf94) && WordIs(41, 0xf0a6_4f5a) && WordIs(42, 0x3e24_6a79) && WordIs(43, 0x2733_3ba3)
    ensures WordIs(44, 0x0c47_63f2) && WordIs(45, 0x840a_bf27) && WordIs(46, 0x7a29_0d5d) && WordIs(47, 0x065c_43da)
  {
    WordsFrom16();
    hide WordIs;
    NextWord(32, 0x7021_38a4, 0xb736_79a2, 0x000f_0000, 0x6162_6380, 0x93f5_997f);
    NextWord(33, 0xd3b7_973b, 0xe5bc_3909, 0x7da8_6405, 0x000f_0000, 0x3b68_ba73);
    NextWord(34, 0x93f5_997f, 0x3266_3c5b, 0x6000_03c6, 0x7da8_6405, 0xaff4_ffc1);
    NextWord(35, 0x3b68_ba73, 0x9d20_9d67, 0x3e9d_7b78, 0x6000_03c6, 0xf10a_5c62);
    NextWord(36, 0xaff4_ffc1, 0xec87_26cb, 0x0183_fc00, 0x3e9d_7b78, 0x0a8b_3996);
    NextWord(37, 0xf10a_5c62, 0x7021_38a4, 0x12dc_bfdb, 0x0183_fc00, 0x72af_830a);
    NextWord(38, 0x0a8b_3996, 0xd3b7_973b, 0xe2e2_c38e, 0x12dc_bfdb, 0x9409_e33e);
    NextWord(39, 0x72af_830a, 0x93f5_997f, 0xc821_5c1a, 0xe2e2_c38e, 0x2464_1522);
    NextWord(40, 0x9409_e33e, 0x3b68_ba73, 0xb736_79a2, 0xc821_5c1a, 0x9f47_bf94);
    NextWord(41, 0x2464_1522, 0xaff4_ffc1, 0xe5bc_3909, 0xb736_79a2, 0xf0a6_4f5a);
    NextWord(42, 0x9f47_bf94, 0xf10a_5c62, 0x3266_3c5b, 0xe5bc_3909, 0x3e24_6a79);
    NextWord(43, 0xf0a6_4f5a, 0x0a8b_3996, 0x9d20_9d67, 0x3266_3c5b, 0x2733_3ba3);
    NextWord(44, 0x3e24_6a79, 0x72af_830a, 0xec87_26cb, 0x9d20_9d67, 0x0c47_63f2);
    NextWord(45, 0x2733_3ba3, 0x9409_e33e, 0x7021_38a4, 0xec87_26cb, 0x840a_bf27);
    NextWord(46, 0x0c47_63f2, 0x2464_1522, 0xd3b7_973b, 0x7021_38a4, 0x7a29_0d5d);
    NextWord(47, 0x840a_bf27, 0x9f47_bf94, 0x93f5_997f, 0xd3b7_973b, 0x065c_43da);
  }

  lemma WordsFrom48()
    ensures WordIs(48, 0xfb3e_89cb) && WordIs(49, 0xcc76_17db) && WordIs(50, 0xb9e6_6c34) && WordIs(51, 0xa999_3667)
    ensures WordIs(52, 0x84ba_dedd) && WordIs(53, 0xc214_62bc) && WordIs(54, 0x1487_472c) && WordIs(55, 0xb20f_7a99)
    ensures WordIs(56, 0xef57_b9cd) && WordIs(57, 0xebe6_b238) && WordIs(58, 0x9fe3_095e) && WordIs(59, 0x78bc_8d4b)
    ensures WordIs(60, 0xa43f_cf15) && WordIs(61, 0x668b_2ff8) && WordIs(62, 0xeeab_a2cc) && WordIs(63, 0x12b1_edeb)
  {
    WordsFrom32();
    hide WordIs;
    NextWord(48, 0x7a29_0d5d, 0xf0a6_4f5a, 0x3b68_ba73, 0x93f5_997f, 0xfb3e_89cb);
    NextWord(49, 0x065c_43da, 0x3e24_6a79, 0xaff4_ffc1, 0x3b68_ba73, 0xcc76_17db);
    NextWord(50, 0xfb3e_89cb, 0x2733_3ba3, 0xf10a_5c62, 0xaff4_ffc1, 0xb9e6_6c34);
    NextWord(51, 0xcc76_17db, 0x0c47_63f2, 0x0a8b_3996, 0xf10a_5c62, 0xa999_3667);
    NextWord(52, 0xb9e6_6c34, 0x840a_bf27, 0x72af_830a, 0x0a8b_3996, 0x84ba_dedd);
    NextWord(53, 0xa999_3667, 0x7a29_0d5d, 0x9409_e33e, 0x72af_830a, 0xc214_62bc);
    NextWord(54, 0x84ba_dedd, 0x065c_43da, 0x2464_1522, 0x9409_e33e, 0x1487_472c);
    NextWord(55, 0xc214_62bc, 0xfb3e_89cb, 0x9f47_bf94, 0x2464_1522, 0xb20f_7a99);
    NextWord(56, 0x1487_472c, 0xcc76_17db, 0xf0a6_4f5a, 0x9f47_bf94, 0xef57_b9cd);
    NextWord(57, 0xb20f_7a99, 0xb9e6_6c34, 0x3e24_6a79, 0xf0a6_4f5a, 0xebe6_b238);
    NextWord(58, 0xef57_b9cd, 0xa999_3667, 0x2733_3ba3, 0x3e24_6a79, 0x9fe3_095e);
    NextWord(59, 0xebe6_b238, 0x84ba_dedd, 0x0c47_63f2, 0x2733_3ba3, 0x78bc_8d4b);
    NextWord(60, 0x9fe3_095e, 0xc214_62bc, 0x840a_bf27, 0x0c47_63f2, 0xa43f_cf15);
    NextWord(61, 0x78bc_8d4b, 0x1487_472c, 0x7a29_0d5d, 0x840a_bf27, 0x668b_2ff8);
    NextWord(62, 0xa43f_cf15, 0xb20f_7a99, 0x065c_43da, 0x7a29_0d5d, 0xeeab_a2cc);
    NextWord(63, 0x668b_2ff8, 0xef57_b9cd, 0xfb3e_89cb, 0x065c_43da, 0x12b1_edeb);
  }

  // ---------------------------------------------------------------- the rounds

  predicate After(t: nat, a: bv32, b: bv32, c: bv32, d: bv32, e: bv32, f: bv32, g: bv32, h: bv32) {
    |BLOCK| == 64 && t <= 64 && Rounds(Load(INITIAL_STATE), BLOCK, t) == Registers(a, b, c, d, e, f, g, h)
  }

  function Table(t: nat): seq<bv32> {
    if t < 16 then ROUNDS_FROM_0
    else if t < 32 then ROUNDS_FROM_16
    else if t < 48 then ROUNDS_FROM_32
    else ROUNDS_FROM_48
  }

  predicate ConstantIs(t: nat, k: bv32) {
    t < |ROUND_CONSTANTS| && ROUND_CONSTANTS[t] == k
  }

  lemma SixteenEach()
    ensures |ROUNDS_FROM_0| == |ROUNDS_FROM_16| == |ROUNDS_FROM_32| == |ROUNDS_FROM_48| == 16
  {
  }

  lemma InTable(t: nat, table: seq<bv32>)
    requires t < 64 && table == Table(t)
    ensures |table| == 16 && ConstantIs(t, table[t % 16])
  {
    SixteenEach();
    hide ROUNDS_FROM_0, ROUNDS_FROM_16, ROUNDS_FROM_32, ROUNDS_FROM_48;
  }

  lemma BigSigmas(x: bv32)
    ensures BigSigma0(x) == x.RotateRight(2) ^ x.RotateRight(13) ^ x.RotateRight(22)
    ensures BigSigma1(x) == x.RotateRight(6) ^ x.RotateRight(11) ^ x.RotateRight(25)
  {
    hide Rotr;
    RotrIs(x);
  }

  /** One round, with its two new values. */
  lemma Turn(t: nat, k: bv32, w: bv32, a: bv32, b: bv32, c: bv32, d: bv32,
             e: bv32, f: bv32, g: bv32, h: bv32, newE: bv32, newA: bv32)
    requires t < 64 && After(t, a, b, c, d, e, f, g, h) && ConstantIs(t, k) && WordIs(t, w)
    requires newE == Add(d, Sum5(h, e.RotateRight(6) ^ e.RotateRight(11) ^ e.RotateRight(25), Ch(e, f, g), k, w))
    requires
      newA == Add(Sum5(h, e.RotateRight(6) ^ e.RotateRight(11) ^ e.RotateRight(25), Ch(e, f, g), k, w),
                  Add(a.RotateRight(2) ^ a.RotateRight(13) ^ a.RotateRight(22), Maj(a, b, c)))
    ensures After(t + 1, newA, a, b, c, newE, e, f, g)
  {
    NextRound(Load(INITIAL_STATE), BLOCK, t);
    BigSigmas(a);
    BigSigmas(e);
    hide BigSigma0, BigSigma1, Schedule, ROUND_CONSTANTS;
  }

  lemma ConstantsFrom0()
    ensures ConstantIs(0, 0x428a_2f98) && ConstantIs(1, 0x7137_4491) && ConstantIs(2, 0xb5c0_fbcf)
    ensures ConstantIs(3, 0xe9b5_dba5) && ConstantIs(4, 0x3956_c25b) && ConstantIs(5, 0x59f1_11f1)
    ensures ConstantIs(6, 0x923f_82a4) && ConstantIs(7, 0xab1c_5ed5)
  {
    var k := ROUNDS_FROM_0;
    InTable(0, k);
    InTable(1, k);
    InTable(2, k);
    InTable(3, k);
    InTable(4, k);
    InTable(5, k);
    InTable(6, k);
    InTable(7, k);
  }

  lemma ConstantsFrom8()
    ensures ConstantIs(8, 0xd807_aa98) && ConstantIs(9, 0x1283_5b01) && ConstantIs(10, 0x2431_85be)
    ensures ConstantIs(11, 0x550c_7dc3) && ConstantIs(12, 0x72be_5d74) && ConstantIs(13, 0x80de_b1fe)
    ensures ConstantIs(14, 0x9bdc_06a7) && ConstantIs(15, 0xc19b_f174)
  {
    var k := ROUNDS_FROM_0;
    InTable(8, k);
    InTable(9, k);
    InTable(10, k);
    InTable(11, k);
    InTable(12, k);
    InTable(13, k);
    InTable(14, k);
    InTable(15, k);
  }

  lemma ConstantsFrom16()
    ensures ConstantIs(16, 0xe49b_69c1) && ConstantIs(17, 0xefbe_4786) && ConstantIs(18, 0x0fc1_9dc6)
    ensures ConstantIs(19, 0x240c_a1cc) && ConstantIs(20, 0x2de9_2c6f) && ConstantIs(21, 0x4a74_84aa)
    ensures ConstantIs(22, 0x5cb0_a9dc) && ConstantIs(23, 0x76f9_88da)
  {
    var k := ROUNDS_FROM_16;
    InTable(16, k);
    InTable(17, k);
    InTable(18, k);
    InTable(19, k);
    InTable(20, k);
    InTable(21, k);
    InTable(22, k);
    InTable(23, k);
  }

  lemma ConstantsFrom24()
    ensures ConstantIs(24, 0x983e_5152) && ConstantIs(25, 0xa831_c66d) && ConstantIs(26, 0xb003_27c8)
    ensures ConstantIs(27, 0xbf59_7fc7) && ConstantIs(28, 0xc6e0_0bf3) && ConstantIs(29, 0xd5a7_9147)
    ensures ConstantIs(30, 0x06ca_6351) && ConstantIs(31, 0x1429_2967)
  {
    var k := ROUNDS_FROM_16;
    InTable(24, k);
    InTable(25, k);
    InTable(26, k);
    InTable(27, k);
    InTable(28, k);
    InTable(29, k);
    InTable(30, k);
    InTable(31, k);
  }

  lemma ConstantsFrom32()
    ensures ConstantIs(32, 0x27b7_0a85) && ConstantIs(33, 0x2e1b_2138) && ConstantIs(34, 0x4d2c_6dfc)
    ensures ConstantIs(35, 0x5338_0d13) && ConstantIs(36, 0x650a_7354) && ConstantIs(37, 0x766a_0abb)
    ensures ConstantIs(38, 0x81c2_c92e) && ConstantIs(39, 0x9272_2c85)
  {
    var k := ROUNDS_FROM_32;
    InTable(32, k);
    InTable(33, k);
    InTable(34, k);
    InTable(35, k);
    InTable(36, k);
    InTable(37, k);
    InTable(38, k);
    InTable(39, k);
  }

  lemma ConstantsFrom40()
    ensures ConstantIs(40, 0xa2bf_e8a1) && ConstantIs(41, 0xa81a_664b) && ConstantIs(42, 0xc24b_8b70)
    ensures ConstantIs(43, 0xc76c_51a3) && ConstantIs(44, 0xd192_e819) && ConstantIs(45, 0xd699_0624)
    ensures ConstantIs(46, 0xf40e_3585) && ConstantIs(47, 0x106a_a070)
  {
    var k := ROUNDS_FROM_32;
    InTable(40, k);
    InTable(41, k);
    InTable(42, k);
    InTable(43, k);
    InTable(44, k);
    InTable(45, k);
    InTable(46, k);
    InTable(47, k);
  }

  lemma ConstantsFrom48()
    ensures ConstantIs(48, 0x19a4_c116) && ConstantIs(49, 0x1e37_6c08) && ConstantIs(50, 0x2748_774c)
    ensures ConstantIs(51, 0x34b0_bcb5) && ConstantIs(52, 0x391c_0cb3) && ConstantIs(53, 0x4ed8_aa4a)
    ensures ConstantIs(54, 0x5b9c_ca4f) && ConstantIs(55, 0x682e_6ff3)
  {
    var k := ROUNDS_FROM_48;
    InTable(48, k);
    InTable(49, k);
    InTable(50, k);
    InTable(51, k);
    InTable(52, k);
    InTable(53, k);
    InTable(54, k);
    InTable(55, k);
  }

  lemma ConstantsFrom56()
    ensures ConstantIs(56, 0x748f_82ee) && ConstantIs(57, 0x78a5_636f) && ConstantIs(58, 0x84c8_7814)
    ensures ConstantIs(59, 0x8cc7_0208) && ConstantIs(60, 0x90be_fffa) && ConstantIs(61, 0xa450_6ceb)
    ensures ConstantIs(62, 0xbef9_a3f7) && ConstantIs(63, 0xc671_78f2)
  {
    var k := ROUNDS_FROM_48;
    InTable(56, k);
    InTable(57, k);
    InTable(58, k);
    InTable(59, k);
    InTable(60, k);
    InTable(61, k);
    InTable(62, k);
    InTable(63, k);
  }

  lemma RoundsTo0()
    ensures After(0, 0x6a09_e667, 0xbb67_ae85, 0x3c6e_f372, 0xa54f_f53a, 0x510e_527f,
                  0x9b05_688c, 0x1f83_d9ab, 0x5be0_cd19)
  {
    BlockParts();
    hide BLOCK, ROUND_CONSTANTS, Round;
  }

  lemma RoundsTo16()
    ensures After(16, 0xb0fa_238e, 0xc064_5fde, 0xd932_eb16, 0x8791_2990,
                  0x0759_0dcd, 0x0b92_f20c, 0x745a_48de, 0x1e57_8218)
  {
    RoundsTo0();
    FirstWords();
    ConstantsFrom0();
    ConstantsFrom8();
    hide After, WordIs, ConstantIs;
    Turn(0, 0x428a_2f98, 0x6162_6380, 0x6a09_e667, 0xbb67_ae85, 0x3c6e_f372, 0xa54f_f53a,
         0x510e_527f, 0x9b05_688c, 0x1f83_d9ab, 0x5be0_cd19, 0xfa2a_4622, 0x5d6a_ebcd);
    Turn(1, 0x7137_4491, 0x0000_0000, 0x5d6a_ebcd, 0x6a09_e667, 0xbb67_ae85, 0x3c6e_f372,
         0xfa2a_4622, 0x510e_527f, 0x9b05_688c, 0x1f83_d9ab, 0x78ce_7989, 0x5a6a_d9ad);
    Turn(2, 0xb5c0_fbcf, 0x0000_0000, 0x5a6a_d9ad, 0x5d6a_ebcd, 0x6a09_e667, 0xbb67_ae85,
         0x78ce_7989, 0xfa2a_4622, 0x510e_527f, 0x9b05_688c, 0xf929_39eb, 0xc8c3_47a7);
    Turn(3, 0xe9b5_dba5, 0x0000_0000, 0xc8c3_47a7, 0x5a6a_d9ad, 0x5d6a_ebcd, 0x6a09_e667,
         0xf929_39eb, 0x78ce_7989, 0xfa2a_4622, 0x510e_527f, 0x24e0_0850, 0xd550_f666);
    Turn(4, 0x3956_c25b, 0x0000_0000, 0xd550_f666, 0xc8c3_47a7, 0x5a6a_d9ad, 0x5d6a_ebcd,
         0x24e0_0850, 0xf929_39eb, 0x78ce_7989, 0xfa2a_4622, 0x43ad_a245, 0x0440_9a6a);
    Turn(5, 0x59f1_11f1, 0x0000_0000, 0x0440_9a6a, 0xd550_f666, 0xc8c3_47a7, 0x5a6a_d9ad,
         0x43ad_a245, 0x24e0_0850, 0xf929_39eb, 0x78ce_7989, 0x7142_60ad, 0x2b42_09f5);
    Turn(6, 0x923f_82a4, 0x0000_0000, 0x2b42_09f5, 0x0440_9a6a, 0xd550_f666, 0xc8c3_47a7,
         0x7142_60ad, 0x43ad_a245, 0x24e0_0850, 0xf929_39eb, 0x9b27_a401, 0xe503_0380);
    Turn(7, 0xab1c_5ed5, 0x0000_0000, 0xe503_0380, 0x2b42_09f5, 0x0440_9a6a, 0xd550_f666,
         0x9b27_a401, 0x7142_60ad, 0x43ad_a245, 0x24e0_0850, 0x0c65_7a79, 0x85a0_7b5f);
    Turn(8, 0xd807_aa98, 0x0000_0000, 0x85a0_7b5f, 0xe503_0380, 0x2b42_09f5, 0x0440_9a6a,
         0x0c65_7a79, 0x9b27_a401, 0x7142_60ad, 0x43ad_a245, 0x32ca_2d8c, 0x8e04_ecb9);
    Turn(9, 0x1283_5b01, 0x0000_0000, 0x8e04_ecb9, 0x85a0_7b5f, 0xe503_0380, 0x2b42_09f5,
         0x32ca_2d8c, 0x0c65_7a79, 0x9b27_a401, 0x7142_60ad, 0x1cc9_2596, 0x8c87_346b);
    Turn(10, 0x2431_85be, 0x0000_0000, 0x8c87_346b, 0x8e04_ecb9, 0x85a0_7b5f, 0xe503_0380,
         0x1cc9_2596, 0x32ca_2d8c, 0x0c65_7a79, 0x9b27_a401, 0x436b_23e8, 0x4798_a3f4);
    Turn(11, 0x550c_7dc3, 0x0000_0000, 0x4798_a3f4, 0x8c87_346b, 0x8e04_ecb9, 0x85a0_7b5f,
         0x436b_23e8, 0x1cc9_2596, 0x32ca_2d8c, 0x0c65_7a79, 0x816f_d6e9, 0xf71f_c5a9);
    Turn(12, 0x72be_5d74, 0x0000_0000, 0xf71f_c5a9, 0x4798_a3f4, 0x8c87_346b, 0x8e04_ecb9,
         0x816f_d6e9, 0x436b_23e8, 0x1cc9_2596, 0x32ca_2d8c, 0x1e57_8218, 0x8791_2990);
    Turn(13, 0x80de_b1fe, 0x0000_0000, 0x8791_2990, 0xf71f_c5a9, 0x4798_a3f4, 0x8c87_346b,
         0x1e57_8218, 0x816f_d6e9, 0x436b_23e8, 0x1cc9_2596, 0x745a_48de, 0xd932_eb16);
    Turn(14, 0x9bdc_06a7, 0x0000_0000, 0xd932_eb16, 0x8791_2990, 0xf71f_c5a9, 0x4798_a3f4,
         0x745a_48de, 0x1e57_8218, 0x816f_d6e9, 0x436b_23e8, 0x0b92_f20c, 0xc064_5fde);
    Turn(15, 0xc19b_f174, 0x0000_0018, 0xc064_5fde, 0xd932_eb16, 0x8791_2990, 0xf71f_c5a9,
         0x0b92_f20c, 0x745a_48de, 0x1e57_8218, 0x816f_d6e9, 0x0759_0dcd, 0xb0fa_238e);
  }

  lemma RoundsTo32()
    ensures After(32, 0x73b3_3bf5, 0xea99_2a22, 0xa006_0b30, 0x3634_82c9,
                  0xba59_1112, 0x0109_ab3a, 0xade7_9437, 0x6112_a3b7)
  {
    RoundsTo16();
    WordsFrom16();
    ConstantsFrom16();
    ConstantsFrom24();
    hide After, WordIs, ConstantIs;
    Turn(16, 0xe49b_69c1, 0x6162_6380, 0xb0fa_238e, 0xc064_5fde, 0xd932_eb16, 0x8791_2990,
         0x0759_0dcd, 0x0b92_f20c, 0x745a_48de, 0x1e57_8218, 0x8034_229c, 0x21da_9a9b);
    Turn(17, 0xefbe_4786, 0x000f_0000, 0x21da_9a9b, 0xb0fa_238e, 0xc064_5fde, 0xd932_eb16,
         0x8034_229c, 0x0759_0dcd, 0x0b92_f20c, 0x745a_48de, 0x846e_e454, 0xc2fb_d9d1);
    Turn(18, 0x0fc1_9dc6, 0x7da8_6405, 0xc2fb_d9d1, 0x21da_9a9b, 0xb0fa_238e, 0xc064_5fde,
         0x846e_e454, 0x8034_229c, 0x0759_0dcd, 0x0b92_f20c, 0xcc89_9961, 0xfe77_7bbf);
    Turn(19, 0x240c_a1cc, 0x6000_03c6, 0xfe77_7bbf, 0xc2fb_d9d1, 0x21da_9a9b, 0xb0fa_238e,
         0xcc89_9961, 0x846e_e454, 0x8034_229c, 0x0759_0dcd, 0xb063_8179, 0xe1f2_0c33);
    Turn(20, 0x2de9_2c6f, 0x3e9d_7b78, 0xe1f2_0c33, 0xfe77_7bbf, 0xc2fb_d9d1, 0x21da_9a9b,
         0xb063_8179, 0xcc89_9961, 0x846e_e454, 0x8034_229c, 0x8ada_8930, 0x9dc6_8b63);
    Turn(21, 0x4a74_84aa, 0x0183_fc00, 0x9dc6_8b63, 0xe1f2_0c33, 0xfe77_7bbf, 0xc2fb_d9d1,
         0x8ada_8930, 0xb063_8179, 0xcc89_9961, 0x846e_e454, 0xe125_7970, 0xc260_6d6d);
    Turn(22, 0x5cb0_a9dc, 0x12dc_bfdb, 0xc260_6d6d, 0x9dc6_8b63, 0xe1f2_0c33, 0xfe77_7bbf,
         0xe125_7970, 0x8ada_8930, 0xb063_8179, 0xcc89_9961, 0x49f5_114a, 0xa7a3_623f);
    Turn(23, 0x76f9_88da, 0xe2e2_c38e, 0xa7a3_623f, 0xc260_6d6d, 0x9dc6_8b63, 0xe1f2_0c33,
         0x49f5_114a, 0xe125_7970, 0x8ada_8930, 0xb063_8179, 0xaa47_c347, 0xc5d5_3d8d);
    Turn(24, 0x983e_5152, 0xc821_5c1a, 0xc5d5_3d8d, 0xa7a3_623f, 0xc260_6d6d, 0x9dc6_8b63,
         0xaa47_c347, 0x49f5_114a, 0xe125_7970, 0x8ada_8930, 0x2823_ef91, 0x1c2c_2838);
    Turn(25, 0xa831_c66d, 0xb736_79a2, 0x1c2c_2838, 0xc5d5_3d8d, 0xa7a3_623f, 0xc260_6d6d,
         0x2823_ef91, 0xaa47_c347, 0x49f5_114a, 0xe125_7970, 0x1438_3d8e, 0xcde8_037d);
    Turn(26, 0xb003_27c8, 0xe5bc_3909, 0xcde8_037d, 0x1c2c_2838, 0xc5d5_3d8d, 0xa7a3_623f,
         0x1438_3d8e, 0x2823_ef91, 0xaa47_c347, 0x49f5_114a, 0xc74c_6516, 0xb62e_c4bc);
    Turn(27, 0xbf59_7fc7, 0x3266_3c5b, 0xb62e_c4bc, 0xcde8_037d, 0x1c2c_2838, 0xc5d5_3d8d,
         0xc74c_6516, 0x1438_3d8e, 0x2823_ef91, 0xaa47_c347, 0xedff_bff8, 0x77d3_7528);
    Turn(28, 0xc6e0_0bf3, 0x9d20_9d67, 0x77d3_7528, 0xb62e_c4bc, 0xcde8_037d, 0x1c2c_2838,
         0xedff_bff8, 0xc74c_6516, 0x1438_3d8e, 0x2823_ef91, 0x6112_a3b7, 0x3634_82c9);
    Turn(29, 0xd5a7_9147, 0xec87_26cb, 0x3634_82c9, 0x77d3_7528, 0xb62e_c4bc, 0xcde8_037d,
         0x6112_a3b7, 0xedff_bff8, 0xc74c_6516, 0x1438_3d8e, 0xade7_9437, 0xa006_0b30);
    Turn(30, 0x06ca_6351, 0x7021_38a4, 0xa006_0b30, 0x3634_82c9, 0x77d3_7528, 0xb62e_c4bc,
         0xade7_9437, 0x6112_a3b7, 0xedff_bff8, 0xc74c_6516, 0x0109_ab3a, 0xea99_2a22);
    Turn(31, 0x1429_2967, 0xd3b7_973b, 0xea99_2a22, 0xa006_0b30, 0x3634_82c9, 0x77d3_7528,
         0x0109_ab3a, 0xade7_9437, 0x6112_a3b7, 0xedff_bff8, 0xba59_1112, 0x73b3_3bf5);
  }

  lemma RoundsTo48()
    ensures After(48, 0x4172_328d, 0xa14c_14b0, 0x72ab_4b91, 0x2662_8815,
                  0xfecf_0bc6, 0xd57b_94a9, 0xb775_5da1, 0xa80f_11f0)
  {
    RoundsTo32();
    WordsFrom32();
    ConstantsFrom32();
    ConstantsFrom40();
    hide After, WordIs, ConstantIs;
    Turn(32, 0x27b7_0a85, 0x93f5_997f, 0x73b3_3bf5, 0xea99_2a22, 0xa006_0b30, 0x3634_82c9,
         0xba59_1112, 0x0109_ab3a, 0xade7_9437, 0x6112_a3b7, 0x9cd9_f5f6, 0x98e1_2507);
    Turn(33, 0x2e1b_2138, 0x3b68_ba73, 0x98e1_2507, 0x73b3_3bf5, 0xea99_2a22, 0xa006_0b30,
         0x9cd9_f5f6, 0xba59_1112, 0x0109_ab3a, 0xade7_9437, 0x5924_9dd3, 0xfe60_4df5);
    Turn(34, 0x4d2c_6dfc, 0xaff4_ffc1, 0xfe60_4df5, 0x98e1_2507, 0x73b3_3bf5, 0xea99_2a22,
         0x5924_9dd3, 0x9cd9_f5f6, 0xba59_1112, 0x0109_ab3a, 0x085f_3833, 0xa9a7_738c);
    Turn(35, 0x5338_0d13, 0xf10a_5c62, 0xa9a7_738c, 0xfe60_4df5, 0x98e1_2507, 0x73b3_3bf5,
         0x085f_3833, 0x5924_9dd3, 0x9cd9_f5f6, 0xba59_1112, 0xf4b0_02d6, 0x65a0_cfe4);
    Turn(36, 0x650a_7354, 0x0a8b_3996, 0x65a0_cfe4, 0xa9a7_738c, 0xfe60_4df5, 0x98e1_2507,
         0xf4b0_02d6, 0x085f_3833, 0x5924_9dd3, 0x9cd9_f5f6, 0x0772_a26b, 0x41a6_5cb1);
    Turn(37, 0x766a_0abb, 0x72af_830a, 0x41a6_5cb1, 0x65a0_cfe4, 0xa9a7_738c, 0xfe60_4df5,
         0x0772_a26b, 0xf4b0_02d6, 0x085f_3833, 0x5924_9dd3, 0xa507_a53d, 0x34df_1604);
    Turn(38, 0x81c2_c92e, 0x9409_e33e, 0x34df_1604, 0x41a6_5cb1, 0x65a0_cfe4, 0xa9a7_738c,
         0xa507_a53d, 0x0772_a26b, 0xf4b0_02d6, 0x085f_3833, 0xf078_1bc8, 0x6dc5_7a8a);
    Turn(39, 0x9272_2c85, 0x2464_1522, 0x6dc5_7a8a, 0x34df_1604, 0x41a6_5cb1, 0x65a0_cfe4,
         0xf078_1bc8, 0xa507_a53d, 0x0772_a26b, 0xf4b0_02d6, 0x1efb_c0a0, 0x79ea_687a);
    Turn(40, 0xa2bf_e8a1, 0x9f47_bf94, 0x79ea_687a, 0x6dc5_7a8a, 0x34df_1604, 0x41a6_5cb1,
         0x1efb_c0a0, 0xf078_1bc8, 0xa507_a53d, 0x0772_a26b, 0x2635_2d63, 0xd667_0766);
    Turn(41, 0xa81a_664b, 0xf0a6_4f5a, 0xd667_0766, 0x79ea_687a, 0x6dc5_7a8a, 0x34df_1604,
         0x2635_2d63, 0x1efb_c0a0, 0xf078_1bc8, 0xa507_a53d, 0x838b_2711, 0xdf46_652f);
    Turn(42, 0xc24b_8b70, 0x3e24_6a79, 0xdf46_652f, 0xd667_0766, 0x79ea_687a, 0x6dc5_7a8a,
         0x838b_2711, 0x2635_2d63, 0x1efb_c0a0, 0xf078_1bc8, 0xdecd_4715, 0x17aa_0dfe);
    Turn(43, 0xc76c_51a3, 0x2733_3ba3, 0x17aa_0dfe, 0xdf46_652f, 0xd667_0766, 0x79ea_687a,
         0xdecd_4715, 0x838b_2711, 0x2635_2d63, 0x1efb_c0a0, 0xfda2_4c2e, 0x9d4b_af93);
    Turn(44, 0xd192_e819, 0x0c47_63f2, 0x9d4b_af93, 0x17aa_0dfe, 0xdf46_652f, 0xd667_0766,
         0xfda2_4c2e, 0xdecd_4715, 0x838b_2711, 0x2635_2d63, 0xa80f_11f0, 0x2662_8815);
    Turn(45, 0xd699_0624, 0x840a_bf27, 0x2662_8815, 0x9d4b_af93, 0x17aa_0dfe, 0xdf46_652f,
         0xa80f_11f0, 0xfda2_4c2e, 0xdecd_4715, 0x838b_2711, 0xb775_5da1, 0x72ab_4b91);
    Turn(46, 0xf40e_3585, 0x7a29_0d5d, 0x72ab_4b91, 0x2662_8815, 0x9d4b_af93, 0x17aa_0dfe,
         0xb775_5da1, 0xa80f_11f0, 0xfda2_4c2e, 0xdecd_4715, 0xd57b_94a9, 0xa14c_14b0);
    Turn(47, 0x106a_a070, 0x065c_43da, 0xa14c_14b0, 0x72ab_4b91, 0x2662_8815, 0x9d4b_af93,
         0xd57b_94a9, 0xb775_5da1, 0xa80f_11f0, 0xfda2_4c2e, 0xfecf_0bc6, 0x4172_328d);
  }

  lemma RoundsTo64()
    ensures After(64, 0x506e_3058, 0xd39a_2165, 0x04d2_4d6c, 0xb85e_2ce9,
                  0x5ef5_0f24, 0xfb12_1210, 0x948d_25b6, 0x961f_4894)
  {
    RoundsTo48();
    WordsFrom48();
    ConstantsFrom48();
    ConstantsFrom56();
    hide After, WordIs, ConstantIs;
    Turn(48, 0x19a4_c116, 0xfb3e_89cb, 0x4172_328d, 0xa14c_14b0, 0x72ab_4b91, 0x2662_8815,
         0xfecf_0bc6, 0xd57b_94a9, 0xb775_5da1, 0xa80f_11f0, 0xbd71_4038, 0x0575_7ceb);
    Turn(49, 0x1e37_6c08, 0xcc76_17db, 0x0575_7ceb, 0x4172_328d, 0xa14c_14b0, 0x72ab_4b91,
         0xbd71_4038, 0xfecf_0bc6, 0xd57b_94a9, 0xb775_5da1, 0x6e5c_390c, 0xf11b_faa8);
    Turn(50, 0x2748_774c, 0xb9e6_6c34, 0xf11b_faa8, 0x0575_7ceb, 0x4172_328d, 0xa14c_14b0,
         0x6e5c_390c, 0xbd71_4038, 0xfecf_0bc6, 0xd57b_94a9, 0x52f1_ccf7, 0x7a05_08a1);
    Turn(51, 0x34b0_bcb5, 0xa999_3667, 0x7a05_08a1, 0xf11b_faa8, 0x0575_7ceb, 0x4172_328d,
         0x52f1_ccf7, 0x6e5c_390c, 0xbd71_4038, 0xfecf_0bc6, 0x4923_1c1e, 0x886e_7a22);
    Turn(52, 0x391c_0cb3, 0x84ba_dedd, 0x886e_7a22, 0x7a05_08a1, 0xf11b_faa8, 0x0575_7ceb,
         0x4923_1c1e, 0x52f1_ccf7, 0x6e5c_390c, 0xbd71_4038, 0x529e_7d00, 0x101f_d28f);
    Turn(53, 0x4ed8_aa4a, 0xc214_62bc, 0x101f_d28f, 0x886e_7a22, 0x7a05_08a1, 0xf11b_faa8,
         0x529e_7d00, 0x4923_1c1e, 0x52f1_ccf7, 0x6e5c_390c, 0x9f47_87c3, 0xf570_2fdb);
    Turn(54, 0x5b9c_ca4f, 0x1487_472c, 0xf570_2fdb, 0x101f_d28f, 0x886e_7a22, 0x7a05_08a1,
         0x9f47_87c3, 0x529e_7d00, 0x4923_1c1e, 0x52f1_ccf7, 0xe50e_1b4f, 0x3ec4_5cdb);
    Turn(55, 0x682e_6ff3, 0xb20f_7a99, 0x3ec4_5cdb, 0xf570_2fdb, 0x101f_d28f, 0x886e_7a22,
         0xe50e_1b4f, 0x9f47_87c3, 0x529e_7d00, 0x4923_1c1e, 0x54cb_266b, 0x38cc_9913);
    Turn(56, 0x748f_82ee, 0xef57_b9cd, 0x38cc_9913, 0x3ec4_5cdb, 0xf570_2fdb, 0x101f_d28f,
         0x54cb_266b, 0xe50e_1b4f, 0x9f47_87c3, 0x529e_7d00, 0x9b5e_906c, 0xfcd1_887b);
    Turn(57, 0x78a5_636f, 0xebe6_b238, 0xfcd1_887b, 0x38cc_9913, 0x3ec4_5cdb, 0xf570_2fdb,
         0x9b5e_906c, 0x54cb_266b, 0xe50e_1b4f, 0x9f47_87c3, 0x7e44_008e, 0xc062_d46f);
    Turn(58, 0x84c8_7814, 0x9fe3_095e, 0xc062_d46f, 0xfcd1_887b, 0x38cc_9913, 0x3ec4_5cdb,
         0x7e44_008e, 0x9b5e_906c, 0x54cb_266b, 0xe50e_1b4f, 0x6d83_bfc6, 0xffb7_0472);
    Turn(59, 0x8cc7_0208, 0x78bc_8d4b, 0xffb7_0472, 0xc062_d46f, 0xfcd1_887b, 0x38cc_9913,
         0x6d83_bfc6, 0x7e44_008e, 0x9b5e_906c, 0x54cb_266b, 0xb21b_ad3d, 0xb6ae_8fff);
    Turn(60, 0x90be_fffa, 0xa43f_cf15, 0xb6ae_8fff, 0xffb7_0472, 0xc062_d46f, 0xfcd1_887b,
         0xb21b_ad3d, 0x6d83_bfc6, 0x7e44_008e, 0x9b5e_906c, 0x961f_4894, 0xb85e_2ce9);
    Turn(61, 0xa450_6ceb, 0x668b_2ff8, 0xb85e_2ce9, 0xb6ae_8fff, 0xffb7_0472, 0xc062_d46f,
         0x961f_4894, 0xb21b_ad3d, 0x6d83_bfc6, 0x7e44_008e, 0x948d_25b6, 0x04d2_4d6c);
    Turn(62, 0xbef9_a3f7, 0xeeab_a2cc, 0x04d2_4d6c, 0xb85e_2ce9, 0xb6ae_8fff, 0xffb7_0472,
         0x948d_25b6, 0x961f_4894, 0xb21b_ad3d, 0x6d83_bfc6, 0xfb12_1210, 0xd39a_2165);
    Turn(63, 0xc671_78f2, 0x12b1_edeb, 0xd39a_2165, 0x04d2_4d6c, 0xb85e_2ce9, 0xb6ae_8fff,
         0xfb12_1210, 0x948d_25b6, 0x961f_4894, 0xb21b_ad3d, 0x5ef5_0f24, 0x506e_3058);
  }

  // ---------------------------------------------------------------- the digest

  lemma OneBlock(block: bytes)
    requires |block| == 64
    ensures Chained(block, 1) == Compressed(INITIAL_STATE, block)
  {
    assert block[0..64] == block;
    assert Chained(block, 0) == INITIAL_STATE;
    hide Compressed, INITIAL_STATE;
  }

  lemma AbcState()
    ensures Compressed(INITIAL_STATE, BLOCK)
         == [0xba78_16bf, 0x8f01_cfea, 0x4141_40de, 0x5dae_2223,
             0xb003_61a3, 0x9617_7a9c, 0xb410_ff61, 0xf200_15ad]
  {
    RoundsTo64();
    hide Rounds, BLOCK, ROUND_CONSTANTS;
  }

  /** The published digest of "abc". */
  lemma AbcDigest()
    ensures Digest(Ascii("abc"))
         == HexText([0xba78_16bf, 0x8f01_cfea, 0x4141_40de, 0x5dae_2223,
                     0xb003_61a3, 0x9617_7a9c, 0xb410_ff61, 0xf200_15ad])
  {
    assert Ascii("abc") == ABC;
    AbcPadded();
    OneBlock(BLOCK);
    AbcState();
    hide Compressed, Chained, BLOCK, Padded, HexText;
  }

  /** Eight lower-case hexadecimal digits that write the word's value. */
  predicate Spells(text: bytes, w: bv32) {
    && |text| == 8 && Positional(text, 16) == w as int
    && forall j :: 0 <= j < 8 ==> '0' as int <= text[j] <= '9' as int || 'a' as int <= text[j] <= 'f' as int
  }

  /** The words are printed one after another. */
  lemma {:induction false} HexTextAt(s: seq<bv32>, i: nat)
    requires i < |s|
    ensures |HexText(s)| == 8 * |s| && Spells(HexText(s)[8 * i..8 * i + 8], s[i])
  {
    hide HexText, PaddedHex, Spells;
    HexTextSize(s);
    HexTextSnoc(s);
    var front, n := s[..|s| - 1], |s| - 1;
    HexTextSize(front);
    if i < n {
      HexTextAt(front, i);
      EightAt(HexText(front), PaddedHex(s[n] as int, 8), i, n);
    } else {
      EightLast(HexText(front), PaddedHex(s[n] as int, 8));
    }
  }

  lemma EightAt(front: bytes, last: bytes, i: nat, n: nat)
    requires |front| == 8 * n && i < n
    ensures (front + last)[8 * i..8 * i + 8] == front[8 * i..8 * i + 8]
  {
  }

  lemma EightLast(front: bytes, last: bytes)
    requires |last| == 8
    ensures (front + last)[|front|..|front| + 8] == last
  {
  }

  lemma SixteenTimes()
    ensures Power(16, 8) == 0x1_0000_0000
  {
    assert Power(16, 4) == 0x1_0000;
  }

  lemma WordSpelled(w: bv32)
    ensures Spells(PaddedHex(w as int, 8), w)
  {
    hide PaddedHex, Positional, Power;
    SixteenTimes();
    PaddedHexIs(w as int, 8);
  }

  lemma HexTextSnoc(s: seq<bv32>)
    requires s != []
    ensures
      var last := PaddedHex(s[|s| - 1] as int, 8);
      && HexText(s) == HexText(s[..|s| - 1]) + last
      && |last| == 8 && Spells(last, s[|s| - 1])
  {
    hide PaddedHex, Positional;
    WordSpelled(s[|s| - 1]);
  }

  lemma {:induction false} HexTextSize(s: seq<bv32>)
    ensures |HexText(s)| == 8 * |s|
  {
    if s != [] {
      HexTextSnoc(s);
      HexTextSize(s[..|s| - 1]);
    }
  }
}
