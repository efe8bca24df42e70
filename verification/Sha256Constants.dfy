/** Where the constants of the digest come from (sections 4.2.2 and 5.3.3 of FIPS 180-4). */
module Sha256Constants {
  import opened Primes
  import opened Sha256

  const UNIT: nat := 0x1_0000_0000

  /** `c` is the square root of `p` in units of 2^-32, rounded down. */
  predicate SquareRootIs(p: nat, c: nat) {
    c * c <= p * 0x1_0000_0000_0000_0000 < (c + 1) * (c + 1)
  }

  /** `c` is the cube root of `p` in units of 2^-32, rounded down. */
  predicate CubeRootIs(p: nat, c: nat) {
    c * c * c <= p * 0x1_0000_0000_0000_0000_0000_0000 < (c + 1) * (c + 1) * (c + 1)
  }

  /** `f` is the first 32 bits of the fractional part of the square root of `p`. */
  ghost predicate SquareRootFraction(p: nat, f: bv32) {
    exists c: nat :: SquareRootIs(p, c) && c % UNIT == f as int
  }

  ghost predicate CubeRootFraction(p: nat, f: bv32) {
    exists c: nat :: CubeRootIs(p, c) && c % UNIT == f as int
  }

  lemma SquareRoot(p: nat, f: bv32, c: nat)
    requires SquareRootIs(p, c) && c % UNIT == f as int
    ensures SquareRootFraction(p, f)
  {
  }

  lemma CubeRoot(p: nat, f: bv32, c: nat)
    requires CubeRootIs(p, c) && c % UNIT == f as int
    ensures CubeRootFraction(p, f)
  {
  }

  lemma InitialStateDerived()
    ensures forall i :: 0 <= i < 8 ==> SquareRootFraction(FIRST_PRIMES[i], INITIAL_STATE[i])
  {
    hide SquareRootFraction;
    SquareRoot(2, 0x6a09_e667, 0x1_6a09_e667);
    SquareRoot(3, 0xbb67_ae85, 0x1_bb67_ae85);
    SquareRoot(5, 0x3c6e_f372, 0x2_3c6e_f372);
    SquareRoot(7, 0xa54f_f53a, 0x2_a54f_f53a);
    SquareRoot(11, 0x510e_527f, 0x3_510e_527f);
    SquareRoot(13, 0x9b05_688c, 0x3_9b05_688c);
    SquareRoot(17, 0x1f83_d9ab, 0x4_1f83_d9ab);
    SquareRoot(19, 0x5be0_cd19, 0x4_5be0_cd19);
  }

  lemma RoundConstantsFrom0()
    ensures forall i :: 0 <= i < 8 ==> CubeRootFraction(PRIMES_FROM_2[i], ROUNDS_FROM_0[i])
  {
    hide CubeRootFraction;
    CubeRoot(2, 0x428a_2f98, 0x1_428a_2f98);
    CubeRoot(3, 0x7137_4491, 0x1_7137_4491);
    CubeRoot(5, 0xb5c0_fbcf, 0x1_b5c0_fbcf);
    CubeRoot(7, 0xe9b5_dba5, 0x1_e9b5_dba5);
    CubeRoot(11, 0x3956_c25b, 0x2_3956_c25b);
    CubeRoot(13, 0x59f1_11f1, 0x2_59f1_11f1);
    CubeRoot(17, 0x923f_82a4, 0x2_923f_82a4);
    CubeRoot(19, 0xab1c_5ed5, 0x2_ab1c_5ed5);
  }

  lemma RoundConstantsFrom8()
    ensures forall i :: 8 <= i < 16 ==> CubeRootFraction(PRIMES_FROM_2[i], ROUNDS_FROM_0[i])
  {
    hide CubeRootFraction;
    CubeRoot(23, 0xd807_aa98, 0x2_d807_aa98);
    CubeRoot(29, 0x1283_5b01, 0x3_1283_5b01);
    CubeRoot(31, 0x2431_85be, 0x3_2431_85be);
    CubeRoot(37, 0x550c_7dc3, 0x3_550c_7dc3);
    CubeRoot(41, 0x72be_5d74, 0x3_72be_5d74);
    CubeRoot(43, 0x80de_b1fe, 0x3_80de_b1fe);
    CubeRoot(47, 0x9bdc_06a7, 0x3_9bdc_06a7);
    CubeRoot(53, 0xc19b_f174, 0x3_c19b_f174);
  }

  lemma RoundConstantsFrom16()
    ensures forall i :: 0 <= i < 8 ==> CubeRootFraction(PRIMES_FROM_59[i], ROUNDS_FROM_16[i])
  {
    hide CubeRootFraction;
    CubeRoot(59, 0xe49b_69c1, 0x3_e49b_69c1);
    CubeRoot(61, 0xefbe_4786, 0x3_efbe_4786);
    CubeRoot(67, 0x0fc1_9dc6, 0x4_0fc1_9dc6);
    CubeRoot(71, 0x240c_a1cc, 0x4_240c_a1cc);
    CubeRoot(73, 0x2de9_2c6f, 0x4_2de9_2c6f);
    CubeRoot(79, 0x4a74_84aa, 0x4_4a74_84aa);
    CubeRoot(83, 0x5cb0_a9dc, 0x4_5cb0_a9dc);
    CubeRoot(89, 0x76f9_88da, 0x4_76f9_88da);
  }

  lemma RoundConstantsFrom24()
    ensures forall i :: 8 <= i < 16 ==> CubeRootFraction(PRIMES_FROM_59[i], ROUNDS_FROM_16[i])
  {
    hide CubeRootFraction;
    CubeRoot(97, 0x983e_5152, 0x4_983e_5152);
    CubeRoot(101, 0xa831_c66d, 0x4_a831_c66d);
    CubeRoot(103, 0xb003_27c8, 0x4_b003_27c8);
    CubeRoot(107, 0xbf59_7fc7, 0x4_bf59_7fc7);
    CubeRoot(109, 0xc6e0_0bf3, 0x4_c6e0_0bf3);
    CubeRoot(113, 0xd5a7_9147, 0x4_d5a7_9147);
    CubeRoot(127, 0x06ca_6351, 0x5_06ca_6351);
    CubeRoot(131, 0x1429_2967, 0x5_1429_2967);
  }

  lemma RoundConstantsFrom32()
    ensures forall i :: 0 <= i < 8 ==> CubeRootFraction(PRIMES_FROM_137[i], ROUNDS_FROM_32[i])
  {
    hide CubeRootFraction;
    CubeRoot(137, 0x27b7_0a85, 0x5_27b7_0a85);
    CubeRoot(139, 0x2e1b_2138, 0x5_2e1b_2138);
    CubeRoot(149, 0x4d2c_6dfc, 0x5_4d2c_6dfc);
    CubeRoot(151, 0x5338_0d13, 0x5_5338_0d13);
    CubeRoot(157, 0x650a_7354, 0x5_650a_7354);
    CubeRoot(163, 0x766a_0abb, 0x5_766a_0abb);
    CubeRoot(167, 0x81c2_c92e, 0x5_81c2_c92e);
    CubeRoot(173, 0x9272_2c85, 0x5_9272_2c85);
  }

  lemma RoundConstantsFrom40()
    ensures forall i :: 8 <= i < 16 ==> CubeRootFraction(PRIMES_FROM_137[i], ROUNDS_FROM_32[i])
  {
    hide CubeRootFraction;
    CubeRoot(179, 0xa2bf_e8a1, 0x5_a2bf_e8a1);
    CubeRoot(181, 0xa81a_664b, 0x5_a81a_664b);
    CubeRoot(191, 0xc24b_8b70, 0x5_c24b_8b70);
    CubeRoot(193, 0xc76c_51a3, 0x5_c76c_51a3);
    CubeRoot(197, 0xd192_e819, 0x5_d192_e819);
    CubeRoot(199, 0xd699_0624, 0x5_d699_0624);
    CubeRoot(211, 0xf40e_3585, 0x5_f40e_3585);
    CubeRoot(223, 0x106a_a070, 0x6_106a_a070);
  }

  lemma RoundConstantsFrom48()
    ensures forall i :: 0 <= i < 8 ==> CubeRootFraction(PRIMES_FROM_227[i], ROUNDS_FROM_48[i])
  {
    hide CubeRootFraction;
    CubeRoot(227, 0x19a4_c116, 0x6_19a4_c116);
    CubeRoot(229, 0x1e37_6c08, 0x6_1e37_6c08);
    CubeRoot(233, 0x2748_774c, 0x6_2748_774c);
    CubeRoot(239, 0x34b0_bcb5, 0x6_34b0_bcb5);
    CubeRoot(241, 0x391c_0cb3, 0x6_391c_0cb3);
    CubeRoot(251, 0x4ed8_aa4a, 0x6_4ed8_aa4a);
    CubeRoot(257, 0x5b9c_ca4f, 0x6_5b9c_ca4f);
    CubeRoot(263, 0x682e_6ff3, 0x6_682e_6ff3);
  }

  lemma RoundConstantsFrom56()
    ensures forall i :: 56 <= i < 64 ==> CubeRootFraction(FIRST_PRIMES[i], ROUND_CONSTANTS[i])
  {
    hide CubeRootFraction;
    CubeRoot(269, 0x748f_82ee, 0x6_748f_82ee);
    CubeRoot(271, 0x78a5_636f, 0x6_78a5_636f);
    CubeRoot(277, 0x84c8_7814, 0x6_84c8_7814);
    CubeRoot(281, 0x8cc7_0208, 0x6_8cc7_0208);
    CubeRoot(283, 0x90be_fffa, 0x6_90be_fffa);
    CubeRoot(293, 0xa450_6ceb, 0x6_a450_6ceb);
    CubeRoot(307, 0xbef9_a3f7, 0x6_bef9_a3f7);
    CubeRoot(311, 0xc671_78f2, 0x6_c671_78f2);
  }

  lemma Rows()
    ensures |ROUNDS_FROM_0| == |ROUNDS_FROM_16| == |ROUNDS_FROM_32| == |ROUNDS_FROM_48| == 16
    ensures |ROUND_CONSTANTS| == |FIRST_PRIMES| == 64
  {
    Sizes();
  }

  lemma RoundConstantsDerived()
    ensures |ROUND_CONSTANTS| == |FIRST_PRIMES| == 64
    ensures forall i :: 0 <= i < 64 ==> CubeRootFraction(FIRST_PRIMES[i], ROUND_CONSTANTS[i])
  {
    Rows();
    Sizes();
    hide CubeRootFraction, ROUNDS_FROM_0, ROUNDS_FROM_16, ROUNDS_FROM_32, ROUNDS_FROM_48;
    hide PRIMES_FROM_2, PRIMES_FROM_59, PRIMES_FROM_137, PRIMES_FROM_227;
    RoundConstantsFrom0();
    RoundConstantsFrom8();
    RoundConstantsFrom16();
    RoundConstantsFrom24();
    RoundConstantsFrom32();
    RoundConstantsFrom40();
    RoundConstantsFrom48();
    RoundConstantsFrom56();
    forall i | 0 <= i < 64
      ensures CubeRootFraction(FIRST_PRIMES[i], ROUND_CONSTANTS[i])
    {
      var j := i % 16;
      if i < 16 {
        assert FIRST_PRIMES[i] == PRIMES_FROM_2[j] && ROUND_CONSTANTS[i] == ROUNDS_FROM_0[j];
      } else if i < 32 {
        assert FIRST_PRIMES[i] == PRIMES_FROM_59[j] && ROUND_CONSTANTS[i] == ROUNDS_FROM_16[j];
      } else if i < 48 {
        assert FIRST_PRIMES[i] == PRIMES_FROM_137[j] && ROUND_CONSTANTS[i] == ROUNDS_FROM_32[j];
      } else {
        assert FIRST_PRIMES[i] == PRIMES_FROM_227[j] && ROUND_CONSTANTS[i] == ROUNDS_FROM_48[j];
      }
    }
  }
}
