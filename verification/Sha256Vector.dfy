/** The published example for SHA-256, the message "abc": its padding, schedule, rounds and digest. */
module Sha256Vector {
  import opened Sha256

  function Abc(): (m: seq<Octet>)
    ensures |m| == 3 && m[0] == 0x61 && m[1] == 0x62 && m[2] == 0x63
  {
    [0x61, 0x62, 0x63]
  }

  /** The message, the bit 1, zeros, and the length of 24 bits. */
  function Block(): (b: seq<Octet>)
    ensures |b| == 64
  {
    Abc() + [0x80] + Zeros(59) + [24]
  }

  lemma PadIs()
    ensures Pad(Abc()) == Block()
  {
    hide LenByte, Abc;
    LenBytes();
    assert Len64(24) == Zeros(7) + [24];
    ZerosSplit(52, 7);
  }

  function LenTable(): (d: seq<nat>)
    ensures |d| == 8 && Digits(d)
    ensures d[0] == d[1] == d[2] == d[3] == d[4] == d[5] == d[6] == 0 && d[7] == 24
  {
    [0, 0, 0, 0, 0, 0, 0, 24]
  }

  lemma {:induction false} LeadingZeros(d: seq<nat>)
    requires forall k | 0 <= k < |d| :: d[k] == 0
    ensures Number(d) == 0
  {
    if d != [] {
      LeadingZeros(d[..|d| - 1]);
    }
  }

  lemma LenBytes()
    ensures LenByte(24, 0) == LenByte(24, 1) == LenByte(24, 2) == LenByte(24, 3) == 0
    ensures LenByte(24, 4) == LenByte(24, 5) == LenByte(24, 6) == 0 && LenByte(24, 7) == 24
  {
    hide LenByte, LenTable;
    var d := LenTable();
    LeadingZeros(d[..7]);
    assert Number(d) == 24;
    forall k: nat | k < 8
      ensures LenByte(24, k) == d[k] as bv8
    {
      LenDigits(d, k);
    }
  }

  // ----- the tables of the example -----

  /** The 64 words of the schedule. */
  function Words(): (w: seq<seq<bv32>>)
    ensures |w| == 8 && forall i | 0 <= i < 8 :: |w[i]| == 8
  {
    [
      [0x61626380, 0x00000000, 0x00000000, 0x00000000, 0x00000000, 0x00000000, 0x00000000, 0x00000000],
      [0x00000000, 0x00000000, 0x00000000, 0x00000000, 0x00000000, 0x00000000, 0x00000000, 0x00000018],
      [0x61626380, 0x000f0000, 0x7da86405, 0x600003c6, 0x3e9d7b78, 0x0183fc00, 0x12dcbfdb, 0xe2e2c38e],
      [0xc8215c1a, 0xb73679a2, 0xe5bc3909, 0x32663c5b, 0x9d209d67, 0xec8726cb, 0x702138a4, 0xd3b7973b],
      [0x93f5997f, 0x3b68ba73, 0xaff4ffc1, 0xf10a5c62, 0x0a8b3996, 0x72af830a, 0x9409e33e, 0x24641522],
      [0x9f47bf94, 0xf0a64f5a, 0x3e246a79, 0x27333ba3, 0x0c4763f2, 0x840abf27, 0x7a290d5d, 0x065c43da],
      [0xfb3e89cb, 0xcc7617db, 0xb9e66c34, 0xa9993667, 0x84badedd, 0xc21462bc, 0x1487472c, 0xb20f7a99],
      [0xef57b9cd, 0xebe6b238, 0x9fe3095e, 0x78bc8d4b, 0xa43fcf15, 0x668b2ff8, 0xeeaba2cc, 0x12b1edeb]
    ]
  }

  /** The variable a before the first round and after each round, with b, c and d in front. */
  function As(): (w: seq<seq<bv32>>)
    ensures |w| == 9 && forall i | 0 <= i < 9 :: |w[i]| == 8
  {
    [
      [0xa54ff53a, 0x3c6ef372, 0xbb67ae85, 0x6a09e667, 0x5d6aebcd, 0x5a6ad9ad, 0xc8c347a7, 0xd550f666],
      [0x04409a6a, 0x2b4209f5, 0xe5030380, 0x85a07b5f, 0x8e04ecb9, 0x8c87346b, 0x4798a3f4, 0xf71fc5a9],
      [0x87912990, 0xd932eb16, 0xc0645fde, 0xb0fa238e, 0x21da9a9b, 0xc2fbd9d1, 0xfe777bbf, 0xe1f20c33],
      [0x9dc68b63, 0xc2606d6d, 0xa7a3623f, 0xc5d53d8d, 0x1c2c2838, 0xcde8037d, 0xb62ec4bc, 0x77d37528],
      [0x363482c9, 0xa0060b30, 0xea992a22, 0x73b33bf5, 0x98e12507, 0xfe604df5, 0xa9a7738c, 0x65a0cfe4],
      [0x41a65cb1, 0x34df1604, 0x6dc57a8a, 0x79ea687a, 0xd6670766, 0xdf46652f, 0x17aa0dfe, 0x9d4baf93],
      [0x26628815, 0x72ab4b91, 0xa14c14b0, 0x4172328d, 0x05757ceb, 0xf11bfaa8, 0x7a0508a1, 0x886e7a22],
      [0x101fd28f, 0xf5702fdb, 0x3ec45cdb, 0x38cc9913, 0xfcd1887b, 0xc062d46f, 0xffb70472, 0xb6ae8fff],
      [0xb85e2ce9, 0x04d24d6c, 0xd39a2165, 0x506e3058, 0x00000000, 0x00000000, 0x00000000, 0x00000000]
    ]
  }

  /** The variable e in the same way, with f, g and h in front. */
  function Es(): (w: seq<seq<bv32>>)
    ensures |w| == 9 && forall i | 0 <= i < 9 :: |w[i]| == 8
  {
    [
      [0x5be0cd19, 0x1f83d9ab, 0x9b05688c, 0x510e527f, 0xfa2a4622, 0x78ce7989, 0xf92939eb, 0x24e00850],
      [0x43ada245, 0x714260ad, 0x9b27a401, 0x0c657a79, 0x32ca2d8c, 0x1cc92596, 0x436b23e8, 0x816fd6e9],
      [0x1e578218, 0x745a48de, 0x0b92f20c, 0x07590dcd, 0x8034229c, 0x846ee454, 0xcc899961, 0xb0638179],
      [0x8ada8930, 0xe1257970, 0x49f5114a, 0xaa47c347, 0x2823ef91, 0x14383d8e, 0xc74c6516, 0xedffbff8],
      [0x6112a3b7, 0xade79437, 0x0109ab3a, 0xba591112, 0x9cd9f5f6, 0x59249dd3, 0x085f3833, 0xf4b002d6],
      [0x0772a26b, 0xa507a53d, 0xf0781bc8, 0x1efbc0a0, 0x26352d63, 0x838b2711, 0xdecd4715, 0xfda24c2e],
      [0xa80f11f0, 0xb7755da1, 0xd57b94a9, 0xfecf0bc6, 0xbd714038, 0x6e5c390c, 0x52f1ccf7, 0x49231c1e],
      [0x529e7d00, 0x9f4787c3, 0xe50e1b4f, 0x54cb266b, 0x9b5e906c, 0x7e44008e, 0x6d83bfc6, 0xb21bad3d],
      [0x961f4894, 0x948d25b6, 0xfb121210, 0x5ef50f24, 0x00000000, 0x00000000, 0x00000000, 0x00000000]
    ]
  }

  function Word(t: nat): bv32
    requires t < 64
  {
    Words()[t / 8][t % 8]
  }

  function A(i: nat): bv32
    requires i < 68
  {
    As()[i / 8][i % 8]
  }

  function E(i: nat): bv32
    requires i < 68
  {
    Es()[i / 8][i % 8]
  }

  /** The eight variables after t rounds. */
  function State(t: nat): Regs
    requires t <= 64
  {
    Regs(A(t + 3), A(t + 2), A(t + 1), A(t), E(t + 3), E(t + 2), E(t + 1), E(t))
  }

  // ----- looking them up -----

  lemma WordsRow0()
    ensures Word(0) == 0x61626380 && Word(1) == 0x00000000 && Word(2) == 0x00000000 && Word(3) == 0x00000000
    ensures Word(4) == 0x00000000 && Word(5) == 0x00000000 && Word(6) == 0x00000000 && Word(7) == 0x00000000
  {
  }

  lemma WordsRow1()
    ensures Word(8) == 0x00000000 && Word(9) == 0x00000000 && Word(10) == 0x00000000 && Word(11) == 0x00000000
    ensures Word(12) == 0x00000000 && Word(13) == 0x00000000 && Word(14) == 0x00000000 && Word(15) == 0x00000018
  {
  }

  lemma WordsRow2()
    ensures Word(16) == 0x61626380 && Word(17) == 0x000f0000 && Word(18) == 0x7da86405 && Word(19) == 0x600003c6
    ensures Word(20) == 0x3e9d7b78 && Word(21) == 0x0183fc00 && Word(22) == 0x12dcbfdb && Word(23) == 0xe2e2c38e
  {
  }

  lemma WordsRow3()
    ensures Word(24) == 0xc8215c1a && Word(25) == 0xb73679a2 && Word(26) == 0xe5bc3909 && Word(27) == 0x32663c5b
    ensures Word(28) == 0x9d209d67 && Word(29) == 0xec8726cb && Word(30) == 0x702138a4 && Word(31) == 0xd3b7973b
  {
  }

  lemma WordsRow4()
    ensures Word(32) == 0x93f5997f && Word(33) == 0x3b68ba73 && Word(34) == 0xaff4ffc1 && Word(35) == 0xf10a5c62
    ensures Word(36) == 0x0a8b3996 && Word(37) == 0x72af830a && Word(38) == 0x9409e33e && Word(39) == 0x24641522
  {
  }

  lemma WordsRow5()
    ensures Word(40) == 0x9f47bf94 && Word(41) == 0xf0a64f5a && Word(42) == 0x3e246a79 && Word(43) == 0x27333ba3
    ensures Word(44) == 0x0c4763f2 && Word(45) == 0x840abf27 && Word(46) == 0x7a290d5d && Word(47) == 0x065c43da
  {
  }

  lemma WordsRow6()
    ensures Word(48) == 0xfb3e89cb && Word(49) == 0xcc7617db && Word(50) == 0xb9e66c34 && Word(51) == 0xa9993667
    ensures Word(52) == 0x84badedd && Word(53) == 0xc21462bc && Word(54) == 0x1487472c && Word(55) == 0xb20f7a99
  {
  }

  lemma WordsRow7()
    ensures Word(56) == 0xef57b9cd && Word(57) == 0xebe6b238 && Word(58) == 0x9fe3095e && Word(59) == 0x78bc8d4b
    ensures Word(60) == 0xa43fcf15 && Word(61) == 0x668b2ff8 && Word(62) == 0xeeaba2cc && Word(63) == 0x12b1edeb
  {
  }

  lemma ConstantsRow0()
    ensures Constant(0) == 0x428a2f98 && Constant(1) == 0x71374491 && Constant(2) == 0xb5c0fbcf && Constant(3) == 0xe9b5dba5
    ensures Constant(4) == 0x3956c25b && Constant(5) == 0x59f111f1 && Constant(6) == 0x923f82a4 && Constant(7) == 0xab1c5ed5
  {
  }

  lemma ConstantsRow1()
    ensures Constant(8) == 0xd807aa98 && Constant(9) == 0x12835b01 && Constant(10) == 0x243185be && Constant(11) == 0x550c7dc3
    ensures Constant(12) == 0x72be5d74 && Constant(13) == 0x80deb1fe && Constant(14) == 0x9bdc06a7 && Constant(15) == 0xc19bf174
  {
  }

  lemma ConstantsRow2()
    ensures Constant(16) == 0xe49b69c1 && Constant(17) == 0xefbe4786 && Constant(18) == 0x0fc19dc6 && Constant(19) == 0x240ca1cc
    ensures Constant(20) == 0x2de92c6f && Constant(21) == 0x4a7484aa && Constant(22) == 0x5cb0a9dc && Constant(23) == 0x76f988da
  {
  }

  lemma ConstantsRow3()
    ensures Constant(24) == 0x983e5152 && Constant(25) == 0xa831c66d && Constant(26) == 0xb00327c8 && Constant(27) == 0xbf597fc7
    ensures Constant(28) == 0xc6e00bf3 && Constant(29) == 0xd5a79147 && Constant(30) == 0x06ca6351 && Constant(31) == 0x14292967
  {
  }

  lemma ConstantsRow4()
    ensures Constant(32) == 0x27b70a85 && Constant(33) == 0x2e1b2138 && Constant(34) == 0x4d2c6dfc && Constant(35) == 0x53380d13
    ensures Constant(36) == 0x650a7354 && Constant(37) == 0x766a0abb && Constant(38) == 0x81c2c92e && Constant(39) == 0x92722c85
  {
  }

  lemma ConstantsRow5()
    ensures Constant(40) == 0xa2bfe8a1 && Constant(41) == 0xa81a664b && Constant(42) == 0xc24b8b70 && Constant(43) == 0xc76c51a3
    ensures Constant(44) == 0xd192e819 && Constant(45) == 0xd6990624 && Constant(46) == 0xf40e3585 && Constant(47) == 0x106aa070
  {
  }

  lemma ConstantsRow6()
    ensures Constant(48) == 0x19a4c116 && Constant(49) == 0x1e376c08 && Constant(50) == 0x2748774c && Constant(51) == 0x34b0bcb5
    ensures Constant(52) == 0x391c0cb3 && Constant(53) == 0x4ed8aa4a && Constant(54) == 0x5b9cca4f && Constant(55) == 0x682e6ff3
  {
  }

  lemma ConstantsRow7()
    ensures Constant(56) == 0x748f82ee && Constant(57) == 0x78a5636f && Constant(58) == 0x84c87814 && Constant(59) == 0x8cc70208
    ensures Constant(60) == 0x90befffa && Constant(61) == 0xa4506ceb && Constant(62) == 0xbef9a3f7 && Constant(63) == 0xc67178f2
  {
  }

  lemma ARow0()
    ensures A(0) == 0xa54ff53a && A(1) == 0x3c6ef372 && A(2) == 0xbb67ae85 && A(3) == 0x6a09e667
    ensures A(4) == 0x5d6aebcd && A(5) == 0x5a6ad9ad && A(6) == 0xc8c347a7 && A(7) == 0xd550f666
  {
  }

  lemma ARow1()
    ensures A(8) == 0x04409a6a && A(9) == 0x2b4209f5 && A(10) == 0xe5030380 && A(11) == 0x85a07b5f
    ensures A(12) == 0x8e04ecb9 && A(13) == 0x8c87346b && A(14) == 0x4798a3f4 && A(15) == 0xf71fc5a9
  {
  }

  lemma ARow2()
    ensures A(16) == 0x87912990 && A(17) == 0xd932eb16 && A(18) == 0xc0645fde && A(19) == 0xb0fa238e
    ensures A(20) == 0x21da9a9b && A(21) == 0xc2fbd9d1 && A(22) == 0xfe777bbf && A(23) == 0xe1f20c33
  {
  }

  lemma ARow3()
    ensures A(24) == 0x9dc68b63 && A(25) == 0xc2606d6d && A(26) == 0xa7a3623f && A(27) == 0xc5d53d8d
    ensures A(28) == 0x1c2c2838 && A(29) == 0xcde8037d && A(30) == 0xb62ec4bc && A(31) == 0x77d37528
  {
  }

  lemma ARow4()
    ensures A(32) == 0x363482c9 && A(33) == 0xa0060b30 && A(34) == 0xea992a22 && A(35) == 0x73b33bf5
    ensures A(36) == 0x98e12507 && A(37) == 0xfe604df5 && A(38) == 0xa9a7738c && A(39) == 0x65a0cfe4
  {
  }

  lemma ARow5()
    ensures A(40) == 0x41a65cb1 && A(41) == 0x34df1604 && A(42) == 0x6dc57a8a && A(43) == 0x79ea687a
    ensures A(44) == 0xd6670766 && A(45) == 0xdf46652f && A(46) == 0x17aa0dfe && A(47) == 0x9d4baf93
  {
  }

  lemma ARow6()
    ensures A(48) == 0x26628815 && A(49) == 0x72ab4b91 && A(50) == 0xa14c14b0 && A(51) == 0x4172328d
    ensures A(52) == 0x05757ceb && A(53) == 0xf11bfaa8 && A(54) == 0x7a0508a1 && A(55) == 0x886e7a22
  {
  }

  lemma ARow7()
    ensures A(56) == 0x101fd28f && A(57) == 0xf5702fdb && A(58) == 0x3ec45cdb && A(59) == 0x38cc9913
    ensures A(60) == 0xfcd1887b && A(61) == 0xc062d46f && A(62) == 0xffb70472 && A(63) == 0xb6ae8fff
  {
  }

  lemma ARow8()
    ensures A(64) == 0xb85e2ce9 && A(65) == 0x04d24d6c && A(66) == 0xd39a2165 && A(67) == 0x506e3058
  {
  }

  lemma ERow0()
    ensures E(0) == 0x5be0cd19 && E(1) == 0x1f83d9ab && E(2) == 0x9b05688c && E(3) == 0x510e527f
    ensures E(4) == 0xfa2a4622 && E(5) == 0x78ce7989 && E(6) == 0xf92939eb && E(7) == 0x24e00850
  {
  }

  lemma ERow1()
    ensures E(8) == 0x43ada245 && E(9) == 0x714260ad && E(10) == 0x9b27a401 && E(11) == 0x0c657a79
    ensures E(12) == 0x32ca2d8c && E(13) == 0x1cc92596 && E(14) == 0x436b23e8 && E(15) == 0x816fd6e9
  {
  }

  lemma ERow2()
    ensures E(16) == 0x1e578218 && E(17) == 0x745a48de && E(18) == 0x0b92f20c && E(19) == 0x07590dcd
    ensures E(20) == 0x8034229c && E(21) == 0x846ee454 && E(22) == 0xcc899961 && E(23) == 0xb0638179
  {
  }

  lemma ERow3()
    ensures E(24) == 0x8ada8930 && E(25) == 0xe1257970 && E(26) == 0x49f5114a && E(27) == 0xaa47c347
    ensures E(28) == 0x2823ef91 && E(29) == 0x14383d8e && E(30) == 0xc74c6516 && E(31) == 0xedffbff8
  {
  }

  lemma ERow4()
    ensures E(32) == 0x6112a3b7 && E(33) == 0xade79437 && E(34) == 0x0109ab3a && E(35) == 0xba591112
    ensures E(36) == 0x9cd9f5f6 && E(37) == 0x59249dd3 && E(38) == 0x085f3833 && E(39) == 0xf4b002d6
  {
  }

  lemma ERow5()
    ensures E(40) == 0x0772a26b && E(41) == 0xa507a53d && E(42) == 0xf0781bc8 && E(43) == 0x1efbc0a0
    ensures E(44) == 0x26352d63 && E(45) == 0x838b2711 && E(46) == 0xdecd4715 && E(47) == 0xfda24c2e
  {
  }

  lemma ERow6()
    ensures E(48) == 0xa80f11f0 && E(49) == 0xb7755da1 && E(50) == 0xd57b94a9 && E(51) == 0xfecf0bc6
    ensures E(52) == 0xbd714038 && E(53) == 0x6e5c390c && E(54) == 0x52f1ccf7 && E(55) == 0x49231c1e
  {
  }

  lemma ERow7()
    ensures E(56) == 0x529e7d00 && E(57) == 0x9f4787c3 && E(58) == 0xe50e1b4f && E(59) == 0x54cb266b
    ensures E(60) == 0x9b5e906c && E(61) == 0x7e44008e && E(62) == 0x6d83bfc6 && E(63) == 0xb21bad3d
  {
  }

  lemma ERow8()
    ensures E(64) == 0x961f4894 && E(65) == 0x948d25b6 && E(66) == 0xfb121210 && E(67) == 0x5ef50f24
  {
  }

  // ----- every step of the tables -----

  predicate WordStep(t: nat) {
    16 <= t < 64 && Expand(Word(t - 2), Word(t - 7), Word(t - 15), Word(t - 16)) == Word(t)
  }

  predicate RoundStep(t: nat) {
    t < 64 && Round(State(t), Constant(t), Word(t)) == State(t + 1)
  }

  lemma WordSteps16()
    ensures WordStep(16) && WordStep(17) && WordStep(18) && WordStep(19) && WordStep(20) && WordStep(21) && WordStep(22) && WordStep(23)
  {
    hide Word;
    WordsRow0();
    WordsRow1();
    WordsRow2();
  }

  lemma WordSteps24()
    ensures WordStep(24) && WordStep(25) && WordStep(26) && WordStep(27) && WordStep(28) && WordStep(29) && WordStep(30) && WordStep(31)
  {
    hide Word;
    WordsRow1();
    WordsRow2();
    WordsRow3();
  }

  lemma WordSteps32()
    ensures WordStep(32) && WordStep(33) && WordStep(34) && WordStep(35) && WordStep(36) && WordStep(37) && WordStep(38) && WordStep(39)
  {
    hide Word;
    WordsRow2();
    WordsRow3();
    WordsRow4();
  }

  lemma WordSteps40()
    ensures WordStep(40) && WordStep(41) && WordStep(42) && WordStep(43) && WordStep(44) && WordStep(45) && WordStep(46) && WordStep(47)
  {
    hide Word;
    WordsRow3();
    WordsRow4();
    WordsRow5();
  }

  lemma WordSteps48()
    ensures WordStep(48) && WordStep(49) && WordStep(50) && WordStep(51) && WordStep(52) && WordStep(53) && WordStep(54) && WordStep(55)
  {
    hide Word;
    WordsRow4();
    WordsRow5();
    WordsRow6();
  }

  lemma WordSteps56()
    ensures WordStep(56) && WordStep(57) && WordStep(58) && WordStep(59) && WordStep(60) && WordStep(61) && WordStep(62) && WordStep(63)
  {
    hide Word;
    WordsRow5();
    WordsRow6();
    WordsRow7();
  }

  lemma RoundSteps0()
    ensures RoundStep(0) && RoundStep(1) && RoundStep(2) && RoundStep(3)
  {
    hide Word, Constant, A, E;
    WordsRow0();
    ConstantsRow0();
    ARow0();
    ERow0();
  }

  lemma RoundSteps4()
    ensures RoundStep(4) && RoundStep(5) && RoundStep(6) && RoundStep(7)
  {
    hide Word, Constant, A, E;
    WordsRow0();
    ConstantsRow0();
    ARow0();
    ERow0();
    ARow1();
    ERow1();
  }

  lemma RoundSteps8()
    ensures RoundStep(8) && RoundStep(9) && RoundStep(10) && RoundStep(11)
  {
    hide Word, Constant, A, E;
    WordsRow1();
    ConstantsRow1();
    ARow1();
    ERow1();
  }

  lemma RoundSteps12()
    ensures RoundStep(12) && RoundStep(13) && RoundStep(14) && RoundStep(15)
  {
    hide Word, Constant, A, E;
    WordsRow1();
    ConstantsRow1();
    ARow1();
    ERow1();
    ARow2();
    ERow2();
  }

  lemma RoundSteps16()
    ensures RoundStep(16) && RoundStep(17) && RoundStep(18) && RoundStep(19)
  {
    hide Word, Constant, A, E;
    WordsRow2();
    ConstantsRow2();
    ARow2();
    ERow2();
  }

  lemma RoundSteps20()
    ensures RoundStep(20) && RoundStep(21) && RoundStep(22) && RoundStep(23)
  {
    hide Word, Constant, A, E;
    WordsRow2();
    ConstantsRow2();
    ARow2();
    ERow2();
    ARow3();
    ERow3();
  }

  lemma RoundSteps24()
    ensures RoundStep(24) && RoundStep(25) && RoundStep(26) && RoundStep(27)
  {
    hide Word, Constant, A, E;
    WordsRow3();
    ConstantsRow3();
    ARow3();
    ERow3();
  }

  lemma RoundSteps28()
    ensures RoundStep(28) && RoundStep(29) && RoundStep(30) && RoundStep(31)
  {
    hide Word, Constant, A, E;
    WordsRow3();
    ConstantsRow3();
    ARow3();
    ERow3();
    ARow4();
    ERow4();
  }

  lemma RoundSteps32()
    ensures RoundStep(32) && RoundStep(33) && RoundStep(34) && RoundStep(35)
  {
    hide Word, Constant, A, E;
    WordsRow4();
    ConstantsRow4();
    ARow4();
    ERow4();
  }

  lemma RoundSteps36()
    ensures RoundStep(36) && RoundStep(37) && RoundStep(38) && RoundStep(39)
  {
    hide Word, Constant, A, E;
    WordsRow4();
    ConstantsRow4();
    ARow4();
    ERow4();
    ARow5();
    ERow5();
  }

  lemma RoundSteps40()
    ensures RoundStep(40) && RoundStep(41) && RoundStep(42) && RoundStep(43)
  {
    hide Word, Constant, A, E;
    WordsRow5();
    ConstantsRow5();
    ARow5();
    ERow5();
  }

  lemma RoundSteps44()
    ensures RoundStep(44) && RoundStep(45) && RoundStep(46) && RoundStep(47)
  {
    hide Word, Constant, A, E;
    WordsRow5();
    ConstantsRow5();
    ARow5();
    ERow5();
    ARow6();
    ERow6();
  }

  lemma RoundSteps48()
    ensures RoundStep(48) && RoundStep(49) && RoundStep(50) && RoundStep(51)
  {
    hide Word, Constant, A, E;
    WordsRow6();
    ConstantsRow6();
    ARow6();
    ERow6();
  }

  lemma RoundSteps52()
    ensures RoundStep(52) && RoundStep(53) && RoundStep(54) && RoundStep(55)
  {
    hide Word, Constant, A, E;
    WordsRow6();
    ConstantsRow6();
    ARow6();
    ERow6();
    ARow7();
    ERow7();
  }

  lemma RoundSteps56()
    ensures RoundStep(56) && RoundStep(57) && RoundStep(58) && RoundStep(59)
  {
    hide Word, Constant, A, E;
    WordsRow7();
    ConstantsRow7();
    ARow7();
    ERow7();
  }

  lemma RoundSteps60()
    ensures RoundStep(60) && RoundStep(61) && RoundStep(62) && RoundStep(63)
  {
    hide Word, Constant, A, E;
    WordsRow7();
    ConstantsRow7();
    ARow7();
    ERow7();
    ARow8();
    ERow8();
  }

  lemma WordStepAt(t: nat)
    requires 16 <= t < 64
    ensures WordStep(t)
  {
    hide WordStep;
    WordSteps16();
    WordSteps24();
    WordSteps32();
    WordSteps40();
    WordSteps48();
    WordSteps56();
  }

  lemma RoundStepAt(t: nat)
    requires t < 64
    ensures RoundStep(t)
  {
    hide RoundStep;
    RoundSteps0();
    RoundSteps4();
    RoundSteps8();
    RoundSteps12();
    RoundSteps16();
    RoundSteps20();
    RoundSteps24();
    RoundSteps28();
    RoundSteps32();
    RoundSteps36();
    RoundSteps40();
    RoundSteps44();
    RoundSteps48();
    RoundSteps52();
    RoundSteps56();
    RoundSteps60();
  }

  // ----- the digest -----

  lemma BlockBytes(k: nat)
    requires k < 64
    ensures Block()[k] == if k == 0 then 0x61 else if k == 1 then 0x62 else if k == 2 then 0x63 else if k == 3 then 0x80 else if k == 63 then 24 else 0
  {
  }

  lemma FirstWord(t: nat)
    requires t < 16
    ensures W(Block(), t) == Word(t)
  {
    hide W, Block, Word;
    WFirst(Block(), t);
    BlockBytes(4 * t);
    BlockBytes(4 * t + 1);
    BlockBytes(4 * t + 2);
    BlockBytes(4 * t + 3);
    WordsRow0();
    WordsRow1();
  }

  /** The schedule of the block is the table ... */
  lemma {:induction false} WordIs(t: nat)
    requires t < 64
    ensures W(Block(), t) == Word(t)
  {
    hide W, Block, Word, Expand;
    if t < 16 {
      FirstWord(t);
    } else {
      WordIs(t - 2);
      WordIs(t - 7);
      WordIs(t - 15);
      WordIs(t - 16);
      WNext(Block(), t);
      WordStepAt(t);
    }
  }

  /** ... and so are the variables after each round. */
  lemma {:induction false} RoundIs(t: nat)
    requires t <= 64
    ensures Rounds(H0, Block(), t) == State(t)
  {
    hide W, Block, Word, Round, Constant, Rounds, A, E;
    if t == 0 {
      RoundsNone(H0, Block());
      ARow0();
      ERow0();
    } else {
      RoundIs(t - 1);
      RoundsNext(H0, Block(), t - 1);
      WordIs(t - 1);
      RoundStepAt(t - 1);
    }
  }

  /** The state behind the only block. */
  function Last(): Regs {
    Regs(0xba7816bf, 0x8f01cfea, 0x414140de, 0x5dae2223, 0xb00361a3, 0x96177a9c, 0xb410ff61, 0xf20015ad)
  }

  lemma LastIs()
    ensures AddRegs(H0, State(64)) == Last()
  {
    hide A, E;
    ARow8();
    ERow8();
  }

  /** Hashing "abc" gives the published digest. */
  lemma AbcDigest()
    ensures Digest(Abc()) == [
      0xba, 0x78, 0x16, 0xbf, 0x8f, 0x01, 0xcf, 0xea,
      0x41, 0x41, 0x40, 0xde, 0x5d, 0xae, 0x22, 0x23,
      0xb0, 0x03, 0x61, 0xa3, 0x96, 0x17, 0x7a, 0x9c,
      0xb4, 0x10, 0xff, 0x61, 0xf2, 0x00, 0x15, 0xad
    ]
  {
    hide Block, Abc, Pad, Rounds, State, AddRegs, StateBytes, Blocks, Last;
    PadIs();
    BlocksNone(H0);
    BlocksNext(H0, [], Block());
    assert [] + Block() == Block();
    RoundIs(64);
    LastIs();
    LastBytes();
  }

  lemma LastBytes()
    ensures StateBytes(Last()) == [
      0xba, 0x78, 0x16, 0xbf, 0x8f, 0x01, 0xcf, 0xea,
      0x41, 0x41, 0x40, 0xde, 0x5d, 0xae, 0x22, 0x23,
      0xb0, 0x03, 0x61, 0xa3, 0x96, 0x17, 0x7a, 0x9c,
      0xb4, 0x10, 0xff, 0x61, 0xf2, 0x00, 0x15, 0xad
    ]
  {
  }
}
