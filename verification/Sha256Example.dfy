/** The worked example of FIPS 180-4: the digest of the three bytes "abc", by its schedule words and rounds. */
module Sha256Example {
  import opened Blocks
  import opened Bytes
  import opened Words
  import opened Sha256
  import opened Sha256Stream
  import opened Sha256Laws

  /** The message with its padding. */
  function Abc(): Block {
    [0x61, 0x62, 0x63, 0x80] + Zeros(59) + [0x18]
  }

  lemma NextWord(block: Block, t: nat, w2: bv32, w7: bv32, w15: bv32, w16: bv32, w: bv32)
    requires 16 <= t && Schedule(block, t - 2) == w2 && Schedule(block, t - 7) == w7
    requires Schedule(block, t - 15) == w15 && Schedule(block, t - 16) == w16
    requires w == Add(Add(Add(LittleSigma1(w2), w7), LittleSigma0(w15)), w16)
    ensures Schedule(block, t) == w
  {
    hide LittleSigma0, LittleSigma1, Add, Schedule;
    ScheduleStep(block, t);
  }

  lemma FirstWords(block: Block)
    requires block == Abc()
    ensures Schedule(block, 0) == 0x61626380 && Schedule(block, 15) == 0x18
    ensures forall t :: 1 <= t < 15 ==> Schedule(block, t) == 0
  {
    hide BigEndianWord;
    WordsRead();
    assert block[0..4] == [0x61, 0x62, 0x63, 0x80] && block[60..64] == [0, 0, 0, 0x18];
    forall t | 1 <= t < 15
      ensures Schedule(block, t) == 0
    {
      assert block[4 * t..4 * t + 4] == [0, 0, 0, 0];
    }
  }

  lemma WordsRead()
    ensures BigEndianWord([0x61, 0x62, 0x63, 0x80]) == 0x61626380
    ensures BigEndianWord([0, 0, 0, 0x18]) == 0x18 && BigEndianWord([0, 0, 0, 0]) == 0
  {
    hide BigEndianWord;
    FirstRead();
    LengthRead();
    ZeroRead();
  }

  lemma FirstRead()
    ensures BigEndianWord([0x61, 0x62, 0x63, 0x80]) == 0x61626380
  {
  }

  lemma LengthRead()
    ensures BigEndianWord([0, 0, 0, 0x18]) == 0x18
  {
  }

  lemma ZeroRead()
    ensures BigEndianWord([0, 0, 0, 0]) == 0
  {
  }

  lemma Words16(block: Block)
    requires block == Abc()
    ensures Schedule(block, 16) == 0x61626380
    ensures Schedule(block, 17) == 0x000f0000
    ensures Schedule(block, 18) == 0x7da86405
    ensures Schedule(block, 19) == 0x600003c6
    ensures Schedule(block, 20) == 0x3e9d7b78
    ensures Schedule(block, 21) == 0x0183fc00
    ensures Schedule(block, 22) == 0x12dcbfdb
    ensures Schedule(block, 23) == 0xe2e2c38e
  {
    hide Schedule, Abc;
    FirstWords(block);
    NextWord(block, 16, 0x00000000, 0x00000000, 0x00000000, 0x61626380, 0x61626380);
    NextWord(block, 17, 0x00000018, 0x00000000, 0x00000000, 0x00000000, 0x000f0000);
    NextWord(block, 18, 0x61626380, 0x00000000, 0x00000000, 0x00000000, 0x7da86405);
    NextWord(block, 19, 0x000f0000, 0x00000000, 0x00000000, 0x00000000, 0x600003c6);
    NextWord(block, 20, 0x7da86405, 0x00000000, 0x00000000, 0x00000000, 0x3e9d7b78);
    NextWord(block, 21, 0x600003c6, 0x00000000, 0x00000000, 0x00000000, 0x0183fc00);
    NextWord(block, 22, 0x3e9d7b78, 0x00000018, 0x00000000, 0x00000000, 0x12dcbfdb);
    NextWord(block, 23, 0x0183fc00, 0x61626380, 0x00000000, 0x00000000, 0xe2e2c38e);
  }

  lemma Words24(block: Block)
    requires block == Abc()
    ensures Schedule(block, 24) == 0xc8215c1a
    ensures Schedule(block, 25) == 0xb73679a2
    ensures Schedule(block, 26) == 0xe5bc3909
    ensures Schedule(block, 27) == 0x32663c5b
    ensures Schedule(block, 28) == 0x9d209d67
    ensures Schedule(block, 29) == 0xec8726cb
    ensures Schedule(block, 30) == 0x702138a4
    ensures Schedule(block, 31) == 0xd3b7973b
  {
    hide Schedule, Abc;
    FirstWords(block);
    Words16(block);
    NextWord(block, 24, 0x12dcbfdb, 0x000f0000, 0x00000000, 0x00000000, 0xc8215c1a);
    NextWord(block, 25, 0xe2e2c38e, 0x7da86405, 0x00000000, 0x00000000, 0xb73679a2);
    NextWord(block, 26, 0xc8215c1a, 0x600003c6, 0x00000000, 0x00000000, 0xe5bc3909);
    NextWord(block, 27, 0xb73679a2, 0x3e9d7b78, 0x00000000, 0x00000000, 0x32663c5b);
    NextWord(block, 28, 0xe5bc3909, 0x0183fc00, 0x00000000, 0x00000000, 0x9d209d67);
    NextWord(block, 29, 0x32663c5b, 0x12dcbfdb, 0x00000000, 0x00000000, 0xec8726cb);
    NextWord(block, 30, 0x9d209d67, 0xe2e2c38e, 0x00000018, 0x00000000, 0x702138a4);
    NextWord(block, 31, 0xec8726cb, 0xc8215c1a, 0x61626380, 0x00000018, 0xd3b7973b);
  }

  lemma Words32(block: Block)
    requires block == Abc()
    ensures Schedule(block, 32) == 0x93f5997f
    ensures Schedule(block, 33) == 0x3b68ba73
    ensures Schedule(block, 34) == 0xaff4ffc1
    ensures Schedule(block, 35) == 0xf10a5c62
    ensures Schedule(block, 36) == 0x0a8b3996
    ensures Schedule(block, 37) == 0x72af830a
    ensures Schedule(block, 38) == 0x9409e33e
    ensures Schedule(block, 39) == 0x24641522
  {
    hide Schedule, Abc;
    Words16(block);
    Words24(block);
    NextWord(block, 32, 0x702138a4, 0xb73679a2, 0x000f0000, 0x61626380, 0x93f5997f);
    NextWord(block, 33, 0xd3b7973b, 0xe5bc3909, 0x7da86405, 0x000f0000, 0x3b68ba73);
    NextWord(block, 34, 0x93f5997f, 0x32663c5b, 0x600003c6, 0x7da86405, 0xaff4ffc1);
    NextWord(block, 35, 0x3b68ba73, 0x9d209d67, 0x3e9d7b78, 0x600003c6, 0xf10a5c62);
    NextWord(block, 36, 0xaff4ffc1, 0xec8726cb, 0x0183fc00, 0x3e9d7b78, 0x0a8b3996);
    NextWord(block, 37, 0xf10a5c62, 0x702138a4, 0x12dcbfdb, 0x0183fc00, 0x72af830a);
    NextWord(block, 38, 0x0a8b3996, 0xd3b7973b, 0xe2e2c38e, 0x12dcbfdb, 0x9409e33e);
    NextWord(block, 39, 0x72af830a, 0x93f5997f, 0xc8215c1a, 0xe2e2c38e, 0x24641522);
  }

  lemma Words40(block: Block)
    requires block == Abc()
    ensures Schedule(block, 40) == 0x9f47bf94
    ensures Schedule(block, 41) == 0xf0a64f5a
    ensures Schedule(block, 42) == 0x3e246a79
    ensures Schedule(block, 43) == 0x27333ba3
    ensures Schedule(block, 44) == 0x0c4763f2
    ensures Schedule(block, 45) == 0x840abf27
    ensures Schedule(block, 46) == 0x7a290d5d
    ensures Schedule(block, 47) == 0x065c43da
  {
    hide Schedule, Abc;
    Words24(block);
    Words32(block);
    NextWord(block, 40, 0x9409e33e, 0x3b68ba73, 0xb73679a2, 0xc8215c1a, 0x9f47bf94);
    NextWord(block, 41, 0x24641522, 0xaff4ffc1, 0xe5bc3909, 0xb73679a2, 0xf0a64f5a);
    NextWord(block, 42, 0x9f47bf94, 0xf10a5c62, 0x32663c5b, 0xe5bc3909, 0x3e246a79);
    NextWord(block, 43, 0xf0a64f5a, 0x0a8b3996, 0x9d209d67, 0x32663c5b, 0x27333ba3);
    NextWord(block, 44, 0x3e246a79, 0x72af830a, 0xec8726cb, 0x9d209d67, 0x0c4763f2);
    NextWord(block, 45, 0x27333ba3, 0x9409e33e, 0x702138a4, 0xec8726cb, 0x840abf27);
    NextWord(block, 46, 0x0c4763f2, 0x24641522, 0xd3b7973b, 0x702138a4, 0x7a290d5d);
    NextWord(block, 47, 0x840abf27, 0x9f47bf94, 0x93f5997f, 0xd3b7973b, 0x065c43da);
  }

  lemma Words48(block: Block)
    requires block == Abc()
    ensures Schedule(block, 48) == 0xfb3e89cb
    ensures Schedule(block, 49) == 0xcc7617db
    ensures Schedule(block, 50) == 0xb9e66c34
    ensures Schedule(block, 51) == 0xa9993667
    ensures Schedule(block, 52) == 0x84badedd
    ensures Schedule(block, 53) == 0xc21462bc
    ensures Schedule(block, 54) == 0x1487472c
    ensures Schedule(block, 55) == 0xb20f7a99
  {
    hide Schedule, Abc;
    Words32(block);
    Words40(block);
    NextWord(block, 48, 0x7a290d5d, 0xf0a64f5a, 0x3b68ba73, 0x93f5997f, 0xfb3e89cb);
    NextWord(block, 49, 0x065c43da, 0x3e246a79, 0xaff4ffc1, 0x3b68ba73, 0xcc7617db);
    NextWord(block, 50, 0xfb3e89cb, 0x27333ba3, 0xf10a5c62, 0xaff4ffc1, 0xb9e66c34);
    NextWord(block, 51, 0xcc7617db, 0x0c4763f2, 0x0a8b3996, 0xf10a5c62, 0xa9993667);
    NextWord(block, 52, 0xb9e66c34, 0x840abf27, 0x72af830a, 0x0a8b3996, 0x84badedd);
    NextWord(block, 53, 0xa9993667, 0x7a290d5d, 0x9409e33e, 0x72af830a, 0xc21462bc);
    NextWord(block, 54, 0x84badedd, 0x065c43da, 0x24641522, 0x9409e33e, 0x1487472c);
    NextWord(block, 55, 0xc21462bc, 0xfb3e89cb, 0x9f47bf94, 0x24641522, 0xb20f7a99);
  }

  lemma Words56(block: Block)
    requires block == Abc()
    ensures Schedule(block, 56) == 0xef57b9cd
    ensures Schedule(block, 57) == 0xebe6b238
    ensures Schedule(block, 58) == 0x9fe3095e
    ensures Schedule(block, 59) == 0x78bc8d4b
    ensures Schedule(block, 60) == 0xa43fcf15
    ensures Schedule(block, 61) == 0x668b2ff8
    ensures Schedule(block, 62) == 0xeeaba2cc
    ensures Schedule(block, 63) == 0x12b1edeb
  {
    hide Schedule, Abc;
    Words40(block);
    Words48(block);
    NextWord(block, 56, 0x1487472c, 0xcc7617db, 0xf0a64f5a, 0x9f47bf94, 0xef57b9cd);
    NextWord(block, 57, 0xb20f7a99, 0xb9e66c34, 0x3e246a79, 0xf0a64f5a, 0xebe6b238);
    NextWord(block, 58, 0xef57b9cd, 0xa9993667, 0x27333ba3, 0x3e246a79, 0x9fe3095e);
    NextWord(block, 59, 0xebe6b238, 0x84badedd, 0x0c4763f2, 0x27333ba3, 0x78bc8d4b);
    NextWord(block, 60, 0x9fe3095e, 0xc21462bc, 0x840abf27, 0x0c4763f2, 0xa43fcf15);
    NextWord(block, 61, 0x78bc8d4b, 0x1487472c, 0x7a290d5d, 0x840abf27, 0x668b2ff8);
    NextWord(block, 62, 0xa43fcf15, 0xb20f7a99, 0x065c43da, 0x7a290d5d, 0xeeaba2cc);
    NextWord(block, 63, 0x668b2ff8, 0xef57b9cd, 0xfb3e89cb, 0x065c43da, 0x12b1edeb);
  }

  lemma NextRegs(block: Block, n: nat, r: Regs, w: bv32, after: Regs)
    requires n < 64 && Rounds(INITIAL, block, n) == r && Schedule(block, n) == w && Round(r, K(n), w) == after
    ensures Rounds(INITIAL, block, n + 1) == after
  {
    hide Round, Schedule, Rounds, K;
    RoundStep(INITIAL, block, n);
  }

  lemma Rounds8(block: Block)
    requires block == Abc()
    ensures Rounds(INITIAL, block, 8) == Regs(0x85a07b5f, 0xe5030380, 0x2b4209f5, 0x04409a6a, 0x0c657a79, 0x9b27a401, 0x714260ad, 0x43ada245)
  {
    hide Schedule, Abc, Rounds;
    FirstWords(block);
    StartRounds(INITIAL, block, NoWords());
    NextRegs(block, 0, Regs(0x6a09e667, 0xbb67ae85, 0x3c6ef372, 0xa54ff53a, 0x510e527f, 0x9b05688c, 0x1f83d9ab, 0x5be0cd19), 0x61626380, Regs(0x5d6aebcd, 0x6a09e667, 0xbb67ae85, 0x3c6ef372, 0xfa2a4622, 0x510e527f, 0x9b05688c, 0x1f83d9ab));
    NextRegs(block, 1, Regs(0x5d6aebcd, 0x6a09e667, 0xbb67ae85, 0x3c6ef372, 0xfa2a4622, 0x510e527f, 0x9b05688c, 0x1f83d9ab), 0x00000000, Regs(0x5a6ad9ad, 0x5d6aebcd, 0x6a09e667, 0xbb67ae85, 0x78ce7989, 0xfa2a4622, 0x510e527f, 0x9b05688c));
    NextRegs(block, 2, Regs(0x5a6ad9ad, 0x5d6aebcd, 0x6a09e667, 0xbb67ae85, 0x78ce7989, 0xfa2a4622, 0x510e527f, 0x9b05688c), 0x00000000, Regs(0xc8c347a7, 0x5a6ad9ad, 0x5d6aebcd, 0x6a09e667, 0xf92939eb, 0x78ce7989, 0xfa2a4622, 0x510e527f));
    NextRegs(block, 3, Regs(0xc8c347a7, 0x5a6ad9ad, 0x5d6aebcd, 0x6a09e667, 0xf92939eb, 0x78ce7989, 0xfa2a4622, 0x510e527f), 0x00000000, Regs(0xd550f666, 0xc8c347a7, 0x5a6ad9ad, 0x5d6aebcd, 0x24e00850, 0xf92939eb, 0x78ce7989, 0xfa2a4622));
    NextRegs(block, 4, Regs(0xd550f666, 0xc8c347a7, 0x5a6ad9ad, 0x5d6aebcd, 0x24e00850, 0xf92939eb, 0x78ce7989, 0xfa2a4622), 0x00000000, Regs(0x04409a6a, 0xd550f666, 0xc8c347a7, 0x5a6ad9ad, 0x43ada245, 0x24e00850, 0xf92939eb, 0x78ce7989));
    NextRegs(block, 5, Regs(0x04409a6a, 0xd550f666, 0xc8c347a7, 0x5a6ad9ad, 0x43ada245, 0x24e00850, 0xf92939eb, 0x78ce7989), 0x00000000, Regs(0x2b4209f5, 0x04409a6a, 0xd550f666, 0xc8c347a7, 0x714260ad, 0x43ada245, 0x24e00850, 0xf92939eb));
    NextRegs(block, 6, Regs(0x2b4209f5, 0x04409a6a, 0xd550f666, 0xc8c347a7, 0x714260ad, 0x43ada245, 0x24e00850, 0xf92939eb), 0x00000000, Regs(0xe5030380, 0x2b4209f5, 0x04409a6a, 0xd550f666, 0x9b27a401, 0x714260ad, 0x43ada245, 0x24e00850));
    NextRegs(block, 7, Regs(0xe5030380, 0x2b4209f5, 0x04409a6a, 0xd550f666, 0x9b27a401, 0x714260ad, 0x43ada245, 0x24e00850), 0x00000000, Regs(0x85a07b5f, 0xe5030380, 0x2b4209f5, 0x04409a6a, 0x0c657a79, 0x9b27a401, 0x714260ad, 0x43ada245));
  }

  lemma Rounds16(block: Block)
    requires block == Abc()
    ensures Rounds(INITIAL, block, 16) == Regs(0xb0fa238e, 0xc0645fde, 0xd932eb16, 0x87912990, 0x07590dcd, 0x0b92f20c, 0x745a48de, 0x1e578218)
  {
    hide Schedule, Abc, Rounds;
    FirstWords(block);
    Rounds8(block);
    NextRegs(block, 8, Regs(0x85a07b5f, 0xe5030380, 0x2b4209f5, 0x04409a6a, 0x0c657a79, 0x9b27a401, 0x714260ad, 0x43ada245), 0x00000000, Regs(0x8e04ecb9, 0x85a07b5f, 0xe5030380, 0x2b4209f5, 0x32ca2d8c, 0x0c657a79, 0x9b27a401, 0x714260ad));
    NextRegs(block, 9, Regs(0x8e04ecb9, 0x85a07b5f, 0xe5030380, 0x2b4209f5, 0x32ca2d8c, 0x0c657a79, 0x9b27a401, 0x714260ad), 0x00000000, Regs(0x8c87346b, 0x8e04ecb9, 0x85a07b5f, 0xe5030380, 0x1cc92596, 0x32ca2d8c, 0x0c657a79, 0x9b27a401));
    NextRegs(block, 10, Regs(0x8c87346b, 0x8e04ecb9, 0x85a07b5f, 0xe5030380, 0x1cc92596, 0x32ca2d8c, 0x0c657a79, 0x9b27a401), 0x00000000, Regs(0x4798a3f4, 0x8c87346b, 0x8e04ecb9, 0x85a07b5f, 0x436b23e8, 0x1cc92596, 0x32ca2d8c, 0x0c657a79));
    NextRegs(block, 11, Regs(0x4798a3f4, 0x8c87346b, 0x8e04ecb9, 0x85a07b5f, 0x436b23e8, 0x1cc92596, 0x32ca2d8c, 0x0c657a79), 0x00000000, Regs(0xf71fc5a9, 0x4798a3f4, 0x8c87346b, 0x8e04ecb9, 0x816fd6e9, 0x436b23e8, 0x1cc92596, 0x32ca2d8c));
    NextRegs(block, 12, Regs(0xf71fc5a9, 0x4798a3f4, 0x8c87346b, 0x8e04ecb9, 0x816fd6e9, 0x436b23e8, 0x1cc92596, 0x32ca2d8c), 0x00000000, Regs(0x87912990, 0xf71fc5a9, 0x4798a3f4, 0x8c87346b, 0x1e578218, 0x816fd6e9, 0x436b23e8, 0x1cc92596));
    NextRegs(block, 13, Regs(0x87912990, 0xf71fc5a9, 0x4798a3f4, 0x8c87346b, 0x1e578218, 0x816fd6e9, 0x436b23e8, 0x1cc92596), 0x00000000, Regs(0xd932eb16, 0x87912990, 0xf71fc5a9, 0x4798a3f4, 0x745a48de, 0x1e578218, 0x816fd6e9, 0x436b23e8));
    NextRegs(block, 14, Regs(0xd932eb16, 0x87912990, 0xf71fc5a9, 0x4798a3f4, 0x745a48de, 0x1e578218, 0x816fd6e9, 0x436b23e8), 0x00000000, Regs(0xc0645fde, 0xd932eb16, 0x87912990, 0xf71fc5a9, 0x0b92f20c, 0x745a48de, 0x1e578218, 0x816fd6e9));
    NextRegs(block, 15, Regs(0xc0645fde, 0xd932eb16, 0x87912990, 0xf71fc5a9, 0x0b92f20c, 0x745a48de, 0x1e578218, 0x816fd6e9), 0x00000018, Regs(0xb0fa238e, 0xc0645fde, 0xd932eb16, 0x87912990, 0x07590dcd, 0x0b92f20c, 0x745a48de, 0x1e578218));
  }

  lemma Rounds24(block: Block)
    requires block == Abc()
    ensures Rounds(INITIAL, block, 24) == Regs(0xc5d53d8d, 0xa7a3623f, 0xc2606d6d, 0x9dc68b63, 0xaa47c347, 0x49f5114a, 0xe1257970, 0x8ada8930)
  {
    hide Schedule, Abc, Rounds;
    Words16(block);
    Rounds16(block);
    NextRegs(block, 16, Regs(0xb0fa238e, 0xc0645fde, 0xd932eb16, 0x87912990, 0x07590dcd, 0x0b92f20c, 0x745a48de, 0x1e578218), 0x61626380, Regs(0x21da9a9b, 0xb0fa238e, 0xc0645fde, 0xd932eb16, 0x8034229c, 0x07590dcd, 0x0b92f20c, 0x745a48de));
    NextRegs(block, 17, Regs(0x21da9a9b, 0xb0fa238e, 0xc0645fde, 0xd932eb16, 0x8034229c, 0x07590dcd, 0x0b92f20c, 0x745a48de), 0x000f0000, Regs(0xc2fbd9d1, 0x21da9a9b, 0xb0fa238e, 0xc0645fde, 0x846ee454, 0x8034229c, 0x07590dcd, 0x0b92f20c));
    NextRegs(block, 18, Regs(0xc2fbd9d1, 0x21da9a9b, 0xb0fa238e, 0xc0645fde, 0x846ee454, 0x8034229c, 0x07590dcd, 0x0b92f20c), 0x7da86405, Regs(0xfe777bbf, 0xc2fbd9d1, 0x21da9a9b, 0xb0fa238e, 0xcc899961, 0x846ee454, 0x8034229c, 0x07590dcd));
    NextRegs(block, 19, Regs(0xfe777bbf, 0xc2fbd9d1, 0x21da9a9b, 0xb0fa238e, 0xcc899961, 0x846ee454, 0x8034229c, 0x07590dcd), 0x600003c6, Regs(0xe1f20c33, 0xfe777bbf, 0xc2fbd9d1, 0x21da9a9b, 0xb0638179, 0xcc899961, 0x846ee454, 0x8034229c));
    NextRegs(block, 20, Regs(0xe1f20c33, 0xfe777bbf, 0xc2fbd9d1, 0x21da9a9b, 0xb0638179, 0xcc899961, 0x846ee454, 0x8034229c), 0x3e9d7b78, Regs(0x9dc68b63, 0xe1f20c33, 0xfe777bbf, 0xc2fbd9d1, 0x8ada8930, 0xb0638179, 0xcc899961, 0x846ee454));
    NextRegs(block, 21, Regs(0x9dc68b63, 0xe1f20c33, 0xfe777bbf, 0xc2fbd9d1, 0x8ada8930, 0xb0638179, 0xcc899961, 0x846ee454), 0x0183fc00, Regs(0xc2606d6d, 0x9dc68b63, 0xe1f20c33, 0xfe777bbf, 0xe1257970, 0x8ada8930, 0xb0638179, 0xcc899961));
    NextRegs(block, 22, Regs(0xc2606d6d, 0x9dc68b63, 0xe1f20c33, 0xfe777bbf, 0xe1257970, 0x8ada8930, 0xb0638179, 0xcc899961), 0x12dcbfdb, Regs(0xa7a3623f, 0xc2606d6d, 0x9dc68b63, 0xe1f20c33, 0x49f5114a, 0xe1257970, 0x8ada8930, 0xb0638179));
    NextRegs(block, 23, Regs(0xa7a3623f, 0xc2606d6d, 0x9dc68b63, 0xe1f20c33, 0x49f5114a, 0xe1257970, 0x8ada8930, 0xb0638179), 0xe2e2c38e, Regs(0xc5d53d8d, 0xa7a3623f, 0xc2606d6d, 0x9dc68b63, 0xaa47c347, 0x49f5114a, 0xe1257970, 0x8ada8930));
  }

  lemma Rounds32(block: Block)
    requires block == Abc()
    ensures Rounds(INITIAL, block, 32) == Regs(0x73b33bf5, 0xea992a22, 0xa0060b30, 0x363482c9, 0xba591112, 0x0109ab3a, 0xade79437, 0x6112a3b7)
  {
    hide Schedule, Abc, Rounds;
    Words24(block);
    Rounds24(block);
    NextRegs(block, 24, Regs(0xc5d53d8d, 0xa7a3623f, 0xc2606d6d, 0x9dc68b63, 0xaa47c347, 0x49f5114a, 0xe1257970, 0x8ada8930), 0xc8215c1a, Regs(0x1c2c2838, 0xc5d53d8d, 0xa7a3623f, 0xc2606d6d, 0x2823ef91, 0xaa47c347, 0x49f5114a, 0xe1257970));
    NextRegs(block, 25, Regs(0x1c2c2838, 0xc5d53d8d, 0xa7a3623f, 0xc2606d6d, 0x2823ef91, 0xaa47c347, 0x49f5114a, 0xe1257970), 0xb73679a2, Regs(0xcde8037d, 0x1c2c2838, 0xc5d53d8d, 0xa7a3623f, 0x14383d8e, 0x2823ef91, 0xaa47c347, 0x49f5114a));
    NextRegs(block, 26, Regs(0xcde8037d, 0x1c2c2838, 0xc5d53d8d, 0xa7a3623f, 0x14383d8e, 0x2823ef91, 0xaa47c347, 0x49f5114a), 0xe5bc3909, Regs(0xb62ec4bc, 0xcde8037d, 0x1c2c2838, 0xc5d53d8d, 0xc74c6516, 0x14383d8e, 0x2823ef91, 0xaa47c347));
    NextRegs(block, 27, Regs(0xb62ec4bc, 0xcde8037d, 0x1c2c2838, 0xc5d53d8d, 0xc74c6516, 0x14383d8e, 0x2823ef91, 0xaa47c347), 0x32663c5b, Regs(0x77d37528, 0xb62ec4bc, 0xcde8037d, 0x1c2c2838, 0xedffbff8, 0xc74c6516, 0x14383d8e, 0x2823ef91));
    NextRegs(block, 28, Regs(0x77d37528, 0xb62ec4bc, 0xcde8037d, 0x1c2c2838, 0xedffbff8, 0xc74c6516, 0x14383d8e, 0x2823ef91), 0x9d209d67, Regs(0x363482c9, 0x77d37528, 0xb62ec4bc, 0xcde8037d, 0x6112a3b7, 0xedffbff8, 0xc74c6516, 0x14383d8e));
    NextRegs(block, 29, Regs(0x363482c9, 0x77d37528, 0xb62ec4bc, 0xcde8037d, 0x6112a3b7, 0xedffbff8, 0xc74c6516, 0x14383d8e), 0xec8726cb, Regs(0xa0060b30, 0x363482c9, 0x77d37528, 0xb62ec4bc, 0xade79437, 0x6112a3b7, 0xedffbff8, 0xc74c6516));
    NextRegs(block, 30, Regs(0xa0060b30, 0x363482c9, 0x77d37528, 0xb62ec4bc, 0xade79437, 0x6112a3b7, 0xedffbff8, 0xc74c6516), 0x702138a4, Regs(0xea992a22, 0xa0060b30, 0x363482c9, 0x77d37528, 0x0109ab3a, 0xade79437, 0x6112a3b7, 0xedffbff8));
    NextRegs(block, 31, Regs(0xea992a22, 0xa0060b30, 0x363482c9, 0x77d37528, 0x0109ab3a, 0xade79437, 0x6112a3b7, 0xedffbff8), 0xd3b7973b, Regs(0x73b33bf5, 0xea992a22, 0xa0060b30, 0x363482c9, 0xba591112, 0x0109ab3a, 0xade79437, 0x6112a3b7));
  }

  lemma Rounds40(block: Block)
    requires block == Abc()
    ensures Rounds(INITIAL, block, 40) == Regs(0x79ea687a, 0x6dc57a8a, 0x34df1604, 0x41a65cb1, 0x1efbc0a0, 0xf0781bc8, 0xa507a53d, 0x0772a26b)
  {
    hide Schedule, Abc, Rounds;
    Words32(block);
    Rounds32(block);
    NextRegs(block, 32, Regs(0x73b33bf5, 0xea992a22, 0xa0060b30, 0x363482c9, 0xba591112, 0x0109ab3a, 0xade79437, 0x6112a3b7), 0x93f5997f, Regs(0x98e12507, 0x73b33bf5, 0xea992a22, 0xa0060b30, 0x9cd9f5f6, 0xba591112, 0x0109ab3a, 0xade79437));
    NextRegs(block, 33, Regs(0x98e12507, 0x73b33bf5, 0xea992a22, 0xa0060b30, 0x9cd9f5f6, 0xba591112, 0x0109ab3a, 0xade79437), 0x3b68ba73, Regs(0xfe604df5, 0x98e12507, 0x73b33bf5, 0xea992a22, 0x59249dd3, 0x9cd9f5f6, 0xba591112, 0x0109ab3a));
    NextRegs(block, 34, Regs(0xfe604df5, 0x98e12507, 0x73b33bf5, 0xea992a22, 0x59249dd3, 0x9cd9f5f6, 0xba591112, 0x0109ab3a), 0xaff4ffc1, Regs(0xa9a7738c, 0xfe604df5, 0x98e12507, 0x73b33bf5, 0x085f3833, 0x59249dd3, 0x9cd9f5f6, 0xba591112));
    NextRegs(block, 35, Regs(0xa9a7738c, 0xfe604df5, 0x98e12507, 0x73b33bf5, 0x085f3833, 0x59249dd3, 0x9cd9f5f6, 0xba591112), 0xf10a5c62, Regs(0x65a0cfe4, 0xa9a7738c, 0xfe604df5, 0x98e12507, 0xf4b002d6, 0x085f3833, 0x59249dd3, 0x9cd9f5f6));
    NextRegs(block, 36, Regs(0x65a0cfe4, 0xa9a7738c, 0xfe604df5, 0x98e12507, 0xf4b002d6, 0x085f3833, 0x59249dd3, 0x9cd9f5f6), 0x0a8b3996, Regs(0x41a65cb1, 0x65a0cfe4, 0xa9a7738c, 0xfe604df5, 0x0772a26b, 0xf4b002d6, 0x085f3833, 0x59249dd3));
    NextRegs(block, 37, Regs(0x41a65cb1, 0x65a0cfe4, 0xa9a7738c, 0xfe604df5, 0x0772a26b, 0xf4b002d6, 0x085f3833, 0x59249dd3), 0x72af830a, Regs(0x34df1604, 0x41a65cb1, 0x65a0cfe4, 0xa9a7738c, 0xa507a53d, 0x0772a26b, 0xf4b002d6, 0x085f3833));
    NextRegs(block, 38, Regs(0x34df1604, 0x41a65cb1, 0x65a0cfe4, 0xa9a7738c, 0xa507a53d, 0x0772a26b, 0xf4b002d6, 0x085f3833), 0x9409e33e, Regs(0x6dc57a8a, 0x34df1604, 0x41a65cb1, 0x65a0cfe4, 0xf0781bc8, 0xa507a53d, 0x0772a26b, 0xf4b002d6));
    NextRegs(block, 39, Regs(0x6dc57a8a, 0x34df1604, 0x41a65cb1, 0x65a0cfe4, 0xf0781bc8, 0xa507a53d, 0x0772a26b, 0xf4b002d6), 0x24641522, Regs(0x79ea687a, 0x6dc57a8a, 0x34df1604, 0x41a65cb1, 0x1efbc0a0, 0xf0781bc8, 0xa507a53d, 0x0772a26b));
  }

  lemma Rounds48(block: Block)
    requires block == Abc()
    ensures Rounds(INITIAL, block, 48) == Regs(0x4172328d, 0xa14c14b0, 0x72ab4b91, 0x26628815, 0xfecf0bc6, 0xd57b94a9, 0xb7755da1, 0xa80f11f0)
  {
    hide Schedule, Abc, Rounds;
    Words40(block);
    Rounds40(block);
    NextRegs(block, 40, Regs(0x79ea687a, 0x6dc57a8a, 0x34df1604, 0x41a65cb1, 0x1efbc0a0, 0xf0781bc8, 0xa507a53d, 0x0772a26b), 0x9f47bf94, Regs(0xd6670766, 0x79ea687a, 0x6dc57a8a, 0x34df1604, 0x26352d63, 0x1efbc0a0, 0xf0781bc8, 0xa507a53d));
    NextRegs(block, 41, Regs(0xd6670766, 0x79ea687a, 0x6dc57a8a, 0x34df1604, 0x26352d63, 0x1efbc0a0, 0xf0781bc8, 0xa507a53d), 0xf0a64f5a, Regs(0xdf46652f, 0xd6670766, 0x79ea687a, 0x6dc57a8a, 0x838b2711, 0x26352d63, 0x1efbc0a0, 0xf0781bc8));
    NextRegs(block, 42, Regs(0xdf46652f, 0xd6670766, 0x79ea687a, 0x6dc57a8a, 0x838b2711, 0x26352d63, 0x1efbc0a0, 0xf0781bc8), 0x3e246a79, Regs(0x17aa0dfe, 0xdf46652f, 0xd6670766, 0x79ea687a, 0xdecd4715, 0x838b2711, 0x26352d63, 0x1efbc0a0));
    NextRegs(block, 43, Regs(0x17aa0dfe, 0xdf46652f, 0xd6670766, 0x79ea687a, 0xdecd4715, 0x838b2711, 0x26352d63, 0x1efbc0a0), 0x27333ba3, Regs(0x9d4baf93, 0x17aa0dfe, 0xdf46652f, 0xd6670766, 0xfda24c2e, 0xdecd4715, 0x838b2711, 0x26352d63));
    NextRegs(block, 44, Regs(0x9d4baf93, 0x17aa0dfe, 0xdf46652f, 0xd6670766, 0xfda24c2e, 0xdecd4715, 0x838b2711, 0x26352d63), 0x0c4763f2, Regs(0x26628815, 0x9d4baf93, 0x17aa0dfe, 0xdf46652f, 0xa80f11f0, 0xfda24c2e, 0xdecd4715, 0x838b2711));
    NextRegs(block, 45, Regs(0x26628815, 0x9d4baf93, 0x17aa0dfe, 0xdf46652f, 0xa80f11f0, 0xfda24c2e, 0xdecd4715, 0x838b2711), 0x840abf27, Regs(0x72ab4b91, 0x26628815, 0x9d4baf93, 0x17aa0dfe, 0xb7755da1, 0xa80f11f0, 0xfda24c2e, 0xdecd4715));
    NextRegs(block, 46, Regs(0x72ab4b91, 0x26628815, 0x9d4baf93, 0x17aa0dfe, 0xb7755da1, 0xa80f11f0, 0xfda24c2e, 0xdecd4715), 0x7a290d5d, Regs(0xa14c14b0, 0x72ab4b91, 0x26628815, 0x9d4baf93, 0xd57b94a9, 0xb7755da1, 0xa80f11f0, 0xfda24c2e));
    NextRegs(block, 47, Regs(0xa14c14b0, 0x72ab4b91, 0x26628815, 0x9d4baf93, 0xd57b94a9, 0xb7755da1, 0xa80f11f0, 0xfda24c2e), 0x065c43da, Regs(0x4172328d, 0xa14c14b0, 0x72ab4b91, 0x26628815, 0xfecf0bc6, 0xd57b94a9, 0xb7755da1, 0xa80f11f0));
  }

  lemma Rounds56(block: Block)
    requires block == Abc()
    ensures Rounds(INITIAL, block, 56) == Regs(0x38cc9913, 0x3ec45cdb, 0xf5702fdb, 0x101fd28f, 0x54cb266b, 0xe50e1b4f, 0x9f4787c3, 0x529e7d00)
  {
    hide Schedule, Abc, Rounds;
    Words48(block);
    Rounds48(block);
    NextRegs(block, 48, Regs(0x4172328d, 0xa14c14b0, 0x72ab4b91, 0x26628815, 0xfecf0bc6, 0xd57b94a9, 0xb7755da1, 0xa80f11f0), 0xfb3e89cb, Regs(0x05757ceb, 0x4172328d, 0xa14c14b0, 0x72ab4b91, 0xbd714038, 0xfecf0bc6, 0xd57b94a9, 0xb7755da1));
    NextRegs(block, 49, Regs(0x05757ceb, 0x4172328d, 0xa14c14b0, 0x72ab4b91, 0xbd714038, 0xfecf0bc6, 0xd57b94a9, 0xb7755da1), 0xcc7617db, Regs(0xf11bfaa8, 0x05757ceb, 0x4172328d, 0xa14c14b0, 0x6e5c390c, 0xbd714038, 0xfecf0bc6, 0xd57b94a9));
    NextRegs(block, 50, Regs(0xf11bfaa8, 0x05757ceb, 0x4172328d, 0xa14c14b0, 0x6e5c390c, 0xbd714038, 0xfecf0bc6, 0xd57b94a9), 0xb9e66c34, Regs(0x7a0508a1, 0xf11bfaa8, 0x05757ceb, 0x4172328d, 0x52f1ccf7, 0x6e5c390c, 0xbd714038, 0xfecf0bc6));
    NextRegs(block, 51, Regs(0x7a0508a1, 0xf11bfaa8, 0x05757ceb, 0x4172328d, 0x52f1ccf7, 0x6e5c390c, 0xbd714038, 0xfecf0bc6), 0xa9993667, Regs(0x886e7a22, 0x7a0508a1, 0xf11bfaa8, 0x05757ceb, 0x49231c1e, 0x52f1ccf7, 0x6e5c390c, 0xbd714038));
    NextRegs(block, 52, Regs(0x886e7a22, 0x7a0508a1, 0xf11bfaa8, 0x05757ceb, 0x49231c1e, 0x52f1ccf7, 0x6e5c390c, 0xbd714038), 0x84badedd, Regs(0x101fd28f, 0x886e7a22, 0x7a0508a1, 0xf11bfaa8, 0x529e7d00, 0x49231c1e, 0x52f1ccf7, 0x6e5c390c));
    NextRegs(block, 53, Regs(0x101fd28f, 0x886e7a22, 0x7a0508a1, 0xf11bfaa8, 0x529e7d00, 0x49231c1e, 0x52f1ccf7, 0x6e5c390c), 0xc21462bc, Regs(0xf5702fdb, 0x101fd28f, 0x886e7a22, 0x7a0508a1, 0x9f4787c3, 0x529e7d00, 0x49231c1e, 0x52f1ccf7));
    NextRegs(block, 54, Regs(0xf5702fdb, 0x101fd28f, 0x886e7a22, 0x7a0508a1, 0x9f4787c3, 0x529e7d00, 0x49231c1e, 0x52f1ccf7), 0x1487472c, Regs(0x3ec45cdb, 0xf5702fdb, 0x101fd28f, 0x886e7a22, 0xe50e1b4f, 0x9f4787c3, 0x529e7d00, 0x49231c1e));
    NextRegs(block, 55, Regs(0x3ec45cdb, 0xf5702fdb, 0x101fd28f, 0x886e7a22, 0xe50e1b4f, 0x9f4787c3, 0x529e7d00, 0x49231c1e), 0xb20f7a99, Regs(0x38cc9913, 0x3ec45cdb, 0xf5702fdb, 0x101fd28f, 0x54cb266b, 0xe50e1b4f, 0x9f4787c3, 0x529e7d00));
  }

  lemma Rounds64(block: Block)
    requires block == Abc()
    ensures Rounds(INITIAL, block, 64) == Regs(0x506e3058, 0xd39a2165, 0x04d24d6c, 0xb85e2ce9, 0x5ef50f24, 0xfb121210, 0x948d25b6, 0x961f4894)
  {
    hide Schedule, Abc, Rounds;
    Words56(block);
    Rounds56(block);
    NextRegs(block, 56, Regs(0x38cc9913, 0x3ec45cdb, 0xf5702fdb, 0x101fd28f, 0x54cb266b, 0xe50e1b4f, 0x9f4787c3, 0x529e7d00), 0xef57b9cd, Regs(0xfcd1887b, 0x38cc9913, 0x3ec45cdb, 0xf5702fdb, 0x9b5e906c, 0x54cb266b, 0xe50e1b4f, 0x9f4787c3));
    NextRegs(block, 57, Regs(0xfcd1887b, 0x38cc9913, 0x3ec45cdb, 0xf5702fdb, 0x9b5e906c, 0x54cb266b, 0xe50e1b4f, 0x9f4787c3), 0xebe6b238, Regs(0xc062d46f, 0xfcd1887b, 0x38cc9913, 0x3ec45cdb, 0x7e44008e, 0x9b5e906c, 0x54cb266b, 0xe50e1b4f));
    NextRegs(block, 58, Regs(0xc062d46f, 0xfcd1887b, 0x38cc9913, 0x3ec45cdb, 0x7e44008e, 0x9b5e906c, 0x54cb266b, 0xe50e1b4f), 0x9fe3095e, Regs(0xffb70472, 0xc062d46f, 0xfcd1887b, 0x38cc9913, 0x6d83bfc6, 0x7e44008e, 0x9b5e906c, 0x54cb266b));
    NextRegs(block, 59, Regs(0xffb70472, 0xc062d46f, 0xfcd1887b, 0x38cc9913, 0x6d83bfc6, 0x7e44008e, 0x9b5e906c, 0x54cb266b), 0x78bc8d4b, Regs(0xb6ae8fff, 0xffb70472, 0xc062d46f, 0xfcd1887b, 0xb21bad3d, 0x6d83bfc6, 0x7e44008e, 0x9b5e906c));
    NextRegs(block, 60, Regs(0xb6ae8fff, 0xffb70472, 0xc062d46f, 0xfcd1887b, 0xb21bad3d, 0x6d83bfc6, 0x7e44008e, 0x9b5e906c), 0xa43fcf15, Regs(0xb85e2ce9, 0xb6ae8fff, 0xffb70472, 0xc062d46f, 0x961f4894, 0xb21bad3d, 0x6d83bfc6, 0x7e44008e));
    NextRegs(block, 61, Regs(0xb85e2ce9, 0xb6ae8fff, 0xffb70472, 0xc062d46f, 0x961f4894, 0xb21bad3d, 0x6d83bfc6, 0x7e44008e), 0x668b2ff8, Regs(0x04d24d6c, 0xb85e2ce9, 0xb6ae8fff, 0xffb70472, 0x948d25b6, 0x961f4894, 0xb21bad3d, 0x6d83bfc6));
    NextRegs(block, 62, Regs(0x04d24d6c, 0xb85e2ce9, 0xb6ae8fff, 0xffb70472, 0x948d25b6, 0x961f4894, 0xb21bad3d, 0x6d83bfc6), 0xeeaba2cc, Regs(0xd39a2165, 0x04d24d6c, 0xb85e2ce9, 0xb6ae8fff, 0xfb121210, 0x948d25b6, 0x961f4894, 0xb21bad3d));
    NextRegs(block, 63, Regs(0xd39a2165, 0x04d24d6c, 0xb85e2ce9, 0xb6ae8fff, 0xfb121210, 0x948d25b6, 0x961f4894, 0xb21bad3d), 0x12b1edeb, Regs(0x506e3058, 0xd39a2165, 0x04d24d6c, 0xb85e2ce9, 0x5ef50f24, 0xfb121210, 0x948d25b6, 0x961f4894));
  }

  function NoWords(): (w: seq<bv32>)
    ensures |w| == 16
  {
    seq(16, _ => 0)
  }

  lemma PaddedAbc()
    ensures Padded([0x61, 0x62, 0x63]) == Abc()
  {
  }

  lemma CompressAbc(block: Block)
    requires block == Abc()
    ensures Compress(INITIAL, block) == [0xba7816bf, 0x8f01cfea, 0x414140de, 0x5dae2223, 0xb00361a3, 0x96177a9c, 0xb410ff61, 0xf20015ad]
  {
    hide Rounds, Abc;
    Rounds64(block);
  }

  /** The digest of "abc". */
  lemma HashAbc()
    ensures Hash([0x61, 0x62, 0x63]) == [
      0xba, 0x78, 0x16, 0xbf, 0x8f, 0x01, 0xcf, 0xea, 0x41, 0x41, 0x40, 0xde, 0x5d, 0xae, 0x22, 0x23,
      0xb0, 0x03, 0x61, 0xa3, 0x96, 0x17, 0x7a, 0x9c, 0xb4, 0x10, 0xff, 0x61, 0xf2, 0x00, 0x15, 0xad
    ]
  {
    hide Compress, Abc, StateBytes, Padded;
    PaddedAbc();
    CompressAbc(Abc());
    AbsorbAbc();
    DigestAbc(Compress(INITIAL, Abc()));
  }

  lemma DigestAbc(s: State)
    requires s == [0xba7816bf, 0x8f01cfea, 0x414140de, 0x5dae2223, 0xb00361a3, 0x96177a9c, 0xb410ff61, 0xf20015ad]
    ensures StateBytes(s) == [
      0xba, 0x78, 0x16, 0xbf, 0x8f, 0x01, 0xcf, 0xea, 0x41, 0x41, 0x40, 0xde, 0x5d, 0xae, 0x22, 0x23,
      0xb0, 0x03, 0x61, 0xa3, 0x96, 0x17, 0x7a, 0x9c, 0xb4, 0x10, 0xff, 0x61, 0xf2, 0x00, 0x15, 0xad
    ]
  {
    hide WordBytes, StateBytes;
    EightWords(s);
    FirstHalf();
    SecondHalf();
  }

  lemma FirstHalf()
    ensures (WordBytes(0xba7816bf) + WordBytes(0x8f01cfea)) + (WordBytes(0x414140de) + WordBytes(0x5dae2223)) == [0xba, 0x78, 0x16, 0xbf, 0x8f, 0x01, 0xcf, 0xea, 0x41, 0x41, 0x40, 0xde, 0x5d, 0xae, 0x22, 0x23]
  {
    hide WordBytes;
    Word1();
    Word2();
    Word3();
    Word4();
    assert [0xba, 0x78, 0x16, 0xbf] + [0x8f, 0x01, 0xcf, 0xea] == [0xba, 0x78, 0x16, 0xbf, 0x8f, 0x01, 0xcf, 0xea];
    assert [0x41, 0x41, 0x40, 0xde] + [0x5d, 0xae, 0x22, 0x23] == [0x41, 0x41, 0x40, 0xde, 0x5d, 0xae, 0x22, 0x23];
  }

  lemma SecondHalf()
    ensures (WordBytes(0xb00361a3) + WordBytes(0x96177a9c)) + (WordBytes(0xb410ff61) + WordBytes(0xf20015ad)) == [0xb0, 0x03, 0x61, 0xa3, 0x96, 0x17, 0x7a, 0x9c, 0xb4, 0x10, 0xff, 0x61, 0xf2, 0x00, 0x15, 0xad]
  {
    hide WordBytes;
    Word5();
    Word6();
    Word7();
    Word8();
    assert [0xb0, 0x03, 0x61, 0xa3] + [0x96, 0x17, 0x7a, 0x9c] == [0xb0, 0x03, 0x61, 0xa3, 0x96, 0x17, 0x7a, 0x9c];
    assert [0xb4, 0x10, 0xff, 0x61] + [0xf2, 0x00, 0x15, 0xad] == [0xb4, 0x10, 0xff, 0x61, 0xf2, 0x00, 0x15, 0xad];
  }

  lemma EightWords(s: State)
    ensures StateBytes(s) ==
      ((WordBytes(s[0]) + WordBytes(s[1])) + (WordBytes(s[2]) + WordBytes(s[3])))
      + ((WordBytes(s[4]) + WordBytes(s[5])) + (WordBytes(s[6]) + WordBytes(s[7])))
  {
    hide WordBytes, StateBytes;
    assert s[..8] == s && s[..0] == [];
    StateBytesEmpty();
    StateBytesPair(s, 0);
    StateBytesPair(s, 2);
    StateBytesPair(s, 4);
    StateBytesPair(s, 6);
  }

  lemma StateBytesPair(s: State, n: nat)
    requires n + 2 <= 8
    ensures StateBytes(s[..n + 2]) == StateBytes(s[..n]) + (WordBytes(s[n]) + WordBytes(s[n + 1]))
  {
    hide WordBytes;
    assert s[..n + 2][..n + 1] == s[..n + 1] && s[..n + 1][..n] == s[..n];
    assert StateBytes(s[..n + 1]) == StateBytes(s[..n]) + WordBytes(s[n]);
  }

  lemma StateBytesEmpty()
    ensures StateBytes([]) == []
  {
  }

  lemma WordIs(b: seq<byte>, w: bv32)
    requires |b| == 4 && BigEndianWord(b) == w
    ensures WordBytes(w) == b
  {
    hide BigEndianWord, WordBytes;
    WordRoundTrip(b);
  }

  lemma Word1()
    ensures WordBytes(0xba7816bf) == [0xba, 0x78, 0x16, 0xbf]
  {
    hide WordBytes;
    WordIs([0xba, 0x78, 0x16, 0xbf], 0xba7816bf);
  }

  lemma Word2()
    ensures WordBytes(0x8f01cfea) == [0x8f, 0x01, 0xcf, 0xea]
  {
    hide WordBytes;
    WordIs([0x8f, 0x01, 0xcf, 0xea], 0x8f01cfea);
  }

  lemma Word3()
    ensures WordBytes(0x414140de) == [0x41, 0x41, 0x40, 0xde]
  {
    hide WordBytes;
    WordIs([0x41, 0x41, 0x40, 0xde], 0x414140de);
  }

  lemma Word4()
    ensures WordBytes(0x5dae2223) == [0x5d, 0xae, 0x22, 0x23]
  {
    hide WordBytes;
    WordIs([0x5d, 0xae, 0x22, 0x23], 0x5dae2223);
  }

  lemma Word5()
    ensures WordBytes(0xb00361a3) == [0xb0, 0x03, 0x61, 0xa3]
  {
    hide WordBytes;
    WordIs([0xb0, 0x03, 0x61, 0xa3], 0xb00361a3);
  }

  lemma Word6()
    ensures WordBytes(0x96177a9c) == [0x96, 0x17, 0x7a, 0x9c]
  {
    hide WordBytes;
    WordIs([0x96, 0x17, 0x7a, 0x9c], 0x96177a9c);
  }

  lemma Word7()
    ensures WordBytes(0xb410ff61) == [0xb4, 0x10, 0xff, 0x61]
  {
    hide WordBytes;
    WordIs([0xb4, 0x10, 0xff, 0x61], 0xb410ff61);
  }

  lemma Word8()
    ensures WordBytes(0xf20015ad) == [0xf2, 0x00, 0x15, 0xad]
  {
    hide WordBytes;
    WordIs([0xf2, 0x00, 0x15, 0xad], 0xf20015ad);
  }

  lemma AbsorbAbc()
    ensures Absorb(Compress, INITIAL, Abc()) == Compress(INITIAL, Abc())
  {
    hide Compress;
    assert Abc()[..0] == [] && Abc()[0..] == Abc();
  }
}
