/** An example of section A.5 of RFC 1321: the MD5 digest of the three bytes "abc", by its steps. */
module Md5Example {
  import opened Blocks
  import opened Bytes
  import opened Words
  import opened Md5Transform
  import opened Md5

  /** The message with its padding. */
  function Abc(): Block {
    [0x61, 0x62, 0x63, 0x80] + Zeros(52) + [0x18] + Zeros(7)
  }

  lemma WordsOfAbc(block: Block)
    requires block == Abc()
    ensures MessageWord(block, 0) == 0x80636261 && MessageWord(block, 14) == 0x18
    ensures forall k :: 0 < k < 16 && k != 14 ==> MessageWord(block, k) == 0
  {
    hide LittleEndianWord;
    FirstRead();
    LengthRead();
    ZeroRead();
    assert block[0..4] == [0x61, 0x62, 0x63, 0x80] && block[56..60] == [0x18, 0, 0, 0];
    forall k | 0 < k < 16 && k != 14
      ensures MessageWord(block, k) == 0
    {
      assert block[4 * k..4 * k + 4] == [0, 0, 0, 0];
    }
  }

  lemma FirstRead()
    ensures LittleEndianWord([0x61, 0x62, 0x63, 0x80]) == 0x80636261
  {
  }

  lemma LengthRead()
    ensures LittleEndianWord([0x18, 0, 0, 0]) == 0x18
  {
  }

  lemma ZeroRead()
    ensures LittleEndianWord([0, 0, 0, 0]) == 0
  {
  }

  /** One step with its arguments. */
  lemma NextRegs(block: Block, t: nat, r: Regs, kind: Kind, k: nat, x: bv32, s: bv8, ac: bv32, b: bv32)
    requires IsStep(t, kind, k, s, ac) && k < 16 && s <= 32
    requires Steps(INITIAL, block, t) == r && MessageWord(block, k) == x
    requires b == Add(r.b, RotateLeft(Add(Add(Add(r.a, Mix(kind, r.b, r.c, r.d)), x), ac), s))
    ensures Steps(INITIAL, block, t + 1) == Regs(r.d, b, r.b, r.c)
  {
    hide Mix, Add, RotateLeft, MessageWord, Sine, Shift, WordIndex, KindOf;
  }

  lemma Steps8(block: Block)
    requires block == Abc()
    ensures Steps(INITIAL, block, 8) == Regs(0xc73741ef, 0x928d99f6, 0x207dc67b, 0x8bac3051)
  {
    hide MessageWord, Abc, Steps, IsStep;
    WordsOfAbc(block);
    Arguments1();
    StepsStart(INITIAL, block);
    NextRegs(block, 0, Regs(0x67452301, 0xefcdab89, 0x98badcfe, 0x10325476), F, 0, 0x80636261, 7, 0xd76aa478, 0xd6d117b4);
    NextRegs(block, 1, Regs(0x10325476, 0xd6d117b4, 0xefcdab89, 0x98badcfe), F, 1, 0x00000000, 12, 0xe8c7b756, 0x344a8432);
    NextRegs(block, 2, Regs(0x98badcfe, 0x344a8432, 0xd6d117b4, 0xefcdab89), F, 2, 0x00000000, 17, 0x242070db, 0x2f6fbd72);
    NextRegs(block, 3, Regs(0xefcdab89, 0x2f6fbd72, 0x344a8432, 0xd6d117b4), F, 3, 0x00000000, 22, 0xc1bdceee, 0x7ad956f2);
    NextRegs(block, 4, Regs(0xd6d117b4, 0x7ad956f2, 0x2f6fbd72, 0x344a8432), F, 4, 0x00000000, 7, 0xf57c0faf, 0xc73741ef);
    NextRegs(block, 5, Regs(0x344a8432, 0xc73741ef, 0x7ad956f2, 0x2f6fbd72), F, 5, 0x00000000, 12, 0x4787c62a, 0x8bac3051);
    NextRegs(block, 6, Regs(0x2f6fbd72, 0x8bac3051, 0xc73741ef, 0x7ad956f2), F, 6, 0x00000000, 17, 0xa8304613, 0x207dc67b);
    NextRegs(block, 7, Regs(0x7ad956f2, 0x207dc67b, 0x8bac3051, 0xc73741ef), F, 7, 0x00000000, 22, 0xfd469501, 0x928d99f6);
  }

  lemma Steps16(block: Block)
    requires block == Abc()
    ensures Steps(INITIAL, block, 16) == Regs(0xdda9b9a6, 0x72aff2e0, 0xe396856b, 0xa1051895)
  {
    hide MessageWord, Abc, Steps, IsStep;
    WordsOfAbc(block);
    Arguments1();
    Steps8(block);
    NextRegs(block, 8, Regs(0xc73741ef, 0x928d99f6, 0x207dc67b, 0x8bac3051), F, 8, 0x00000000, 7, 0x698098d8, 0x854b3712);
    NextRegs(block, 9, Regs(0x8bac3051, 0x854b3712, 0x928d99f6, 0x207dc67b), F, 9, 0x00000000, 12, 0x8b44f7af, 0x74e2f284);
    NextRegs(block, 10, Regs(0x207dc67b, 0x74e2f284, 0x854b3712, 0x928d99f6), F, 10, 0x00000000, 17, 0xffff5bb1, 0x3020401c);
    NextRegs(block, 11, Regs(0x928d99f6, 0x3020401c, 0x74e2f284, 0x854b3712), F, 11, 0x00000000, 22, 0x895cd7be, 0x5ed49596);
    NextRegs(block, 12, Regs(0x854b3712, 0x5ed49596, 0x3020401c, 0x74e2f284), F, 12, 0x00000000, 7, 0x6b901122, 0xdda9b9a6);
    NextRegs(block, 13, Regs(0x74e2f284, 0xdda9b9a6, 0x5ed49596, 0x3020401c), F, 13, 0x00000000, 12, 0xfd987193, 0xa1051895);
    NextRegs(block, 14, Regs(0x3020401c, 0xa1051895, 0xdda9b9a6, 0x5ed49596), F, 14, 0x00000018, 17, 0xa679438e, 0xe396856b);
    NextRegs(block, 15, Regs(0x5ed49596, 0xe396856b, 0xa1051895, 0xdda9b9a6), F, 15, 0x00000000, 22, 0x49b40821, 0x72aff2e0);
  }

  lemma Steps24(block: Block)
    requires block == Abc()
    ensures Steps(INITIAL, block, 24) == Regs(0x59a8ffda, 0x47092c07, 0xabfc7920, 0x6d002f1e)
  {
    hide MessageWord, Abc, Steps, IsStep;
    WordsOfAbc(block);
    Arguments2();
    Steps16(block);
    NextRegs(block, 16, Regs(0xdda9b9a6, 0x72aff2e0, 0xe396856b, 0xa1051895), G, 1, 0x00000000, 5, 0xf61e2562, 0x3e9e9126);
    NextRegs(block, 17, Regs(0xa1051895, 0x3e9e9126, 0x72aff2e0, 0xe396856b), G, 6, 0x00000000, 9, 0xc040b340, 0x4a1d804e);
    NextRegs(block, 18, Regs(0xe396856b, 0x4a1d804e, 0x3e9e9126, 0x72aff2e0), G, 11, 0x00000000, 14, 0x265e5a51, 0xe25e1652);
    NextRegs(block, 19, Regs(0x72aff2e0, 0xe25e1652, 0x4a1d804e, 0x3e9e9126), G, 0, 0x80636261, 20, 0xe9b6c7aa, 0xb5b204e4);
    NextRegs(block, 20, Regs(0x3e9e9126, 0xb5b204e4, 0xe25e1652, 0x4a1d804e), G, 5, 0x00000000, 5, 0xd62f105d, 0x59a8ffda);
    NextRegs(block, 21, Regs(0x4a1d804e, 0x59a8ffda, 0xb5b204e4, 0xe25e1652), G, 10, 0x00000000, 9, 0x02441453, 0x6d002f1e);
    NextRegs(block, 22, Regs(0xe25e1652, 0x6d002f1e, 0x59a8ffda, 0xb5b204e4), G, 15, 0x00000000, 14, 0xd8a1e681, 0xabfc7920);
    NextRegs(block, 23, Regs(0xb5b204e4, 0xabfc7920, 0x6d002f1e, 0x59a8ffda), G, 4, 0x00000000, 20, 0xe7d3fbc8, 0x47092c07);
  }

  lemma Steps32(block: Block)
    requires block == Abc()
    ensures Steps(INITIAL, block, 32) == Regs(0x790a77fb, 0x726342d3, 0xa62884aa, 0x9f47e4f8)
  {
    hide MessageWord, Abc, Steps, IsStep;
    WordsOfAbc(block);
    Arguments2();
    Steps24(block);
    NextRegs(block, 24, Regs(0x59a8ffda, 0x47092c07, 0xabfc7920, 0x6d002f1e), G, 9, 0x00000000, 5, 0x21e1cde6, 0xb7f268cf);
    NextRegs(block, 25, Regs(0x6d002f1e, 0xb7f268cf, 0x47092c07, 0xabfc7920), G, 14, 0x00000018, 9, 0xc33707d6, 0x09388eff);
    NextRegs(block, 26, Regs(0xabfc7920, 0x09388eff, 0xb7f268cf, 0x47092c07), G, 3, 0x00000000, 14, 0xf4d50d87, 0xfe1623b1);
    NextRegs(block, 27, Regs(0x47092c07, 0xfe1623b1, 0x09388eff, 0xb7f268cf), G, 8, 0x00000000, 20, 0x455a14ed, 0x786acb8f);
    NextRegs(block, 28, Regs(0xb7f268cf, 0x786acb8f, 0xfe1623b1, 0x09388eff), G, 13, 0x00000000, 5, 0xa9e3e905, 0x790a77fb);
    NextRegs(block, 29, Regs(0x09388eff, 0x790a77fb, 0x786acb8f, 0xfe1623b1), G, 2, 0x00000000, 9, 0xfcefa3f8, 0x9f47e4f8);
    NextRegs(block, 30, Regs(0xfe1623b1, 0x9f47e4f8, 0x790a77fb, 0x786acb8f), G, 7, 0x00000000, 14, 0x676f02d9, 0xa62884aa);
    NextRegs(block, 31, Regs(0x786acb8f, 0xa62884aa, 0x9f47e4f8, 0x790a77fb), G, 12, 0x00000000, 20, 0x8d2a4c8a, 0x726342d3);
  }

  lemma Steps40(block: Block)
    requires block == Abc()
    ensures Steps(INITIAL, block, 40) == Regs(0x21b117b9, 0x5a2f5ea5, 0x3575227e, 0x6e7429d5)
  {
    hide MessageWord, Abc, Steps, IsStep;
    WordsOfAbc(block);
    Arguments3();
    Steps32(block);
    NextRegs(block, 32, Regs(0x790a77fb, 0x726342d3, 0xa62884aa, 0x9f47e4f8), H, 5, 0x00000000, 4, 0xfffa3942, 0xb3707ebf);
    NextRegs(block, 33, Regs(0x9f47e4f8, 0xb3707ebf, 0x726342d3, 0xa62884aa), H, 8, 0x00000000, 11, 0x8771f681, 0x60127b2e);
    NextRegs(block, 34, Regs(0xa62884aa, 0x60127b2e, 0xb3707ebf, 0x726342d3), H, 11, 0x00000000, 16, 0x6d9d6122, 0x8d212ff5);
    NextRegs(block, 35, Regs(0x726342d3, 0x8d212ff5, 0x60127b2e, 0xb3707ebf), H, 14, 0x00000018, 23, 0xfde5380c, 0x3b0875c7);
    NextRegs(block, 36, Regs(0xb3707ebf, 0x3b0875c7, 0x8d212ff5, 0x60127b2e), H, 1, 0x00000000, 4, 0xa4beea44, 0x21b117b9);
    NextRegs(block, 37, Regs(0x60127b2e, 0x21b117b9, 0x3b0875c7, 0x8d212ff5), H, 4, 0x00000000, 11, 0x4bdecfa9, 0x6e7429d5);
    NextRegs(block, 38, Regs(0x8d212ff5, 0x6e7429d5, 0x21b117b9, 0x3b0875c7), H, 7, 0x00000000, 16, 0xf6bb4b60, 0x3575227e);
    NextRegs(block, 39, Regs(0x3b0875c7, 0x3575227e, 0x6e7429d5, 0x21b117b9), H, 10, 0x00000000, 23, 0xbebfbc70, 0x5a2f5ea5);
  }

  lemma Steps48(block: Block)
    requires block == Abc()
    ensures Steps(INITIAL, block, 48) == Regs(0x7f2e507b, 0x7beb9700, 0x8fae6399, 0x99d9679d)
  {
    hide MessageWord, Abc, Steps, IsStep;
    WordsOfAbc(block);
    Arguments3();
    Steps40(block);
    NextRegs(block, 40, Regs(0x21b117b9, 0x5a2f5ea5, 0x3575227e, 0x6e7429d5), H, 13, 0x00000000, 4, 0x289b7ec6, 0x11de1779);
    NextRegs(block, 41, Regs(0x6e7429d5, 0x11de1779, 0x5a2f5ea5, 0x3575227e), H, 0, 0x80636261, 11, 0xeaa127fa, 0xfadcaa38);
    NextRegs(block, 42, Regs(0x3575227e, 0xfadcaa38, 0x11de1779, 0x5a2f5ea5), H, 3, 0x00000000, 16, 0xd4ef3085, 0x31c465ca);
    NextRegs(block, 43, Regs(0x5a2f5ea5, 0x31c465ca, 0xfadcaa38, 0x11de1779), H, 6, 0x00000000, 23, 0x04881d05, 0x4c6124f4);
    NextRegs(block, 44, Regs(0x11de1779, 0x4c6124f4, 0x31c465ca, 0xfadcaa38), H, 9, 0x00000000, 4, 0xd9d4d039, 0x7f2e507b);
    NextRegs(block, 45, Regs(0xfadcaa38, 0x7f2e507b, 0x4c6124f4, 0x31c465ca), H, 12, 0x00000000, 11, 0xe6db99e5, 0x99d9679d);
    NextRegs(block, 46, Regs(0x31c465ca, 0x99d9679d, 0x7f2e507b, 0x4c6124f4), H, 15, 0x00000000, 16, 0x1fa27cf8, 0x8fae6399);
    NextRegs(block, 47, Regs(0x4c6124f4, 0x8fae6399, 0x99d9679d, 0x7f2e507b), H, 2, 0x00000000, 23, 0xc4ac5665, 0x7beb9700);
  }

  lemma Steps56(block: Block)
    requires block == Abc()
    ensures Steps(INITIAL, block, 56) == Regs(0x06cc5e8a, 0x3bfa2c27, 0x7d632dd0, 0x5b0d97aa)
  {
    hide MessageWord, Abc, Steps, IsStep;
    WordsOfAbc(block);
    Arguments4();
    Steps48(block);
    NextRegs(block, 48, Regs(0x7f2e507b, 0x7beb9700, 0x8fae6399, 0x99d9679d), I, 0, 0x80636261, 6, 0xf4292244, 0x7b201df8);
    NextRegs(block, 49, Regs(0x99d9679d, 0x7b201df8, 0x7beb9700, 0x8fae6399), I, 7, 0x00000000, 10, 0x432aff97, 0xf4e8e96e);
    NextRegs(block, 50, Regs(0x8fae6399, 0xf4e8e96e, 0x7b201df8, 0x7beb9700), I, 14, 0x00000018, 15, 0xab9423a7, 0xb298cefd);
    NextRegs(block, 51, Regs(0x7beb9700, 0xb298cefd, 0xf4e8e96e, 0x7b201df8), I, 5, 0x00000000, 21, 0xfc93a039, 0x8bf025c4);
    NextRegs(block, 52, Regs(0x7b201df8, 0x8bf025c4, 0xb298cefd, 0xf4e8e96e), I, 12, 0x00000000, 6, 0x655b59c3, 0x06cc5e8a);
    NextRegs(block, 53, Regs(0xf4e8e96e, 0x06cc5e8a, 0x8bf025c4, 0xb298cefd), I, 3, 0x00000000, 10, 0x8f0ccc92, 0x5b0d97aa);
    NextRegs(block, 54, Regs(0xb298cefd, 0x5b0d97aa, 0x06cc5e8a, 0x8bf025c4), I, 10, 0x00000000, 15, 0xffeff47d, 0x7d632dd0);
    NextRegs(block, 55, Regs(0x8bf025c4, 0x7d632dd0, 0x5b0d97aa, 0x06cc5e8a), I, 1, 0x00000000, 21, 0x85845dd1, 0x3bfa2c27);
  }

  lemma Steps64(block: Block)
    requires block == Abc()
    ensures Steps(INITIAL, block, 64) == Regs(0x310ade8f, 0xc08226b3, 0xe484b9d8, 0x624d8cb2)
  {
    hide MessageWord, Abc, Steps, IsStep;
    WordsOfAbc(block);
    Arguments4();
    Steps56(block);
    NextRegs(block, 56, Regs(0x06cc5e8a, 0x3bfa2c27, 0x7d632dd0, 0x5b0d97aa), I, 8, 0x00000000, 6, 0x6fa87e4f, 0x7f81cc35);
    NextRegs(block, 57, Regs(0x5b0d97aa, 0x7f81cc35, 0x3bfa2c27, 0x7d632dd0), I, 15, 0x00000000, 10, 0xfe2ce6e0, 0x094454ab);
    NextRegs(block, 58, Regs(0x7d632dd0, 0x094454ab, 0x7f81cc35, 0x3bfa2c27), I, 6, 0x00000000, 15, 0xa3014314, 0x4f9dbe3f);
    NextRegs(block, 59, Regs(0x3bfa2c27, 0x4f9dbe3f, 0x094454ab, 0x7f81cc35), I, 13, 0x00000000, 21, 0x4e0811a1, 0x7327d604);
    NextRegs(block, 60, Regs(0x7f81cc35, 0x7327d604, 0x4f9dbe3f, 0x094454ab), I, 4, 0x00000000, 6, 0xf7537e82, 0x310ade8f);
    NextRegs(block, 61, Regs(0x094454ab, 0x310ade8f, 0x7327d604, 0x4f9dbe3f), I, 11, 0x00000000, 10, 0xbd3af235, 0x624d8cb2);
    NextRegs(block, 62, Regs(0x4f9dbe3f, 0x624d8cb2, 0x310ade8f, 0x7327d604), I, 2, 0x00000000, 15, 0x2ad7d2bb, 0xe484b9d8);
    NextRegs(block, 63, Regs(0x7327d604, 0xe484b9d8, 0x624d8cb2, 0x310ade8f), I, 9, 0x00000000, 21, 0xeb86d391, 0xc08226b3);
  }

  lemma PaddedAbc()
    ensures [0x61, 0x62, 0x63] + Pad(3) + LengthField(3) == Abc()
  {
    KnownLength();
    assert Pad(3) == [0x80] + Zeros(52);
  }

  lemma KnownLength()
    ensures LengthField(3) == [0x18] + Zeros(7)
  {
    assert LeBytes(0, 1) == [0];
    assert LeBytes(0, 3) == [0, 0, 0];
    assert LeBytes(0, 5) == [0, 0, 0, 0, 0];
    assert LeBytes(0, 7) == [0, 0, 0, 0, 0, 0, 0];
  }

  lemma CompressAbc(block: Block)
    requires block == Abc()
    ensures Compress(INITIAL, block) == [0x98500190, 0xb04fd23c, 0x7d3f96d6, 0x727fe128]
  {
    hide Steps, Abc;
    Steps64(block);
  }

  lemma AbsorbAbc()
    ensures Absorb(Compress, INITIAL, Abc()) == Compress(INITIAL, Abc())
  {
    hide Compress, Abc;
    assert Abc()[..0] == [] && Abc()[0..] == Abc();
  }

  /** The digest of "abc". */
  lemma HashAbc()
    ensures Hash([0x61, 0x62, 0x63]) == [
      0x90, 0x01, 0x50, 0x98, 0x3c, 0xd2, 0x4f, 0xb0, 0xd6, 0x96, 0x3f, 0x7d, 0x28, 0xe1, 0x7f, 0x72
    ]
  {
    hide Compress, Abc, StateBytes, Pad, LengthField;
    PaddedAbc();
    CompressAbc(Abc());
    AbsorbAbc();
    DigestAbc(Compress(INITIAL, Abc()));
  }

  lemma DigestAbc(s: State)
    requires s == [0x98500190, 0xb04fd23c, 0x7d3f96d6, 0x727fe128]
    ensures StateBytes(s) == [
      0x90, 0x01, 0x50, 0x98, 0x3c, 0xd2, 0x4f, 0xb0, 0xd6, 0x96, 0x3f, 0x7d, 0x28, 0xe1, 0x7f, 0x72
    ]
  {
    hide WordBytes, StateBytes;
    FourWords(s);
    FirstHalf();
    SecondHalf();
    assert [0x90, 0x01, 0x50, 0x98, 0x3c, 0xd2, 0x4f, 0xb0] + [0xd6, 0x96, 0x3f, 0x7d, 0x28, 0xe1, 0x7f, 0x72] == [0x90, 0x01, 0x50, 0x98, 0x3c, 0xd2, 0x4f, 0xb0, 0xd6, 0x96, 0x3f, 0x7d, 0x28, 0xe1, 0x7f, 0x72];
  }

  lemma FourWords(s: State)
    ensures StateBytes(s) == (WordBytes(s[0]) + WordBytes(s[1])) + (WordBytes(s[2]) + WordBytes(s[3]))
  {
    hide WordBytes, StateBytes;
    assert s[..4] == s && s[..0] == [];
    NoWords();
    NextWord(s, 0);
    NextWord(s, 1);
    NextWord(s, 2);
    NextWord(s, 3);
  }

  lemma NextWord(s: State, n: nat)
    requires n < 4
    ensures StateBytes(s[..n + 1]) == StateBytes(s[..n]) + WordBytes(s[n])
  {
    hide WordBytes;
    assert s[..n + 1][..n] == s[..n];
  }

  lemma NoWords()
    ensures StateBytes([]) == []
  {
  }

  /** The bytes of a word are those it was read from. */
  lemma WordRoundTrip(b: seq<byte>)
    requires |b| == 4
    ensures WordBytes(LittleEndianWord(b)) == b
  {
    hide FromByte, LowByte, Joined, Down, Room;
    var w0 := FromByte(b[3]);
    ByteRoom(b[3]);
    JoinedBack(w0, b[2], 3);
    JoinedBack(Joined(w0, b[2]), b[1], 2);
    JoinedBack(Joined(Joined(w0, b[2]), b[1]), b[0], 1);
  }

  /** The number of a word is the value of its bytes, and so is that of a word read from a block. */
  lemma WordBytesValue(w: bv32)
    ensures |WordBytes(w)| == 4 && LeWord(WordBytes(w)) == Number(w)
  {
    hide LowByte, Down, Number;
    NumberOfBytes(w);
    FourBytes(LowByte(w), LowByte(Down(w)), LowByte(Down(Down(w))), LowByte(Down(Down(Down(w)))));
  }

  lemma FourBytes(a: byte, b: byte, c: byte, d: byte)
    ensures LeWord([a, b, c, d]) == a as int + 0x100 * (b as int) + 0x1_0000 * (c as int) + 0x100_0000 * (d as int)
  {
    assert [a, b, c, d][1..] == [b, c, d];
    assert [b, c, d][1..] == [c, d];
    assert [c, d][1..] == [d];
    assert LeValue([d]) == d;
    assert LeValue([c, d]) == c + 256 * LeValue([d]);
    assert LeValue([b, c, d]) == b + 256 * LeValue([c, d]);
  }

  lemma LittleEndianValue(b: seq<byte>)
    requires |b| == 4
    ensures Number(LittleEndianWord(b)) == LeWord(b)
  {
    hide LittleEndianWord, WordBytes, Number, LeWord;
    WordRoundTrip(b);
    WordBytesValue(LittleEndianWord(b));
  }

  lemma WordIs(b: seq<byte>, w: bv32)
    requires |b| == 4 && LittleEndianWord(b) == w
    ensures WordBytes(w) == b
  {
    hide LittleEndianWord, WordBytes;
    WordRoundTrip(b);
  }

  lemma FirstHalf()
    ensures WordBytes(0x98500190) + WordBytes(0xb04fd23c) == [0x90, 0x01, 0x50, 0x98, 0x3c, 0xd2, 0x4f, 0xb0]
  {
    hide WordBytes;
    Word1();
    Word2();
    assert [0x90, 0x01, 0x50, 0x98] + [0x3c, 0xd2, 0x4f, 0xb0] == [0x90, 0x01, 0x50, 0x98, 0x3c, 0xd2, 0x4f, 0xb0];
  }

  lemma SecondHalf()
    ensures WordBytes(0x7d3f96d6) + WordBytes(0x727fe128) == [0xd6, 0x96, 0x3f, 0x7d, 0x28, 0xe1, 0x7f, 0x72]
  {
    hide WordBytes;
    Word3();
    Word4();
    assert [0xd6, 0x96, 0x3f, 0x7d] + [0x28, 0xe1, 0x7f, 0x72] == [0xd6, 0x96, 0x3f, 0x7d, 0x28, 0xe1, 0x7f, 0x72];
  }

  lemma Word1()
    ensures WordBytes(0x98500190) == [0x90, 0x01, 0x50, 0x98]
  {
    hide WordBytes, LittleEndianWord;
    Read1();
    WordIs([0x90, 0x01, 0x50, 0x98], 0x98500190);
  }

  lemma Read1()
    ensures LittleEndianWord([0x90, 0x01, 0x50, 0x98]) == 0x98500190
  {
  }

  lemma Word2()
    ensures WordBytes(0xb04fd23c) == [0x3c, 0xd2, 0x4f, 0xb0]
  {
    hide WordBytes, LittleEndianWord;
    Read2();
    WordIs([0x3c, 0xd2, 0x4f, 0xb0], 0xb04fd23c);
  }

  lemma Read2()
    ensures LittleEndianWord([0x3c, 0xd2, 0x4f, 0xb0]) == 0xb04fd23c
  {
  }

  lemma Word3()
    ensures WordBytes(0x7d3f96d6) == [0xd6, 0x96, 0x3f, 0x7d]
  {
    hide WordBytes, LittleEndianWord;
    Read3();
    WordIs([0xd6, 0x96, 0x3f, 0x7d], 0x7d3f96d6);
  }

  lemma Read3()
    ensures LittleEndianWord([0xd6, 0x96, 0x3f, 0x7d]) == 0x7d3f96d6
  {
  }

  lemma Word4()
    ensures WordBytes(0x727fe128) == [0x28, 0xe1, 0x7f, 0x72]
  {
    hide WordBytes, LittleEndianWord;
    Read4();
    WordIs([0x28, 0xe1, 0x7f, 0x72], 0x727fe128);
  }

  lemma Read4()
    ensures LittleEndianWord([0x28, 0xe1, 0x7f, 0x72]) == 0x727fe128
  {
  }
}
